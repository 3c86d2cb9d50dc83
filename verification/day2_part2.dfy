/**
 * Cube games (day 2, part 2): the fewest cubes of each colour that make a game
 * possible, and the sum over games of the product of those counts.
 */
module Day2Part2 {
  import opened Common
  import opened Day2Part1

  /** Whether some draw of the game shows colour `c`. */
  predicate Drawn(draws: seq<Draw>, c: Color)
  {
    exists k :: 0 <= k < |draws| && draws[k].color == c
  }

  /** getMinimumCubeSet: fold over the draws keeping, per colour, the largest count seen. */
  function MinimumCubeSet(draws: seq<Draw>): map<Color, nat>
  {
    if |draws| == 0 then map[]
    else
      var m := MinimumCubeSet(draws[..|draws| - 1]);
      var d := draws[|draws| - 1];
      m[d.color := if d.color in m then Max(m[d.color], d.count) else d.count]
  }

  /**
   * Each drawn colour maps to the largest count drawn for it (every draw is at
   * most that value and some draw reaches it); colours never drawn are absent.
   */
  lemma MinimumCubeSetMeaning(draws: seq<Draw>)
    ensures forall c :: c in MinimumCubeSet(draws) <==> Drawn(draws, c)
    ensures forall k :: 0 <= k < |draws| ==>
      draws[k].color in MinimumCubeSet(draws) && draws[k].count <= MinimumCubeSet(draws)[draws[k].color]
    ensures forall c :: c in MinimumCubeSet(draws) ==>
      exists k :: 0 <= k < |draws| && draws[k].color == c && draws[k].count == MinimumCubeSet(draws)[c]
  {
    MinimumKeys(draws);
    MinimumBounds(draws);
    MinimumReached(draws);
  }

  lemma {:induction false} MinimumKeys(draws: seq<Draw>)
    ensures forall c :: c in MinimumCubeSet(draws) <==> Drawn(draws, c)
  {
    if |draws| > 0 {
      var init := draws[..|draws| - 1];
      var d := draws[|draws| - 1];
      MinimumKeys(init);
      var m := MinimumCubeSet(init);
      var m' := MinimumCubeSet(draws);
      forall c
        ensures c in m' <==> Drawn(draws, c)
      {
        if Drawn(draws, c) && c != d.color {
          var k :| 0 <= k < |draws| && draws[k].color == c;
          assert init[k].color == c;
        }
        if c in m && c != d.color {
          var k :| 0 <= k < |init| && init[k].color == c;
          assert draws[k].color == c;
        }
        if c == d.color {
          assert draws[|draws| - 1].color == c;
        }
      }
    }
  }

  lemma {:induction false} MinimumBounds(draws: seq<Draw>)
    ensures forall k :: 0 <= k < |draws| ==>
      draws[k].color in MinimumCubeSet(draws) && draws[k].count <= MinimumCubeSet(draws)[draws[k].color]
  {
    if |draws| > 0 {
      var init := draws[..|draws| - 1];
      MinimumBounds(init);
      assert forall k :: 0 <= k < |init| ==> draws[k] == init[k];
    }
  }

  lemma {:induction false} MinimumReached(draws: seq<Draw>)
    ensures forall c :: c in MinimumCubeSet(draws) ==>
      exists k :: 0 <= k < |draws| && draws[k].color == c && draws[k].count == MinimumCubeSet(draws)[c]
  {
    if |draws| > 0 {
      var init := draws[..|draws| - 1];
      var d := draws[|draws| - 1];
      MinimumReached(init);
      var m := MinimumCubeSet(init);
      var m' := MinimumCubeSet(draws);
      forall c | c in m'
        ensures exists k :: 0 <= k < |draws| && draws[k].color == c && draws[k].count == m'[c]
      {
        if c == d.color && (c !in m || m'[c] == d.count) {
          assert draws[|draws| - 1].color == c && draws[|draws| - 1].count == m'[c];
        } else {
          var k :| 0 <= k < |init| && init[k].color == c && init[k].count == m[c];
          assert draws[k].color == c && draws[k].count == m'[c];
        }
      }
    }
  }

  /** array_product over the set, in colour order; the empty set gives 1. */
  function CubeProduct(m: map<Color, nat>): (p: int)
    ensures p >= 0
  {
    var r: nat := if Red in m then m[Red] else 1;
    var g: nat := if Green in m then m[Green] else 1;
    var b: nat := if Blue in m then m[Blue] else 1;
    var rg: nat := r * g;
    rg * b
  }

  /** Limits that admit exactly the cubes of a minimum set (an absent colour admits none). */
  function AsLimits(m: map<Color, nat>): Limits
  {
    Limits(if Red in m then m[Red] else 0, if Green in m then m[Green] else 0, if Blue in m then m[Blue] else 0)
  }

  /**
   * The minimum set is the least bag the game is possible with: it is possible
   * under the set itself, and under given limits iff every limit covers the set.
   */
  lemma MinimumCubeSetIsLeast(game: Game, limits: Limits)
    ensures Possible(game, AsLimits(MinimumCubeSet(game.draws)))
    ensures Possible(game, limits) <==>
      forall c :: c in MinimumCubeSet(game.draws) ==> MinimumCubeSet(game.draws)[c] <= limits.Of(c)
  {
    var m := MinimumCubeSet(game.draws);
    MinimumCubeSetMeaning(game.draws);
    forall k | 0 <= k < |game.draws|
      ensures game.draws[k].count <= AsLimits(m).Of(game.draws[k].color)
    {
      assert game.draws[k].color in m;
    }
    if Possible(game, limits) {
      forall c | c in m
        ensures m[c] <= limits.Of(c)
      {
        var k :| 0 <= k < |game.draws| && game.draws[k].color == c && game.draws[k].count == m[c];
      }
    }
  }

  /** The power of a game is positive exactly when no drawn colour's maximum is zero. */
  lemma CubeProductPositive(m: map<Color, nat>)
    ensures CubeProduct(m) > 0 <==> forall c :: c in m ==> m[c] > 0
  {
    var r: nat := if Red in m then m[Red] else 1;
    var g: nat := if Green in m then m[Green] else 1;
    var b: nat := if Blue in m then m[Blue] else 1;
    assert CubeProduct(m) == r * g * b;
    if r > 0 && g > 0 && b > 0 {
      assert r * g > 0;
      assert r * g * b > 0;
    }
    if (Red in m && m[Red] == 0) || (Green in m && m[Green] == 0) || (Blue in m && m[Blue] == 0) {
      assert r == 0 || g == 0 || b == 0;
      assert r * g * b == 0;
    }
    forall c | c in m
      ensures CubeProduct(m) > 0 ==> m[c] > 0
    {
      match c
      case Red =>
      case Green =>
      case Blue =>
    }
  }

  /** The power of one game. */
  function Power(game: Game): int
  {
    CubeProduct(MinimumCubeSet(game.draws))
  }

  function Powers(games: seq<Game>): (ps: seq<int>)
  {
    seq(|games|, i requires 0 <= i < |games| => Power(games[i]))
  }

  /** The summing loop of processGameFile. */
  method ProcessGames(games: seq<Game>) returns (total: int)
    ensures total == Sum(Powers(games))
    ensures total >= 0
  {
    total := 0;
    var n := 0;
    while n < |games|
      invariant 0 <= n <= |games|
      invariant total == Sum(Powers(games)[..n])
      invariant total >= 0
    {
      var p := Power(games[n]);
      assert Powers(games)[..n + 1] == Powers(games)[..n] + [p];
      SumAppend(Powers(games)[..n], p);
      total := total + p;
      n := n + 1;
    }
    assert Powers(games)[..n] == Powers(games);
  }
}
