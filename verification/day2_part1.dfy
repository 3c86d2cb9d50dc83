/**
 * Cube games (day 2, part 1): a game is possible when no draw shows more cubes
 * of a colour than the bag holds; the answer sums the IDs of possible games.
 */
module Day2Part1 {
  import opened Common

  /** Only red, green and blue draws are extracted from a game line. */
  datatype Color = Red | Green | Blue

  /** One "<count> <colour>" entry of a round. */
  datatype Draw = Draw(count: nat, color: Color)

  datatype Game = Game(id: int, draws: seq<Draw>)

  /** The bag's content, one limit per colour. */
  datatype Limits = Limits(red: int, green: int, blue: int)
  {
    function Of(c: Color): int
    {
      match c
      case Red => red
      case Green => green
      case Blue => blue
    }
  }

  /** The limits of the puzzle: 12 red, 13 green, 14 blue. */
  const PuzzleLimits := Limits(12, 13, 14)

  /** The property isGamePossible decides: no draw exceeds its colour's limit. */
  predicate Possible(game: Game, limits: Limits)
  {
    forall k :: 0 <= k < |game.draws| ==> game.draws[k].count <= limits.Of(game.draws[k].color)
  }

  /** The early-returning scan of isGamePossible. */
  method IsGamePossible(game: Game, limits: Limits) returns (possible: bool)
    ensures possible <==> forall k :: 0 <= k < |game.draws| ==> game.draws[k].count <= limits.Of(game.draws[k].color)
  {
    var k := 0;
    while k < |game.draws|
      invariant 0 <= k <= |game.draws|
      invariant forall m :: 0 <= m < k ==> game.draws[m].count <= limits.Of(game.draws[m].color)
    {
      if game.draws[k].count > limits.Of(game.draws[k].color) {
        return false;
      }
      k := k + 1;
    }
    return true;
  }

  /** A game without draws is possible under any limits. */
  lemma EmptyGamePossible(id: int, limits: Limits)
    ensures Possible(Game(id, []), limits)
  {
  }

  /** Raising any limit never turns a possible game into an impossible one. */
  lemma PossibleMonotone(game: Game, lo: Limits, hi: Limits)
    requires lo.red <= hi.red && lo.green <= hi.green && lo.blue <= hi.blue
    requires Possible(game, lo)
    ensures Possible(game, hi)
  {
    forall k | 0 <= k < |game.draws|
      ensures game.draws[k].count <= hi.Of(game.draws[k].color)
    {
      assert game.draws[k].count <= lo.Of(game.draws[k].color);
    }
  }

  /** The IDs getGameIds adds: those of possible games, in input order. */
  function PossibleIds(games: seq<Game>, limits: Limits): (ids: seq<int>)
    ensures |ids| <= |games|
  {
    if |games| == 0 then []
    else
      var rest := PossibleIds(games[..|games| - 1], limits);
      var g := games[|games| - 1];
      if Possible(g, limits) then rest + [g.id] else rest
  }

  /** An ID is summed exactly when some possible game carries it. */
  lemma {:induction false} PossibleIdsMembers(games: seq<Game>, limits: Limits)
    ensures forall x :: x in PossibleIds(games, limits) <==>
      exists k :: 0 <= k < |games| && games[k].id == x && Possible(games[k], limits)
  {
    if |games| > 0 {
      var init := games[..|games| - 1];
      PossibleIdsMembers(init, limits);
      forall x
        ensures x in PossibleIds(games, limits) <==>
          exists k :: 0 <= k < |games| && games[k].id == x && Possible(games[k], limits)
      {
        if x in PossibleIds(games, limits) && x !in PossibleIds(init, limits) {
          assert games[|games| - 1].id == x;
        }
        if exists k :: 0 <= k < |init| && init[k].id == x && Possible(init[k], limits) {
          var k :| 0 <= k < |init| && init[k].id == x && Possible(init[k], limits);
          assert games[k] == init[k];
        }
      }
    }
  }

  /** The summing loop of getGameIds. */
  method GetGameIds(games: seq<Game>, limits: Limits) returns (total: int)
    ensures total == Sum(PossibleIds(games, limits))
  {
    total := 0;
    var n := 0;
    while n < |games|
      invariant 0 <= n <= |games|
      invariant total == Sum(PossibleIds(games[..n], limits))
    {
      var before := PossibleIds(games[..n], limits);
      assert games[..n + 1][..n] == games[..n];
      assert PossibleIds(games[..n + 1], limits) ==
        if Possible(games[n], limits) then before + [games[n].id] else before;
      var possible := IsGamePossible(games[n], limits);
      assert possible == Possible(games[n], limits);
      if possible {
        SumAppend(before, games[n].id);
        total := total + games[n].id;
      }
      n := n + 1;
    }
    assert games[..n] == games;
  }
}
