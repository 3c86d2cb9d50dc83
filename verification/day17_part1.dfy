/**
 * Clumsy crucible (day 17, part 1): the least heat loss from the top-left
 * to the bottom-right block of a square map when the crucible moves at most
 * three blocks in one direction before turning, and never reverses.
 *
 * A state is a block, the direction of the last move and how many moves in
 * a row went that way. The search itself is `Day17Search.Search`; this
 * module supplies the seeds, the successors and the goal of the script.
 * Heat-loss digits are given already converted to numbers.
 */
module Day17Part1 {
  import opened Common
  import opened Day17Search

  /** The heat-loss map, one row per line. */
  type Map = seq<seq<nat>>

  /** A crucible state: its block, the direction of its last move and the length of the current run. */
  datatype Crucible = Crucible(row: int, col: int, dr: int, dc: int, run: int)

  /** The four directions in the order the script tries them: east, west, south, north. */
  const Dirs: seq<(int, int)> := [(0, 1), (0, -1), (1, 0), (-1, 0)]

  /**
   * The heat lost entering a block. A row too short to reach the column has
   * no value there, and PHP adds a missing value as 0.
   */
  function Cell(m: Map, r: int, c: int): nat
  {
    if 0 <= r < |m| && 0 <= c < |m[r]| then m[r][c] else 0
  }

  /** `isWithinMatrixLimits`: both coordinates inside the square whose side is the number of rows. */
  predicate InLimits(n: int, r: int, c: int)
  {
    0 <= r < n && 0 <= c < n
  }

  /** `shouldEnqueueDirection`: the new direction is neither the current one nor its reverse. */
  predicate ShouldTurn(dr: int, dc: int, d: (int, int))
  {
    d != (dr, dc) && d != (-dr, -dc)
  }

  /** `enqueueIfValid`: the entry for entering block (r, c), or nothing when it is off the map. */
  function Enqueue(m: Map, r: int, c: int, dr: int, dc: int, run: int): (es: seq<(Crucible, nat)>)
    ensures |es| <= 1
    ensures |es| == 1 <==> InLimits(|m|, r, c)
    ensures |es| == 1 ==> es[0] == (Crucible(r, c, dr, dc, run), Cell(m, r, c))
  {
    if InLimits(|m|, r, c) then [(Crucible(r, c, dr, dc, run), Cell(m, r, c))] else []
  }

  /** The entry for continuing straight: only while the run is shorter than three. */
  function Straight(m: Map, s: Crucible): seq<(Crucible, nat)>
  {
    if s.run < 3 then Enqueue(m, s.row + s.dr, s.col + s.dc, s.dr, s.dc, s.run + 1) else []
  }

  /** The turn entry in direction `d`, when `d` is a turn. */
  function Turn(m: Map, s: Crucible, d: (int, int)): seq<(Crucible, nat)>
  {
    if ShouldTurn(s.dr, s.dc, d) then Enqueue(m, s.row + d.0, s.col + d.1, d.0, d.1, 1) else []
  }

  /** The turn entries over the directions `ds`, in order. */
  function Turns(m: Map, s: Crucible, ds: seq<(int, int)>): (es: seq<(Crucible, nat)>)
    ensures forall t :: t in es <==> exists k :: 0 <= k < |ds| && t in Turn(m, s, ds[k])
  {
    if |ds| == 0 then []
    else
      var rest := Turns(m, s, ds[1..]);
      assert forall k :: 0 <= k < |ds| - 1 ==> ds[1..][k] == ds[k + 1];
      Turn(m, s, ds[0]) + rest
  }

  /** `processCurrentState`: the straight entry first, then a turn entry per direction. */
  function Successors(m: Map, s: Crucible): seq<(Crucible, nat)>
  {
    Straight(m, s) + Turns(m, s, Dirs)
  }

  /** The successor relation as a function, as the search takes it. */
  function Succ(m: Map): Crucible -> seq<(Crucible, nat)>
  {
    (s: Crucible) => Successors(m, s)
  }

  /** `getInitialStates`: the blocks right of and below the source, each one move into its run. */
  function Seeds(m: Map): seq<(Crucible, nat)>
    requires |m| > 1 && |m[0]| > 1 && |m[1]| > 0
  {
    [(Crucible(0, 1, 0, 1, 1), m[0][1]), (Crucible(1, 0, 1, 0, 1), m[1][0])]
  }

  /** The destination test: the bottom-right block of the square, whatever the direction and run. */
  function Goal(m: Map): Crucible -> bool
  {
    (s: Crucible) => s.row == |m| - 1 && s.col == |m| - 1
  }

  /** Entry `t` goes straight on from `s`: one block further, the run one longer, only from a run shorter than three. */
  predicate StraightMove(m: Map, s: Crucible, t: (Crucible, nat))
  {
    var r, c := s.row + s.dr, s.col + s.dc;
    s.run < 3 && InLimits(|m|, r, c) && t == (Crucible(r, c, s.dr, s.dc, s.run + 1), Cell(m, r, c))
  }

  /** Entry `t` turns from `s` into direction `d`: neither the current one nor its reverse, one block, a run of one. */
  predicate TurnMove(m: Map, s: Crucible, d: (int, int), t: (Crucible, nat))
  {
    var r, c := s.row + d.0, s.col + d.1;
    ShouldTurn(s.dr, s.dc, d) && InLimits(|m|, r, c) && t == (Crucible(r, c, d.0, d.1, 1), Cell(m, r, c))
  }

  /**
   * The successors are exactly the straight move and the turns into the
   * four directions that stay on the map; each costs the heat of the block
   * entered.
   */
  lemma SuccessorsSpec(m: Map, s: Crucible, t: (Crucible, nat))
    ensures t in Successors(m, s) <==> StraightMove(m, s, t) || exists k :: 0 <= k < 4 && TurnMove(m, s, Dirs[k], t)
  {
  }

  /** A state the search can meet: inside the map, moving in one of the four directions, with a run of one to three. */
  predicate Valid(n: int, s: Crucible)
  {
    InLimits(n, s.row, s.col) && (s.dr, s.dc) in Dirs && 1 <= s.run <= 3
  }

  /** Every valid state of an `n` by `n` map. */
  ghost function Universe(n: nat): (u: set<Crucible>)
    ensures forall s :: s in u <==> Valid(n, s)
  {
    var u := set r: int, c: int, dr: int, dc: int, run: int
      | 0 <= r < n && 0 <= c < n && -1 <= dr <= 1 && -1 <= dc <= 1 && 1 <= run <= 3 && (dr, dc) in Dirs
      :: Crucible(r, c, dr, dc, run);
    assert forall s :: Valid(n, s) ==> s in u by {
      forall s | Valid(n, s)
        ensures s in u
      {
        assert -1 <= s.dr <= 1 && -1 <= s.dc <= 1;
      }
    }
    u
  }

  /** The successors of a valid state are valid. */
  lemma SuccessorsValid(m: Map, s: Crucible, t: (Crucible, nat))
    requires Valid(|m|, s) && t in Successors(m, s)
    ensures Valid(|m|, t.0)
  {
    SuccessorsSpec(m, s, t);
  }

  /** The seeds are valid and the valid states are closed under the successor relation. */
  lemma UniverseClosed(m: Map)
    requires |m| > 1 && |m[0]| > 1 && |m[1]| > 0
    ensures forall i :: 0 <= i < |Seeds(m)| ==> Seeds(m)[i].0 in Universe(|m|)
    ensures forall s, t :: s in Universe(|m|) && t in Succ(m)(s) ==> t.0 in Universe(|m|)
  {
    forall s, t | s in Universe(|m|) && t in Succ(m)(s)
      ensures t.0 in Universe(|m|)
    {
      SuccessorsValid(m, s, t);
    }
  }

  /** No state along a walk leaves the map or runs more than three blocks in one direction. */
  lemma WalksValid(m: Map, w: seq<(Crucible, nat)>, i: nat)
    requires |m| > 1 && |m[0]| > 1 && |m[1]| > 0
    requires IsWalk(Seeds(m), Succ(m), w) && i < |w|
    ensures InLimits(|m|, w[i].0.row, w[i].0.col) && 1 <= w[i].0.run <= 3
  {
    UniverseClosed(m);
    WalkStaysIn(Seeds(m), Succ(m), Universe(|m|), w, i);
  }

  /**
   * `calcualteHeatLoss`: the least heat loss over the walks from the seeds
   * that end on the bottom-right block, or nothing (the script's `null`)
   * when no walk gets there.
   */
  method HeatLoss(m: Map) returns (r: Option<nat>)
    requires |m| > 1 && |m[0]| > 1 && |m[1]| > 0
    ensures r.Some? <==> exists w :: GoalWalk(Seeds(m), Succ(m), Goal(m), w)
    ensures r.Some? ==> Answer(Seeds(m), Succ(m), Goal(m), r.value)
  {
    UniverseClosed(m);
    r := Search(Seeds(m), Succ(m), Goal(m), Universe(|m|), false);
  }
}
