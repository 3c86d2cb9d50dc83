/**
 * Ultra crucible (day 17, part 2): the least heat loss from the top-left
 * to the bottom-right block when the crucible must move at least four and
 * at most ten blocks in one direction.
 *
 * The script enforces the minimum by making every turn commit four blocks
 * at once, and the maximum by going straight only while fewer than ten
 * moves were made in the current direction. A state is a block, an index
 * into the four directions and the number of moves made in that direction.
 * The search is `Day17Search.Search` with the expanded-state check before
 * the goal test.
 */
module Day17Part2 {
  import opened Common
  import opened Day17Search
  import P1 = Day17Part1

  /** An ultra crucible state: its block, its direction index and the moves made in that direction. */
  datatype Ultra = Ultra(row: int, col: int, dir: int, moves: int)

  /** The four directions by index: north, east, south, west. */
  const Dirs: seq<(int, int)> := [(-1, 0), (0, 1), (1, 0), (0, -1)]

  /** The offset of direction `i`; an index outside the table reads as PHP's `null`, which adds as 0. */
  function Offset(i: int): (int, int)
  {
    if 0 <= i < 4 then Dirs[i] else (0, 0)
  }

  /** The direction index after turning right. */
  function Right(dir: int): int
  {
    PhpMod(dir + 1, 4)
  }

  /** The direction index after turning left. */
  function Left(dir: int): int
  {
    PhpMod(dir - 1 + 4, 4)
  }

  /** `inLimits`: the row within the rows and the column within the first row's length. */
  predicate InLimits(m: P1.Map, r: int, c: int)
    requires |m| > 0
  {
    0 <= r < |m| && 0 <= c < |m[0]|
  }

  /**
   * The loop of `moveLeft` and `moveRight`: the heat lost entering the `k`
   * blocks after (r, c) along `d`, or nothing as soon as one of them is off
   * the map.
   */
  function Slide(m: P1.Map, r: int, c: int, d: (int, int), k: nat): Option<nat>
    requires |m| > 0
    decreases k
  {
    if k == 0 then Some(0)
    else if !InLimits(m, r + d.0, c + d.1) then None
    else match Slide(m, r + d.0, c + d.1, d, k - 1)
      case None => None
      case Some(h) => Some(P1.Cell(m, r + d.0, c + d.1) + h)
  }

  /** `moveLeft` / `moveRight` into direction `nd`: four blocks at once, starting a run of four. */
  function Turn(m: P1.Map, s: Ultra, nd: int): seq<(Ultra, nat)>
    requires |m| > 0
  {
    var d := Offset(nd);
    match Slide(m, s.row, s.col, d, 4)
    case None => []
    case Some(h) => [(Ultra(s.row + 4 * d.0, s.col + 4 * d.1, nd, 4), h)]
  }

  /** `moveStraight`: one block on, only while at most nine moves were made in this direction. */
  function Straight(m: P1.Map, s: Ultra): seq<(Ultra, nat)>
    requires |m| > 0
  {
    var d := Offset(s.dir);
    var r, c := s.row + d.0, s.col + d.1;
    if s.moves <= 9 && InLimits(m, r, c) then [(Ultra(r, c, s.dir, s.moves + 1), P1.Cell(m, r, c))] else []
  }

  /** The entries queued on expanding `s`: left turn, right turn, then straight on. */
  function Successors(m: P1.Map, s: Ultra): seq<(Ultra, nat)>
    requires |m| > 0
  {
    Turn(m, s, Left(s.dir)) + Turn(m, s, Right(s.dir)) + Straight(m, s)
  }

  /** The successor relation as a function, as the search takes it. */
  function Succ(m: P1.Map): Ultra -> seq<(Ultra, nat)>
    requires |m| > 0
  {
    (s: Ultra) => Successors(m, s)
  }

  /** The two seeds at the top-left block, facing west and north, with no moves and no heat lost. */
  function Seeds(): seq<(Ultra, nat)>
  {
    [(Ultra(0, 0, 3, 0), 0), (Ultra(0, 0, 0, 0), 0)]
  }

  /** The destination test: the last row, at the first row's last column. */
  function Goal(m: P1.Map): Ultra -> bool
    requires |m| > 0
  {
    (s: Ultra) => s.row == |m| - 1 && s.col == |m[0]| - 1
  }

  /** A right turn and a left turn are quarter turns in opposite senses, and undo each other. */
  lemma TurnsSpec(dir: int)
    requires 0 <= dir < 4
    ensures 0 <= Right(dir) < 4 && 0 <= Left(dir) < 4
    ensures Offset(Right(dir)) == (Offset(dir).1, -Offset(dir).0)
    ensures Offset(Left(dir)) == (-Offset(dir).1, Offset(dir).0)
    ensures Left(Right(dir)) == dir && Right(Left(dir)) == dir
  {
  }

  /**
   * Entry `t` turns from `s` into direction `nd`: the four blocks along the
   * new direction are on the map, the crucible ends on the fourth with a run
   * of four, and the heat lost is that of all four blocks.
   */
  predicate TurnMove(m: P1.Map, s: Ultra, nd: int, t: (Ultra, nat))
    requires |m| > 0
  {
    var d := Offset(nd);
    && InLimits(m, s.row + d.0, s.col + d.1)
    && InLimits(m, s.row + 2 * d.0, s.col + 2 * d.1)
    && InLimits(m, s.row + 3 * d.0, s.col + 3 * d.1)
    && InLimits(m, s.row + 4 * d.0, s.col + 4 * d.1)
    && t == (Ultra(s.row + 4 * d.0, s.col + 4 * d.1, nd, 4),
             P1.Cell(m, s.row + d.0, s.col + d.1) + P1.Cell(m, s.row + 2 * d.0, s.col + 2 * d.1)
             + P1.Cell(m, s.row + 3 * d.0, s.col + 3 * d.1) + P1.Cell(m, s.row + 4 * d.0, s.col + 4 * d.1))
  }

  /** Entry `t` goes straight on from `s`: one block on the map, one more move, from at most nine. */
  predicate StraightMove(m: P1.Map, s: Ultra, t: (Ultra, nat))
    requires |m| > 0
  {
    var d := Offset(s.dir);
    s.moves <= 9 && InLimits(m, s.row + d.0, s.col + d.1)
    && t == (Ultra(s.row + d.0, s.col + d.1, s.dir, s.moves + 1), P1.Cell(m, s.row + d.0, s.col + d.1))
  }

  /** Sliding four blocks succeeds exactly when all four are on the map, and loses the heat of all four. */
  lemma SlideFour(m: P1.Map, r: int, c: int, d: (int, int))
    requires |m| > 0
    ensures Slide(m, r, c, d, 4).Some? <==>
      && InLimits(m, r + d.0, c + d.1) && InLimits(m, r + 2 * d.0, c + 2 * d.1)
      && InLimits(m, r + 3 * d.0, c + 3 * d.1) && InLimits(m, r + 4 * d.0, c + 4 * d.1)
    ensures Slide(m, r, c, d, 4).Some? ==>
      (Slide(m, r, c, d, 4).value ==
       P1.Cell(m, r + d.0, c + d.1) + P1.Cell(m, r + 2 * d.0, c + 2 * d.1)
       + P1.Cell(m, r + 3 * d.0, c + 3 * d.1) + P1.Cell(m, r + 4 * d.0, c + 4 * d.1))
  {
    var r1, c1 := r + d.0, c + d.1;
    var r2, c2 := r1 + d.0, c1 + d.1;
    var r3, c3 := r2 + d.0, c2 + d.1;
    assert Slide(m, r3, c3, d, 1) == if InLimits(m, r + 4 * d.0, c + 4 * d.1)
      then Some(P1.Cell(m, r + 4 * d.0, c + 4 * d.1)) else None;
  }

  /** The turn entry into `nd` is queued exactly when the four blocks are on the map. */
  lemma TurnSpec(m: P1.Map, s: Ultra, nd: int, t: (Ultra, nat))
    requires |m| > 0
    ensures t in Turn(m, s, nd) <==> TurnMove(m, s, nd, t)
  {
    SlideFour(m, s.row, s.col, Offset(nd));
  }

  /** The successors are exactly the left turn, the right turn and the straight move that stay on the map. */
  lemma SuccessorsSpec(m: P1.Map, s: Ultra, t: (Ultra, nat))
    requires |m| > 0
    ensures t in Successors(m, s) <==> TurnMove(m, s, Left(s.dir), t) || TurnMove(m, s, Right(s.dir), t) || StraightMove(m, s, t)
  {
    TurnSpec(m, s, Left(s.dir), t);
    TurnSpec(m, s, Right(s.dir), t);
    assert t in Successors(m, s) <==> t in Turn(m, s, Left(s.dir)) || t in Turn(m, s, Right(s.dir)) || t in Straight(m, s);
  }

  /** A seed state: the top-left block with no moves made, facing west or north. */
  predicate IsSeed(s: Ultra)
  {
    s == Ultra(0, 0, 3, 0) || s == Ultra(0, 0, 0, 0)
  }

  /** A state the search can meet: a seed, or a block on the map reached by a run of four to ten moves. */
  predicate Valid(m: P1.Map, s: Ultra)
    requires |m| > 0
  {
    IsSeed(s) || (InLimits(m, s.row, s.col) && 0 <= s.dir < 4 && 4 <= s.moves <= 10)
  }

  /** Every valid state of the map. */
  ghost function Universe(m: P1.Map): (u: set<Ultra>)
    requires |m| > 0
    ensures forall s :: s in u <==> Valid(m, s)
  {
    var u := (set r: int, c: int, dir: int, mv: int
      | 0 <= r < |m| && 0 <= c < |m[0]| && 0 <= dir < 4 && 4 <= mv <= 10
      :: Ultra(r, c, dir, mv)) + {Ultra(0, 0, 3, 0), Ultra(0, 0, 0, 0)};
    assert forall s :: Valid(m, s) ==> s in u by {
      forall s | Valid(m, s)
        ensures s in u
      {
        if !IsSeed(s) {
          assert s == Ultra(s.row, s.col, s.dir, s.moves);
        }
      }
    }
    u
  }

  /** A turn from a valid state lands on the map with a run of four. */
  lemma TurnValid(m: P1.Map, s: Ultra, nd: int, t: (Ultra, nat))
    requires |m| > 0 && 0 <= nd < 4 && TurnMove(m, s, nd, t)
    ensures Valid(m, t.0)
  {
  }

  /** Going straight from a valid state stays valid: the seeds cannot go straight, and a run never passes ten. */
  lemma StraightValid(m: P1.Map, s: Ultra, t: (Ultra, nat))
    requires |m| > 0 && Valid(m, s) && StraightMove(m, s, t)
    ensures Valid(m, t.0)
  {
  }

  /** The successors of a valid state are valid: no run is shorter than four or longer than ten. */
  lemma SuccessorsValid(m: P1.Map, s: Ultra, t: (Ultra, nat))
    requires |m| > 0 && Valid(m, s) && t in Successors(m, s)
    ensures Valid(m, t.0)
  {
    SuccessorsSpec(m, s, t);
    TurnsSpec(s.dir);
    if TurnMove(m, s, Left(s.dir), t) {
      TurnValid(m, s, Left(s.dir), t);
    } else if TurnMove(m, s, Right(s.dir), t) {
      TurnValid(m, s, Right(s.dir), t);
    } else {
      StraightValid(m, s, t);
    }
  }

  /** The seeds are valid and the valid states are closed under the successor relation. */
  lemma UniverseClosed(m: P1.Map)
    requires |m| > 0
    ensures forall i :: 0 <= i < |Seeds()| ==> Seeds()[i].0 in Universe(m)
    ensures forall s, t :: s in Universe(m) && t in Succ(m)(s) ==> t.0 in Universe(m)
  {
    forall s, t | s in Universe(m) && t in Succ(m)(s)
      ensures t.0 in Universe(m)
    {
      SuccessorsValid(m, s, t);
    }
  }

  /** Every state along a walk past the seeds is on the map, after a run of four to ten moves. */
  lemma WalksValid(m: P1.Map, w: seq<(Ultra, nat)>, i: nat)
    requires |m| > 0
    requires IsWalk(Seeds(), Succ(m), w) && i < |w|
    ensures IsSeed(w[i].0) || (InLimits(m, w[i].0.row, w[i].0.col) && 4 <= w[i].0.moves <= 10)
  {
    UniverseClosed(m);
    WalkStaysIn(Seeds(), Succ(m), Universe(m), w, i);
  }

  /**
   * `calculateHeatLoss`: the least heat loss over the walks from the seeds
   * that end on the bottom-right block, or nothing (the script's "The
   * destination was not reached.") when no walk gets there.
   */
  method MinimalHeatLoss(m: P1.Map) returns (r: Option<nat>)
    requires |m| > 0
    ensures r.Some? <==> exists w :: GoalWalk(Seeds(), Succ(m), Goal(m), w)
    ensures r.Some? ==> Answer(Seeds(), Succ(m), Goal(m), r.value)
  {
    UniverseClosed(m);
    r := Search(Seeds(), Succ(m), Goal(m), Universe(m), true);
  }
}
