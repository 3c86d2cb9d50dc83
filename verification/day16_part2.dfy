/**
 * The floor will be lava (day 16, part 2): the beam may enter from any edge
 * cell, heading into the grid; the answer is the largest number of
 * energized tiles over all those starts.
 *
 * The beam rules and the traversal repeat part 1's code and are taken from
 * the part 1 module. Every start runs the traversal afresh, so each count
 * depends on the grid and that start only.
 */
module Day16Part2 {
  import opened Common
  import opened Day16Part1

  /**
   * The starts in the order `getMaxEnergizedCount` tries them: for each row
   * the left edge heading right and the right edge heading left, then for
   * each column the top edge heading down and the bottom edge heading up.
   * The width is the length of the first row.
   */
  function Starts(grid: Grid): (s: seq<Beam>)
    requires |grid| > 0
    ensures |s| == 2 * |grid| + 2 * |grid[0]|
  {
    RowStarts(grid, |grid|) + ColumnStarts(grid, |grid[0]|)
  }

  /** The row starts of the first `n` rows: left edge heading right, then right edge heading left. */
  function RowStarts(grid: Grid, n: nat): (s: seq<Beam>)
    requires |grid| > 0
    ensures |s| == 2 * n
    ensures forall i :: 0 <= i < n ==> s[2 * i] == Beam(0, i, R) && s[2 * i + 1] == Beam(|grid[0]| - 1, i, L)
  {
    if n == 0 then [] else RowStarts(grid, n - 1) + [Beam(0, n - 1, R), Beam(|grid[0]| - 1, n - 1, L)]
  }

  /** The column starts of the first `n` columns: top edge heading down, then bottom edge heading up. */
  function ColumnStarts(grid: Grid, n: nat): (s: seq<Beam>)
    requires |grid| > 0
    ensures |s| == 2 * n
    ensures forall j :: 0 <= j < n ==> s[2 * j] == Beam(j, 0, D) && s[2 * j + 1] == Beam(j, |grid| - 1, U)
  {
    if n == 0 then [] else ColumnStarts(grid, n - 1) + [Beam(n - 1, 0, D), Beam(n - 1, |grid| - 1, U)]
  }

  /** `count` is the energized count of every start, and `cap` bounds them all. */
  ghost predicate Counts(grid: Grid, count: Beam -> nat, cap: nat)
  {
    forall b {:trigger Energized(grid, b)} :: count(b) == |Energized(grid, b)| <= cap
  }

  /** The best so far is at least every count seen and is one of them, or the initial 0. */
  ghost predicate Best(count: Beam -> nat, cap: nat, starts: seq<Beam>, best: nat)
  {
    && (forall k :: 0 <= k < |starts| ==> count(starts[k]) <= best)
    && (best == 0 || exists k :: 0 <= k < |starts| && best == count(starts[k]))
    && best <= cap
  }

  /** Taking the maximum with one more start's count keeps `Best`. */
  lemma BestStep(count: Beam -> nat, cap: nat, starts: seq<Beam>, best: nat, b: Beam)
    requires Best(count, cap, starts, best) && count(b) <= cap
    ensures Best(count, cap, starts + [b], Max(best, count(b)))
  {
    var s := starts + [b];
    assert s[|starts|] == b;
    forall k | 0 <= k < |starts|
      ensures count(s[k]) <= Max(best, count(b))
    {
      assert s[k] == starts[k];
    }
    if Max(best, count(b)) != 0 {
      if best < count(b) {
        assert Max(best, count(b)) == count(s[|starts|]);
      } else {
        var k :| 0 <= k < |starts| && best == count(starts[k]);
        assert s[k] == starts[k];
      }
    }
  }

  /** One `max($maxEnergized, getEnergizedCount(...))` update. */
  method Consider(grid: Grid, ghost count: Beam -> nat, ghost cap: nat, done: seq<Beam>, best: nat, b: Beam) returns (best': nat)
    requires Counts(grid, count, cap) && Best(count, cap, done, best)
    ensures Best(count, cap, done + [b], best')
  {
    var c := EnergizedCount(grid, b);
    BestStep(count, cap, done, best, b);
    best' := Max(best, c);
  }

  /** The loops of `getMaxEnergizedCount`: the running maximum over `starts`, from 0. */
  method MaxOver(grid: Grid, ghost count: Beam -> nat, ghost cap: nat, starts: seq<Beam>) returns (best: nat)
    requires Counts(grid, count, cap)
    ensures Best(count, cap, starts, best)
  {
    best := 0;
    var k := 0;
    while k < |starts|
      invariant 0 <= k <= |starts|
      invariant Best(count, cap, starts[..k], best)
    {
      best := Consider(grid, count, cap, starts[..k], best, starts[k]);
      assert starts[..k + 1] == starts[..k] + [starts[k]];
      k := k + 1;
    }
    assert starts[..|starts|] == starts;
  }

  /**
   * `getMaxEnergizedCount`: the largest energized count over the edge starts,
   * tried in the order of `Starts`.
   * It is at least the count of every start, equals one of them unless it is
   * 0, and never exceeds the number of cells; for a rectangular grid that is
   * height times width.
   */
  method MaxEnergized(grid: Grid) returns (best: nat)
    requires |grid| > 0
    ensures forall k :: 0 <= k < |Starts(grid)| ==> |Energized(grid, Starts(grid)[k])| <= best
    ensures best == 0 || exists k :: 0 <= k < |Starts(grid)| && best == |Energized(grid, Starts(grid)[k])|
    ensures (forall y :: 0 <= y < |grid| ==> |grid[y]| == |grid[0]|) ==> best <= |grid| * |grid[0]|
  {
    ghost var count := (b: Beam) => |Energized(grid, b)|;
    ghost var cap := |Cells(grid)|;
    EnergizedBound(grid);
    best := MaxOver(grid, count, cap, Starts(grid));
    if forall y :: 0 <= y < |grid| ==> |grid[y]| == |grid[0]| {
      CellsCount(grid);
    }
  }
}
