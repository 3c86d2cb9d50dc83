/**
 * Cosmic expansion (day 11, part 2): the same sum of pairwise galaxy
 * distances, but every galaxy-free column and row now stands for
 * `factor` lines (one million in the script).
 */
module Day11Part2 {
  import opened Common
  import opened Day11Part1

  const ExpansionFactor: int := 1000000

  /** `shouldExpand`: the line lies strictly between the two coordinates, whichever is smaller. */
  function ShouldExpand(current: int, pos: int, value: int): (r: bool)
    ensures r <==> Min(current, pos) < value < Max(current, pos)
    ensures r <==> Between(current, value, pos)
  {
    (current < value && value < pos) || (pos < value && value < current)
  }

  /** One axis of `calculateDistances`: the plain gap, plus `factor − 1` per expanded line strictly between. */
  function AxisExpansion(a: int, b: int, lines: seq<int>, factor: int): int
  {
    if |lines| == 0 then Abs(a - b)
    else
      AxisExpansion(a, b, lines[..|lines| - 1], factor)
      + (if ShouldExpand(a, b, lines[|lines| - 1]) then factor - 1 else 0)
  }

  /** Each expanded line strictly between the coordinates adds `factor − 1`. */
  lemma {:induction false} ExpansionPerLine(a: int, b: int, lines: seq<int>, factor: int)
    ensures AxisExpansion(a, b, lines, factor) == Abs(a - b) + (factor - 1) * CountBetween(lines, a, b)
    decreases |lines|
  {
    if |lines| > 0 {
      ExpansionPerLine(a, b, lines[..|lines| - 1], factor);
    }
  }

  /** With factor 2 the axis distance is the one of part 1. */
  lemma FactorTwo(a: int, b: int, lines: seq<int>)
    ensures AxisExpansion(a, b, lines, 2) == AxisDistance(a, b, lines)
  {
    ExpansionPerLine(a, b, lines, 2);
  }

  /** A factor of at least one never shortens a distance. */
  lemma AtLeastPlain(a: int, b: int, lines: seq<int>, factor: int)
    requires factor >= 1
    ensures AxisExpansion(a, b, lines, factor) >= Abs(a - b)
  {
    ExpansionPerLine(a, b, lines, factor);
  }

  /** Where a line lands once each line of `lines` below it stands for `factor` lines. */
  function ExpandedBy(v: int, lines: seq<int>, factor: int): int
  {
    v + (factor - 1) * CountBelow(lines, v)
  }

  /** The image of `b` lies `b − a` plus `factor − 1` per line in `[a, b)` beyond the image of `a`. */
  lemma ImageGap(a: int, b: int, lines: seq<int>, factor: int)
    requires a < b && factor >= 1 && a !in lines
    ensures ExpandedBy(b, lines, factor) - ExpandedBy(a, lines, factor)
              == b - a + (factor - 1) * CountBetween(lines, a, b)
    ensures ExpandedBy(b, lines, factor) - ExpandedBy(a, lines, factor) >= 0
  {
    CountBelowDifference(lines, a, b);
    OccurrencesZero(lines, a);
    var k := factor - 1;
    var cb := CountBelow(lines, b);
    var ca := CountBelow(lines, a);
    assert k * cb - k * ca == k * (cb - ca);
  }

  /**
   * For a factor of at least one and coordinates on lines that are not
   * expanded, the axis distance is the plain distance in the expanded image.
   */
  lemma AxisExpansionExpanded(a: int, b: int, lines: seq<int>, factor: int)
    requires factor >= 1 && a !in lines && b !in lines
    ensures AxisExpansion(a, b, lines, factor) == Abs(ExpandedBy(a, lines, factor) - ExpandedBy(b, lines, factor))
  {
    ExpansionPerLine(a, b, lines, factor);
    if a < b {
      ImageGap(a, b, lines, factor);
    } else if b < a {
      ImageGap(b, a, lines, factor);
      CountBetweenSymmetric(lines, a, b);
    } else {
      CountBetweenSame(lines, a);
    }
  }

  /** `calculateDistances`: the two axis distances of a pair, added. */
  function Scaling(xs: seq<int>, ys: seq<int>, factor: int): (dist: (Pos, Pos) -> int)
  {
    (p: Pos, q: Pos) => AxisExpansion(p.x, q.x, xs, factor) + AxisExpansion(p.y, q.y, ys, factor)
  }

  lemma ScalingMetric(xs: seq<int>, ys: seq<int>, factor: int)
    ensures IsSymmetric(Scaling(xs, ys, factor)) && ZeroDiagonal(Scaling(xs, ys, factor))
  {
    var d := Scaling(xs, ys, factor);
    forall p: Pos, q: Pos
      ensures d(p, q) == d(q, p)
    {
      ExpansionPerLine(p.x, q.x, xs, factor);
      ExpansionPerLine(q.x, p.x, xs, factor);
      ExpansionPerLine(p.y, q.y, ys, factor);
      ExpansionPerLine(q.y, p.y, ys, factor);
      CountBetweenSymmetric(xs, p.x, q.x);
      CountBetweenSymmetric(ys, p.y, q.y);
    }
    forall p: Pos
      ensures d(p, p) == 0
    {
      ExpansionPerLine(p.x, p.x, xs, factor);
      ExpansionPerLine(p.y, p.y, ys, factor);
      CountBetweenSame(xs, p.x);
      CountBetweenSame(ys, p.y);
    }
  }

  lemma {:induction false} DistanceFromCongruent(cur: Pos, ps: seq<Pos>, d: (Pos, Pos) -> int, e: (Pos, Pos) -> int)
    requires forall p, q :: d(p, q) == e(p, q)
    ensures DistanceFrom(cur, ps, d) == DistanceFrom(cur, ps, e)
    decreases |ps|
  {
    if |ps| > 0 {
      DistanceFromCongruent(cur, ps[..|ps| - 1], d, e);
    }
  }

  lemma {:induction false} PopTotalCongruent(ps: seq<Pos>, d: (Pos, Pos) -> int, e: (Pos, Pos) -> int)
    requires forall p, q :: d(p, q) == e(p, q)
    ensures PopTotal(ps, d) == PopTotal(ps, e)
    decreases |ps|
  {
    if |ps| > 0 {
      PopTotalCongruent(ps[..|ps| - 1], d, e);
      DistanceFromCongruent(ps[|ps| - 1], ps[..|ps| - 1], d, e);
    }
  }

  /** With factor 2 the total of part 2 is the total of part 1. */
  lemma FactorTwoTotal(ps: seq<Pos>, xs: seq<int>, ys: seq<int>)
    ensures PopTotal(ps, Scaling(xs, ys, 2)) == PopTotal(ps, Doubling(xs, ys))
  {
    forall p: Pos, q: Pos
      ensures Scaling(xs, ys, 2)(p, q) == Doubling(xs, ys)(p, q)
    {
      FactorTwo(p.x, q.x, xs);
      FactorTwo(p.y, q.y, ys);
    }
    PopTotalCongruent(ps, Scaling(xs, ys, 2), Doubling(xs, ys));
  }

  /**
   * `prepareData`: the columns and rows to expand, or `None` where the
   * script fails on an image without a first row.
   */
  function PrepareData(positions: seq<Pos>, g: Grid): (r: Option<(seq<int>, seq<int>)>)
    ensures r.None? <==> |g| == 0
    ensures r.Some? ==> forall v :: v in r.value.0 ==> v !in Columns(positions)
    ensures r.Some? ==> forall v :: v in r.value.1 ==> v !in Rows(positions)
    ensures r.Some? && |g[0]| >= 1 ==> forall v :: v in r.value.0 ==> 0 <= v < |g[0]|
    ensures r.Some? ==> forall v :: v in r.value.1 ==> 0 <= v < |g|
  {
    if |g| == 0 then None
    else Some((ExpandLines(|g[0]|, Columns(positions)), ExpandLines(|g|, Rows(positions))))
  }

  /**
   * `calculateTotalDistance` for a given factor: every unordered pair of
   * galaxies counted once with its expanded distance.
   */
  method TotalScaledDistance(g: Grid, factor: int) returns (r: Option<int>)
    ensures r.None? <==> |g| == 0
    ensures r.Some? ==>
      var gal := FindGalaxies(g);
      var xs := ExpandLines(|g[0]|, Columns(gal));
      var ys := ExpandLines(|g|, Rows(gal));
      r.value == PopTotal(gal, Scaling(xs, ys, factor))
      && 2 * r.value == AllPairs(gal, gal, Scaling(xs, ys, factor))
  {
    var gal := FindGalaxies(g);
    var lines := PrepareData(gal, g);
    if lines.None? {
      return None;
    }
    var (xs, ys) := lines.value;
    ScalingMetric(xs, ys, factor);
    var total := SumPairs(gal, Scaling(xs, ys, factor));
    return Some(total);
  }
}
