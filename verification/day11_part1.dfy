/**
 * Cosmic expansion (day 11, part 1): galaxies are the `#` cells of an image;
 * every column and row holding no galaxy counts twice, and the answer is the
 * sum, over every unordered pair of galaxies, of their Manhattan distance in
 * the expanded image.
 */
module Day11Part1 {
  import opened Common

  type Grid = seq<seq<char>>

  /** A galaxy position `[x, y]`: column, then row. */
  datatype Pos = Pos(x: int, y: int)

  predicate IsGalaxy(g: Grid, p: Pos)
  {
    0 <= p.y < |g| && 0 <= p.x < |g[p.y]| && g[p.y][p.x] == '#'
  }

  /** Row-major order: an earlier row, or the same row and an earlier column. */
  predicate Before(p: Pos, q: Pos)
  {
    p.y < q.y || (p.y == q.y && p.x < q.x)
  }

  /** The galaxies of one row, left to right. */
  function RowGalaxies(row: seq<char>, y: int): (r: seq<Pos>)
    ensures forall p :: p in r <==> p.y == y && 0 <= p.x < |row| && row[p.x] == '#'
    ensures forall i :: 0 <= i < |r| ==> r[i].y == y && 0 <= r[i].x < |row|
    ensures forall i, j :: 0 <= i < j < |r| ==> r[i].x < r[j].x
  {
    if |row| == 0 then []
    else
      var init := row[..|row| - 1];
      RowGalaxies(init, y) + (if row[|row| - 1] == '#' then [Pos(|row| - 1, y)] else [])
  }

  /** `findGalaxyPositions`: every galaxy exactly once, in row-major order. */
  function FindGalaxies(g: Grid): (r: seq<Pos>)
    ensures forall p :: p in r <==> IsGalaxy(g, p)
    ensures forall i :: 0 <= i < |r| ==> 0 <= r[i].y < |g|
    ensures forall i, j :: 0 <= i < j < |r| ==> Before(r[i], r[j])
  {
    if |g| == 0 then []
    else
      var init := g[..|g| - 1];
      assert forall p :: IsGalaxy(init, p) <==> IsGalaxy(g, p) && p.y < |g| - 1;
      FindGalaxies(init) + RowGalaxies(g[|g| - 1], |g| - 1)
  }

  /** `array_column($positions, 0)`. */
  function Columns(ps: seq<Pos>): (xs: seq<int>)
    ensures |xs| == |ps| && forall i :: 0 <= i < |ps| ==> xs[i] == ps[i].x
  {
    seq(|ps|, i requires 0 <= i < |ps| => ps[i].x)
  }

  /** `array_column($positions, 1)`. */
  function Rows(ps: seq<Pos>): (ys: seq<int>)
    ensures |ys| == |ps| && forall i :: 0 <= i < |ps| ==> ys[i] == ps[i].y
  {
    seq(|ps|, i requires 0 <= i < |ps| => ps[i].y)
  }

  /**
   * PHP's `range(0, $n - 1)`: `0, 1, …, n − 1`, except that for `n = 0` the
   * range counts down and yields `0, −1`.
   */
  function UpTo(n: nat): (r: seq<int>)
    ensures n >= 1 ==> |r| == n && forall i :: 0 <= i < n ==> r[i] == i
  {
    if n == 0 then [0, -1] else seq(n, i requires 0 <= i < n => i)
  }

  /** `array_diff($values, $used)`: the values not in `used`, in their order. */
  function Without(values: seq<int>, used: seq<int>): (r: seq<int>)
    ensures forall v :: v in r <==> v in values && v !in used
    ensures |r| <= |values|
  {
    if |values| == 0 then []
    else
      var last := values[|values| - 1];
      Without(values[..|values| - 1], used) + (if last in used then [] else [last])
  }

  /** The lines (columns or rows) `expandPositions` selects: those in `range(0, count − 1)` used by no galaxy. */
  function ExpandLines(count: nat, used: seq<int>): seq<int>
  {
    Without(UpTo(count), used)
  }

  /** No galaxy in column `c` of any row. */
  ghost predicate ColumnEmpty(g: Grid, c: int)
  {
    forall y :: 0 <= y < |g| && 0 <= c < |g[y]| ==> g[y][c] != '#'
  }

  /** No galaxy in row `y`. */
  ghost predicate RowEmpty(g: Grid, y: int)
  {
    0 <= y < |g| ==> forall x :: 0 <= x < |g[y]| ==> g[y][x] != '#'
  }

  /** The columns to expand are exactly the galaxy-free columns of the first row's width. */
  lemma EmptyColumns(g: Grid, c: int)
    requires |g| >= 1 && |g[0]| >= 1
    ensures c in ExpandLines(|g[0]|, Columns(FindGalaxies(g))) <==> 0 <= c < |g[0]| && ColumnEmpty(g, c)
  {
    InUpTo(|g[0]|, c);
    if c in Columns(FindGalaxies(g)) {
      UsedColumnHoldsGalaxy(g, c);
    }
    if !ColumnEmpty(g, c) {
      var y :| 0 <= y < |g| && 0 <= c < |g[y]| && g[y][c] == '#';
      GalaxyColumnUsed(g, Pos(c, y));
    }
  }

  lemma UsedColumnHoldsGalaxy(g: Grid, c: int)
    requires c in Columns(FindGalaxies(g))
    ensures !ColumnEmpty(g, c)
  {
    var gal := FindGalaxies(g);
    var xs := Columns(gal);
    var i :| 0 <= i < |xs| && xs[i] == c;
    assert IsGalaxy(g, gal[i]);
  }

  lemma GalaxyColumnUsed(g: Grid, p: Pos)
    requires IsGalaxy(g, p)
    ensures p.x in Columns(FindGalaxies(g))
  {
    var gal := FindGalaxies(g);
    assert p in gal;
    var i :| 0 <= i < |gal| && gal[i] == p;
    assert Columns(gal)[i] == p.x;
  }

  /** The rows to expand are exactly the galaxy-free rows. */
  lemma EmptyRows(g: Grid, y: int)
    requires |g| >= 1
    ensures y in ExpandLines(|g|, Rows(FindGalaxies(g))) <==> 0 <= y < |g| && RowEmpty(g, y)
  {
    InUpTo(|g|, y);
    RowsUsed(g, y);
  }

  lemma InUpTo(n: nat, v: int)
    requires n >= 1
    ensures v in UpTo(n) <==> 0 <= v < n
  {
    if 0 <= v < n {
      assert UpTo(n)[v] == v;
    }
  }

  /** A row holds a galaxy exactly when some galaxy found is on it. */
  lemma RowsUsed(g: Grid, y: int)
    ensures y in Rows(FindGalaxies(g)) <==> 0 <= y < |g| && !RowEmpty(g, y)
  {
    if y in Rows(FindGalaxies(g)) {
      UsedRowHoldsGalaxy(g, y);
    }
    if 0 <= y < |g| && !RowEmpty(g, y) {
      var x :| 0 <= x < |g[y]| && g[y][x] == '#';
      GalaxyRowUsed(g, Pos(x, y));
    }
  }

  lemma UsedRowHoldsGalaxy(g: Grid, y: int)
    requires y in Rows(FindGalaxies(g))
    ensures 0 <= y < |g| && !RowEmpty(g, y)
  {
    var gal := FindGalaxies(g);
    var ys := Rows(gal);
    var i :| 0 <= i < |ys| && ys[i] == y;
    assert IsGalaxy(g, gal[i]);
    assert g[y][gal[i].x] == '#';
  }

  lemma GalaxyRowUsed(g: Grid, p: Pos)
    requires IsGalaxy(g, p)
    ensures p.y in Rows(FindGalaxies(g))
  {
    var gal := FindGalaxies(g);
    assert p in gal;
    var i :| 0 <= i < |gal| && gal[i] == p;
    assert Rows(gal)[i] == p.y;
  }

  /** A galaxy never lies on a line that is expanded. */
  lemma GalaxyNotExpanded(g: Grid, p: Pos)
    requires p in FindGalaxies(g)
    ensures p.x !in ExpandLines(|g[0]|, Columns(FindGalaxies(g)))
    ensures p.y !in ExpandLines(|g|, Rows(FindGalaxies(g)))
  {
    var gal := FindGalaxies(g);
    var i :| 0 <= i < |gal| && gal[i] == p;
    assert Columns(gal)[i] == p.x && Rows(gal)[i] == p.y;
  }

  /** The value `v` lies strictly between `a` and `b`, in either order. */
  predicate Between(a: int, v: int, b: int)
  {
    (a < v && v < b) || (b < v && v < a)
  }

  /** How many of `vs` lie strictly between `a` and `b`. */
  function CountBetween(vs: seq<int>, a: int, b: int): (n: nat)
    ensures n <= |vs|
  {
    if |vs| == 0 then 0
    else CountBetween(vs[..|vs| - 1], a, b) + (if Between(a, vs[|vs| - 1], b) then 1 else 0)
  }

  /** How many of `vs` lie strictly below `v`. */
  function CountBelow(vs: seq<int>, v: int): nat
  {
    if |vs| == 0 then 0
    else CountBelow(vs[..|vs| - 1], v) + (if vs[|vs| - 1] < v then 1 else 0)
  }

  /** How many of `vs` equal `v`. */
  function Occurrences(vs: seq<int>, v: int): nat
  {
    if |vs| == 0 then 0
    else Occurrences(vs[..|vs| - 1], v) + (if vs[|vs| - 1] == v then 1 else 0)
  }

  lemma {:induction false} OccurrencesZero(vs: seq<int>, v: int)
    requires v !in vs
    ensures Occurrences(vs, v) == 0
    decreases |vs|
  {
    if |vs| > 0 {
      OccurrencesZero(vs[..|vs| - 1], v);
    }
  }

  /**
   * The values in `[a, b)` are those below `b` but not below `a`: the values
   * strictly between plus the copies of `a`.
   */
  lemma {:induction false} CountBelowDifference(vs: seq<int>, a: int, b: int)
    requires a < b
    ensures CountBelow(vs, b) - CountBelow(vs, a) == CountBetween(vs, a, b) + Occurrences(vs, a)
    decreases |vs|
  {
    if |vs| > 0 {
      CountBelowDifference(vs[..|vs| - 1], a, b);
    }
  }

  lemma {:induction false} CountBetweenSymmetric(vs: seq<int>, a: int, b: int)
    ensures CountBetween(vs, a, b) == CountBetween(vs, b, a)
    decreases |vs|
  {
    if |vs| > 0 {
      CountBetweenSymmetric(vs[..|vs| - 1], a, b);
    }
  }

  lemma {:induction false} CountBetweenSame(vs: seq<int>, a: int)
    ensures CountBetween(vs, a, a) == 0
    decreases |vs|
  {
    if |vs| > 0 {
      CountBetweenSame(vs[..|vs| - 1], a);
    }
  }

  /** Distance along one axis: the plain gap plus one for each expanded line strictly between. */
  function AxisDistance(a: int, b: int, lines: seq<int>): int
  {
    Abs(a - b) + CountBetween(lines, a, b)
  }

  /** The distance `calculateExpandedPositions` adds for one pair of galaxies. */
  function PairDistance(p: Pos, q: Pos, xs: seq<int>, ys: seq<int>): int
  {
    AxisDistance(p.x, q.x, xs) + AxisDistance(p.y, q.y, ys)
  }

  /** Where a line lands once each line of `lines` below it has been doubled. */
  function Expanded(v: int, lines: seq<int>): int
  {
    v + CountBelow(lines, v)
  }

  /**
   * The axis distance is the plain distance between the two coordinates in
   * the expanded image, for coordinates that are not themselves expanded.
   */
  lemma AxisDistanceExpanded(a: int, b: int, lines: seq<int>)
    requires a !in lines && b !in lines
    ensures AxisDistance(a, b, lines) == Abs(Expanded(a, lines) - Expanded(b, lines))
  {
    if a < b {
      CountBelowDifference(lines, a, b);
      OccurrencesZero(lines, a);
    } else if b < a {
      CountBelowDifference(lines, b, a);
      OccurrencesZero(lines, b);
      CountBetweenSymmetric(lines, a, b);
    } else {
      CountBetweenSame(lines, a);
    }
  }

  /**
   * The pair distance is the Manhattan distance of the two positions in the
   * expanded image, for positions on lines that are not expanded (as every
   * galaxy is, by `GalaxyNotExpanded`).
   */
  lemma PairDistanceExpanded(p: Pos, q: Pos, xs: seq<int>, ys: seq<int>)
    requires p.x !in xs && q.x !in xs && p.y !in ys && q.y !in ys
    ensures PairDistance(p, q, xs, ys)
              == Abs(Expanded(p.x, xs) - Expanded(q.x, xs)) + Abs(Expanded(p.y, ys) - Expanded(q.y, ys))
  {
    AxisDistanceExpanded(p.x, q.x, xs);
    AxisDistanceExpanded(p.y, q.y, ys);
  }

  /** The pair distance is symmetric, zero for a galaxy and itself, and never below the Manhattan distance. */
  lemma PairDistanceProperties(p: Pos, q: Pos, xs: seq<int>, ys: seq<int>)
    ensures PairDistance(p, q, xs, ys) == PairDistance(q, p, xs, ys)
    ensures PairDistance(p, p, xs, ys) == 0
    ensures PairDistance(p, q, xs, ys) >= Abs(p.x - q.x) + Abs(p.y - q.y)
  {
    CountBetweenSymmetric(xs, p.x, q.x);
    CountBetweenSymmetric(ys, p.y, q.y);
    CountBetweenSame(xs, p.x);
    CountBetweenSame(ys, p.y);
  }

  /** A distance between positions that does not depend on the order of its arguments and vanishes on the diagonal. */
  ghost predicate IsSymmetric(dist: (Pos, Pos) -> int)
  {
    forall p, q :: dist(p, q) == dist(q, p)
  }

  ghost predicate ZeroDiagonal(dist: (Pos, Pos) -> int)
  {
    forall p :: dist(p, p) == 0
  }

  /** The sum of the distances from `cur` to every element of `ps` (one `calculateExpandedPositions` call). */
  function DistanceFrom(cur: Pos, ps: seq<Pos>, dist: (Pos, Pos) -> int): int
  {
    if |ps| == 0 then 0 else DistanceFrom(cur, ps[..|ps| - 1], dist) + dist(cur, ps[|ps| - 1])
  }

  /** The `while ($positions)` loop: pop the last position and add its distances to all that remain. */
  function PopTotal(ps: seq<Pos>, dist: (Pos, Pos) -> int): int
  {
    if |ps| == 0 then 0 else PopTotal(ps[..|ps| - 1], dist) + DistanceFrom(ps[|ps| - 1], ps[..|ps| - 1], dist)
  }

  /** Reference: the sum over every ordered pair, one position from `ps` and one from `qs`. */
  function AllPairs(ps: seq<Pos>, qs: seq<Pos>, dist: (Pos, Pos) -> int): int
  {
    if |ps| == 0 then 0 else AllPairs(ps[..|ps| - 1], qs, dist) + DistanceFrom(ps[|ps| - 1], qs, dist)
  }

  lemma DistanceFromAppend(cur: Pos, ps: seq<Pos>, q: Pos, dist: (Pos, Pos) -> int)
    ensures DistanceFrom(cur, ps + [q], dist) == DistanceFrom(cur, ps, dist) + dist(cur, q)
  {
    assert (ps + [q])[..|ps|] == ps;
  }

  /** Adding a column to the ordered double sum adds one distance per row. */
  lemma {:induction false} AllPairsAppendColumn(ps: seq<Pos>, qs: seq<Pos>, q: Pos, dist: (Pos, Pos) -> int)
    requires IsSymmetric(dist)
    ensures AllPairs(ps, qs + [q], dist) == AllPairs(ps, qs, dist) + DistanceFrom(q, ps, dist)
    decreases |ps|
  {
    if |ps| > 0 {
      var last := ps[|ps| - 1];
      AllPairsAppendColumn(ps[..|ps| - 1], qs, q, dist);
      DistanceFromAppend(last, qs, q, dist);
      assert dist(last, q) == dist(q, last);
    }
  }

  /**
   * Every unordered pair is counted exactly once: twice the popped total is
   * the sum over all ordered pairs.
   */
  lemma {:induction false} EachPairOnce(ps: seq<Pos>, dist: (Pos, Pos) -> int)
    requires IsSymmetric(dist) && ZeroDiagonal(dist)
    ensures 2 * PopTotal(ps, dist) == AllPairs(ps, ps, dist)
    decreases |ps|
  {
    if |ps| > 0 {
      var init := ps[..|ps| - 1];
      var q := ps[|ps| - 1];
      assert ps == init + [q];
      EachPairOnce(init, dist);
      AllPairsAppendColumn(init, init, q, dist);
      DistanceFromAppend(q, init, q, dist);
      assert dist(q, q) == 0;
    }
  }

  /** `calculateTotalDistance`'s loop, popping from the end; the answer counts each unordered pair once. */
  method SumPairs(ps: seq<Pos>, dist: (Pos, Pos) -> int) returns (total: int)
    requires IsSymmetric(dist) && ZeroDiagonal(dist)
    ensures total == PopTotal(ps, dist)
    ensures 2 * total == AllPairs(ps, ps, dist)
  {
    var positions := ps;
    total := 0;
    while |positions| > 0
      invariant positions == ps[..|positions|]
      invariant total + PopTotal(positions, dist) == PopTotal(ps, dist)
      decreases |positions|
    {
      var current := positions[|positions| - 1];
      positions := positions[..|positions| - 1];
      total := total + DistanceFrom(current, positions, dist);
    }
    EachPairOnce(ps, dist);
  }

  /** The distance of part 1 with fixed expansion lists, as a function of the pair. */
  function Doubling(xs: seq<int>, ys: seq<int>): (dist: (Pos, Pos) -> int)
  {
    (p: Pos, q: Pos) => PairDistance(p, q, xs, ys)
  }

  lemma DoublingMetric(xs: seq<int>, ys: seq<int>)
    ensures IsSymmetric(Doubling(xs, ys)) && ZeroDiagonal(Doubling(xs, ys))
  {
    forall p: Pos, q: Pos
      ensures Doubling(xs, ys)(p, q) == Doubling(xs, ys)(q, p)
    {
      PairDistanceProperties(p, q, xs, ys);
    }
    forall p: Pos
      ensures Doubling(xs, ys)(p, p) == 0
    {
      PairDistanceProperties(p, p, xs, ys);
    }
  }

  /**
   * The script: `None` where it fails on an image without a first row;
   * otherwise half the sum, over ordered pairs of galaxies, of their
   * distance in the expanded image.
   */
  method TotalDistance(g: Grid) returns (r: Option<int>)
    ensures r.None? <==> |g| == 0
    ensures r.Some? ==>
      var gal := FindGalaxies(g);
      var xs := ExpandLines(|g[0]|, Columns(gal));
      var ys := ExpandLines(|g|, Rows(gal));
      r.value == PopTotal(gal, Doubling(xs, ys)) && 2 * r.value == AllPairs(gal, gal, Doubling(xs, ys))
  {
    if |g| == 0 {
      return None;
    }
    var gal := FindGalaxies(g);
    var xs := ExpandLines(|g[0]|, Columns(gal));
    var ys := ExpandLines(|g|, Rows(gal));
    DoublingMetric(xs, ys);
    var total := SumPairs(gal, Doubling(xs, ys));
    return Some(total);
  }
}
