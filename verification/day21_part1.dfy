/**
 * Step counter (day 21, part 1): a breadth-first search from every `S` on
 * the map gives each garden plot its distance in steps, and the answer is
 * the number of plots whose distance is at most 64 and of the same parity.
 *
 * The search is modelled as the script runs it: a first-in first-out queue
 * seeded with the `S` cells in row-major order, a distance written the
 * first time a cell is reached, and `PHP_INT_MAX` for a cell not reached.
 * Its contract is the one breadth-first search promises: every cell ends
 * with the length of a shortest walk to it from a start, or `PHP_INT_MAX`
 * when there is none. Rows and columns are counted from the map itself, as
 * the script's caller does.
 */
module Day21Part1 {
  import opened Common

  /** The map's rows, split into characters. */
  type Grid = seq<seq<char>>

  /** `[row, col]`. */
  type Cell = (int, int)

  /** The distance array, `$distances[$row][$col]`. */
  type Dists = seq<seq<int>>

  /** `PHP_INT_MAX`, the script's infinity. */
  const Infinity: int := 0x7FFF_FFFF_FFFF_FFFF

  /** Every row as long as the first. */
  predicate Rectangular(g: Grid)
  {
    forall r :: 0 <= r < |g| ==> |g[r]| == |g[0]|
  }

  /** `count($map[0])`. */
  function Width(g: Grid): nat
  {
    if |g| == 0 then 0 else |g[0]|
  }

  predicate Inside(g: Grid, p: Cell)
  {
    0 <= p.0 < |g| && 0 <= p.1 < Width(g)
  }

  /** A cell in bounds that is not a rock `#`. */
  predicate Open(g: Grid, p: Cell)
  {
    Inside(g, p) && p.1 < |g[p.0]| && g[p.0][p.1] != '#'
  }

  predicate IsStart(g: Grid, p: Cell)
  {
    Inside(g, p) && p.1 < |g[p.0]| && g[p.0][p.1] == 'S'
  }

  /** The cells of the map. */
  ghost function Cells(g: Grid): set<Cell>
  {
    set r, c | 0 <= r < |g| && 0 <= c < Width(g) :: (r, c)
  }

  /** The `S` cells. */
  ghost function Sources(g: Grid): set<Cell>
  {
    set p | p in Cells(g) && IsStart(g, p)
  }

  /** Directions in the order `$dRow`, `$dCol` list them: up, right, down, left. */
  type Dir = d: int | 0 <= d < 4

  function Step(p: Cell, d: Dir): Cell
  {
    match d
    case 0 => (p.0 - 1, p.1)
    case 1 => (p.0, p.1 + 1)
    case 2 => (p.0 + 1, p.1)
    case 3 => (p.0, p.1 - 1)
  }

  function Back(d: Dir): Dir
  {
    (d + 2) % 4
  }

  lemma StepBack(p: Cell, d: Dir)
    ensures Step(Step(p, d), Back(d)) == p
  {
  }

  // ---------------------------------------------------------------------
  // Shortest walks
  // ---------------------------------------------------------------------

  /** `p` is a start, or a walk of at most `n` steps over open cells leads to it from one. */
  ghost predicate Reach(g: Grid, src: set<Cell>, p: Cell, n: nat)
    decreases n
  {
    p in src || (n > 0 && Open(g, p) && exists d: Dir :: Reach(g, src, Step(p, d), n - 1))
  }

  lemma {:induction false} ReachMonotone(g: Grid, src: set<Cell>, p: Cell, n: nat, m: nat)
    requires n <= m && Reach(g, src, p, n)
    ensures Reach(g, src, p, m)
    decreases n
  {
    if p !in src {
      var d: Dir :| Reach(g, src, Step(p, d), n - 1);
      ReachMonotone(g, src, Step(p, d), n - 1, m - 1);
    }
  }

  /** `n` is the length of a shortest walk to `p`. */
  ghost predicate Least(g: Grid, src: set<Cell>, p: Cell, n: nat)
  {
    Reach(g, src, p, n) && forall k: nat :: k < n ==> !Reach(g, src, p, k)
  }

  lemma {:induction false} LeastExists(g: Grid, src: set<Cell>, p: Cell, n: nat)
    requires Reach(g, src, p, n)
    ensures exists m: nat :: Least(g, src, p, m)
    decreases n
  {
    if !Least(g, src, p, n) {
      var k: nat :| k < n && Reach(g, src, p, k);
      LeastExists(g, src, p, k);
    }
  }

  lemma LeastUnique(g: Grid, src: set<Cell>, p: Cell, n: nat, m: nat)
    requires Least(g, src, p, n) && Least(g, src, p, m)
    ensures n == m
  {
  }

  /** The length of a shortest walk from a start to `p`, if there is a walk. */
  ghost function Shortest(g: Grid, src: set<Cell>, p: Cell): (s: Option<nat>)
    ensures s.Some? <==> exists n: nat :: Reach(g, src, p, n)
    ensures s.Some? ==> Least(g, src, p, s.value)
  {
    if exists n: nat :: Reach(g, src, p, n) then
      var n: nat :| Reach(g, src, p, n);
      LeastExists(g, src, p, n);
      var m: nat :| Least(g, src, p, m);
      assert Reach(g, src, p, m);
      Some(m)
    else None
  }

  /** The distance a correct search writes: the shortest walk's length, or `PHP_INT_MAX`. */
  ghost function Expected(g: Grid, src: set<Cell>, p: Cell): int
  {
    match Shortest(g, src, p)
    case None => Infinity
    case Some(n) => n
  }

  /** A cell holding the length of a shortest walk holds what a correct search writes. */
  lemma LeastExpected(g: Grid, src: set<Cell>, p: Cell, n: nat)
    requires Least(g, src, p, n)
    ensures Expected(g, src, p) == n
  {
    LeastUnique(g, src, p, n, Shortest(g, src, p).value);
  }

  // ---------------------------------------------------------------------
  // The distance array
  // ---------------------------------------------------------------------

  predicate Shape(dist: Dists, g: Grid)
  {
    |dist| == |g| && forall r :: 0 <= r < |dist| ==> |dist[r]| == Width(g)
  }

  /** `$distances[$row][$col]` for a cell in bounds. */
  function At(dist: Dists, p: Cell): int
  {
    if 0 <= p.0 < |dist| && 0 <= p.1 < |dist[p.0]| then dist[p.0][p.1] else Infinity
  }

  /** `$distances[$row][$col] = $v`. */
  function Set(dist: Dists, p: Cell, v: int): (r: Dists)
    requires 0 <= p.0 < |dist| && 0 <= p.1 < |dist[p.0]|
    ensures |r| == |dist| && forall i :: 0 <= i < |r| ==> |r[i]| == |dist[i]|
    ensures forall q :: At(r, q) == if q == p then v else At(dist, q)
  {
    dist[p.0 := dist[p.0][p.1 := v]]
  }

  /** The cells with a distance. */
  ghost function Assigned(g: Grid, dist: Dists): set<Cell>
  {
    set p | p in Cells(g) && At(dist, p) != Infinity
  }

  lemma AssignedAdd(g: Grid, dist: Dists, p: Cell, v: int)
    requires Shape(dist, g) && Inside(g, p) && At(dist, p) == Infinity && v != Infinity
    ensures Assigned(g, Set(dist, p, v)) == Assigned(g, dist) + {p}
    ensures |Assigned(g, Set(dist, p, v))| == |Assigned(g, dist)| + 1
  {
    assert p in Cells(g);
  }

  lemma AssignedBound(g: Grid, dist: Dists)
    ensures |Assigned(g, dist)| <= |Cells(g)|
  {
    var a := Assigned(g, dist);
    assert Cells(g) == a + (Cells(g) - a);
  }

  /** The cells of row `r`. */
  ghost function RowCells(r: int, w: nat): set<Cell>
  {
    set c | 0 <= c < w :: (r, c)
  }

  /** The cells of the first `n` rows of width `w`. */
  ghost function Rows(n: nat, w: nat): set<Cell>
  {
    set r, c | 0 <= r < n && 0 <= c < w :: (r, c)
  }

  lemma {:induction false} RowCellsCount(r: int, w: nat)
    ensures |RowCells(r, w)| == w
  {
    if w > 0 {
      RowCellsCount(r, w - 1);
      assert RowCells(r, w) == RowCells(r, w - 1) + {(r, w - 1)};
    } else {
      assert RowCells(r, w) == {};
    }
  }

  /** The first `n` rows are the first `n - 1` rows and, apart from them, row `n - 1`. */
  lemma RowsSplit(n: nat, w: nat)
    requires n > 0
    ensures |Rows(n, w)| == |Rows(n - 1, w)| + |RowCells(n - 1, w)|
  {
    assert Rows(n, w) == Rows(n - 1, w) + RowCells(n - 1, w);
    assert Rows(n - 1, w) * RowCells(n - 1, w) == {};
  }

  lemma MulStep(n: int, w: int)
    ensures (n - 1) * w + w == n * w
  {
  }

  lemma {:induction false} RowsCount(n: nat, w: nat)
    ensures |Rows(n, w)| == n * w
  {
    if n > 0 {
      RowsCount(n - 1, w);
      RowCellsCount(n - 1, w);
      RowsSplit(n, w);
      MulStep(n, w);
    } else {
      assert Rows(n, w) == {};
    }
  }

  /** The map has rows times columns cells. */
  lemma CellsCount(g: Grid)
    ensures |Cells(g)| == |g| * Width(g)
  {
    RowsCount(|g|, Width(g));
    assert Cells(g) == Rows(|g|, Width(g));
  }

  // ---------------------------------------------------------------------
  // bfs
  // ---------------------------------------------------------------------

  /** The `S` cells of row `r` left of column `c`, left to right. */
  function RowStarts(g: Grid, r: int, c: nat): (s: seq<Cell>)
    ensures forall p :: p in s <==> p.0 == r && p.1 < c && IsStart(g, p)
  {
    if c == 0 then []
    else RowStarts(g, r, c - 1) + if IsStart(g, (r, c - 1)) then [(r, c - 1)] else []
  }

  /** The `S` cells of the first `n` rows in the order the script finds them. */
  function StartList(g: Grid, n: nat): (s: seq<Cell>)
    ensures forall p :: p in s <==> p.0 < n && IsStart(g, p)
  {
    if n == 0 then [] else StartList(g, n - 1) + RowStarts(g, n - 1, Width(g))
  }

  /** `array_fill` with `PHP_INT_MAX`, then 0 at every `S`. */
  function Initial(g: Grid): (dist: Dists)
    requires Rectangular(g)
    ensures Shape(dist, g)
    ensures forall p :: At(dist, p) == if IsStart(g, p) then 0 else Infinity
  {
    seq(|g|, r requires 0 <= r < |g| =>
      seq(Width(g), c requires 0 <= c < Width(g) => if g[r][c] == 'S' then 0 else Infinity))
  }

  /** One pass of the `for ($dir ...)` loop: an open neighbour without a distance gets `$curDist + 1` and is queued. */
  function Relax(g: Grid, dist: Dists, queue: seq<Cell>, cur: int, n: Cell): (Dists, seq<Cell>)
    requires Shape(dist, g)
  {
    if Open(g, n) && At(dist, n) == Infinity then (Set(dist, n, cur + 1), queue + [n])
    else (dist, queue)
  }

  /** Every cell with a distance holds the length of a shortest walk to it, below the number of cells with one. */
  ghost predicate Sound(g: Grid, src: set<Cell>, dist: Dists)
  {
    forall p :: Inside(g, p) && At(dist, p) != Infinity ==>
      0 <= At(dist, p) < |Assigned(g, dist)| && Least(g, src, p, At(dist, p))
  }

  /** Every start has a distance. */
  ghost predicate Seeded(g: Grid, src: set<Cell>, dist: Dists)
  {
    forall s :: s in src ==> Inside(g, s) && At(dist, s) != Infinity
  }

  /** The queue holds cells with distances, in order, spanning at most two consecutive values. */
  ghost predicate Queued(g: Grid, dist: Dists, queue: seq<Cell>)
  {
    && (forall i :: 0 <= i < |queue| ==> Inside(g, queue[i]) && At(dist, queue[i]) != Infinity)
    && (forall i, j :: 0 <= i < j < |queue| ==> At(dist, queue[i]) <= At(dist, queue[j]))
    && (forall i :: 0 <= i < |queue| ==> At(dist, queue[i]) <= At(dist, queue[0]) + 1)
  }

  /** A cell with a distance has been expanded or is waiting in the queue. */
  ghost predicate Accounted(g: Grid, dist: Dists, queue: seq<Cell>, done: set<Cell>)
  {
    forall p :: Inside(g, p) && At(dist, p) != Infinity ==> p in done || p in queue
  }

  /** Every open neighbour of an expanded cell has a distance. */
  ghost predicate Closed(g: Grid, dist: Dists, done: set<Cell>)
  {
    forall p, d: Dir :: p in done && Open(g, Step(p, d)) ==> At(dist, Step(p, d)) != Infinity
  }

  /** Every cell a walk of at most `h` steps reaches has a distance. */
  ghost predicate Frontier(g: Grid, src: set<Cell>, dist: Dists, h: nat)
  {
    forall x :: Reach(g, src, x, h) ==> Inside(g, x) && At(dist, x) != Infinity
  }

  /** The invariant of the `while ($queue)` loop. */
  ghost predicate Searching(g: Grid, src: set<Cell>, dist: Dists, queue: seq<Cell>, done: set<Cell>)
  {
    && Shape(dist, g)
    && Sound(g, src, dist)
    && Seeded(g, src, dist)
    && Queued(g, dist, queue)
    && Accounted(g, dist, queue, done)
    && Closed(g, dist, done)
    && (|queue| > 0 ==> 0 <= At(dist, queue[0]) && Frontier(g, src, dist, At(dist, queue[0])))
  }

  /** The invariant inside the `for ($dir ...)` loop while `c`, at distance `h`, is expanded. */
  ghost predicate Expanding(g: Grid, src: set<Cell>, dist: Dists, queue: seq<Cell>, done: set<Cell>, c: Cell, h: nat, k: nat)
  {
    && Shape(dist, g)
    && Sound(g, src, dist)
    && Seeded(g, src, dist)
    && Closed(g, dist, done)
    && Frontier(g, src, dist, h)
    && Inside(g, c) && At(dist, c) == h && h != Infinity
    && (forall i :: 0 <= i < |queue| ==> Inside(g, queue[i]) && At(dist, queue[i]) != Infinity)
    && (forall i :: 0 <= i < |queue| ==> h <= At(dist, queue[i]) <= h + 1)
    && (forall i, j :: 0 <= i < j < |queue| ==> At(dist, queue[i]) <= At(dist, queue[j]))
    && (forall p :: Inside(g, p) && At(dist, p) != Infinity ==> p in done || p == c || p in queue)
    && (forall d: Dir :: d < k && Open(g, Step(c, d)) ==> At(dist, Step(c, d)) != Infinity)
  }

  /** At the start the `S` cells, and only they, have distance 0, the length of the empty walk. */
  lemma InitialSound(g: Grid)
    requires Rectangular(g)
    ensures Sound(g, Sources(g), Initial(g)) && Seeded(g, Sources(g), Initial(g))
  {
    var src, dist := Sources(g), Initial(g);
    forall p | Inside(g, p) && At(dist, p) != Infinity
      ensures 0 <= At(dist, p) < |Assigned(g, dist)| && Least(g, src, p, At(dist, p))
    {
      assert p in Cells(g) && p in Assigned(g, dist) && p in src;
    }
  }

  /** The starting queue lists `S` cells, all at distance 0. */
  lemma InitialQueued(g: Grid)
    requires Rectangular(g)
    ensures Queued(g, Initial(g), StartList(g, |g|))
  {
    var dist, queue := Initial(g), StartList(g, |g|);
    assert forall i :: 0 <= i < |queue| ==> queue[i] in queue && At(dist, queue[i]) == 0;
  }

  /** The starting queue lists every `S` cell. */
  lemma InitialAccounted(g: Grid)
    requires Rectangular(g)
    ensures Accounted(g, Initial(g), StartList(g, |g|), {})
  {
  }

  lemma InitialSearching(g: Grid)
    requires Rectangular(g)
    ensures Searching(g, Sources(g), Initial(g), StartList(g, |g|), {})
  {
    InitialSound(g);
    InitialQueued(g);
    InitialAccounted(g);
    var src, dist, queue := Sources(g), Initial(g), StartList(g, |g|);
    if |queue| > 0 {
      assert queue[0] in queue;
      forall x | Reach(g, src, x, 0)
        ensures Inside(g, x) && At(dist, x) != Infinity
      {
      }
    }
  }

  lemma PopSearching(g: Grid, src: set<Cell>, dist: Dists, queue: seq<Cell>, done: set<Cell>)
    requires Searching(g, src, dist, queue, done) && |queue| > 0
    ensures At(dist, queue[0]) >= 0
    ensures Expanding(g, src, dist, queue[1..], done, queue[0], At(dist, queue[0]), 0)
  {
    var h := At(dist, queue[0]);
    forall i | 0 <= i < |queue| - 1
      ensures h <= At(dist, queue[1..][i]) <= h + 1
    {
      assert queue[1..][i] == queue[i + 1];
    }
    forall p | Inside(g, p) && At(dist, p) != Infinity
      ensures p in done || p == queue[0] || p in queue[1..]
    {
      if p !in done && p != queue[0] {
        var i :| 0 <= i < |queue| && queue[i] == p;
        assert queue[1..][i - 1] == p;
      }
    }
  }

  /** A neighbour of a cell at shortest distance `h` that no walk of `h` steps reaches is at shortest distance `h + 1`. */
  lemma NextLeast(g: Grid, src: set<Cell>, c: Cell, h: nat, k: Dir)
    requires Least(g, src, c, h) && Open(g, Step(c, k)) && !Reach(g, src, Step(c, k), h)
    ensures Least(g, src, Step(c, k), h + 1)
  {
    var n := Step(c, k);
    StepBack(c, k);
    assert Reach(g, src, Step(n, Back(k)), h);
    forall j: nat | j < h + 1
      ensures !Reach(g, src, n, j)
    {
      if Reach(g, src, n, j) {
        ReachMonotone(g, src, n, j, h);
      }
    }
  }

  /** A cell newly reached from `c` at distance `h` gets the length of a shortest walk. */
  lemma RelaxNew(g: Grid, src: set<Cell>, dist: Dists, c: Cell, h: nat, k: Dir)
    requires Shape(dist, g) && Sound(g, src, dist) && Frontier(g, src, dist, h)
    requires Inside(g, c) && At(dist, c) == h && h != Infinity && |Cells(g)| < Infinity
    requires Open(g, Step(c, k)) && At(dist, Step(c, k)) == Infinity
    ensures h + 1 != Infinity
    ensures Sound(g, src, Set(dist, Step(c, k), h + 1))
  {
    var n := Step(c, k);
    assert Least(g, src, c, h) && h < |Assigned(g, dist)|;
    AssignedBound(g, dist);
    AssignedAdd(g, dist, n, h + 1);
    NextLeast(g, src, c, h, k);
    var d2 := Set(dist, n, h + 1);
    forall p | Inside(g, p) && At(d2, p) != Infinity
      ensures 0 <= At(d2, p) < |Assigned(g, d2)| && Least(g, src, p, At(d2, p))
    {
      if p != n {
        assert At(d2, p) == At(dist, p);
      }
    }
  }

  /** Giving one more cell a distance keeps every fact about which cells have one. */
  lemma RelaxGrows(g: Grid, src: set<Cell>, dist: Dists, d2: Dists, done: set<Cell>, h: nat)
    requires forall p :: At(dist, p) != Infinity ==> At(d2, p) != Infinity
    requires Seeded(g, src, dist) && Closed(g, dist, done) && Frontier(g, src, dist, h)
    ensures Seeded(g, src, d2) && Closed(g, d2, done) && Frontier(g, src, d2, h)
  {
  }

  /** The queue after `n` joins it at distance `h + 1`. */
  lemma RelaxQueue(g: Grid, dist: Dists, queue: seq<Cell>, n: Cell, h: nat)
    requires Shape(dist, g) && Open(g, n) && At(dist, n) == Infinity && h + 1 != Infinity
    requires forall i :: 0 <= i < |queue| ==> Inside(g, queue[i]) && At(dist, queue[i]) != Infinity
    requires forall i :: 0 <= i < |queue| ==> h <= At(dist, queue[i]) <= h + 1
    requires forall i, j :: 0 <= i < j < |queue| ==> At(dist, queue[i]) <= At(dist, queue[j])
    ensures var d2, q2 := Set(dist, n, h + 1), queue + [n];
      && (forall i :: 0 <= i < |q2| ==> Inside(g, q2[i]) && At(d2, q2[i]) != Infinity)
      && (forall i :: 0 <= i < |q2| ==> h <= At(d2, q2[i]) <= h + 1)
      && (forall i, j :: 0 <= i < j < |q2| ==> At(d2, q2[i]) <= At(d2, q2[j]))
  {
    var d2, q2 := Set(dist, n, h + 1), queue + [n];
    assert forall i :: 0 <= i < |queue| ==> q2[i] == queue[i] && queue[i] != n;
    assert q2[|queue|] == n;
  }

  lemma RelaxExpandingNew(g: Grid, src: set<Cell>, dist: Dists, queue: seq<Cell>, done: set<Cell>, c: Cell, h: nat, k: Dir)
    requires Expanding(g, src, dist, queue, done, c, h, k) && |Cells(g)| < Infinity
    requires Open(g, Step(c, k)) && At(dist, Step(c, k)) == Infinity
    ensures Expanding(g, src, Set(dist, Step(c, k), h + 1), queue + [Step(c, k)], done, c, h, k + 1)
  {
    var n := Step(c, k);
    RelaxNew(g, src, dist, c, h, k);
    var d2, q2 := Set(dist, n, h + 1), queue + [n];
    RelaxGrows(g, src, dist, d2, done, h);
    RelaxQueue(g, dist, queue, n, h);
    forall p | Inside(g, p) && At(d2, p) != Infinity
      ensures p in done || p == c || p in q2
    {
      if p != n {
        assert At(d2, p) == At(dist, p);
      }
    }
  }

  lemma RelaxExpanding(g: Grid, src: set<Cell>, dist: Dists, queue: seq<Cell>, done: set<Cell>, c: Cell, h: nat, k: Dir)
    requires Expanding(g, src, dist, queue, done, c, h, k) && |Cells(g)| < Infinity
    ensures var (d2, q2) := Relax(g, dist, queue, h, Step(c, k));
      && Expanding(g, src, d2, q2, done, c, h, k + 1)
      && |Assigned(g, d2)| - |q2| == |Assigned(g, dist)| - |queue|
      && |Assigned(g, d2)| >= |Assigned(g, dist)|
  {
    var n := Step(c, k);
    if Open(g, n) && At(dist, n) == Infinity {
      RelaxNew(g, src, dist, c, h, k);
      AssignedAdd(g, dist, n, h + 1);
      RelaxExpandingNew(g, src, dist, queue, done, c, h, k);
    }
  }

  /** Once every queued distance exceeds `h`, a walk of `h + 1` steps reaches only cells with distances. */
  lemma FrontierAdvance(g: Grid, src: set<Cell>, dist: Dists, queue: seq<Cell>, done: set<Cell>, h: nat)
    requires Sound(g, src, dist) && Seeded(g, src, dist) && Frontier(g, src, dist, h)
    requires Closed(g, dist, done) && Accounted(g, dist, queue, done)
    requires forall i :: 0 <= i < |queue| ==> At(dist, queue[i]) > h
    ensures Frontier(g, src, dist, h + 1)
  {
    forall x | Reach(g, src, x, h + 1)
      ensures Inside(g, x) && At(dist, x) != Infinity
    {
      if x !in src {
        var d: Dir :| Reach(g, src, Step(x, d), h);
        var y := Step(x, d);
        assert Least(g, src, y, At(dist, y));
        assert y !in queue;
        StepBack(x, d);
        assert Step(y, Back(d)) == x;
      }
    }
  }

  lemma FinishSearching(g: Grid, src: set<Cell>, dist: Dists, queue: seq<Cell>, done: set<Cell>, c: Cell, h: nat)
    requires Expanding(g, src, dist, queue, done, c, h, 4)
    ensures Searching(g, src, dist, queue, done + {c})
  {
    if |queue| > 0 && At(dist, queue[0]) != h {
      FrontierAdvance(g, src, dist, queue, done + {c}, h);
    }
  }

  /** With nothing left to expand, every cell a walk reaches has a distance. */
  lemma {:induction false} ReachAssigned(g: Grid, src: set<Cell>, dist: Dists, done: set<Cell>, x: Cell, n: nat)
    requires Seeded(g, src, dist) && Closed(g, dist, done) && Accounted(g, dist, [], done)
    requires Reach(g, src, x, n)
    ensures Inside(g, x) && At(dist, x) != Infinity
    decreases n
  {
    if x !in src {
      var d: Dir :| Reach(g, src, Step(x, d), n - 1);
      var y := Step(x, d);
      ReachAssigned(g, src, dist, done, y, n - 1);
      StepBack(x, d);
      assert Step(y, Back(d)) == x;
    }
  }

  lemma FinalSearching(g: Grid, src: set<Cell>, dist: Dists, done: set<Cell>)
    requires Searching(g, src, dist, [], done)
    ensures forall p :: Inside(g, p) ==> At(dist, p) == Expected(g, src, p)
  {
    forall p | Inside(g, p)
      ensures At(dist, p) == Expected(g, src, p)
    {
      if At(dist, p) != Infinity {
        LeastExpected(g, src, p, At(dist, p));
      } else if Shortest(g, src, p).Some? {
        ReachAssigned(g, src, dist, done, p, Shortest(g, src, p).value);
      }
    }
  }

  /**
   * `bfs`: every cell of the map ends with the length of a shortest walk to
   * it from an `S` over cells that are not `#`, and every cell no such walk
   * reaches, rocks included, keeps `PHP_INT_MAX`.
   */
  method Bfs(g: Grid) returns (dist: Dists)
    requires Rectangular(g) && |g| * Width(g) < Infinity
    ensures Shape(dist, g)
    ensures forall p :: Inside(g, p) ==> At(dist, p) == Expected(g, Sources(g), p)
  {
    CellsCount(g);
    ghost var src := Sources(g);
    dist := Initial(g);
    var queue := StartList(g, |g|);
    ghost var done: set<Cell> := {};
    InitialSearching(g);
    AssignedBound(g, dist);
    while |queue| > 0
      invariant Searching(g, src, dist, queue, done)
      invariant |Assigned(g, dist)| <= |Cells(g)|
      decreases |Cells(g)| - |Assigned(g, dist)|, |queue|
    {
      ghost var size0, len0 := |Assigned(g, dist)|, |queue|;
      var cur := queue[0];
      PopSearching(g, src, dist, queue, done);
      queue := queue[1..];
      var curDist := At(dist, cur);
      for dir := 0 to 4
        invariant Expanding(g, src, dist, queue, done, cur, curDist, dir)
        invariant |Assigned(g, dist)| - |queue| == size0 - (len0 - 1) && |Assigned(g, dist)| >= size0
      {
        RelaxExpanding(g, src, dist, queue, done, cur, curDist, dir);
        var relaxed := Relax(g, dist, queue, curDist, Step(cur, dir));
        dist, queue := relaxed.0, relaxed.1;
      }
      FinishSearching(g, src, dist, queue, done, cur, curDist);
      done := done + {cur};
      AssignedBound(g, dist);
    }
    FinalSearching(g, src, dist, done);
  }

  // ---------------------------------------------------------------------
  // countReachablePlots
  // ---------------------------------------------------------------------

  /** `$dist <= $steps && $dist % 2 === $steps % 2`. */
  predicate Counted(d: int, steps: int)
  {
    d <= steps && PhpMod(d, 2) == PhpMod(steps, 2)
  }

  /** The entries of a row that pass `test`, counted left to right. */
  function CountRow(row: seq<int>, test: int -> bool): nat
  {
    if |row| == 0 then 0
    else CountRow(row[..|row| - 1], test) + if test(row[|row| - 1]) then 1 else 0
  }

  /** The two `foreach` loops over a distance array, counting the entries that pass `test`. */
  function CountWhere(dist: Dists, test: int -> bool): nat
  {
    if |dist| == 0 then 0
    else CountWhere(dist[..|dist| - 1], test) + CountRow(dist[|dist| - 1], test)
  }

  /** The cells of a distance array whose entries pass `test`. */
  ghost function Where(dist: Dists, test: int -> bool): set<Cell>
  {
    set r, c | 0 <= r < |dist| && 0 <= c < |dist[r]| && test(dist[r][c]) :: (r, c)
  }

  /** The cells of row `r` whose entries pass `test`. */
  ghost function RowWhere(row: seq<int>, r: int, test: int -> bool): set<Cell>
  {
    set c | 0 <= c < |row| && test(row[c]) :: (r, c)
  }

  lemma {:induction false} CountRowSet(row: seq<int>, r: int, test: int -> bool)
    ensures CountRow(row, test) == |RowWhere(row, r, test)|
    decreases |row|
  {
    if |row| == 0 {
      assert RowWhere(row, r, test) == {};
    } else {
      var init := row[..|row| - 1];
      CountRowSet(init, r, test);
      var last := if test(row[|row| - 1]) then {(r, |row| - 1)} else {};
      assert RowWhere(row, r, test) == RowWhere(init, r, test) + last;
      assert (r, |row| - 1) !in RowWhere(init, r, test);
    }
  }

  lemma WhereSplit(dist: Dists, test: int -> bool)
    requires |dist| > 0
    ensures |Where(dist, test)| ==
      |Where(dist[..|dist| - 1], test)| + |RowWhere(dist[|dist| - 1], |dist| - 1, test)|
  {
    var init, n := dist[..|dist| - 1], |dist| - 1;
    assert Where(dist, test) == Where(init, test) + RowWhere(dist[n], n, test);
    assert Where(init, test) * RowWhere(dist[n], n, test) == {};
  }

  /** The count is the number of cells of the distance array whose entries pass the test. */
  lemma {:induction false} CountWhereSet(dist: Dists, test: int -> bool)
    ensures CountWhere(dist, test) == |Where(dist, test)|
    decreases |dist|
  {
    if |dist| == 0 {
      assert Where(dist, test) == {};
    } else {
      CountWhereSet(dist[..|dist| - 1], test);
      CountRowSet(dist[|dist| - 1], |dist| - 1, test);
      WhereSplit(dist, test);
    }
  }

  lemma SubsetSize(a: set<Cell>, b: set<Cell>)
    requires a <= b
    ensures |a| <= |b|
  {
    assert b == a + (b - a);
  }

  /** A weaker test passes at least as many entries. */
  lemma CountWhereMono(dist: Dists, test: int -> bool, weaker: int -> bool)
    requires forall x :: test(x) ==> weaker(x)
    ensures CountWhere(dist, test) <= CountWhere(dist, weaker)
  {
    CountWhereSet(dist, test);
    CountWhereSet(dist, weaker);
    var a, b := Where(dist, test), Where(dist, weaker);
    forall p | p in a
      ensures p in b
    {
      var r, c :| 0 <= r < |dist| && 0 <= c < |dist[r]| && test(dist[r][c]) && p == (r, c);
      var v := dist[r][c];
      assert test(v);
      assert weaker(v);
    }
    SubsetSize(a, b);
  }

  /** `countReachablePlots`: the entries of the distance array within `steps` and of its parity. */
  function CountReachablePlots(dist: Dists, steps: int): nat
  {
    CountWhere(dist, d => Counted(d, steps))
  }

  /**
   * For a number of steps below `PHP_INT_MAX` a cell passes the test exactly
   * when a walk reaches it and the shortest one is no longer than the steps
   * and of the same parity; a cell no walk reaches never passes.
   */
  lemma CountedMeaning(g: Grid, src: set<Cell>, p: Cell, steps: int)
    requires 0 <= steps < Infinity
    ensures Counted(Expected(g, src, p), steps) <==>
      exists n: nat :: Least(g, src, p, n) && n <= steps && n % 2 == steps % 2
  {
    if exists n: nat :: Least(g, src, p, n) && n <= steps && n % 2 == steps % 2 {
      var n: nat :| Least(g, src, p, n) && n <= steps && n % 2 == steps % 2;
      LeastExpected(g, src, p, n);
    }
    match Shortest(g, src, p)
    case None =>
    case Some(n) =>
      assert Least(g, src, p, n);
  }

  /** The plots the script counts for `steps`: shortest walk within the steps and of the same parity. */
  ghost function Plots(g: Grid, steps: int): set<Cell>
  {
    set p | p in Cells(g) && Counted(Expected(g, Sources(g), p), steps)
  }

  /**
   * The script: no map makes `count($map[0])` fail; otherwise the answer is
   * the number of plots whose shortest walk from an `S` takes at most 64
   * steps, an even number of them.
   */
  method ReachablePlots(g: Grid) returns (r: Option<nat>)
    requires Rectangular(g) && |g| * Width(g) < Infinity
    ensures r.None? <==> |g| == 0
    ensures r.Some? ==> r.value == |Plots(g, 64)|
  {
    if |g| == 0 {
      return None;
    }
    var dist := Bfs(g);
    var count := CountReachablePlots(dist, 64);
    var test := d => Counted(d, 64);
    CountWhereSet(dist, test);
    assert Where(dist, test) == Plots(g, 64) by {
      forall p | p in Where(dist, test)
        ensures p in Plots(g, 64)
      {
        assert Inside(g, p) && p in Cells(g);
      }
      forall p | p in Plots(g, 64)
        ensures p in Where(dist, test)
      {
        assert Inside(g, p);
      }
    }
    return Some(count);
  }
}
