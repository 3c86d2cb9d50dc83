/**
 * Step counter (day 21, part 2): the same map searched from nine points,
 * the corners, edge midpoints and centre of the map, and counts of the
 * cells at each parity and within given distances, which the script then
 * combines into an answer for 26501365 steps on a map repeated without end.
 *
 * `solve` is a second breadth-first search: its queue carries distances,
 * a cell's distance is written when the cell is taken from the queue, and a
 * cell queued twice is skipped the second time. Its contract is part 1's:
 * every cell ends with the length of a shortest walk from the start cell,
 * or `PHP_INT_MAX`. The final combination is not modelled.
 */
module Day21Part2 {
  import opened Common
  import P1 = Day21Part1

  /** `[$row, $col, $dist]`. */
  type Entry = (P1.Cell, int)

  /** The start as a set of walk origins: nothing when the start is off the map. */
  function Origin(g: P1.Grid, start: P1.Cell): set<P1.Cell>
  {
    if P1.Inside(g, start) then {start} else {}
  }

  /** A map with a single `S` at `s`: searching from `s` is part 1's search. */
  lemma OriginIsSources(g: P1.Grid, s: P1.Cell)
    requires P1.IsStart(g, s) && forall p :: P1.IsStart(g, p) ==> p == s
    ensures Origin(g, s) == P1.Sources(g)
  {
    assert s in P1.Cells(g);
  }

  /** `array_fill(0, $gridRows, array_fill(0, $gridCols, $infinity))`. */
  function Unvisited(g: P1.Grid): (dist: P1.Dists)
    ensures P1.Shape(dist, g)
    ensures forall p :: P1.At(dist, p) == P1.Infinity
  {
    seq(|g|, r => seq(P1.Width(g), c => P1.Infinity))
  }

  /** One pass of the `for ($dir ...)` loop: an open neighbour without a distance is queued at `$dist + 1`. */
  function Enqueue(g: P1.Grid, dist: P1.Dists, queue: seq<Entry>, d: int, n: P1.Cell): seq<Entry>
  {
    if P1.Open(g, n) && P1.At(dist, n) == P1.Infinity then queue + [(n, d + 1)] else queue
  }

  // ---------------------------------------------------------------------
  // The invariant of `solve`
  // ---------------------------------------------------------------------

  /** Queued distances are in order and span at most two consecutive values. */
  ghost predicate Sorted(queue: seq<Entry>)
  {
    && (forall i, j :: 0 <= i < j < |queue| ==> queue[i].1 <= queue[j].1)
    && (forall i :: 0 <= i < |queue| ==> queue[i].1 <= queue[0].1 + 1)
  }

  /** A queued distance is the length of some walk to its cell, and at most the number of cells with a distance. */
  ghost predicate Pending(g: P1.Grid, src: set<P1.Cell>, dist: P1.Dists, queue: seq<Entry>)
  {
    forall i :: 0 <= i < |queue| ==>
      && 0 <= queue[i].1 <= |P1.Assigned(g, dist)|
      && (P1.Inside(g, queue[i].0) ==> P1.Reach(g, src, queue[i].0, queue[i].1))
  }

  /** A start has a distance or waits in the queue at 0. */
  ghost predicate Waiting(g: P1.Grid, src: set<P1.Cell>, dist: P1.Dists, queue: seq<Entry>)
  {
    forall s :: s in src ==> P1.Inside(g, s) && (P1.At(dist, s) != P1.Infinity || (s, 0) in queue)
  }

  /** Each open neighbour of a cell with a distance has one too, or waits in the queue one step further. */
  ghost predicate Promised(g: P1.Grid, dist: P1.Dists, queue: seq<Entry>, p: P1.Cell, d: P1.Dir)
  {
    P1.Open(g, P1.Step(p, d)) ==>
      P1.At(dist, P1.Step(p, d)) != P1.Infinity || (P1.Step(p, d), P1.At(dist, p) + 1) in queue
  }

  ghost predicate AllPromised(g: P1.Grid, dist: P1.Dists, queue: seq<Entry>)
  {
    forall p, d: P1.Dir :: P1.Inside(g, p) && P1.At(dist, p) != P1.Infinity ==> Promised(g, dist, queue, p, d)
  }

  /** Every cell a walk shorter than `h` reaches has a distance. */
  ghost predicate Below(g: P1.Grid, src: set<P1.Cell>, dist: P1.Dists, h: nat)
  {
    forall x, n: nat :: n < h && P1.Reach(g, src, x, n) ==> P1.Inside(g, x) && P1.At(dist, x) != P1.Infinity
  }

  /** The invariant of the `while (!empty($queue))` loop. */
  ghost predicate Solving(g: P1.Grid, src: set<P1.Cell>, dist: P1.Dists, queue: seq<Entry>)
  {
    && P1.Shape(dist, g)
    && P1.Sound(g, src, dist)
    && Pending(g, src, dist, queue)
    && Sorted(queue)
    && Waiting(g, src, dist, queue)
    && AllPromised(g, dist, queue)
    && (|queue| > 0 ==> queue[0].1 >= 0 && Below(g, src, dist, queue[0].1))
  }

  /** The invariant inside the `for ($dir ...)` loop while `c`, just given distance `h`, queues its neighbours. */
  ghost predicate Settling(g: P1.Grid, src: set<P1.Cell>, dist: P1.Dists, queue: seq<Entry>, c: P1.Cell, h: nat, k: nat)
  {
    && P1.Shape(dist, g)
    && P1.Sound(g, src, dist)
    && Pending(g, src, dist, queue)
    && (forall i, j :: 0 <= i < j < |queue| ==> queue[i].1 <= queue[j].1)
    && (forall i :: 0 <= i < |queue| ==> h <= queue[i].1 <= h + 1)
    && Waiting(g, src, dist, queue)
    && Below(g, src, dist, h)
    && P1.Inside(g, c) && P1.At(dist, c) == h && h < P1.Infinity
    && (forall p, d: P1.Dir :: P1.Inside(g, p) && P1.At(dist, p) != P1.Infinity && p != c ==> Promised(g, dist, queue, p, d))
    && (forall d: P1.Dir :: d < k ==> Promised(g, dist, queue, c, d))
  }

  lemma InitialSolving(g: P1.Grid, start: P1.Cell)
    ensures Solving(g, Origin(g, start), Unvisited(g), [(start, 0)])
  {
    var dist := Unvisited(g);
    assert P1.Assigned(g, dist) == {};
  }

  /** Once every queued distance exceeds `h`, a walk of `h` steps reaches only cells with distances. */
  lemma BelowAdvance(g: P1.Grid, src: set<P1.Cell>, dist: P1.Dists, queue: seq<Entry>, h: nat)
    requires P1.Sound(g, src, dist) && Waiting(g, src, dist, queue) && AllPromised(g, dist, queue)
    requires Below(g, src, dist, h)
    requires forall i :: 0 <= i < |queue| ==> queue[i].1 > h
    ensures Below(g, src, dist, h + 1)
  {
    forall x, n: nat | n < h + 1 && P1.Reach(g, src, x, n)
      ensures P1.Inside(g, x) && P1.At(dist, x) != P1.Infinity
    {
      if n == h && x in src {
        assert (x, 0) !in queue;
      } else if n == h {
        var d: P1.Dir :| P1.Reach(g, src, P1.Step(x, d), h - 1);
        var y := P1.Step(x, d);
        assert P1.Least(g, src, y, P1.At(dist, y));
        P1.StepBack(x, d);
        assert Promised(g, dist, queue, y, P1.Back(d));
        assert (x, P1.At(dist, y) + 1) !in queue;
      }
    }
  }

  /** Taking an entry whose cell already has a distance, or lies off the map, changes nothing else. */
  lemma SkipSolving(g: P1.Grid, src: set<P1.Cell>, dist: P1.Dists, queue: seq<Entry>)
    requires Solving(g, src, dist, queue) && |queue| > 0
    requires !P1.Inside(g, queue[0].0) || P1.At(dist, queue[0].0) != P1.Infinity
    ensures Solving(g, src, dist, queue[1..])
  {
    var rest := queue[1..];
    assert forall i :: 0 <= i < |rest| ==> rest[i] == queue[i + 1];
    assert forall e :: e in queue && e != queue[0] ==> e in rest;
    assert AllPromised(g, dist, rest) by {
      forall p, d: P1.Dir | P1.Inside(g, p) && P1.At(dist, p) != P1.Infinity
        ensures Promised(g, dist, rest, p, d)
      {
        assert Promised(g, dist, queue, p, d);
      }
    }
    if |rest| > 0 && rest[0].1 != queue[0].1 {
      BelowAdvance(g, src, dist, rest, queue[0].1);
    }
  }

  /** The cell taken from the queue gets the length of a shortest walk. */
  lemma SettleSound(g: P1.Grid, src: set<P1.Cell>, dist: P1.Dists, c: P1.Cell, h: nat)
    requires P1.Shape(dist, g) && P1.Sound(g, src, dist) && Below(g, src, dist, h)
    requires P1.Inside(g, c) && P1.At(dist, c) == P1.Infinity && P1.Reach(g, src, c, h)
    requires h <= |P1.Assigned(g, dist)| && |P1.Cells(g)| < P1.Infinity
    ensures h < P1.Infinity
    ensures P1.Sound(g, src, P1.Set(dist, c, h))
    ensures |P1.Assigned(g, P1.Set(dist, c, h))| == |P1.Assigned(g, dist)| + 1
  {
    P1.AssignedBound(g, dist);
    P1.AssignedAdd(g, dist, c, h);
    var d2 := P1.Set(dist, c, h);
    assert P1.Least(g, src, c, h) by {
      forall k: nat | k < h
        ensures !P1.Reach(g, src, c, k)
      {
      }
    }
    forall p | P1.Inside(g, p) && P1.At(d2, p) != P1.Infinity
      ensures 0 <= P1.At(d2, p) < |P1.Assigned(g, d2)| && P1.Least(g, src, p, P1.At(d2, p))
    {
      if p != c {
        assert P1.At(d2, p) == P1.At(dist, p);
      }
    }
  }

  /** Taking an entry whose cell has no distance yet: the cell gets the entry's distance and its neighbours are still to come. */
  lemma SettleSolving(g: P1.Grid, src: set<P1.Cell>, dist: P1.Dists, queue: seq<Entry>)
    requires Solving(g, src, dist, queue) && |queue| > 0 && |P1.Cells(g)| < P1.Infinity
    requires P1.Inside(g, queue[0].0) && P1.At(dist, queue[0].0) == P1.Infinity
    ensures Settling(g, src, P1.Set(dist, queue[0].0, queue[0].1), queue[1..], queue[0].0, queue[0].1, 0)
    ensures |P1.Assigned(g, P1.Set(dist, queue[0].0, queue[0].1))| == |P1.Assigned(g, dist)| + 1
  {
    var c, h, rest := queue[0].0, queue[0].1, queue[1..];
    SettleSound(g, src, dist, c, h);
    var d2 := P1.Set(dist, c, h);
    assert forall i :: 0 <= i < |rest| ==> rest[i] == queue[i + 1];
    assert forall e :: e in queue && e != queue[0] ==> e in rest;
    forall p, d: P1.Dir | P1.Inside(g, p) && P1.At(d2, p) != P1.Infinity && p != c
      ensures Promised(g, d2, rest, p, d)
    {
      assert P1.At(d2, p) == P1.At(dist, p);
      assert Promised(g, dist, queue, p, d);
    }
  }

  /** Appending to the queue keeps every promise and every waiting start. */
  lemma PushKeeps(g: P1.Grid, src: set<P1.Cell>, dist: P1.Dists, queue: seq<Entry>, e: Entry)
    ensures forall p, d: P1.Dir :: Promised(g, dist, queue, p, d) ==> Promised(g, dist, queue + [e], p, d)
    ensures Waiting(g, src, dist, queue) ==> Waiting(g, src, dist, queue + [e])
  {
    assert forall x :: x in queue ==> x in queue + [e];
  }

  /** A neighbour of a settled cell is queued at a distance some walk takes. */
  lemma PushReach(g: P1.Grid, src: set<P1.Cell>, dist: P1.Dists, c: P1.Cell, h: nat, k: P1.Dir)
    requires P1.Sound(g, src, dist) && P1.Inside(g, c) && P1.At(dist, c) == h && h < P1.Infinity
    requires P1.Open(g, P1.Step(c, k))
    ensures P1.Reach(g, src, P1.Step(c, k), h + 1) && h + 1 <= |P1.Assigned(g, dist)|
  {
    assert P1.Least(g, src, c, h);
    P1.StepBack(c, k);
    assert P1.Reach(g, src, P1.Step(P1.Step(c, k), P1.Back(k)), h);
  }

  /** Queuing an open neighbour without a distance keeps the invariant. */
  lemma PushSettling(g: P1.Grid, src: set<P1.Cell>, dist: P1.Dists, queue: seq<Entry>, c: P1.Cell, h: nat, k: P1.Dir)
    requires Settling(g, src, dist, queue, c, h, k)
    requires P1.Open(g, P1.Step(c, k)) && P1.At(dist, P1.Step(c, k)) == P1.Infinity
    ensures Settling(g, src, dist, queue + [(P1.Step(c, k), h + 1)], c, h, k + 1)
  {
    var n := P1.Step(c, k);
    var q2 := queue + [(n, h + 1)];
    PushReach(g, src, dist, c, h, k);
    PushKeeps(g, src, dist, queue, (n, h + 1));
    assert Pending(g, src, dist, q2) by {
      forall i | 0 <= i < |q2|
        ensures 0 <= q2[i].1 <= |P1.Assigned(g, dist)|
        ensures P1.Inside(g, q2[i].0) ==> P1.Reach(g, src, q2[i].0, q2[i].1)
      {
        if i < |queue| {
          assert q2[i] == queue[i];
        }
      }
    }
    assert forall i :: 0 <= i < |queue| ==> q2[i] == queue[i];
    assert Promised(g, dist, q2, c, k);
  }

  /** One pass of the `for ($dir ...)` loop keeps the invariant and settles one more direction. */
  lemma EnqueueSettling(g: P1.Grid, src: set<P1.Cell>, dist: P1.Dists, queue: seq<Entry>, c: P1.Cell, h: nat, k: P1.Dir)
    requires Settling(g, src, dist, queue, c, h, k)
    ensures Settling(g, src, dist, Enqueue(g, dist, queue, h, P1.Step(c, k)), c, h, k + 1)
  {
    if P1.Open(g, P1.Step(c, k)) && P1.At(dist, P1.Step(c, k)) == P1.Infinity {
      PushSettling(g, src, dist, queue, c, h, k);
    }
  }

  /** After the four directions the loop invariant holds again, with the new head's distance. */
  lemma SettledSolving(g: P1.Grid, src: set<P1.Cell>, dist: P1.Dists, queue: seq<Entry>, c: P1.Cell, h: nat)
    requires Settling(g, src, dist, queue, c, h, 4)
    ensures Solving(g, src, dist, queue)
  {
    assert AllPromised(g, dist, queue) by {
      forall p, d: P1.Dir | P1.Inside(g, p) && P1.At(dist, p) != P1.Infinity
        ensures Promised(g, dist, queue, p, d)
      {
        if p == c {
          assert d < 4;
        }
      }
    }
    if |queue| > 0 && queue[0].1 != h {
      BelowAdvance(g, src, dist, queue, h);
    }
  }

  /** With the queue empty the distances are the shortest walks, each shorter than the number of cells. */
  lemma SolvedExpected(g: P1.Grid, src: set<P1.Cell>, dist: P1.Dists)
    requires Solving(g, src, dist, [])
    ensures forall p :: P1.Inside(g, p) ==> P1.At(dist, p) == P1.Expected(g, src, p)
    ensures forall p, n: nat :: P1.Least(g, src, p, n) ==> n < |P1.Cells(g)|
  {
    var done := P1.Assigned(g, dist);
    assert P1.Closed(g, dist, done) by {
      forall p, d: P1.Dir | p in done && P1.Open(g, P1.Step(p, d))
        ensures P1.At(dist, P1.Step(p, d)) != P1.Infinity
      {
        assert Promised(g, dist, [], p, d);
      }
    }
    P1.FinalSearching(g, src, dist, done);
    forall p, n: nat | P1.Least(g, src, p, n)
      ensures n < |P1.Cells(g)|
    {
      P1.ReachAssigned(g, src, dist, done, p, n);
      P1.LeastExpected(g, src, p, n);
      P1.AssignedBound(g, dist);
    }
  }

  /**
   * `solve`: every cell of the map ends with the length of a shortest walk
   * from the start to it, or `PHP_INT_MAX` when none reaches it; a start off
   * the map is skipped when taken from the queue and leaves every cell
   * unreached. A distance is always below the number of cells.
   */
  method Solve(g: P1.Grid, start: P1.Cell) returns (dist: P1.Dists)
    requires P1.Rectangular(g) && |g| * P1.Width(g) < P1.Infinity
    ensures P1.Shape(dist, g)
    ensures forall p :: P1.Inside(g, p) ==> P1.At(dist, p) == P1.Expected(g, Origin(g, start), p)
    ensures forall p :: P1.At(dist, p) != P1.Infinity ==> 0 <= P1.At(dist, p) < |g| * P1.Width(g)
    ensures forall p, n: nat :: P1.Least(g, Origin(g, start), p, n) ==> n < |g| * P1.Width(g)
  {
    ghost var src := Origin(g, start);
    P1.CellsCount(g);
    dist := Unvisited(g);
    var queue: seq<Entry> := [(start, 0)];
    InitialSolving(g, start);
    P1.AssignedBound(g, dist);
    while |queue| > 0
      invariant Solving(g, src, dist, queue)
      invariant |P1.Assigned(g, dist)| <= |P1.Cells(g)|
      decreases |P1.Cells(g)| - |P1.Assigned(g, dist)|, |queue|
    {
      var cell, d := queue[0].0, queue[0].1;
      if !P1.Inside(g, cell) || P1.At(dist, cell) != P1.Infinity {
        SkipSolving(g, src, dist, queue);
        queue := queue[1..];
        continue;
      }
      SettleSolving(g, src, dist, queue);
      dist := P1.Set(dist, cell, d);
      queue := queue[1..];
      for dir := 0 to 4
        invariant Settling(g, src, dist, queue, cell, d, dir)
      {
        EnqueueSettling(g, src, dist, queue, cell, d, dir);
        queue := Enqueue(g, dist, queue, d, P1.Step(cell, dir));
      }
      SettledSolving(g, src, dist, queue, cell, d);
      P1.AssignedBound(g, dist);
    }
    SolvedExpected(g, src, dist);
    forall p | P1.At(dist, p) != P1.Infinity
      ensures 0 <= P1.At(dist, p) < |g| * P1.Width(g)
    {
      assert P1.Inside(g, p);
    }
  }

  /** With no start on the map no walk reaches anything. */
  lemma {:induction false} NoOriginNoWalk(g: P1.Grid, p: P1.Cell, n: nat)
    ensures !P1.Reach(g, {}, p, n)
    decreases n
  {
    if n > 0 {
      forall d: P1.Dir
        ensures !P1.Reach(g, {}, P1.Step(p, d), n - 1)
      {
        NoOriginNoWalk(g, P1.Step(p, d), n - 1);
      }
    }
  }

  // ---------------------------------------------------------------------
  // processRows: the nine searches
  // ---------------------------------------------------------------------

  /** `$halfSizeOfMatrix * $uIndex`, `$halfSizeOfMatrix * $vIndex`: the row count stands for both sides. */
  function Centre(g: P1.Grid, u: int, v: int): P1.Cell
  {
    (|g| / 2 * u, |g| / 2 * v)
  }

  /** What `solve` promises for a start. */
  ghost predicate Solved(g: P1.Grid, start: P1.Cell, dist: P1.Dists)
  {
    && P1.Shape(dist, g)
    && (forall p :: P1.Inside(g, p) ==> P1.At(dist, p) == P1.Expected(g, Origin(g, start), p))
    && (forall p :: P1.At(dist, p) != P1.Infinity ==> 0 <= P1.At(dist, p) < |g| * P1.Width(g))
    && (forall p, n: nat :: P1.Least(g, Origin(g, start), p, n) ==> n < |g| * P1.Width(g))
  }

  /** `$directionMatrix`: run `u`, `v` holds the shortest walks from `Centre(g, u, v)`. */
  method Runs(g: P1.Grid) returns (runs: seq<seq<P1.Dists>>)
    requires P1.Rectangular(g) && |g| * P1.Width(g) < P1.Infinity
    ensures |runs| == 3 && forall u :: 0 <= u < 3 ==> |runs[u]| == 3
    ensures forall u, v :: 0 <= u < 3 && 0 <= v < 3 ==> Solved(g, Centre(g, u, v), runs[u][v])
  {
    runs := [];
    for u := 0 to 3
      invariant |runs| == u && forall i :: 0 <= i < u ==> |runs[i]| == 3
      invariant forall i, j :: 0 <= i < u && 0 <= j < 3 ==> Solved(g, Centre(g, i, j), runs[i][j])
    {
      var line: seq<P1.Dists> := [];
      for v := 0 to 3
        invariant |line| == v
        invariant forall j :: 0 <= j < v ==> Solved(g, Centre(g, u, j), line[j])
      {
        var dist := Solve(g, Centre(g, u, v));
        line := line + [dist];
      }
      runs := runs + [line];
    }
  }

  /** On a map with an even number of rows the searches from the far edge start off the map and reach nothing. */
  lemma EvenFarRunUnreached(g: P1.Grid, v: int, dist: P1.Dists)
    requires |g| % 2 == 0 && Solved(g, Centre(g, 2, v), dist)
    ensures forall p :: P1.At(dist, p) == P1.Infinity
  {
    assert |g| / 2 * 2 == |g|;
    assert Origin(g, Centre(g, 2, v)) == {};
    forall p | P1.Inside(g, p)
      ensures P1.At(dist, p) == P1.Infinity
    {
      if P1.Shortest(g, {}, p).Some? {
        NoOriginNoWalk(g, p, P1.Shortest(g, {}, p).value);
      }
    }
  }

  // ---------------------------------------------------------------------
  // processRows: the parity counts of the middle search
  // ---------------------------------------------------------------------

  /** `$x < $infinityIndicator && $x % 2 === $bit`. */
  predicate OfParity(x: int, bit: int)
  {
    x < P1.Infinity && PhpMod(x, 2) == bit
  }

  /** `$results[$bit]`: the reached entries of the distance array with remainder `bit`. */
  function CountParity(dist: P1.Dists, bit: int): nat
  {
    P1.CountWhere(dist, x => OfParity(x, bit))
  }

  /** The cells a shortest walk from the origins reaches in a number of steps with remainder `bit`. */
  ghost function ParityPlots(g: P1.Grid, src: set<P1.Cell>, bit: int): set<P1.Cell>
  {
    set p | p in P1.Cells(g) && exists n: nat :: P1.Least(g, src, p, n) && n % 2 == bit
  }

  /** A shortest walk shorter than `PHP_INT_MAX`: the test passes exactly when its length has remainder `bit`. */
  lemma OfParityMeaning(g: P1.Grid, src: set<P1.Cell>, p: P1.Cell, bit: int)
    requires forall n: nat :: P1.Least(g, src, p, n) ==> n < P1.Infinity
    ensures OfParity(P1.Expected(g, src, p), bit) <==> exists n: nat :: P1.Least(g, src, p, n) && n % 2 == bit
  {
    match P1.Shortest(g, src, p)
    case None =>
      assert !exists n: nat :: P1.Least(g, src, p, n);
    case Some(m) =>
      assert P1.Least(g, src, p, m);
      forall n: nat | P1.Least(g, src, p, n)
        ensures n == m
      {
        P1.LeastUnique(g, src, p, n, m);
      }
  }

  /** `$results[$bit]` counts the plots whose shortest walk from the search's start has remainder `bit`. */
  lemma CountParityMeaning(g: P1.Grid, start: P1.Cell, dist: P1.Dists, bit: int)
    requires P1.Rectangular(g) && |g| * P1.Width(g) < P1.Infinity
    requires Solved(g, start, dist)
    ensures CountParity(dist, bit) == |ParityPlots(g, Origin(g, start), bit)|
  {
    var test := x => OfParity(x, bit);
    P1.CountWhereSet(dist, test);
    var src := Origin(g, start);
    assert P1.Where(dist, test) == ParityPlots(g, src, bit) by {
      forall p | p in P1.Where(dist, test)
        ensures p in ParityPlots(g, src, bit)
      {
        assert P1.Inside(g, p) && p in P1.Cells(g);
        OfParityMeaning(g, src, p, bit);
      }
      forall p | p in ParityPlots(g, src, bit)
        ensures p in P1.Where(dist, test)
      {
        assert P1.Inside(g, p);
        OfParityMeaning(g, src, p, bit);
      }
    }
  }

  /** The reached cells are those of even and those of odd distance. */
  lemma ParityCells(dist: P1.Dists)
    requires forall r, c :: 0 <= r < |dist| && 0 <= c < |dist[r]| ==> dist[r][c] >= 0
    ensures P1.Where(dist, x => x < P1.Infinity) == P1.Where(dist, x => OfParity(x, 0)) + P1.Where(dist, x => OfParity(x, 1))
  {
    var even, odd, all := x => OfParity(x, 0), x => OfParity(x, 1), x => x < P1.Infinity;
    var a, b, e := P1.Where(dist, even), P1.Where(dist, odd), P1.Where(dist, all);
    forall p | p in e
      ensures p in a + b
    {
      var r, c :| 0 <= r < |dist| && 0 <= c < |dist[r]| && all(dist[r][c]) && p == (r, c);
      var x := dist[r][c];
      assert even(x) || odd(x);
    }
    forall p | p in a + b
      ensures p in e
    {
      var r, c :| 0 <= r < |dist| && 0 <= c < |dist[r]| && (even(dist[r][c]) || odd(dist[r][c])) && p == (r, c);
      var x := dist[r][c];
      assert all(x);
    }
  }

  /** No cell is of both parities. */
  lemma ParityDisjoint(dist: P1.Dists)
    ensures P1.Where(dist, x => OfParity(x, 0)) * P1.Where(dist, x => OfParity(x, 1)) == {}
  {
    var even, odd := x => OfParity(x, 0), x => OfParity(x, 1);
    var a, b := P1.Where(dist, even), P1.Where(dist, odd);
    forall p | p in a
      ensures p !in b
    {
      var r, c :| 0 <= r < |dist| && 0 <= c < |dist[r]| && even(dist[r][c]) && p == (r, c);
      var x := dist[r][c];
      assert !odd(x);
    }
  }

  /** Every reached cell has remainder 0 or 1, so the two counts share out the reached cells. */
  lemma ParitySplit(dist: P1.Dists)
    requires forall r, c :: 0 <= r < |dist| && 0 <= c < |dist[r]| ==> dist[r][c] >= 0
    ensures CountParity(dist, 0) + CountParity(dist, 1) == P1.CountWhere(dist, x => x < P1.Infinity)
  {
    var even, odd, all := x => OfParity(x, 0), x => OfParity(x, 1), x => x < P1.Infinity;
    P1.CountWhereSet(dist, even);
    P1.CountWhereSet(dist, odd);
    P1.CountWhereSet(dist, all);
    ParityCells(dist);
    ParityDisjoint(dist);
  }

  // ---------------------------------------------------------------------
  // calculateTraversal
  // ---------------------------------------------------------------------

  /** `calculateTraversal`: the entries of run `u`, `v` within `max` steps and of its parity. */
  function CalculateTraversal(runs: seq<seq<P1.Dists>>, u: int, v: int, max: int): nat
    requires 0 <= u < |runs| && 0 <= v < |runs[u]|
  {
    P1.CountReachablePlots(runs[u][v], max)
  }

  /** The cells a shortest walk from the origins reaches in at most `max` steps, a number with the parity of `max`. */
  ghost function WalkPlots(g: P1.Grid, src: set<P1.Cell>, max: int): set<P1.Cell>
  {
    set p | p in P1.Cells(g) && exists n: nat :: P1.Least(g, src, p, n) && n <= max && n % 2 == max % 2
  }

  /** A cell within `max` steps and of its parity is reached and of that parity: the traversal never exceeds the parity count. */
  lemma TraversalWithinParity(runs: seq<seq<P1.Dists>>, u: int, v: int, max: int)
    requires 0 <= u < |runs| && 0 <= v < |runs[u]| && max < P1.Infinity
    ensures CalculateTraversal(runs, u, v, max) <= CountParity(runs[u][v], PhpMod(max, 2))
  {
    P1.CountWhereMono(runs[u][v], d => P1.Counted(d, max), x => OfParity(x, PhpMod(max, 2)));
  }

  /**
   * For a search from `start`, the traversal counts the plots whose shortest
   * walk takes at most `max` steps and a number with the parity of `max`;
   * a negative `max` counts nothing.
   */
  lemma TraversalMeaning(g: P1.Grid, start: P1.Cell, runs: seq<seq<P1.Dists>>, u: int, v: int, max: int)
    requires P1.Rectangular(g) && |g| * P1.Width(g) < P1.Infinity
    requires 0 <= u < |runs| && 0 <= v < |runs[u]| && Solved(g, start, runs[u][v]) && max < P1.Infinity
    ensures CalculateTraversal(runs, u, v, max) == |WalkPlots(g, Origin(g, start), max)|
  {
    var dist, src, test := runs[u][v], Origin(g, start), d => P1.Counted(d, max);
    P1.CountWhereSet(dist, test);
    var want := WalkPlots(g, src, max);
    forall p | P1.Inside(g, p)
      ensures test(P1.At(dist, p)) <==> p in want
    {
      assert p in P1.Cells(g);
      if max >= 0 {
        P1.CountedMeaning(g, src, p, max);
      } else {
        assert P1.At(dist, p) >= 0 || P1.At(dist, p) == P1.Infinity;
      }
    }
    assert P1.Where(dist, test) == want by {
      forall p | p in P1.Where(dist, test)
        ensures p in want
      {
        assert P1.Inside(g, p);
      }
      forall p | p in want
        ensures p in P1.Where(dist, test)
      {
        assert P1.Inside(g, p);
      }
    }
  }
}
