/**
 * The floor will be lava (day 16, part 1): a beam of light enters a grid of
 * mirrors (`/`, `\`) and splitters (`|`, `-`) at the top-left cell heading
 * right; the answer is the number of cells some beam passes through.
 *
 * The script follows beams by recursion and remembers, per cell, the
 * directions already followed from it. The model follows them with an
 * explicit stack of pending beams and a set of (cell, direction) pairs
 * already followed, and proves that the cells it marks are exactly the cells
 * reachable from the start.
 */
module Day16Part1 {
  import opened Common

  datatype Dir = R | L | U | D

  /** A beam entering cell (`x`, `y`) while travelling in direction `dir`. */
  datatype Beam = Beam(x: int, y: int, dir: Dir)

  /** Rows of characters; rows may differ in length. */
  type Grid = seq<seq<char>>

  /** `isset($grid[$y][$x])`. */
  predicate InGrid(grid: Grid, x: int, y: int)
  {
    0 <= y < |grid| && 0 <= x < |grid[y]|
  }

  predicate OnGrid(grid: Grid, b: Beam)
  {
    InGrid(grid, b.x, b.y)
  }

  predicate Horizontal(d: Dir)
  {
    d == L || d == R
  }

  /** `handleMirrorReflections`: the new direction after cell character `c`. */
  function Reflect(c: char, d: Dir): Dir
  {
    if c == '\\' then
      match d
      case R => D
      case L => U
      case U => L
      case D => R
    else if c == '/' then
      match d
      case R => U
      case L => D
      case U => R
      case D => L
    else d
  }

  /**
   * A mirror turns every beam by a quarter turn and undoes itself: reflecting
   * twice in the same mirror gives the original direction back. Any other
   * character leaves the direction alone.
   */
  lemma ReflectSpec(c: char, d: Dir)
    ensures Reflect(c, Reflect(c, d)) == d
    ensures c == '\\' || c == '/' ==> Horizontal(Reflect(c, d)) != Horizontal(d)
    ensures c != '\\' && c != '/' ==> Reflect(c, d) == d
    ensures c == '\\' ==> (Reflect(c, R) == D && Reflect(c, L) == U)
    ensures c == '/' ==> (Reflect(c, R) == U && Reflect(c, L) == D)
  {
  }

  /** The beam one cell further on in direction `d` (the `[$dX, $dY]` step). */
  function Advance(x: int, y: int, d: Dir): Beam
  {
    match d
    case R => Beam(x + 1, y, d)
    case L => Beam(x - 1, y, d)
    case U => Beam(x, y - 1, d)
    case D => Beam(x, y + 1, d)
  }

  /** `handleDirectionSplitters`: a splitter met side-on. */
  predicate Splits(c: char, d: Dir)
  {
    (c == '|' && Horizontal(d)) || (c == '-' && !Horizontal(d))
  }

  /** The beams leaving the cell that beam `b` enters, in the order the script follows them. */
  function Next(grid: Grid, b: Beam): seq<Beam>
    requires OnGrid(grid, b)
  {
    var c := grid[b.y][b.x];
    if c == '|' && Horizontal(b.dir) then [Advance(b.x, b.y, U), Advance(b.x, b.y, D)]
    else if c == '-' && !Horizontal(b.dir) then [Advance(b.x, b.y, R), Advance(b.x, b.y, L)]
    else [Advance(b.x, b.y, Reflect(c, b.dir))]
  }

  /**
   * Every beam leaving a cell moves to a neighbouring cell in its own
   * direction. A splitter met side-on sends out the two beams at right
   * angles; anything else sends out one beam, turned by a mirror or not.
   */
  lemma NextSpec(grid: Grid, b: Beam)
    requires OnGrid(grid, b)
    ensures var n := Next(grid, b);
      forall i :: 0 <= i < |n| ==> n[i] == Advance(b.x, b.y, n[i].dir)
    ensures var n := Next(grid, b);
      var c := grid[b.y][b.x];
      && (Splits(c, b.dir) ==> |n| == 2 && Horizontal(n[0].dir) != Horizontal(b.dir) && n[0].dir != n[1].dir
                                 && Horizontal(n[1].dir) != Horizontal(b.dir))
      && (!Splits(c, b.dir) ==> n == [Advance(b.x, b.y, Reflect(c, b.dir))])
  {
  }

  /** The last beam of the chain `s` followed by `p`. */
  function Last(s: Beam, p: seq<Beam>): Beam
  {
    if |p| == 0 then s else p[|p| - 1]
  }

  /** `p` continues beam `s`: each beam of `p` leaves the cell the beam before it entered. */
  ghost predicate Chain(grid: Grid, s: Beam, p: seq<Beam>)
    decreases |p|
  {
    |p| == 0 ||
    (var q := p[..|p| - 1];
     Chain(grid, s, q) && OnGrid(grid, Last(s, q)) && p[|p| - 1] in Next(grid, Last(s, q)))
  }

  /** Beam `t` arises from beam `s`. */
  ghost predicate Reaches(grid: Grid, s: Beam, t: Beam)
  {
    exists p :: Chain(grid, s, p) && Last(s, p) == t
  }

  lemma ReachesStart(grid: Grid, s: Beam)
    ensures Reaches(grid, s, s)
  {
    assert Chain(grid, s, []) && Last(s, []) == s;
  }

  /** A beam leaving a reached cell is reached too. */
  lemma ReachesStep(grid: Grid, s: Beam, a: Beam, b: Beam)
    requires Reaches(grid, s, a) && OnGrid(grid, a) && b in Next(grid, a)
    ensures Reaches(grid, s, b)
  {
    var p :| Chain(grid, s, p) && Last(s, p) == a;
    var q := p + [b];
    assert q[..|q| - 1] == p;
    assert Chain(grid, s, q) && Last(s, q) == b;
  }

  /** Every on-grid beam leaving the cell `v` enters is in `A` or on `stack`. */
  ghost predicate Covered(grid: Grid, v: Beam, A: set<Beam>, stack: seq<Beam>)
    requires OnGrid(grid, v)
  {
    forall t :: t in Next(grid, v) && OnGrid(grid, t) ==> t in A || t in stack
  }

  /** Every on-grid beam leaving a member of `S` is in `S`. */
  ghost predicate Closed(grid: Grid, S: set<Beam>)
  {
    forall v :: v in S ==> OnGrid(grid, v) && Covered(grid, v, S, [])
  }

  /** A closed set holding `s` holds every on-grid beam `s` reaches. */
  lemma {:induction false} ClosedHoldsReached(grid: Grid, S: set<Beam>, s: Beam, p: seq<Beam>)
    requires Closed(grid, S) && (OnGrid(grid, s) ==> s in S) && Chain(grid, s, p) && OnGrid(grid, Last(s, p))
    ensures Last(s, p) in S
    decreases |p|
  {
    if |p| > 0 {
      var q := p[..|p| - 1];
      ClosedHoldsReached(grid, S, s, q);
      assert Covered(grid, Last(s, q), S, []);
    }
  }

  /** Every on-grid beam: at most four per cell. */
  ghost function AllBeams(grid: Grid): set<Beam>
  {
    set y, x, d: Dir | 0 <= y < |grid| && 0 <= x < |grid[y]| && d in {R, L, U, D} :: Beam(x, y, d)
  }

  lemma InAllBeams(grid: Grid, b: Beam)
    requires OnGrid(grid, b)
    ensures b in AllBeams(grid)
  {
    match b.dir
    case R =>
    case L =>
    case U =>
    case D =>
  }

  /** The cells the beams of `S` enter. */
  function Spots(S: set<Beam>): set<(int, int)>
  {
    set b | b in S :: (b.x, b.y)
  }

  /** Following a new on-grid beam leaves fewer beams to follow, and marks its cell. */
  lemma FollowShrinks(grid: Grid, visited: set<Beam>, b: Beam)
    requires OnGrid(grid, b) && b !in visited && visited <= AllBeams(grid)
    ensures visited + {b} <= AllBeams(grid)
    ensures |AllBeams(grid) - (visited + {b})| < |AllBeams(grid) - visited|
    ensures Spots(visited + {b}) == Spots(visited) + {(b.x, b.y)}
  {
    InAllBeams(grid, b);
    assert AllBeams(grid) - visited == (AllBeams(grid) - (visited + {b})) + {b};
  }

  /** What the traversal knows between two beams. */
  ghost predicate Explored(grid: Grid, start: Beam, visited: set<Beam>, stack: seq<Beam>)
  {
    && (forall v :: v in visited ==> OnGrid(grid, v) && Reaches(grid, start, v) && Covered(grid, v, visited, stack))
    && (forall i :: 0 <= i < |stack| ==> Reaches(grid, start, stack[i]))
    && (OnGrid(grid, start) ==> start in visited || start in stack)
  }

  /** Coverage survives growing the set and replacing the stack by one that keeps what is not in the set. */
  lemma CoveredMono(grid: Grid, v: Beam, A: set<Beam>, stack: seq<Beam>, A': set<Beam>, stack': seq<Beam>)
    requires OnGrid(grid, v) && Covered(grid, v, A, stack)
    requires A <= A' && forall t :: t in stack && OnGrid(grid, t) ==> t in A' || t in stack'
    ensures Covered(grid, v, A', stack')
  {
  }

  /** Following a beam not yet followed keeps the traversal's knowledge. */
  lemma FollowStep(grid: Grid, start: Beam, visited: set<Beam>, stack: seq<Beam>)
    requires |stack| > 0 && OnGrid(grid, stack[0]) && stack[0] !in visited
    requires Explored(grid, start, visited, stack)
    ensures Explored(grid, start, visited + {stack[0]}, Next(grid, stack[0]) + stack[1..])
  {
    var b := stack[0];
    var visited' := visited + {b};
    var stack' := Next(grid, b) + stack[1..];
    forall i | 0 <= i < |stack'|
      ensures Reaches(grid, start, stack'[i])
    {
      if i < |Next(grid, b)| {
        ReachesStep(grid, start, b, stack'[i]);
      } else {
        assert stack'[i] == stack[i - |Next(grid, b)| + 1];
      }
    }
    forall t | t in stack
      ensures t in visited' || t in stack'
    {
      if t != b {
        var i :| 0 <= i < |stack| && stack[i] == t;
        assert stack'[i - 1 + |Next(grid, b)|] == t;
      }
    }
    forall v | v in visited'
      ensures Covered(grid, v, visited', stack')
    {
      if v == b {
        assert forall t :: t in Next(grid, b) ==> t in stack';
      } else {
        CoveredMono(grid, v, visited, stack, visited', stack');
      }
    }
  }

  /** Dropping a beam that leaves the grid or was already followed keeps the traversal's knowledge. */
  lemma DropStep(grid: Grid, start: Beam, visited: set<Beam>, stack: seq<Beam>)
    requires |stack| > 0 && (!OnGrid(grid, stack[0]) || stack[0] in visited)
    requires Explored(grid, start, visited, stack)
    ensures Explored(grid, start, visited, stack[1..])
  {
    forall t | t in stack && OnGrid(grid, t)
      ensures t in visited || t in stack[1..]
    {
      if t != stack[0] {
        var i :| 0 <= i < |stack| && stack[i] == t;
        assert stack[1..][i - 1] == t;
      }
    }
    forall v | v in visited
      ensures Covered(grid, v, visited, stack[1..])
    {
      CoveredMono(grid, v, visited, stack, visited, stack[1..]);
    }
    forall i | 0 <= i < |stack[1..]|
      ensures Reaches(grid, start, stack[1..][i])
    {
      assert stack[1..][i] == stack[i + 1];
    }
  }

  /** One call of `traverseGrid` on the beam at the top of the stack, without its recursive calls. */
  method Visit(grid: Grid, ghost start: Beam, visited: set<Beam>, marked: set<(int, int)>, stack: seq<Beam>)
    returns (visited': set<Beam>, marked': set<(int, int)>, stack': seq<Beam>)
    requires |stack| > 0 && Explored(grid, start, visited, stack)
    requires visited <= AllBeams(grid) && marked == Spots(visited)
    ensures Explored(grid, start, visited', stack')
    ensures visited' <= AllBeams(grid) && marked' == Spots(visited')
    ensures || |AllBeams(grid) - visited'| < |AllBeams(grid) - visited|
            || (visited' == visited && |stack'| < |stack|)
  {
    var b := stack[0];
    marked' := marked;
    if OnGrid(grid, b) {
      marked' := marked + {(b.x, b.y)};
    }
    if OnGrid(grid, b) && b !in visited {
      FollowStep(grid, start, visited, stack);
      FollowShrinks(grid, visited, b);
      visited' := visited + {b};
      stack' := Next(grid, b) + stack[1..];
    } else {
      DropStep(grid, start, visited, stack);
      visited' := visited;
      stack' := stack[1..];
    }
  }

  /**
   * `traverseGrid`: follows every beam arising from `start`. A beam off the
   * grid ends; a beam on the grid marks its cell, and is followed further
   * only if its (cell, direction) pair has not been followed before. The
   * followed pairs are exactly the on-grid beams `start` reaches, and the
   * marked cells are exactly the cells they enter.
   */
  method Traverse(grid: Grid, start: Beam) returns (visited: set<Beam>, marked: set<(int, int)>)
    ensures forall b :: b in visited <==> OnGrid(grid, b) && Reaches(grid, start, b)
    ensures marked == Spots(visited)
  {
    visited := {};
    marked := {};
    var stack := [start];
    ReachesStart(grid, start);
    while |stack| > 0
      invariant Explored(grid, start, visited, stack)
      invariant visited <= AllBeams(grid)
      invariant marked == Spots(visited)
      decreases |AllBeams(grid) - visited|, |stack|
    {
      visited, marked, stack := Visit(grid, start, visited, marked, stack);
    }
    ExploredAll(grid, start, visited);
  }

  /** With nothing left to follow, the followed beams are exactly the on-grid beams `start` reaches. */
  lemma ExploredAll(grid: Grid, start: Beam, visited: set<Beam>)
    requires Explored(grid, start, visited, [])
    ensures forall b :: b in visited <==> OnGrid(grid, b) && Reaches(grid, start, b)
  {
    assert Closed(grid, visited);
    forall b | OnGrid(grid, b) && Reaches(grid, start, b)
      ensures b in visited
    {
      var p :| Chain(grid, start, p) && Last(start, p) == b;
      ClosedHoldsReached(grid, visited, start, p);
    }
  }

  /** The cells of the grid. */
  ghost function Cells(grid: Grid): set<(int, int)>
  {
    set y, x | 0 <= y < |grid| && 0 <= x < |grid[y]| :: (x, y)
  }

  /** The cells some beam arising from `start` enters: the energized tiles. */
  ghost function Energized(grid: Grid, start: Beam): set<(int, int)>
  {
    set y, x | 0 <= y < |grid| && 0 <= x < |grid[y]| && exists d :: Reaches(grid, start, Beam(x, y, d)) :: (x, y)
  }

  /** No start energizes more tiles than the grid has cells. */
  lemma EnergizedBound(grid: Grid)
    ensures forall start :: |Energized(grid, start)| <= |Cells(grid)|
  {
    forall start
      ensures |Energized(grid, start)| <= |Cells(grid)|
    {
      var e := Energized(grid, start);
      assert Cells(grid) == e + (Cells(grid) - e);
    }
  }

  /** The marked cells of a finished traversal are exactly the energized tiles. */
  lemma MarkedEnergized(grid: Grid, start: Beam, visited: set<Beam>, marked: set<(int, int)>)
    requires forall b :: b in visited <==> OnGrid(grid, b) && Reaches(grid, start, b)
    requires marked == Spots(visited)
    ensures marked == Energized(grid, start)
  {
    forall p | p in marked
      ensures p in Energized(grid, start)
    {
      var b :| b in visited && p == (b.x, b.y);
    }
    forall p | p in Energized(grid, start)
      ensures p in marked
    {
      var d :| Reaches(grid, start, Beam(p.0, p.1, d));
      assert Beam(p.0, p.1, d) in visited;
    }
  }

  /**
   * `getEnergizedCount` for one start, corrected: the number of marked cells,
   * which is the number of energized tiles and no more than the number of
   * cells.
   */
  method EnergizedCount(grid: Grid, start: Beam) returns (count: nat)
    ensures count == |Energized(grid, start)|
    ensures count <= |Cells(grid)|
  {
    var visited, marked := Traverse(grid, start);
    MarkedEnergized(grid, start, visited, marked);
    EnergizedBound(grid);
    count := |marked|;
  }

  /** `getEnergizedCount`, corrected: the beam enters the top-left cell heading right. */
  method EnergizedTiles(grid: Grid) returns (count: nat)
    ensures count == |Energized(grid, Beam(0, 0, R))|
    ensures count <= |Cells(grid)|
  {
    count := EnergizedCount(grid, Beam(0, 0, R));
  }

  /** The cells holding the character '1'. */
  function Ones(grid: Grid): (s: set<(int, int)>)
    ensures forall x, y :: (x, y) in s <==> InGrid(grid, x, y) && grid[y][x] == '1'
  {
    set y, x | 0 <= y < |grid| && 0 <= x < |grid[y]| && grid[y][x] == '1' :: (x, y)
  }

  /**
   * `getEnergizedCount` for one start, as written. The energized map starts
   * as a copy of the grid, the traversal writes the integer 1 into every
   * cell a beam enters, and `array_count_values($row)[1]` counts the cells
   * whose value has the array key 1. The string "1" has that key too, so a
   * cell holding '1' counts whether a beam entered it or not.
   */
  method EnergizedCountAsWritten(grid: Grid, start: Beam) returns (count: nat)
    ensures count == |Energized(grid, start) + Ones(grid)|
    ensures |Energized(grid, start)| <= count <= |Cells(grid)|
    ensures count == |Energized(grid, start)| <==> Ones(grid) <= Energized(grid, start)
  {
    var visited, marked := Traverse(grid, start);
    MarkedEnergized(grid, start, visited, marked);
    var e := Energized(grid, start);
    var u := marked + Ones(grid);
    assert u == e + (Ones(grid) - e);
    assert u <= Cells(grid);
    assert Cells(grid) == u + (Cells(grid) - u);
    count := |u|;
  }

  /** `getEnergizedCount` as written, from the top-left cell heading right. */
  method EnergizedTilesAsWritten(grid: Grid) returns (count: nat)
    ensures count == |Energized(grid, Beam(0, 0, R)) + Ones(grid)|
    ensures Ones(grid) == {} ==> count == |Energized(grid, Beam(0, 0, R))|
  {
    count := EnergizedCountAsWritten(grid, Beam(0, 0, R));
  }

  /**
   * On the grid `|1` the beam splits at the first cell and both halves leave
   * the grid, so one tile is energized; the script counts the '1' as well
   * and answers 2.
   */
  lemma StrayOneCounted()
    ensures var grid := ["|1"];
      && Energized(grid, Beam(0, 0, R)) == {(0, 0)}
      && |Energized(grid, Beam(0, 0, R))| == 1
      && |Energized(grid, Beam(0, 0, R)) + Ones(grid)| == 2
  {
    var grid: Grid := ["|1"];
    var start := Beam(0, 0, R);
    var S := {start};
    assert Next(grid, start) == [Beam(0, -1, U), Beam(0, 1, D)];
    assert Closed(grid, S);
    ReachesStart(grid, start);
    assert (0, 0) in Energized(grid, start);
    forall p | p in Energized(grid, start)
      ensures p == (0, 0)
    {
      var d :| Reaches(grid, start, Beam(p.0, p.1, d));
      var q :| Chain(grid, start, q) && Last(start, q) == Beam(p.0, p.1, d);
      ClosedHoldsReached(grid, S, start, q);
    }
    assert Energized(grid, start) == {(0, 0)};
    assert (1, 0) in Ones(grid);
    assert Ones(grid) == {(1, 0)};
    assert Energized(grid, start) + Ones(grid) == {(0, 0), (1, 0)};
  }

  /** A rectangular grid has height times width cells. */
  lemma CellsCount(grid: Grid)
    requires |grid| > 0 && forall y :: 0 <= y < |grid| ==> |grid[y]| == |grid[0]|
    ensures |Cells(grid)| == |grid| * |grid[0]|
  {
    RowsCount(grid, |grid|);
    assert Cells(grid) == RowCells(grid, |grid|);
  }

  /** The cells of the first `n` rows. */
  ghost function RowCells(grid: Grid, n: nat): set<(int, int)>
    requires n <= |grid|
  {
    set y, x | 0 <= y < n && 0 <= x < |grid[y]| :: (x, y)
  }

  /** The cells of row `y`. */
  ghost function Row(y: int, w: nat): set<(int, int)>
  {
    set x | 0 <= x < w :: (x, y)
  }

  lemma {:induction false} RowCount(y: int, w: nat)
    ensures |Row(y, w)| == w
  {
    if w > 0 {
      RowCount(y, w - 1);
      assert Row(y, w) == Row(y, w - 1) + {(w - 1, y)};
    } else {
      assert Row(y, w) == {};
    }
  }

  /** The first `n` rows' cells are the first `n - 1` rows' cells and, apart from them, row `n - 1`'s. */
  lemma RowCellsSplit(grid: Grid, n: nat)
    requires 0 < n <= |grid|
    ensures RowCells(grid, n) == RowCells(grid, n - 1) + Row(n - 1, |grid[n - 1]|)
    ensures |RowCells(grid, n)| == |RowCells(grid, n - 1)| + |Row(n - 1, |grid[n - 1]|)|
  {
    var w := |grid[n - 1]|;
    forall c | c in RowCells(grid, n)
      ensures c in RowCells(grid, n - 1) + Row(n - 1, w)
    {
      if c.1 < n - 1 {
        assert c in RowCells(grid, n - 1);
      } else {
        assert c in Row(n - 1, w);
      }
    }
    forall c | c in RowCells(grid, n - 1) + Row(n - 1, w)
      ensures c in RowCells(grid, n)
    {
      assert 0 <= c.1 < n && 0 <= c.0 < |grid[c.1]|;
    }
    assert RowCells(grid, n - 1) * Row(n - 1, w) == {};
  }

  lemma MulStep(n: int, w: int)
    ensures (n - 1) * w + w == n * w
  {
  }

  lemma {:induction false} RowsCount(grid: Grid, n: nat)
    requires n <= |grid| && |grid| > 0 && forall y :: 0 <= y < |grid| ==> |grid[y]| == |grid[0]|
    ensures |RowCells(grid, n)| == n * |grid[0]|
  {
    if n > 0 {
      RowsCount(grid, n - 1);
      RowCount(n - 1, |grid[0]|);
      RowCellsSplit(grid, n);
      assert |grid[n - 1]| == |grid[0]|;
      MulStep(n, |grid[0]|);
    } else {
      assert RowCells(grid, n) == {};
    }
  }

}
