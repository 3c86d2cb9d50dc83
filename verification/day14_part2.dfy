/**
 * Parabolic reflector dish (day 14, part 2): a spin cycle tilts the platform
 * north, west, south and east in turn. The script runs the cycles, detects a
 * repeated rock layout by its hash, and reads the load of the layout the
 * billionth cycle would reach from its cache.
 *
 * `moveRocks` bubbles each rounded rock one cell at a time; it reaches the
 * same column as the slide of part 1. South and east passes are the north and
 * west passes read from the other end of the line.
 */
module Day14Part2 {
  import opened Common
  import opened Day14Part1
  import opened Day14Cycles

  /** A line read from its other end. */
  function Rev(s: seq<char>): (r: seq<char>)
    ensures |r| == |s|
    ensures forall i :: 0 <= i < |s| ==> r[i] == s[|s| - 1 - i]
  {
    seq(|s|, i requires 0 <= i < |s| => s[|s| - 1 - i])
  }

  lemma RevRev(s: seq<char>)
    ensures Rev(Rev(s)) == s
  {
  }

  /**
   * The inner `while` of the `N` pass at row `y`: a rounded rock there is
   * swapped north one cell at a time while an empty cell is before it. It
   * ends where the slide of part 1 puts the rock.
   */
  method BubbleUp(line: seq<char>, y: int) returns (c: seq<char>, z: int)
    requires 0 <= y < |line|
    ensures c == Roll(line, y)
    ensures z == if line[y] == 'O' then SlideTarget(line, y) else y
  {
    c := line;
    z := y;
    while z > 0 && c[z] == 'O' && c[z - 1] == '.'
      invariant line[y] == 'O' ==> SlideTarget(line, y) <= z <= y && c == line[y := '.'][z := 'O']
      invariant line[y] != 'O' ==> c == line && z == y
      decreases z
    {
      c := c[z - 1 := 'O'];
      c := c[z := '.'];
      z := z - 1;
    }
  }

  /** The cells a rock bubbles over, and the one it leaves, are empty after the roll. */
  lemma RollClears(line: seq<char>, row: nat)
    requires row < |line|
    ensures forall j :: (if line[row] == 'O' then SlideTarget(line, row) else row) < j <= row ==> Roll(line, row)[j] == '.'
  {
  }

  /** A pass over line `l` with rows before `r` handled and the cells from row `p` up to `r` empty. */
  ghost predicate Pass(l: seq<char>, f: seq<char>, p: int, r: nat)
  {
    |f| == |l| && 0 <= p <= r <= |l| && f == Processed(l, r) && forall j :: p <= j < r ==> f[j] == '.'
  }

  /**
   * One step of a pass: rows before `r` are handled and the cells from the
   * current row `p` up to `r` are empty. Bubbling row `p` either handles row
   * `r` (when `p` is `r`) or leaves the line alone and moves on by one row.
   */
  lemma PassStep(l: seq<char>, f: seq<char>, g: seq<char>, p: nat, r: nat, p': int, r': nat)
    requires Pass(l, f, p, r) && p < |l|
    requires g == Roll(f, p)
    requires r' == if p == r then r + 1 else r
    requires p' == (if f[p] == 'O' then SlideTarget(f, p) else p) + 1
    ensures Pass(l, g, p', r')
    ensures p < r ==> g == f && p' == p + 1
  {
    if p == r {
      PassHandles(l, f, g, r, p');
    } else {
      assert f[p] == '.';
      PassSkips(f, g, p);
    }
  }

  /** Bubbling the first unhandled row handles it and empties the cells the rock passed. */
  lemma PassHandles(l: seq<char>, f: seq<char>, g: seq<char>, r: nat, p': int)
    requires |f| == |l| && r < |l| && f == Processed(l, r) && g == Roll(f, r)
    requires p' == (if f[r] == 'O' then SlideTarget(f, r) else r) + 1
    ensures g == Processed(l, r + 1) && 0 <= p' <= r + 1
    ensures forall j :: p' <= j < r + 1 ==> g[j] == '.'
  {
    RollClears(f, r);
  }

  /** Bubbling an empty cell changes nothing. */
  lemma PassSkips(f: seq<char>, g: seq<char>, p: nat)
    requires p < |f| && f[p] == '.' && g == Roll(f, p)
    ensures g == f
  {
  }

  /** The `N` (and `W`) pass over one line: the rows in order, each rock bubbled north. */
  method BubbleLine(line: seq<char>) returns (c: seq<char>)
    ensures c == TiltLine(line)
  {
    c := line;
    var y: int := 1;
    ghost var r: nat := if |line| == 0 then 0 else 1;
    while y < |c|
      invariant |c| == |line| && r <= |line|
      invariant c == Processed(line, r)
      invariant 1 <= y && (|line| == 0 || y <= r)
      invariant forall j :: y <= j < r ==> c[j] == '.'
      decreases |line| - r, r - y
    {
      var z;
      ghost var before := c;
      c, z := BubbleUp(c, y);
      ghost var r' := if y == r then r + 1 else r;
      PassStep(line, before, c, y, r, z + 1, r');
      r := r';
      y := z + 1;
    }
  }

  /** Reading a line backwards turns an update at `a` into an update at the mirrored index. */
  lemma RevUpdate(s: seq<char>, a: nat, v: char)
    requires a < |s|
    ensures Rev(s[a := v]) == Rev(s)[|s| - 1 - a := v]
  {
  }

  /** Read backwards, stepping forward over empty cells is the slide of part 1. */
  lemma {:induction false} SlideTargetRev(line: seq<char>, y: nat, z: nat)
    requires y <= z < |line|
    requires forall j :: y < j <= z ==> line[j] == '.'
    requires z == |line| - 1 || line[z + 1] != '.'
    ensures SlideTarget(Rev(line), |line| - 1 - y) == |line| - 1 - z
    decreases z - y
  {
    if y < z {
      SlideTargetRev(line, y + 1, z);
    }
  }

  /**
   * The inner `while` of the `S` pass at row `y`: a rounded rock is swapped
   * south while an empty cell follows it; read backwards, this is `BubbleUp`.
   */
  method BubbleDown(line: seq<char>, y: int) returns (c: seq<char>, z: int)
    requires 0 <= y < |line|
    ensures Rev(c) == Roll(Rev(line), |line| - 1 - y)
    ensures |line| - z == (if Rev(line)[|line| - 1 - y] == 'O' then SlideTarget(Rev(line), |line| - 1 - y) else |line| - 1 - y) + 1
  {
    var n := |line|;
    c := line;
    z := y;
    while z < n - 1 && c[z] == 'O' && c[z + 1] == '.'
      invariant y <= z <= n - 1
      invariant line[y] == 'O' ==> (forall j :: y < j <= z ==> line[j] == '.') && c == line[y := '.'][z := 'O']
      invariant line[y] != 'O' ==> c == line && z == y
      decreases n - z
    {
      c := c[z + 1 := 'O'];
      c := c[z := '.'];
      z := z + 1;
    }
    BubbleDownEnd(line, y, z, c);
    RevAt(line, y);
  }

  /** Where the `S` bubbling stops, the line read backwards is the roll of part 1. */
  lemma BubbleDownEnd(line: seq<char>, y: nat, z: nat, c: seq<char>)
    requires y <= z < |line|
    requires line[y] == 'O' ==> (forall j :: y < j <= z ==> line[j] == '.') && c == line[y := '.'][z := 'O']
    requires line[y] == 'O' ==> z == |line| - 1 || c[z + 1] != '.'
    requires line[y] != 'O' ==> c == line && z == y
    ensures Rev(c) == Roll(Rev(line), |line| - 1 - y)
    ensures |line| - 1 - z == if line[y] == 'O' then SlideTarget(Rev(line), |line| - 1 - y) else |line| - 1 - y
  {
    var n := |line|;
    if line[y] == 'O' {
      if z < n - 1 {
        assert line[z + 1] == c[z + 1];
      }
      SlideTargetRev(line, y, z);
      if z != y {
        BubbleDownMoved(line, y, z);
      } else {
        assert c == line;
        RollStays(Rev(line), n - 1 - y);
      }
    } else {
      assert Rev(line)[n - 1 - y] == line[y];
      RollStays(Rev(line), n - 1 - y);
    }
  }

  lemma BubbleDownMoved(line: seq<char>, y: nat, z: nat)
    requires y < z < |line| && line[y] == 'O'
    requires SlideTarget(Rev(line), |line| - 1 - y) == |line| - 1 - z
    ensures Rev(line[y := '.'][z := 'O']) == Roll(Rev(line), |line| - 1 - y)
  {
    var n := |line|;
    RevAt(line, y);
    RevTwoUpdates(line, y, z);
    RollMoves(Rev(line), n - 1 - y);
  }

  lemma RevAt(line: seq<char>, y: nat)
    requires y < |line|
    ensures Rev(line)[|line| - 1 - y] == line[y]
  {
  }

  /** Reading backwards a line with a rock moved from `y` to `z`. */
  lemma RevTwoUpdates(line: seq<char>, y: nat, z: nat)
    requires y < z < |line|
    ensures Rev(line[y := '.'][z := 'O']) == Rev(line)[|line| - 1 - z := 'O'][|line| - 1 - y := '.']
  {
    SwapUpdates(line, y, '.', z, 'O');
    RevUpdate(line, z, 'O');
    RevUpdate(line[z := 'O'], y, '.');
  }

  /** Updates at two different places commute. */
  lemma SwapUpdates(s: seq<char>, a: nat, u: char, b: nat, v: char)
    requires a < |s| && b < |s| && a != b
    ensures s[a := u][b := v] == s[b := v][a := u]
  {
  }

  lemma RollMoves(f: seq<char>, row: nat)
    requires row < |f| && f[row] == 'O' && SlideTarget(f, row) != row
    ensures Roll(f, row) == f[SlideTarget(f, row) := 'O'][row := '.']
  {
  }

  lemma RollStays(f: seq<char>, row: nat)
    requires row < |f| && (f[row] != 'O' || SlideTarget(f, row) == row)
    ensures Roll(f, row) == f
  {
  }

  /** The `S` (and `E`) pass over one line: rows from the far end, each rock bubbled toward it. */
  method BubbleLineBack(line: seq<char>) returns (c: seq<char>)
    ensures c == Rev(TiltLine(Rev(line)))
  {
    var n := |line|;
    ghost var rl := Rev(line);
    c := line;
    var y: int := n - 1;
    ghost var p: nat := 0;
    ghost var r: nat := 0;
    while y >= 0
      invariant |c| == n && p == n - 1 - y && Pass(rl, Rev(c), p, r)
      decreases n - r, r - p
    {
      var z;
      ghost var before := c;
      c, z := BubbleDown(c, y);
      ghost var r' := if p == r then r + 1 else r;
      PassStep(rl, Rev(before), Rev(c), p, r, n - z, r');
      r := r';
      p := n - z;
      y := z - 1;
    }
    assert r == n;
    RevInjective(c, TiltLine(rl));
  }

  /** A line is the reverse of its reverse. */
  lemma RevInjective(c: seq<char>, t: seq<char>)
    requires Rev(c) == t
    ensures c == Rev(t)
  {
    RevRev(c);
  }

  datatype Direction = North | West | South | East

  /** `DIRECTIONS`: the order of the tilts in one spin cycle. */
  const Directions: seq<Direction> := [North, West, South, East]

  /** The `N` and `S` passes walk columns; the `W` and `E` passes walk rows. */
  predicate Vertical(d: Direction)
  {
    d == North || d == South
  }

  /** The `N` and `W` passes move rocks toward the start of their lines. */
  predicate TowardStart(d: Direction)
  {
    d == North || d == West
  }

  /** Row `y` across the width of row 0, missing cells reading as blockers. */
  function Row(p: Platform, y: int): (row: seq<char>)
    requires |p| >= 1
    ensures |row| == Width(p)
  {
    seq(Width(p), x => Cell(p, y, x))
  }

  /** The number of lines a pass walks: the width for columns, the height for rows. */
  function LineCount(p: Platform, d: Direction): nat
    requires |p| >= 1
  {
    if Vertical(d) then Width(p) else |p|
  }

  /** Line `k` of a pass. */
  function Line(p: Platform, d: Direction, k: int): seq<char>
    requires |p| >= 1
  {
    if Vertical(d) then Column(p, k) else Row(p, k)
  }

  /** One line after the pass in direction `d`. */
  function TiltToward(d: Direction, line: seq<char>): seq<char>
  {
    if TowardStart(d) then TiltLine(line) else Rev(TiltLine(Rev(line)))
  }

  /** No rounded rock has an empty cell just after it. */
  predicate SettledBack(s: seq<char>)
  {
    forall i :: 0 <= i < |s| - 1 && s[i] == 'O' ==> s[i + 1] != '.'
  }

  lemma {:induction false} RevMultiset(s: seq<char>)
    ensures multiset(Rev(s)) == multiset(s)
  {
    if |s| > 0 {
      var tail := s[1..];
      RevMultiset(tail);
      assert Rev(s) == Rev(tail) + [s[0]];
      assert s == [s[0]] + tail;
    }
  }

  /** Reading backwards keeps frames apart from the order, and the rock count. */
  lemma RevKeeps(a: seq<char>, b: seq<char>)
    requires SameFrame(a, b)
    ensures SameFrame(Rev(a), Rev(b))
    ensures Rocks(Rev(a)) == Rocks(a)
  {
    RevMultiset(a);
  }

  /** A line settled toward its start is, read backwards, settled toward its end. */
  lemma RevSettled(s: seq<char>)
    requires Settled(s)
    ensures SettledBack(Rev(s))
  {
    var t := Rev(s);
    forall i | 0 <= i < |t| - 1 && t[i] == 'O'
      ensures t[i + 1] != '.'
    {
      assert s[|s| - 1 - i] == 'O';
    }
  }

  /** The backward pass: the forward tilt of the line read backwards, read backwards again. */
  lemma BackTiltKeeps(line: seq<char>)
    ensures SameFrame(line, Rev(TiltLine(Rev(line))))
    ensures Rocks(Rev(TiltLine(Rev(line)))) == Rocks(line)
    ensures SettledBack(Rev(TiltLine(Rev(line))))
  {
    var rl := Rev(line);
    var t := TiltLine(rl);
    TiltLineKeeps(rl);
    RevKeeps(rl, t);
    RevKeeps(line, line);
    RevRev(line);
    assert Rev(rl) == line;
    RevKeeps(t, t);
    RevSettled(t);
  }

  /** A pass keeps a line's frame and rock count, and leaves it settled toward its direction. */
  lemma TiltTowardKeeps(d: Direction, line: seq<char>)
    ensures SameFrame(line, TiltToward(d, line))
    ensures Rocks(TiltToward(d, line)) == Rocks(line)
    ensures TowardStart(d) ==> Settled(TiltToward(d, line))
    ensures !TowardStart(d) ==> SettledBack(TiltToward(d, line))
  {
    if TowardStart(d) {
      TiltLineKeeps(line);
    } else {
      BackTiltKeeps(line);
    }
  }

  /** `moveRocks` on the lines left of the width of row 0; other cells stay. */
  function Tilted(p: Platform, d: Direction): (t: Platform)
    requires |p| >= 1
    ensures |t| == |p|
    ensures forall r :: 0 <= r < |p| ==> |t[r]| == |p[r]|
  {
    seq(|p|, r requires 0 <= r < |p| =>
      seq(|p[r]|, x requires 0 <= x < |p[r]| => TiltedCell(p, d, r, x)))
  }

  /** The cell at row `r`, column `x` after the pass in direction `d`. */
  function TiltedCell(p: Platform, d: Direction, r: int, x: int): char
    requires 0 <= r < |p| && 0 <= x < |p[r]|
  {
    if x >= Width(p) then p[r][x]
    else if Vertical(d) then TiltToward(d, Column(p, x))[r]
    else TiltToward(d, Row(p, r))[x]
  }

  /** Every line of the tilted platform is the tilted line. */
  lemma TiltedLines(p: Platform, d: Direction, k: int)
    requires |p| >= 1 && 0 <= k < LineCount(p, d)
    ensures Line(Tilted(p, d), d, k) == TiltToward(d, Line(p, d, k))
  {
    var line := Line(p, d, k);
    var t := Tilted(p, d);
    TiltTowardKeeps(d, line);
    assert Width(t) == Width(p);
    forall i | 0 <= i < |line|
      ensures Line(t, d, k)[i] == TiltToward(d, line)[i]
    {
      TiltedLineAt(p, d, k, i);
    }
  }

  lemma TiltedLineAt(p: Platform, d: Direction, k: int, i: int)
    requires |p| >= 1 && 0 <= k < LineCount(p, d) && 0 <= i < |Line(p, d, k)|
    ensures |Line(Tilted(p, d), d, k)| == |Line(p, d, k)|
    ensures Line(Tilted(p, d), d, k)[i] == TiltToward(d, Line(p, d, k))[i]
  {
    var t := Tilted(p, d);
    var line := Line(p, d, k);
    var r := Pos(d, k, i).0;
    var x := Pos(d, k, i).1;
    assert Width(t) == Width(p);
    LineCell(t, d, k, i);
    LineCell(p, d, k, i);
    TiltTowardKeeps(d, line);
    if x < |p[r]| {
      assert t[r][x] == TiltedCell(p, d, r, x);
    } else {
      assert Frame(line[i]) == Frame(TiltToward(d, line)[i]);
    }
  }

  /** The cell one step in direction `d`. */
  function Toward(d: Direction, r: int, x: int): (int, int)
  {
    match d
    case North => (r - 1, x)
    case West => (r, x - 1)
    case South => (r + 1, x)
    case East => (r, x + 1)
  }

  /** A pass swaps rounded rocks with empty cells only: every cell keeps its frame. */
  lemma TiltedFrame(p: Platform, d: Direction)
    requires |p| >= 1
    ensures forall r, x :: 0 <= r < |p| && 0 <= x < |p[r]| ==> Frame(Tilted(p, d)[r][x]) == Frame(p[r][x])
  {
    var t := Tilted(p, d);
    forall r, x | 0 <= r < |p| && 0 <= x < |p[r]|
      ensures Frame(t[r][x]) == Frame(p[r][x])
    {
      if x < Width(p) {
        var k := if Vertical(d) then x else r;
        var i := if Vertical(d) then r else x;
        TiltTowardKeeps(d, Line(p, d, k));
        assert Line(p, d, k)[i] == p[r][x];
      }
    }
  }

  /** Each walked line keeps its number of rounded rocks. */
  lemma TiltedRocks(p: Platform, d: Direction, k: int)
    requires |p| >= 1 && 0 <= k < LineCount(p, d)
    ensures Rocks(Line(Tilted(p, d), d, k)) == Rocks(Line(p, d, k))
  {
    TiltedLines(p, d, k);
    TiltTowardKeeps(d, Line(p, d, k));
  }

  /** After a pass no rounded rock has an empty cell as its neighbour in the direction of the pass. */
  lemma TiltedSettled(p: Platform, d: Direction, r: int, x: int)
    requires |p| >= 1 && 0 <= r < |p| && 0 <= x < Width(p) && x < |p[r]| && Tilted(p, d)[r][x] == 'O'
    requires 0 <= Toward(d, r, x).0 < |p| && 0 <= Toward(d, r, x).1 < Width(p)
    ensures Cell(Tilted(p, d), Toward(d, r, x).0, Toward(d, r, x).1) != '.'
  {
    var t := Tilted(p, d);
    var k := if Vertical(d) then x else r;
    TiltedLines(p, d, k);
    TiltTowardKeeps(d, Line(p, d, k));
    assert Width(t) == Width(p) && |t[r]| == |p[r]|;
    NeighbourFilled(t, d, r, x, k);
  }

  /** On a platform whose line `k` is settled in the direction of the pass, a rock at a cell of that line has a filled neighbour that way. */
  lemma NeighbourFilled(t: Platform, d: Direction, r: int, x: int, k: int)
    requires |t| >= 1 && 0 <= r < |t| && 0 <= x < Width(t) && x < |t[r]| && t[r][x] == 'O'
    requires 0 <= Toward(d, r, x).0 < |t| && 0 <= Toward(d, r, x).1 < Width(t)
    requires k == if Vertical(d) then x else r
    requires TowardStart(d) ==> Settled(Line(t, d, k))
    requires !TowardStart(d) ==> SettledBack(Line(t, d, k))
    ensures Cell(t, Toward(d, r, x).0, Toward(d, r, x).1) != '.'
  {
    var i := if Vertical(d) then r else x;
    var j := if TowardStart(d) then i - 1 else i + 1;
    TowardPos(d, r, x, k, i, j);
    LineCell(t, d, k, i);
    LineCell(t, d, k, j);
  }

  /** Where index `i` of line `k` of a pass sits on the platform. */
  function Pos(d: Direction, k: int, i: int): (int, int)
  {
    if Vertical(d) then (i, k) else (k, i)
  }

  lemma LineCell(p: Platform, d: Direction, k: int, i: int)
    requires |p| >= 1 && 0 <= i < |Line(p, d, k)|
    ensures Line(p, d, k)[i] == Cell(p, Pos(d, k, i).0, Pos(d, k, i).1)
  {
  }

  /** The neighbour in the direction of a pass is the previous or next index of the same line. */
  lemma TowardPos(d: Direction, r: int, x: int, k: int, i: int, j: int)
    requires k == (if Vertical(d) then x else r) && i == (if Vertical(d) then r else x)
    requires j == if TowardStart(d) then i - 1 else i + 1
    ensures Pos(d, k, i) == (r, x) && Pos(d, k, j) == Toward(d, r, x)
  {
  }

  /** Line `k` of a pass written back into the platform, inside the width of row 0 only. */
  function WriteLine(q: Platform, d: Direction, k: int, l: seq<char>): (w: Platform)
    requires |q| >= 1 && 0 <= k < LineCount(q, d) && |l| == |Line(q, d, k)|
    ensures |w| == |q|
    ensures forall r :: 0 <= r < |q| ==> |w[r]| == |q[r]|
  {
    seq(|q|, r requires 0 <= r < |q| =>
      seq(|q[r]|, x requires 0 <= x < |q[r]| =>
        if x < Width(q) && (if Vertical(d) then x else r) == k then l[if Vertical(d) then r else x] else q[r][x]))
  }

  /** `moveRocks`: the pass over every line, each bubbled in the direction of the tilt. */
  method MoveRocks(p: Platform, d: Direction) returns (q: Platform)
    requires |p| >= 1
    ensures q == Tilted(p, d)
  {
    ghost var goal := Tilted(p, d);
    TiltedOutside(p, d);
    q := p;
    var count := if Vertical(d) then Width(p) else |p|;
    var k := 0;
    while k < count
      invariant 0 <= k <= count
      invariant Partial(p, q, goal, d, k)
    {
      PartialLine(p, q, goal, d, k);
      var l;
      if TowardStart(d) {
        l := BubbleLine(Line(q, d, k));
      } else {
        l := BubbleLineBack(Line(q, d, k));
      }
      TiltedLines(p, d, k);
      PartialStep(p, q, goal, d, k, l);
      q := WriteLine(q, d, k, l);
      k := k + 1;
    }
    PartialDone(p, q, goal, d);
  }

  /**
   * The platform `q` during a pass toward `goal`: the lines before `k` are
   * written; every other cell is as in `p`.
   */
  ghost predicate Partial(p: Platform, q: Platform, goal: Platform, d: Direction, k: int)
    requires |p| >= 1
  {
    |q| == |p| && |goal| == |p|
    && (forall r :: 0 <= r < |p| ==> |q[r]| == |p[r]| && |goal[r]| == |p[r]|)
    && forall r, x :: 0 <= r < |p| && 0 <= x < |p[r]| ==>
      q[r][x] == if x < Width(p) && (if Vertical(d) then x else r) < k then goal[r][x] else p[r][x]
  }

  /** Cells beyond the width of row 0 stay put. */
  lemma TiltedOutside(p: Platform, d: Direction)
    requires |p| >= 1
    ensures forall r, x :: 0 <= r < |p| && Width(p) <= x < |p[r]| ==> Tilted(p, d)[r][x] == p[r][x]
  {
  }

  /** The line about to be written is still the line of `p`. */
  lemma PartialLine(p: Platform, q: Platform, goal: Platform, d: Direction, k: int)
    requires |p| >= 1 && 0 <= k < LineCount(p, d) && Partial(p, q, goal, d, k)
    ensures Line(q, d, k) == Line(p, d, k)
  {
    assert Width(q) == Width(p);
  }

  /** Writing the goal's line `k` extends the written part by one line. */
  lemma PartialStep(p: Platform, q: Platform, goal: Platform, d: Direction, k: int, l: seq<char>)
    requires |p| >= 1 && 0 <= k < LineCount(p, d) && Partial(p, q, goal, d, k)
    requires l == Line(goal, d, k)
    ensures |l| == |Line(q, d, k)| && LineCount(q, d) == LineCount(p, d)
    ensures Partial(p, WriteLine(q, d, k, l), goal, d, k + 1)
  {
    assert Width(q) == Width(p) && Width(goal) == Width(p);
    var w := WriteLine(q, d, k, l);
    forall r, x | 0 <= r < |p| && 0 <= x < |p[r]| && x < Width(p) && (if Vertical(d) then x else r) == k
      ensures w[r][x] == goal[r][x]
    {
      LineCell(goal, d, k, if Vertical(d) then r else x);
    }
  }

  /** Once every line is written, the platform is the goal, given that the goal keeps the cells beyond the width. */
  lemma PartialDone(p: Platform, q: Platform, goal: Platform, d: Direction)
    requires |p| >= 1 && Partial(p, q, goal, d, LineCount(p, d))
    requires forall r, x :: 0 <= r < |p| && Width(p) <= x < |p[r]| ==> goal[r][x] == p[r][x]
    ensures q == goal
  {
    forall r | 0 <= r < |p|
      ensures q[r] == goal[r]
    {
    }
  }

  /** The tilts `ds` applied in order. */
  function TiltAll(p: Platform, ds: seq<Direction>): (t: Platform)
    requires |p| >= 1
    ensures |t| == |p|
    ensures forall r :: 0 <= r < |p| ==> |t[r]| == |p[r]|
  {
    if |ds| == 0 then p else Tilted(TiltAll(p, ds[..|ds| - 1]), ds[|ds| - 1])
  }

  /** One spin cycle: north, west, south, east. */
  function SpinCycle(p: Platform): (t: Platform)
    requires |p| >= 1
    ensures |t| == |p|
    ensures forall r :: 0 <= r < |p| ==> |t[r]| == |p[r]|
  {
    TiltAll(p, Directions)
  }

  /** `tiltPattern`: the four passes in the order of `DIRECTIONS`. */
  method TiltPattern(p: Platform) returns (q: Platform)
    requires |p| >= 1
    ensures q == SpinCycle(p)
  {
    q := p;
    var i := 0;
    while i < |Directions|
      invariant 0 <= i <= |Directions|
      invariant q == TiltAll(p, Directions[..i])
    {
      assert Directions[..i + 1][..i] == Directions[..i];
      q := MoveRocks(q, Directions[i]);
      i := i + 1;
    }
    assert Directions[..|Directions|] == Directions;
  }

  /** Two platforms of the same shape whose cells agree up to where the rounded rocks are. */
  predicate SameLayoutFrame(a: Platform, b: Platform)
  {
    |a| == |b| && forall r :: 0 <= r < |a| ==> SameFrame(a[r], b[r])
  }

  /** Tilting in any sequence of directions keeps the shape and every cube rock. */
  lemma {:induction false} TiltAllFrame(p: Platform, ds: seq<Direction>)
    requires |p| >= 1
    ensures SameLayoutFrame(p, TiltAll(p, ds))
  {
    if |ds| > 0 {
      var q := TiltAll(p, ds[..|ds| - 1]);
      TiltAllFrame(p, ds[..|ds| - 1]);
      TiltedFrame(q, ds[|ds| - 1]);
    }
  }

  /** `calculateLoad`: every rounded rock adds the number of rows from its own to the south edge. */
  method CalculateLoad(p: Platform) returns (total: int)
    ensures total == RowLoads(p, |p|)
  {
    total := 0;
    var h := |p|;
    var y := 0;
    while y < h
      invariant 0 <= y <= h
      invariant total == RowLoads(p, y)
    {
      var x := 0;
      while x < |p[y]|
        invariant 0 <= x <= |p[y]|
        invariant total == RowLoads(p, y) + Rocks(p[y][..x]) * (h - y)
      {
        assert p[y][..x + 1] == p[y][..x] + [p[y][x]];
        if p[y][x] == 'O' {
          assert (Rocks(p[y][..x]) + 1) * (h - y) == Rocks(p[y][..x]) * (h - y) + (h - y);
          total := total + h - y;
        }
        x := x + 1;
      }
      assert p[y][..|p[y]|] == p[y];
      y := y + 1;
    }
  }

  /** The rounded rocks of row `y` among its first `n` cells, left to right. */
  function RowHash(row: seq<char>, y: int, n: nat): seq<(int, int)>
    requires n <= |row|
  {
    if n == 0 then []
    else RowHash(row, y, n - 1) + (if row[n - 1] == 'O' then [(y, n - 1)] else [])
  }

  /** The rounded rocks of the first `n` rows, row by row. */
  function HashRows(p: Platform, n: nat): seq<(int, int)>
    requires n <= |p|
  {
    if n == 0 then [] else HashRows(p, n - 1) + RowHash(p[n - 1], n - 1, |p[n - 1]|)
  }

  /** `generateStateHash`: the `y,x;` list of the rounded rocks in reading order, kept as its pairs. */
  function StateHash(p: Platform): seq<(int, int)>
  {
    HashRows(p, |p|)
  }

  lemma {:induction false} RowHashMembers(row: seq<char>, y: int, n: nat)
    requires n <= |row|
    ensures forall r, x :: (r, x) in RowHash(row, y, n) <==> r == y && 0 <= x < n && row[x] == 'O'
  {
    if n > 0 {
      RowHashMembers(row, y, n - 1);
    }
  }

  lemma {:induction false} HashRowsMembers(p: Platform, n: nat)
    requires n <= |p|
    ensures forall r, x :: (r, x) in HashRows(p, n) <==> 0 <= r < n && 0 <= x < |p[r]| && p[r][x] == 'O'
  {
    if n > 0 {
      HashRowsMembers(p, n - 1);
      RowHashMembers(p[n - 1], n - 1, |p[n - 1]|);
    }
  }

  /** The hash lists a cell exactly when it holds a rounded rock. */
  lemma HashMembers(p: Platform)
    ensures forall r, x :: (r, x) in StateHash(p) <==> 0 <= r < |p| && 0 <= x < |p[r]| && p[r][x] == 'O'
  {
    HashRowsMembers(p, |p|);
  }

  lemma {:induction false} RowHashSame(a: seq<char>, b: seq<char>, y: int, n: nat)
    requires n <= |a| == |b|
    requires forall x :: 0 <= x < |a| ==> (a[x] == 'O' <==> b[x] == 'O')
    ensures RowHash(a, y, n) == RowHash(b, y, n)
  {
    if n > 0 {
      RowHashSame(a, b, y, n - 1);
    }
  }

  lemma {:induction false} HashRowsSame(a: Platform, b: Platform, n: nat)
    requires n <= |a| == |b|
    requires forall r :: 0 <= r < |a| ==> |a[r]| == |b[r]|
    requires forall r, x :: 0 <= r < |a| && 0 <= x < |a[r]| ==> (a[r][x] == 'O' <==> b[r][x] == 'O')
    ensures HashRows(a, n) == HashRows(b, n)
  {
    if n > 0 {
      HashRowsSame(a, b, n - 1);
      RowHashSame(a[n - 1], b[n - 1], n - 1, |a[n - 1]|);
    }
  }

  /**
   * On platforms of the same shape, equal hashes mean the same rounded-rock
   * layout and the same layout gives the same hash; with the cube rocks
   * fixed too, the hash determines the platform.
   */
  lemma HashIffLayout(a: Platform, b: Platform)
    requires |a| == |b| && forall r :: 0 <= r < |a| ==> |a[r]| == |b[r]|
    ensures StateHash(a) == StateHash(b) <==> forall r, x :: 0 <= r < |a| && 0 <= x < |a[r]| ==> (a[r][x] == 'O' <==> b[r][x] == 'O')
    ensures SameLayoutFrame(a, b) && StateHash(a) == StateHash(b) ==> a == b
  {
    HashMembers(a);
    HashMembers(b);
    if forall r, x :: 0 <= r < |a| && 0 <= x < |a[r]| ==> (a[r][x] == 'O' <==> b[r][x] == 'O') {
      HashRowsSame(a, b, |a|);
    }
    if SameLayoutFrame(a, b) && StateHash(a) == StateHash(b) {
      forall r | 0 <= r < |a|
        ensures a[r] == b[r]
      {
        forall x | 0 <= x < |a[r]|
          ensures a[r][x] == b[r][x]
        {
          assert Frame(a[r][x]) == Frame(b[r][x]);
          assert (r, x) in StateHash(a) <==> (r, x) in StateHash(b);
        }
      }
    }
  }

  /** No direction moves anything in a line without rounded rocks. */
  lemma NoRocksLine(d: Direction, line: seq<char>)
    requires forall i :: 0 <= i < |line| ==> line[i] != 'O'
    ensures TiltToward(d, line) == line
  {
    ProcessedSettled(line, |line|);
    ProcessedSettled(Rev(line), |line|);
    RevRev(line);
  }

  lemma NoRocksUntilted(p: Platform, d: Direction)
    requires |p| >= 1
    requires forall r, x :: 0 <= r < |p| && 0 <= x < |p[r]| ==> p[r][x] != 'O'
    ensures Tilted(p, d) == p
  {
    forall r | 0 <= r < |p|
      ensures Tilted(p, d)[r] == p[r]
    {
      forall x | 0 <= x < |p[r]|
        ensures Tilted(p, d)[r][x] == p[r][x]
      {
        if x < Width(p) {
          var line := if Vertical(d) then Column(p, x) else Row(p, r);
          assert forall i :: 0 <= i < |line| ==> line[i] != 'O';
          NoRocksLine(d, line);
        }
      }
    }
  }

  /** A platform without rounded rocks is at rest under any run of tilts. */
  lemma {:induction false} NoRocksAtRest(p: Platform, ds: seq<Direction>)
    requires |p| >= 1
    requires forall r, x :: 0 <= r < |p| && 0 <= x < |p[r]| ==> p[r][x] != 'O'
    ensures TiltAll(p, ds) == p
  {
    if |ds| > 0 {
      NoRocksAtRest(p, ds[..|ds| - 1]);
      NoRocksUntilted(p, ds[|ds| - 1]);
    }
  }

  /** A spin cycle, total: an empty platform has nothing to tilt. */
  function Spin(p: Platform): Platform
  {
    if |p| == 0 then p else SpinCycle(p)
  }

  /** The load on the north support beams. */
  function TotalLoad(p: Platform): int
  {
    RowLoads(p, |p|)
  }

  /** The platform after `k` spin cycles. */
  function Orbit(p: Platform, k: nat): Platform
  {
    Iterate(Spin, p, k)
  }

  /** Spin cycles move rocks only: every platform of the run has the frame of the first. */
  lemma {:induction false} OrbitFrame(p: Platform, k: nat)
    requires |p| >= 1
    ensures SameLayoutFrame(p, Orbit(p, k))
  {
    if k > 0 {
      OrbitFrame(p, k - 1);
      TiltAllFrame(Orbit(p, k - 1), Directions);
    }
  }

  /** Along the spin cycles the hash tells the platforms apart. */
  lemma OrbitHash(p: Platform)
    requires |p| >= 1
    ensures HashTells(Spin, StateHash, p)
  {
    forall a: nat, b: nat | StateHash(Iterate(Spin, p, a)) == StateHash(Iterate(Spin, p, b))
      ensures Iterate(Spin, p, a) == Iterate(Spin, p, b)
    {
      OrbitFrame(p, a);
      OrbitFrame(p, b);
      HashIffLayout(Orbit(p, a), Orbit(p, b));
    }
  }

  /**
   * `calculateLoadAfterCycles`: spin cycles until a layout repeats, then the
   * load of the layout the cache holds for the cycle count. With
   * `cacheRepeat` false it is the script as written, which never caches the
   * first repeated layout; `None` is its `calculateLoad(null)` failure.
   */
  method LoadAfterCycles(p0: Platform, cycles: int, cacheRepeat: bool) returns (load: Option<int>)
    requires |p0| >= 1
    ensures load.Some? ==> load.value == TotalLoad(Orbit(p0, CyclesRun(cycles)))
    ensures cacheRepeat ==> load.Some?
    ensures !cacheRepeat && SpinCycle(p0) == p0 && cycles >= 4 ==> load.None?
  {
    OrbitHash(p0);
    OrbitFrame(p0, CyclesRun(cycles));
    var r := FindState(Spin, StateHash, p0, cycles, cacheRepeat);
    if r.None? {
      return None;
    }
    var l := CalculateLoad(r.value);
    return Some(l);
  }

  /** The script as written: the first repeated layout is never cached. */
  method CalculateLoadAfterCycles(p0: Platform, cycles: int) returns (load: Option<int>)
    requires |p0| >= 1
    ensures load.Some? ==> load.value == TotalLoad(Orbit(p0, CyclesRun(cycles)))
    ensures SpinCycle(p0) == p0 && cycles >= 4 ==> load.None?
  {
    load := LoadAfterCycles(p0, cycles, false);
  }

  /** The script with the first repeated layout cached too: always the load after `cycles` spin cycles. */
  method CalculateLoadAfterCyclesFixed(p0: Platform, cycles: int) returns (load: int)
    requires |p0| >= 1
    ensures load == TotalLoad(Orbit(p0, CyclesRun(cycles)))
  {
    var r := LoadAfterCycles(p0, cycles, true);
    load := r.value;
  }

  /**
   * A platform of one empty cell is at rest, so the script as written has no
   * answer for it after four or more cycles, while its load is 0.
   */
  lemma EmptyCellUnanswered()
    ensures SpinCycle([['.']]) == [['.']]
    ensures TotalLoad(Orbit([['.']], 1000000000)) == 0
  {
    NoRocksAtRest([['.']], Directions);
    IterateFixed(Spin, [['.']], 1000000000);
  }
}
