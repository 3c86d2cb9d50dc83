/**
 * Parabolic reflector dish (day 14, part 1): rounded rocks `O` roll north
 * over empty cells `.` until a cube rock `#`, another rounded rock or the
 * edge stops them; the load adds, for every rounded rock, the number of rows
 * from its row to the south edge.
 *
 * Each column is tilted on its own (the pass over a column reads and writes
 * that column only), so the model tilts one line of cells at a time and
 * assembles the platform from its tilted columns.
 */
module Day14Part1 {
  import opened Common

  type Platform = seq<seq<char>>

  /** The number of rounded rocks in a line of cells. */
  function Rocks(s: seq<char>): nat
  {
    multiset(s)['O']
  }

  /** What stays put when rounded rocks move: a rounded rock counts as the empty cell it may leave. */
  function Frame(c: char): char
  {
    if c == 'O' then '.' else c
  }

  /** Two lines agree except that rounded rocks and empty cells may have traded places. */
  predicate SameFrame(a: seq<char>, b: seq<char>)
  {
    |a| == |b| && forall i :: 0 <= i < |a| ==> Frame(a[i]) == Frame(b[i])
  }

  /** No rounded rock has an empty cell just before it (north, for a column read top down). */
  predicate Settled(s: seq<char>)
  {
    forall i :: 1 <= i < |s| && s[i] == 'O' ==> s[i - 1] != '.'
  }

  /** The inner `while`: from `k`, step back over empty cells. */
  function SlideTarget(line: seq<char>, k: nat): (t: nat)
    requires k < |line|
    ensures t <= k
    ensures forall i :: t <= i < k ==> line[i] == '.'
    ensures t == 0 || line[t - 1] != '.'
  {
    if k > 0 && line[k - 1] == '.' then SlideTarget(line, k - 1) else k
  }

  /** One step of the row loop: a rounded rock at `row` moves to its slide target. */
  function Roll(line: seq<char>, row: nat): (l: seq<char>)
    requires row < |line|
    ensures |l| == |line|
  {
    var t := SlideTarget(line, row);
    if line[row] == 'O' && t != row then line[t := 'O'][row := '.'] else line
  }

  /** The line after the row loop handled rows `0 .. r - 1`. */
  function Processed(line: seq<char>, r: nat): (l: seq<char>)
    requires r <= |line|
    ensures |l| == |line|
  {
    if r == 0 then line else Roll(Processed(line, r - 1), r - 1)
  }

  /** One column after the tilt. */
  function TiltLine(line: seq<char>): seq<char>
  {
    Processed(line, |line|)
  }

  /** A roll swaps a rounded rock with an empty cell: the frame and the rock count stay, later cells stay. */
  lemma RollKeeps(line: seq<char>, row: nat)
    requires row < |line|
    ensures SameFrame(line, Roll(line, row))
    ensures Rocks(Roll(line, row)) == Rocks(line)
    ensures forall i :: row < i < |line| ==> Roll(line, row)[i] == line[i]
  {
    var t := SlideTarget(line, row);
    if line[row] == 'O' && t != row {
      assert line[t] == '.';
    }
  }

  /** A roll after a settled prefix leaves the prefix one longer settled. */
  lemma RollSettles(line: seq<char>, row: nat)
    requires row < |line|
    requires Settled(line[..row])
    ensures Settled(Roll(line, row)[..row + 1])
  {
    var l := Roll(line, row);
    var t := SlideTarget(line, row);
    forall i | 1 <= i <= row && l[i] == 'O'
      ensures l[i - 1] != '.'
    {
      if !(line[row] == 'O' && t != row) {
        if i < row {
          assert line[..row][i] == 'O';
        }
      } else if i < t {
        assert line[..row][i] == 'O';
      }
    }
  }

  /** A roll moves a rounded rock north only: no prefix loses a rock. */
  lemma RollNorth(line: seq<char>, row: nat, k: nat)
    requires row < |line| && k <= |line|
    ensures Rocks(line[..k]) <= Rocks(Roll(line, row)[..k])
  {
    var t := SlideTarget(line, row);
    if line[row] == 'O' && t != row {
      var mid := line[t := 'O'];
      assert line[t] == '.';
      if k <= t {
        assert Roll(line, row)[..k] == line[..k];
      } else if k <= row {
        assert mid[..k] == line[..k][t := 'O'];
        assert Roll(line, row)[..k] == mid[..k];
      } else {
        assert mid[..k] == line[..k][t := 'O'];
        assert Roll(line, row)[..k] == mid[..k][row := '.'];
      }
    }
  }

  /** A roll never carries a rock past a cube rock: the rocks north of any `#` stay as many. */
  lemma RollBarrier(line: seq<char>, row: nat, k: nat)
    requires row < |line| && k < |line| && line[k] == '#'
    ensures Rocks(line[..k]) == Rocks(Roll(line, row)[..k])
  {
    var t := SlideTarget(line, row);
    if line[row] == 'O' && t != row {
      var mid := line[t := 'O'];
      assert line[t] == '.';
      if k <= t {
        assert Roll(line, row)[..k] == line[..k];
      } else {
        assert row < k;
        assert mid[..k] == line[..k][t := 'O'];
        assert Roll(line, row)[..k] == mid[..k][row := '.'];
      }
    }
  }

  lemma FrameKeepsCube(a: seq<char>, b: seq<char>, k: nat)
    requires SameFrame(a, b) && k < |a| && a[k] == '#'
    ensures b[k] == '#'
  {
    assert Frame(a[k]) == Frame(b[k]);
  }

  /** The row loop keeps the number of rocks north of every cube rock. */
  lemma {:induction false} ProcessedBarrier(line: seq<char>, r: nat, k: nat)
    requires r <= |line| && k < |line| && line[k] == '#'
    ensures Rocks(line[..k]) == Rocks(Processed(line, r)[..k])
  {
    if r > 0 {
      var p := Processed(line, r - 1);
      ProcessedBarrier(line, r - 1, k);
      assert p[k] == '#' by {
        ProcessedFrame(line, r - 1);
        FrameKeepsCube(line, p, k);
      }
      RollBarrier(p, r - 1, k);
      assert Processed(line, r) == Roll(p, r - 1);
    }
  }

  /**
   * After rows `0 .. r - 1`: the frame and the rock count are those of the
   * input, the handled prefix is settled, the rest is untouched, and every
   * prefix holds at least as many rocks as before.
   */
  lemma {:induction false} ProcessedKeeps(line: seq<char>, r: nat)
    requires r <= |line|
    ensures SameFrame(line, Processed(line, r))
    ensures Rocks(Processed(line, r)) == Rocks(line)
    ensures Settled(Processed(line, r)[..r])
    ensures forall i :: r <= i < |line| ==> Processed(line, r)[i] == line[i]
    ensures forall k :: 0 <= k <= |line| ==> Rocks(line[..k]) <= Rocks(Processed(line, r)[..k])
    ensures forall k :: 0 <= k < |line| && line[k] == '#' ==> Rocks(line[..k]) == Rocks(Processed(line, r)[..k])
  {
    ProcessedFrame(line, r);
    ProcessedSettles(line, r);
    ProcessedNorth(line, r);
    forall k | 0 <= k < |line| && line[k] == '#'
      ensures Rocks(line[..k]) == Rocks(Processed(line, r)[..k])
    {
      ProcessedBarrier(line, r, k);
    }
  }

  lemma ProcessedFrame(line: seq<char>, r: nat)
    requires r <= |line|
    ensures SameFrame(line, Processed(line, r))
    ensures Rocks(Processed(line, r)) == Rocks(line)
    ensures forall i :: r <= i < |line| ==> Processed(line, r)[i] == line[i]
  {
    ProcessedRollRows(line, r);
    RollKeepsFrame();
    RollRowsFrame(RollAny, line, r);
  }

  lemma ProcessedSettles(line: seq<char>, r: nat)
    requires r <= |line|
    ensures Settled(Processed(line, r)[..r])
  {
    ProcessedRollRows(line, r);
    RollKeepsFrame();
    RollSettlesAll();
    RollRowsSettles(RollAny, line, r);
  }

  lemma ProcessedNorth(line: seq<char>, r: nat)
    requires r <= |line|
    ensures forall k :: 0 <= k <= |line| ==> Rocks(line[..k]) <= Rocks(Processed(line, r)[..k])
  {
    ProcessedRollRows(line, r);
    RollKeepsFrame();
    RollNorthAll();
    RollRowsNorth(RollAny, line, r);
  }

  /** `step` applied at rows `0 .. r - 1` in turn. */
  function RollRows(step: (seq<char>, nat) -> seq<char>, line: seq<char>, r: nat): seq<char>
  {
    if r == 0 then line else step(RollRows(step, line, r - 1), r - 1)
  }

  /** `Roll` at every row of the line, and no change past its end. */
  function RollAny(line: seq<char>, row: nat): seq<char>
  {
    if row < |line| then Roll(line, row) else line
  }

  lemma {:induction false} ProcessedRollRows(line: seq<char>, r: nat)
    requires r <= |line|
    ensures Processed(line, r) == RollRows(RollAny, line, r)
  {
    if r > 0 {
      ProcessedRollRows(line, r - 1);
    }
  }

  /** Every step keeps the length, the frame and the rock count, and the cells after its row. */
  ghost predicate KeepsFrame(step: (seq<char>, nat) -> seq<char>)
  {
    forall a: seq<char>, row: nat :: row < |a| ==>
      |step(a, row)| == |a| && SameFrame(a, step(a, row)) && Rocks(step(a, row)) == Rocks(a)
      && forall i :: row < i < |a| ==> step(a, row)[i] == a[i]
  }

  /** Every step makes a settled prefix one cell longer. */
  ghost predicate ExtendsSettled(step: (seq<char>, nat) -> seq<char>)
  {
    forall a: seq<char>, row: nat :: row < |a| && |step(a, row)| == |a| && Settled(a[..row]) ==>
      Settled(step(a, row)[..row + 1])
  }

  /** No step makes a prefix lose a rock. */
  ghost predicate MovesNorth(step: (seq<char>, nat) -> seq<char>)
  {
    forall a: seq<char>, row: nat, k: nat :: row < |a| && |step(a, row)| == |a| && k <= |a| ==>
      Rocks(a[..k]) <= Rocks(step(a, row)[..k])
  }

  lemma RollKeepsFrame()
    ensures KeepsFrame(RollAny)
  {
    forall a: seq<char>, row: nat | row < |a|
      ensures |RollAny(a, row)| == |a| && SameFrame(a, RollAny(a, row)) && Rocks(RollAny(a, row)) == Rocks(a)
      ensures forall i :: row < i < |a| ==> RollAny(a, row)[i] == a[i]
    {
      RollKeeps(a, row);
    }
  }

  lemma RollSettlesAll()
    ensures ExtendsSettled(RollAny)
  {
    forall a: seq<char>, row: nat | row < |a| && |RollAny(a, row)| == |a| && Settled(a[..row])
      ensures Settled(RollAny(a, row)[..row + 1])
    {
      RollSettles(a, row);
    }
  }

  lemma RollNorthAll()
    ensures MovesNorth(RollAny)
  {
    forall a: seq<char>, row: nat, k: nat | row < |a| && |RollAny(a, row)| == |a| && k <= |a|
      ensures Rocks(a[..k]) <= Rocks(RollAny(a, row)[..k])
    {
      RollNorth(a, row, k);
    }
  }

  lemma {:induction false} RollRowsFrame(step: (seq<char>, nat) -> seq<char>, line: seq<char>, r: nat)
    requires KeepsFrame(step) && r <= |line|
    ensures |RollRows(step, line, r)| == |line|
    ensures SameFrame(line, RollRows(step, line, r))
    ensures Rocks(RollRows(step, line, r)) == Rocks(line)
    ensures forall i :: r <= i < |line| ==> RollRows(step, line, r)[i] == line[i]
  {
    if r > 0 {
      var p := RollRows(step, line, r - 1);
      RollRowsFrame(step, line, r - 1);
      SameFrameTrans(line, p, step(p, r - 1));
    }
  }

  lemma {:induction false} RollRowsSettles(step: (seq<char>, nat) -> seq<char>, line: seq<char>, r: nat)
    requires KeepsFrame(step) && ExtendsSettled(step) && r <= |line|
    ensures |RollRows(step, line, r)| == |line|
    ensures Settled(RollRows(step, line, r)[..r])
  {
    RollRowsFrame(step, line, r);
    if r > 0 {
      RollRowsSettles(step, line, r - 1);
    }
  }

  lemma {:induction false} RollRowsNorth(step: (seq<char>, nat) -> seq<char>, line: seq<char>, r: nat)
    requires KeepsFrame(step) && MovesNorth(step) && r <= |line|
    ensures |RollRows(step, line, r)| == |line|
    ensures forall k :: 0 <= k <= |line| ==> Rocks(line[..k]) <= Rocks(RollRows(step, line, r)[..k])
  {
    RollRowsFrame(step, line, r);
    if r > 0 {
      var p := RollRows(step, line, r - 1);
      RollRowsNorth(step, line, r - 1);
      RollRowsFrame(step, line, r - 1);
      forall k | 0 <= k <= |line|
        ensures Rocks(line[..k]) <= Rocks(step(p, r - 1)[..k])
      {
        assert Rocks(p[..k]) <= Rocks(step(p, r - 1)[..k]);
      }
    }
  }

  lemma SameFrameTrans(a: seq<char>, b: seq<char>, c: seq<char>)
    requires SameFrame(a, b) && SameFrame(b, c)
    ensures SameFrame(a, c)
  {
  }

  /** A tilted column keeps its cube rocks and its rounded-rock count, and is settled. */
  lemma TiltLineKeeps(line: seq<char>)
    ensures SameFrame(line, TiltLine(line))
    ensures Rocks(TiltLine(line)) == Rocks(line)
    ensures Settled(TiltLine(line))
    ensures forall k :: 0 <= k <= |line| ==> Rocks(line[..k]) <= Rocks(TiltLine(line)[..k])
    ensures forall k :: 0 <= k < |line| && line[k] == '#' ==> Rocks(line[..k]) == Rocks(TiltLine(line)[..k])
  {
    ProcessedKeeps(line, |line|);
    assert TiltLine(line)[..|line|] == TiltLine(line);
  }

  /** On a settled column the row loop moves nothing. */
  lemma {:induction false} ProcessedSettled(line: seq<char>, r: nat)
    requires r <= |line| && Settled(line)
    ensures Processed(line, r) == line
  {
    if r > 0 {
      ProcessedSettled(line, r - 1);
      if line[r - 1] == 'O' && r > 1 {
        assert line[r - 2] != '.';
      }
    }
  }

  /** Tilting an already tilted column changes nothing. */
  lemma TiltLineIdempotent(line: seq<char>)
    ensures TiltLine(TiltLine(line)) == TiltLine(line)
  {
    TiltLineKeeps(line);
    ProcessedSettled(TiltLine(line), |line|);
  }

  /** `count($platform[0])`. */
  function Width(p: Platform): nat
    requires |p| >= 1
  {
    |p[0]|
  }

  /**
   * `$platform[$row][$col]`: a cell outside a short row reads PHP's `null`,
   * which is neither `O` nor `.`, so it stops rocks as a cube rock does.
   */
  function Cell(p: Platform, r: int, x: int): char
  {
    if 0 <= r < |p| && 0 <= x < |p[r]| then p[r][x] else '#'
  }

  /** Column `x`, read from the north edge down. */
  function Column(p: Platform, x: int): (col: seq<char>)
    ensures |col| == |p|
  {
    seq(|p|, r => Cell(p, r, x))
  }

  /** `tiltPlatformNorth`: the columns left of the width of row 0 are tilted; everything else stays. */
  function TiltNorth(p: Platform): (t: Platform)
    requires |p| >= 1
    ensures |t| == |p|
    ensures forall r :: 0 <= r < |p| ==> |t[r]| == |p[r]|
  {
    seq(|p|, r requires 0 <= r < |p| =>
      seq(|p[r]|, x requires 0 <= x < |p[r]| =>
        if x < Width(p) then TiltLine(Column(p, x))[r] else p[r][x]))
  }

  /** Every column of the tilted platform is the tilted column. */
  lemma TiltNorthColumns(p: Platform, x: int)
    requires |p| >= 1 && 0 <= x < Width(p)
    ensures Column(TiltNorth(p), x) == TiltLine(Column(p, x))
  {
    var col := Column(p, x);
    TiltLineKeeps(col);
    forall r | 0 <= r < |p|
      ensures Column(TiltNorth(p), x)[r] == TiltLine(col)[r]
    {
      if x >= |p[r]| {
        assert Frame(col[r]) == Frame(TiltLine(col)[r]);
      }
    }
  }

  /**
   * The tilt moves only rounded rocks, only north within their column: cube
   * rocks and the shape stay, each column keeps its rounded-rock count, and
   * above every row a column holds at least as many rounded rocks as before.
   */
  lemma TiltNorthMovesRocksNorth(p: Platform)
    requires |p| >= 1
    ensures forall r, x :: 0 <= r < |p| && 0 <= x < |p[r]| ==> Frame(TiltNorth(p)[r][x]) == Frame(p[r][x])
    ensures forall x :: 0 <= x < Width(p) ==> Rocks(Column(TiltNorth(p), x)) == Rocks(Column(p, x))
    ensures forall x, k :: 0 <= x < Width(p) && 0 <= k <= |p| ==> Rocks(Column(p, x)[..k]) <= Rocks(Column(TiltNorth(p), x)[..k])
    ensures forall x, k :: 0 <= x < Width(p) && 0 <= k < |p| && Column(p, x)[k] == '#' ==> Rocks(Column(p, x)[..k]) == Rocks(Column(TiltNorth(p), x)[..k])
  {
    var t := TiltNorth(p);
    forall r, x | 0 <= r < |p| && 0 <= x < |p[r]|
      ensures Frame(t[r][x]) == Frame(p[r][x])
    {
      if x < Width(p) {
        TiltLineKeeps(Column(p, x));
        assert Column(p, x)[r] == p[r][x];
      }
    }
    forall x | 0 <= x < Width(p)
      ensures Rocks(Column(t, x)) == Rocks(Column(p, x))
      ensures forall k :: 0 <= k <= |p| ==> Rocks(Column(p, x)[..k]) <= Rocks(Column(t, x)[..k])
      ensures forall k :: 0 <= k < |p| && Column(p, x)[k] == '#' ==> Rocks(Column(p, x)[..k]) == Rocks(Column(t, x)[..k])
    {
      TiltNorthColumns(p, x);
      TiltLineKeeps(Column(p, x));
    }
  }

  /** After the tilt no rounded rock left of the width has an empty cell directly north of it. */
  lemma TiltNorthSettled(p: Platform)
    requires |p| >= 1
    ensures forall r, x :: 1 <= r < |p| && 0 <= x < Width(p) && x < |p[r]| && TiltNorth(p)[r][x] == 'O' ==> Cell(TiltNorth(p), r - 1, x) != '.'
  {
    var t := TiltNorth(p);
    forall r, x | 1 <= r < |p| && 0 <= x < Width(p) && x < |p[r]| && t[r][x] == 'O'
      ensures Cell(t, r - 1, x) != '.'
    {
      TiltNorthColumns(p, x);
      TiltLineKeeps(Column(p, x));
      assert Column(t, x)[r] == 'O';
      assert Column(t, x)[r - 1] == Cell(t, r - 1, x);
    }
  }

  /** Tilting an already tilted platform changes nothing. */
  lemma TiltNorthIdempotent(p: Platform)
    requires |p| >= 1
    ensures TiltNorth(TiltNorth(p)) == TiltNorth(p)
  {
    var t := TiltNorth(p);
    forall r | 0 <= r < |p|
      ensures TiltNorth(t)[r] == t[r]
    {
      forall x | 0 <= x < |p[r]| && x < Width(p)
        ensures TiltNorth(t)[r][x] == t[r][x]
      {
        TiltNorthColumns(p, x);
        TiltLineIdempotent(Column(p, x));
        assert Column(t, x)[r] == t[r][x];
      }
    }
  }

  /** The load of the first `n` rows: each rounded rock in row `r` weighs the rows from `r` to the south edge. */
  function RowLoads(p: Platform, n: nat): int
    requires n <= |p|
  {
    if n == 0 then 0 else RowLoads(p, n - 1) + Rocks(p[n - 1]) * (|p| - (n - 1))
  }

  /** `count(array_filter($row, fn($cell) => $cell === 'O'))`. */
  method CountRounded(row: seq<char>) returns (n: nat)
    ensures n == Rocks(row)
  {
    n := 0;
    var x := 0;
    while x < |row|
      invariant 0 <= x <= |row|
      invariant n == Rocks(row[..x])
    {
      assert row[..x + 1] == row[..x] + [row[x]];
      if row[x] == 'O' {
        n := n + 1;
      }
      x := x + 1;
    }
    assert row[..|row|] == row;
  }

  /** `calculateTotalLoad`: every row's rounded rocks times its distance to the south edge, counting its own row. */
  method CalculateTotalLoad(p: Platform) returns (total: int)
    ensures total == RowLoads(p, |p|)
    ensures total >= 0
  {
    total := 0;
    var r := 0;
    while r < |p|
      invariant 0 <= r <= |p|
      invariant total == RowLoads(p, r) && total >= 0
    {
      var count := CountRounded(p[r]);
      total := total + count * (|p| - r);
      r := r + 1;
    }
  }

  /** The part 1 answer: the load after tilting north, `None` for a platform without rows. */
  method NorthLoad(p: Platform) returns (load: Option<int>)
    ensures load.Some? <==> |p| >= 1
    ensures load.Some? ==> load.value == RowLoads(TiltNorth(p), |p|)
  {
    if |p| == 0 {
      return None;
    }
    var total := CalculateTotalLoad(TiltNorth(p));
    return Some(total);
  }
}
