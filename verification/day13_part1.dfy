/**
 * Point of incidence (day 13, part 1): a pattern block reflects across a
 * vertical line before column `p` when every column pair at equal distance
 * from the line, both inside the block, agrees; likewise across a horizontal
 * line before row `m`. The score adds the columns left of every vertical
 * line and 100 times the rows above every horizontal line.
 */
module Day13Part1 {
  import opened Common

  /** A block after `.`/`#` became `0`/`1`: one character per cell. */
  type Block = seq<seq<char>>

  const YReflectionFactor: int := 100

  /** `$patternBlock[$y][$x]`, PHP's `null` outside the block. */
  function Cell(b: Block, y: int, x: int): (c: Option<char>)
    ensures c.Some? <==> 0 <= y < |b| && 0 <= x < |b[y]|
  {
    if 0 <= y < |b| && 0 <= x < |b[y]| then Some(b[y][x]) else None
  }

  /** `count($patternBlock[0])`. */
  function Width(b: Block): nat
    requires |b| >= 1
  {
    |b[0]|
  }

  /** Columns `l` and `r` agree in every row. */
  predicate ColumnsAgree(b: Block, l: int, r: int)
  {
    forall y :: 0 <= y < |b| ==> Cell(b, y, l) == Cell(b, y, r)
  }

  /** Rows `t` and `u` agree in the first `w` columns. */
  predicate RowsAgree(b: Block, t: int, u: int, w: int)
  {
    forall x :: 0 <= x < w ==> Cell(b, t, x) == Cell(b, u, x)
  }

  /** Every pair of columns mirrored across the line before column `p`, both inside the width, agrees. */
  predicate VerticalMirror(b: Block, p: int)
    requires |b| >= 1
  {
    forall l, r :: 0 <= l < p <= r < Width(b) && l + r == 2 * p - 1 ==> ColumnsAgree(b, l, r)
  }

  /** Every pair of rows mirrored across the line before row `m`, both inside the block, agrees. */
  predicate HorizontalMirror(b: Block, m: int)
    requires |b| >= 1
  {
    forall t, u :: 0 <= t < m <= u < |b| && t + u == 2 * m - 1 ==> RowsAgree(b, t, u, Width(b))
  }

  datatype Axis = Vertical | Horizontal

  predicate Mirror(b: Block, axis: Axis, p: int)
    requires |b| >= 1
  {
    match axis
    case Vertical => VerticalMirror(b, p)
    case Horizontal => HorizontalMirror(b, p)
  }

  /** The number of candidate lines plus one: the width for vertical lines, the height for horizontal ones. */
  function Dimension(b: Block, axis: Axis): nat
    requires |b| >= 1
  {
    match axis
    case Vertical => Width(b)
    case Horizontal => |b|
  }

  /** The lines `1 ≤ p < n` across which the block reflects, in ascending order. */
  function MirrorPoints(b: Block, axis: Axis, n: nat): seq<int>
    requires |b| >= 1
  {
    if n <= 1 then []
    else MirrorPoints(b, axis, n - 1) + (if Mirror(b, axis, n - 1) then [n - 1] else [])
  }

  /** The listed lines are exactly the reflecting lines below `n`, each once and in ascending order. */
  lemma {:induction false} MirrorPointsSpec(b: Block, axis: Axis, n: nat)
    requires |b| >= 1
    ensures forall p :: p in MirrorPoints(b, axis, n) <==> 1 <= p < n && Mirror(b, axis, p)
    ensures forall i :: 0 <= i < |MirrorPoints(b, axis, n)| ==> 1 <= MirrorPoints(b, axis, n)[i] < n
    ensures forall i, j :: 0 <= i < j < |MirrorPoints(b, axis, n)| ==> MirrorPoints(b, axis, n)[i] < MirrorPoints(b, axis, n)[j]
  {
    if n > 1 {
      MirrorPointsSpec(b, axis, n - 1);
    }
  }

  /** `isSymmetryOnLine`. */
  method IsSymmetryOnLine(width: int, top: int, bottom: int, b: Block) returns (ok: bool)
    ensures ok <==> RowsAgree(b, top, bottom, width)
  {
    var x := 0;
    while x < width
      invariant 0 <= x && (width >= 0 ==> x <= width)
      invariant RowsAgree(b, top, bottom, x)
    {
      if Cell(b, top, x) != Cell(b, bottom, x) {
        return false;
      }
      x := x + 1;
    }
    return true;
  }

  /** `checkPatternForVerticalSymmetry`: offsets `k` pair column `p − 1 − k` with `p + k`; pairs leaving the width are skipped. */
  method CheckVertical(p: int, b: Block) returns (ok: bool)
    requires |b| >= 1
    ensures ok <==> VerticalMirror(b, p)
  {
    var k := 0;
    while k < p
      invariant 0 <= k && (p >= 0 ==> k <= p)
      invariant forall l, r :: p - k <= l < p <= r < Width(b) && l + r == 2 * p - 1 ==> ColumnsAgree(b, l, r)
    {
      var left := p - k - 1;
      var right := p + k;
      if !(left < 0 || right >= Width(b)) {
        var y := 0;
        while y < |b|
          invariant 0 <= y <= |b|
          invariant forall y' :: 0 <= y' < y ==> Cell(b, y', left) == Cell(b, y', right)
        {
          if Cell(b, y, left) != Cell(b, y, right) {
            assert !ColumnsAgree(b, left, right);
            return false;
          }
          y := y + 1;
        }
      }
      k := k + 1;
    }
    return true;
  }

  /** `checkPatternForHorizontalSymmetry`: offsets pair row `m − 1 − k` with `m + k`; pairs leaving the block are skipped. */
  method CheckHorizontal(m: int, b: Block) returns (ok: bool)
    requires |b| >= 1
    ensures ok <==> HorizontalMirror(b, m)
  {
    var k := 0;
    while k < m
      invariant 0 <= k && (m >= 0 ==> k <= m)
      invariant forall t, u :: m - k <= t < m <= u < |b| && t + u == 2 * m - 1 ==> RowsAgree(b, t, u, Width(b))
    {
      var top := m - k - 1;
      var bottom := m + k;
      if !(top < 0 || bottom >= |b|) {
        var same := IsSymmetryOnLine(Width(b), top, bottom, b);
        if !same {
          return false;
        }
      }
      k := k + 1;
    }
    return true;
  }

  /** `calculateSymmetryReflections`, with the axis choosing the check: the lines in ascending order. */
  method Reflections(b: Block, axis: Axis) returns (ps: seq<int>)
    requires |b| >= 1
    ensures ps == MirrorPoints(b, axis, Dimension(b, axis))
  {
    var n := Dimension(b, axis);
    ps := [];
    var point := 1;
    while point < n
      invariant 1 <= point && (point <= n || point == 1)
      invariant ps == MirrorPoints(b, axis, point)
    {
      var ok := Check(point, b, axis);
      assert MirrorPoints(b, axis, point + 1) == MirrorPoints(b, axis, point) + (if ok then [point] else []);
      if ok {
        ps := ps + [point];
      }
      point := point + 1;
    }
    assert point == n || (point == 1 && n == 0);
  }

  /** The check the axis selects. */
  method Check(point: int, b: Block, axis: Axis) returns (ok: bool)
    requires |b| >= 1
    ensures ok <==> Mirror(b, axis, point)
  {
    if axis == Vertical {
      ok := CheckVertical(point, b);
    } else {
      ok := CheckHorizontal(point, b);
    }
  }

  /** `calculateTotalReflectionScore`: the vertical lines plus 100 times the horizontal lines. */
  method TotalReflectionScore(xs: seq<int>, ys: seq<int>) returns (total: int)
    ensures total == Sum(xs) + YReflectionFactor * Sum(ys)
  {
    total := 0;
    var i := 0;
    while i < |xs|
      invariant 0 <= i <= |xs|
      invariant total == Sum(xs[..i])
    {
      assert xs[..i + 1] == xs[..i] + [xs[i]];
      SumAppend(xs[..i], xs[i]);
      total := total + xs[i];
      i := i + 1;
    }
    assert xs[..|xs|] == xs;
    var j := 0;
    while j < |ys|
      invariant 0 <= j <= |ys|
      invariant total == Sum(xs) + YReflectionFactor * Sum(ys[..j])
    {
      assert ys[..j + 1] == ys[..j] + [ys[j]];
      SumAppend(ys[..j], ys[j]);
      total := total + ys[j] * YReflectionFactor;
      j := j + 1;
    }
    assert ys[..|ys|] == ys;
  }

  /** The score of one block, from its vertical and horizontal lines. */
  function BlockScore(b: Block): int
    requires |b| >= 1
  {
    Sum(MirrorPoints(b, Vertical, Width(b))) + YReflectionFactor * Sum(MirrorPoints(b, Horizontal, |b|))
  }

  /** `calculatePatternBlockScore`. */
  method PatternBlockScore(b: Block) returns (score: int)
    requires |b| >= 1
    ensures score == BlockScore(b)
    ensures score >= 0
  {
    var xs := Reflections(b, Vertical);
    var ys := Reflections(b, Horizontal);
    score := TotalReflectionScore(xs, ys);
    MirrorPointsSpec(b, Vertical, Width(b));
    MirrorPointsSpec(b, Horizontal, |b|);
    SumNonNegative(xs);
    SumNonNegative(ys);
  }

  predicate NonEmptyBlocks(blocks: seq<Block>)
  {
    forall k :: 0 <= k < |blocks| ==> |blocks[k]| >= 1
  }

  function BlockScores(blocks: seq<Block>): (scores: seq<int>)
    requires NonEmptyBlocks(blocks)
    ensures |scores| == |blocks|
    ensures forall k :: 0 <= k < |blocks| ==> scores[k] == BlockScore(blocks[k])
  {
    if |blocks| == 0 then [] else BlockScores(blocks[..|blocks| - 1]) + [BlockScore(blocks[|blocks| - 1])]
  }

  lemma BlockScoresStep(blocks: seq<Block>, k: nat)
    requires NonEmptyBlocks(blocks) && k < |blocks|
    ensures Sum(BlockScores(blocks[..k + 1])) == Sum(BlockScores(blocks[..k])) + BlockScore(blocks[k])
  {
    assert blocks[..k + 1][..k] == blocks[..k];
    SumAppend(BlockScores(blocks[..k]), BlockScore(blocks[k]));
  }

  /** `calculateReflectionSummary`: the sum of the block scores (every block has at least one row). */
  method ReflectionSummary(blocks: seq<Block>) returns (total: int)
    requires NonEmptyBlocks(blocks)
    ensures total == Sum(BlockScores(blocks))
  {
    total := 0;
    var k := 0;
    while k < |blocks|
      invariant 0 <= k <= |blocks|
      invariant total == Sum(BlockScores(blocks[..k]))
    {
      var s := PatternBlockScore(blocks[k]);
      BlockScoresStep(blocks, k);
      total := total + s;
      k := k + 1;
    }
    assert blocks[..|blocks|] == blocks;
  }

  /** Every row as long as the first. */
  predicate Rectangular(b: Block)
  {
    |b| >= 1 && forall y :: 0 <= y < |b| ==> |b[y]| == |b[0]|
  }

  /** Rows become columns. */
  function Transpose(b: Block): (t: Block)
    requires Rectangular(b)
    ensures |t| == |b[0]|
    ensures forall x :: 0 <= x < |t| ==> |t[x]| == |b|
    ensures forall x, y :: 0 <= x < |b[0]| && 0 <= y < |b| ==> t[x][y] == b[y][x]
  {
    seq(|b[0]|, x requires 0 <= x < |b[0]| => seq(|b|, y requires 0 <= y < |b| => b[y][x]))
  }

  /**
   * The two checks are the same check on transposed blocks: a rectangular
   * block reflects across the line before row `m` exactly when its
   * transpose reflects across the line before column `m`.
   */
  lemma HorizontalIsTransposedVertical(b: Block, m: int)
    requires Rectangular(b) && |b[0]| >= 1
    ensures HorizontalMirror(b, m) <==> VerticalMirror(Transpose(b), m)
  {
    var t := Transpose(b);
    forall l, r | 0 <= l < |b| && 0 <= r < |b|
      ensures RowsAgree(b, l, r, Width(b)) <==> ColumnsAgree(t, l, r)
    {
      forall x | 0 <= x < Width(b)
        ensures Cell(b, l, x) == Cell(t, x, l) && Cell(b, r, x) == Cell(t, x, r)
      {
      }
    }
  }

  /** Hence the horizontal lines of a rectangular block are the vertical lines of its transpose. */
  lemma {:induction false} HorizontalPointsTransposed(b: Block, n: nat)
    requires Rectangular(b) && |b[0]| >= 1
    ensures MirrorPoints(b, Horizontal, n) == MirrorPoints(Transpose(b), Vertical, n)
  {
    if n > 1 {
      HorizontalPointsTransposed(b, n - 1);
      HorizontalIsTransposedVertical(b, n - 1);
    }
  }
}
