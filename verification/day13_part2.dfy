/**
 * Point of incidence (day 13, part 2): every block carries one smudge. The
 * script flips each cell in turn, row by row, and keeps the first flip whose
 * block reflects across a line the original block did not, scoring that line
 * alone (columns as they are, rows times 100).
 */
module Day13Part2 {
  import opened Common
  import opened Day13Part1

  /** The smudge fix: `0` becomes `1`, anything else becomes `0`. */
  function Flip(c: char): (f: char)
    ensures c == '0' ==> f == '1'
    ensures c == '1' ==> f == '0'
  {
    if c == '0' then '1' else '0'
  }

  /** A copy of the block with the one cell at row `y`, column `x` flipped. */
  function FlipAt(b: Block, y: nat, x: nat): (t: Block)
    requires y < |b| && x < |b[y]|
    ensures |t| == |b|
    ensures forall r :: 0 <= r < |t| ==> |t[r]| == |b[r]|
    ensures t[y][x] == Flip(b[y][x])
    ensures forall r, c :: 0 <= r < |b| && 0 <= c < |b[r]| && (r, c) != (y, x) ==> t[r][c] == b[r][c]
  {
    b[y := b[y][x := Flip(b[y][x])]]
  }

  /** On a block of `0`s and `1`s, flipping the same cell twice restores the block. */
  lemma FlipTwice(b: Block, y: nat, x: nat)
    requires y < |b| && x < |b[y]|
    requires b[y][x] == '0' || b[y][x] == '1'
    ensures FlipAt(FlipAt(b, y, x), y, x) == b
  {
    var t := FlipAt(FlipAt(b, y, x), y, x);
    assert t[y] == b[y];
  }

  /** Positive lines in strictly ascending order: the shape of every reflection list. */
  predicate Lines(s: seq<int>)
  {
    (forall i :: 0 <= i < |s| ==> s[i] >= 1)
    && (forall i, j :: 0 <= i < j < |s| ==> s[i] < s[j])
  }

  lemma ReflectionsAreLines(b: Block, axis: Axis)
    requires |b| >= 1
    ensures Lines(MirrorPoints(b, axis, Dimension(b, axis)))
  {
    MirrorPointsSpec(b, axis, Dimension(b, axis));
  }

  /**
   * `hasNewValidReflectionLine` on the original lines `ox`, `oy` and the
   * flipped block's lines `xs`, `ys`. `Some(0)` is the `false` the int
   * return type turns into 0; a missing second vertical line is a `null`
   * the int return type refuses, and the script stops (`None`). A missing
   * second horizontal line is `null * 100`, which is 0.
   */
  function NewLineValue(ox: seq<int>, oy: seq<int>, xs: seq<int>, ys: seq<int>): (r: Option<int>)
    ensures r.None? ==> |ox| >= 1 && |xs| == 1 && xs[0] == ox[0] && xs != ox
  {
    if |ox| > 0 && |ys| > 0 then Some(ys[0] * YReflectionFactor)
    else if |oy| > 0 && |xs| > 0 then Some(xs[0])
    else if |oy| > 0 && |ys| > 0 && ys != oy then
      Some((if ys[0] == oy[0] then (if |ys| > 1 then ys[1] else 0) else ys[0]) * YReflectionFactor)
    else if |ox| > 0 && |xs| > 0 && xs != ox then
      (if xs[0] == ox[0] then (if |xs| > 1 then Some(xs[1]) else None) else Some(xs[0]))
    else Some(0)
  }

  /** The flipped block reflects across a line the original did not. */
  predicate HasNewLine(ox: seq<int>, oy: seq<int>, xs: seq<int>, ys: seq<int>)
  {
    (exists x :: x in xs && x !in ox) || (exists y :: y in ys && y !in oy)
  }

  /** `v` scores a new line: a new vertical line itself, or 100 times a new horizontal one. */
  predicate ScoresNewLine(v: int, ox: seq<int>, oy: seq<int>, xs: seq<int>, ys: seq<int>)
  {
    (v in xs && v !in ox) || (v % YReflectionFactor == 0 && v / YReflectionFactor in ys && v / YReflectionFactor !in oy)
  }

  /**
   * When the original block has exactly one line, the value is defined; it
   * is nonzero exactly when the flipped block has a new line, and then it
   * scores one.
   */
  lemma NewLineMeaning(ox: seq<int>, oy: seq<int>, xs: seq<int>, ys: seq<int>)
    requires Lines(ox) && Lines(oy) && Lines(xs) && Lines(ys)
    requires |ox| + |oy| == 1
    ensures NewLineValue(ox, oy, xs, ys).Some?
    ensures NewLineValue(ox, oy, xs, ys).value != 0 <==> HasNewLine(ox, oy, xs, ys)
    ensures NewLineValue(ox, oy, xs, ys).value != 0 ==> ScoresNewLine(NewLineValue(ox, oy, xs, ys).value, ox, oy, xs, ys)
  {
    var r := NewLineValue(ox, oy, xs, ys);
    if |ox| == 1 {
      if |ys| > 0 {
        assert ys[0] in ys && ys[0] !in oy;
        assert r.value / YReflectionFactor == ys[0];
      } else if HasNewLine(ox, oy, xs, ys) {
        var x :| x in xs && x !in ox;
        assert xs != ox;
        if xs[0] == ox[0] {
          assert |xs| > 1;
          assert xs[1] != ox[0];
        }
      } else if |xs| > 0 {
        assert forall i :: 0 <= i < |xs| ==> xs[i] in xs && xs[i] == ox[0];
        assert xs == ox;
      }
    }
    if |oy| == 1 {
      if |xs| > 0 {
        assert xs[0] in xs && xs[0] !in ox;
      } else if HasNewLine(ox, oy, xs, ys) {
        var y :| y in ys && y !in oy;
        assert ys != oy;
        var w := if ys[0] == oy[0] then ys[1] else ys[0];
        if ys[0] == oy[0] {
          assert |ys| > 1;
          assert ys[1] != oy[0];
        }
        assert w in ys && w !in oy && w >= 1;
        assert r.value == w * YReflectionFactor;
        assert r.value / YReflectionFactor == w;
      } else if |ys| > 0 {
        assert forall i :: 0 <= i < |ys| ==> ys[i] in ys && ys[i] == oy[0];
        assert ys == oy;
      }
    }
  }

  /** The value of flipping the cell at row `y`, column `x`. */
  function SmudgeValue(b: Block, y: nat, x: nat): Option<int>
    requires y < |b| && x < |b[y]|
  {
    var t := FlipAt(b, y, x);
    NewLineValue(MirrorPoints(b, Vertical, Width(b)), MirrorPoints(b, Horizontal, |b|),
                 MirrorPoints(t, Vertical, Width(t)), MirrorPoints(t, Horizontal, |t|))
  }

  /** Whether the flip at row `y`, column `x` shows a line the original block does not have. */
  predicate NewLineAt(b: Block, y: nat, x: nat)
    requires y < |b| && x < |b[y]|
  {
    var t := FlipAt(b, y, x);
    HasNewLine(MirrorPoints(b, Vertical, Width(b)), MirrorPoints(b, Horizontal, |b|),
               MirrorPoints(t, Vertical, Width(t)), MirrorPoints(t, Horizontal, |t|))
  }

  /** A block with exactly one reflecting line, as every puzzle block has. */
  predicate OneLine(b: Block)
    requires |b| >= 1
  {
    |MirrorPoints(b, Vertical, Width(b))| + |MirrorPoints(b, Horizontal, |b|)| == 1
  }

  /** On a block with one line, each flip is defined, and nonzero exactly when it shows a new line. */
  lemma SmudgeValueMeaning(b: Block, y: nat, x: nat)
    requires y < |b| && x < |b[y]|
    requires OneLine(b)
    ensures SmudgeValue(b, y, x).Some?
    ensures SmudgeValue(b, y, x).value != 0 <==> NewLineAt(b, y, x)
  {
    var t := FlipAt(b, y, x);
    ReflectionsAreLines(b, Vertical);
    ReflectionsAreLines(b, Horizontal);
    ReflectionsAreLines(t, Vertical);
    ReflectionsAreLines(t, Horizontal);
    NewLineMeaning(MirrorPoints(b, Vertical, Width(b)), MirrorPoints(b, Horizontal, |b|),
                   MirrorPoints(t, Vertical, Width(t)), MirrorPoints(t, Horizontal, |t|));
  }

  /** The row-major search from row `y`, column `x`: the first flip whose value is not 0, if any. */
  function SearchFrom(b: Block, y: nat, x: nat): Option<int>
    decreases |b| - y, if y < |b| then |b[y]| - x else 0
  {
    if y >= |b| then None
    else if x >= |b[y]| then SearchFrom(b, y + 1, 0)
    else if SmudgeValue(b, y, x) == Some(0) then SearchFrom(b, y, x + 1)
    else SmudgeValue(b, y, x)
  }

  /** A cell lies at or after row `y`, column `x` in row-major order. */
  predicate AtOrAfter(r: nat, c: nat, y: nat, x: nat)
  {
    r > y || (r == y && c >= x)
  }

  /**
   * A found value is nonzero and is the value of some cell at or after the
   * start, every cell before it scoring 0.
   */
  lemma {:induction false} SearchFromFound(b: Block, y: nat, x: nat)
    requires SearchFrom(b, y, x).Some?
    ensures SearchFrom(b, y, x).value != 0
    ensures exists r: nat, c: nat :: r < |b| && c < |b[r]| && AtOrAfter(r, c, y, x) && SmudgeValue(b, r, c) == SearchFrom(b, y, x)
    decreases |b| - y, if y < |b| then |b[y]| - x else 0
  {
    if x >= |b[y]| {
      SearchFromFound(b, y + 1, 0);
      var r: nat, c: nat :| r < |b| && c < |b[r]| && AtOrAfter(r, c, y + 1, 0) && SmudgeValue(b, r, c) == SearchFrom(b, y + 1, 0);
      assert AtOrAfter(r, c, y, x);
    } else if SmudgeValue(b, y, x) == Some(0) {
      SearchFromFound(b, y, x + 1);
      var r: nat, c: nat :| r < |b| && c < |b[r]| && AtOrAfter(r, c, y, x + 1) && SmudgeValue(b, r, c) == SearchFrom(b, y, x + 1);
      assert AtOrAfter(r, c, y, x);
    } else {
      assert AtOrAfter(y, x, y, x);
    }
  }

  /** On a block with one line, a flip showing a new line at or after the start means the search finds a value. */
  lemma {:induction false} SearchFromFinds(b: Block, y: nat, x: nat, r: nat, c: nat)
    requires |b| >= 1 && OneLine(b)
    requires r < |b| && c < |b[r]| && AtOrAfter(r, c, y, x) && NewLineAt(b, r, c)
    ensures SearchFrom(b, y, x).Some?
    decreases |b| - y, if y < |b| then |b[y]| - x else 0
  {
    if x >= |b[y]| {
      SearchFromFinds(b, y + 1, 0, r, c);
    } else {
      SmudgeValueMeaning(b, y, x);
      if SmudgeValue(b, y, x) == Some(0) {
        if (r, c) == (y, x) {
          SmudgeValueMeaning(b, r, c);
          assert false;
        }
        SearchFromFinds(b, y, x + 1, r, c);
      }
    }
  }

  /** `hasNewValidReflectionLine`: the flipped block's lines compared with the original ones. */
  method HasNewValidReflectionLine(t: Block, ox: seq<int>, oy: seq<int>) returns (r: Option<int>)
    requires |t| >= 1
    ensures r == NewLineValue(ox, oy, MirrorPoints(t, Vertical, Width(t)), MirrorPoints(t, Horizontal, |t|))
  {
    var xs := Reflections(t, Vertical);
    var ys := Reflections(t, Horizontal);
    r := NewLineValue(ox, oy, xs, ys);
  }

  /** `fixSmudgeInPattern`: `None` when the script stops (no smudge found, or a `null` line). */
  method FixSmudge(b: Block) returns (r: Option<int>)
    requires |b| >= 1
    ensures r == SearchFrom(b, 0, 0)
  {
    var ox := Reflections(b, Vertical);
    var oy := Reflections(b, Horizontal);
    var y := 0;
    while y < |b|
      invariant 0 <= y <= |b|
      invariant SearchFrom(b, 0, 0) == SearchFrom(b, y, 0)
    {
      var x := 0;
      while x < |b[y]|
        invariant 0 <= x <= |b[y]|
        invariant SearchFrom(b, 0, 0) == SearchFrom(b, y, x)
      {
        var t := FlipAt(b, y, x);
        var v := HasNewValidReflectionLine(t, ox, oy);
        if v != Some(0) {
          return v;
        }
        x := x + 1;
      }
      y := y + 1;
    }
    return None;
  }

  /** The per-block values, `None` once a block stops the script. */
  function SmudgeTotal(blocks: seq<Block>): Option<int>
    requires NonEmptyBlocks(blocks)
  {
    if |blocks| == 0 then Some(0)
    else
      var front := SmudgeTotal(blocks[..|blocks| - 1]);
      var last := SearchFrom(blocks[|blocks| - 1], 0, 0);
      if front.Some? && last.Some? then Some(front.value + last.value) else None
  }

  lemma SmudgeTotalStep(blocks: seq<Block>, k: nat)
    requires NonEmptyBlocks(blocks) && k < |blocks|
    ensures SmudgeTotal(blocks[..k + 1]) ==
      if SmudgeTotal(blocks[..k]).Some? && SearchFrom(blocks[k], 0, 0).Some?
      then Some(SmudgeTotal(blocks[..k]).value + SearchFrom(blocks[k], 0, 0).value)
      else None
  {
    assert blocks[..k + 1][..k] == blocks[..k];
  }

  /** `calculateReflectionSummaryWithSmudgeFix`: the sum of the smudge values of the blocks. */
  method ReflectionSummaryWithSmudgeFix(blocks: seq<Block>) returns (r: Option<int>)
    requires NonEmptyBlocks(blocks)
    ensures r == SmudgeTotal(blocks)
  {
    var total := 0;
    var k := 0;
    while k < |blocks|
      invariant 0 <= k <= |blocks|
      invariant SmudgeTotal(blocks[..k]) == Some(total)
    {
      var v := FixSmudge(blocks[k]);
      SmudgeTotalStep(blocks, k);
      if v.None? {
        SmudgeTotalStops(blocks, k + 1);
        return None;
      }
      total := total + v.value;
      k := k + 1;
    }
    assert blocks[..|blocks|] == blocks;
    return Some(total);
  }

  /** The total is defined exactly when no block stops the script. */
  lemma {:induction false} SmudgeTotalDefined(blocks: seq<Block>)
    requires NonEmptyBlocks(blocks)
    ensures SmudgeTotal(blocks).Some? <==> forall k :: 0 <= k < |blocks| ==> SearchFrom(blocks[k], 0, 0).Some?
  {
    if |blocks| > 0 {
      var front := blocks[..|blocks| - 1];
      var last := blocks[|blocks| - 1];
      assert SmudgeTotal(blocks).Some? <==> SmudgeTotal(front).Some? && SearchFrom(last, 0, 0).Some?;
      SmudgeTotalDefined(front);
      assert forall k :: 0 <= k < |front| ==> front[k] == blocks[k];
    }
  }

  /** Once a prefix stops, so does the whole list. */
  lemma SmudgeTotalStops(blocks: seq<Block>, k: nat)
    requires NonEmptyBlocks(blocks)
    requires k <= |blocks| && SmudgeTotal(blocks[..k]).None?
    ensures SmudgeTotal(blocks).None?
  {
    SmudgeTotalDefined(blocks[..k]);
    SmudgeTotalDefined(blocks);
    var j :| 0 <= j < k && SearchFrom(blocks[..k][j], 0, 0).None?;
    assert blocks[j] == blocks[..k][j];
  }
}
