/**
 * Sand slabs (day 22), the part both scripts share: bricks, the overlap
 * test, and the settling loop that sorts the bricks and lowers each one a
 * level at a time until a whole pass moves nothing.
 *
 * The scripts keep the bricks as objects and lower them in place; here a
 * brick array is a sequence and every step returns the new sequence.
 */
module Day22Bricks {
  import opened Common

  /** `Brick`: unit cubes from `x1` to `x2`, `y1` to `y2` and `z1` to `z2`, all bounds included. */
  datatype Brick = Brick(x1: int, x2: int, y1: int, y2: int, z1: int, z2: int)

  /** The six numbers of an input line, in the order they appear: `x,y,z~x,y,z`. */
  datatype Line = Line(xa: int, ya: int, za: int, xb: int, yb: int, zb: int)

  /** Each lower bound at most the upper one. */
  predicate Normal(b: Brick)
  {
    b.x1 <= b.x2 && b.y1 <= b.y2 && b.z1 <= b.z2
  }

  /** One brick of `parseInput`: the two ends sorted on each axis. */
  function ParseBrick(l: Line): (b: Brick)
    ensures Normal(b)
    ensures multiset{b.x1, b.x2} == multiset{l.xa, l.xb}
    ensures multiset{b.y1, b.y2} == multiset{l.ya, l.yb}
    ensures multiset{b.z1, b.z2} == multiset{l.za, l.zb}
  {
    Brick(Min(l.xa, l.xb), Max(l.xa, l.xb), Min(l.ya, l.yb), Max(l.ya, l.yb), Min(l.za, l.zb), Max(l.za, l.zb))
  }

  /** Which end of the brick a line names first makes no difference. */
  lemma ParseBrickSwap(l: Line)
    ensures ParseBrick(Line(l.xb, l.yb, l.zb, l.xa, l.ya, l.za)) == ParseBrick(l)
  {
    assert Min(l.xb, l.xa) == Min(l.xa, l.xb) && Max(l.xb, l.xa) == Max(l.xa, l.xb);
    assert Min(l.yb, l.ya) == Min(l.ya, l.yb) && Max(l.yb, l.ya) == Max(l.ya, l.yb);
    assert Min(l.zb, l.za) == Min(l.za, l.zb) && Max(l.zb, l.za) == Max(l.za, l.zb);
  }

  /** A normal brick reads back as itself. */
  lemma ParseBrickNormal(b: Brick)
    requires Normal(b)
    ensures ParseBrick(Line(b.x1, b.y1, b.z1, b.x2, b.y2, b.z2)) == b
  {
    var a := ParseBrick(Line(b.x1, b.y1, b.z1, b.x2, b.y2, b.z2));
    assert a.x1 == b.x1 && a.x2 == b.x2;
    assert a.y1 == b.y1 && a.y2 == b.y2;
    assert a.z1 == b.z1 && a.z2 == b.z2;
  }

  /** `parseInput`: one normal brick per line, in order. */
  function ParseInput(lines: seq<Line>): (r: seq<Brick>)
    ensures |r| == |lines|
    ensures forall i :: 0 <= i < |r| ==> Normal(r[i]) && r[i] == ParseBrick(lines[i])
  {
    seq(|lines|, i requires 0 <= i < |lines| => ParseBrick(lines[i]))
  }

  // ---------------------------------------------------------------------
  // checkBrickOverlap, doesOverlapExist
  // ---------------------------------------------------------------------

  /** The three `max(...) <= min(...)` tests. */
  predicate Meet(a: Brick, b: Brick)
  {
    && Max(a.x1, b.x1) <= Min(a.x2, b.x2)
    && Max(a.y1, b.y1) <= Min(a.y2, b.y2)
    && Max(a.z1, b.z1) <= Min(a.z2, b.z2)
  }

  /** The brick holds the unit cube at `x`, `y`, `z`. */
  predicate Holds(b: Brick, x: int, y: int, z: int)
  {
    b.x1 <= x <= b.x2 && b.y1 <= y <= b.y2 && b.z1 <= z <= b.z2
  }

  /** The test passes exactly when the two bricks share a cube. */
  lemma MeetMeaning(a: Brick, b: Brick)
    ensures Meet(a, b) <==> exists x, y, z :: Holds(a, x, y, z) && Holds(b, x, y, z)
  {
    if Meet(a, b) {
      assert Holds(a, Max(a.x1, b.x1), Max(a.y1, b.y1), Max(a.z1, b.z1));
      assert Holds(b, Max(a.x1, b.x1), Max(a.y1, b.y1), Max(a.z1, b.z1));
    }
  }

  /** `checkBrickOverlap`: two different bricks of the array share a cube; the order of the two makes no difference. */
  function CheckBrickOverlap(s: seq<Brick>, i: int, j: int): (r: bool)
    requires 0 <= i < |s| && 0 <= j < |s|
    ensures r <==> i != j && exists x, y, z :: Holds(s[i], x, y, z) && Holds(s[j], x, y, z)
    ensures r == (j != i && Meet(s[j], s[i]))
  {
    MeetMeaning(s[i], s[j]);
    i != j && Meet(s[i], s[j])
  }

  /** The `foreach` of `doesOverlapExist` from index `j` on. */
  function OverlapFrom(s: seq<Brick>, t: int, j: int): (r: bool)
    requires 0 <= t < |s| && 0 <= j <= |s|
    ensures r <==> exists k :: j <= k < |s| && CheckBrickOverlap(s, t, k)
    decreases |s| - j
  {
    if j == |s| then false
    else if CheckBrickOverlap(s, t, j) then true
    else OverlapFrom(s, t, j + 1)
  }

  lemma MeetSymmetric(s: seq<Brick>, t: int)
    requires 0 <= t < |s|
    ensures forall k :: 0 <= k < |s| ==> Meet(s[k], s[t]) == Meet(s[t], s[k])
  {
  }

  /** `doesOverlapExist`: some other brick of the array shares a cube with brick `t`. */
  function DoesOverlapExist(s: seq<Brick>, t: int): (r: bool)
    requires 0 <= t < |s|
    ensures r <==> exists k :: 0 <= k < |s| && k != t && Meet(s[t], s[k])
  {
    MeetSymmetric(s, t);
    assert forall k :: 0 <= k < |s| ==> (CheckBrickOverlap(s, t, k) <==> k != t && Meet(s[t], s[k]));
    OverlapFrom(s, t, 0)
  }

  /** The marker the scripts subtract from `z2` to take a brick out of the array without moving it. */
  const Marker: int := 1000

  function Removed(b: Brick): Brick
  {
    b.(z2 := b.z2 - Marker)
  }

  /** A brick whose `z2` is below its `z1` holds no cube. */
  predicate Empty(b: Brick)
  {
    b.z2 < b.z1
  }

  /** A brick less than 1000 high, once marked, holds no cube. */
  lemma RemovedEmpty(b: Brick)
    requires b.z2 - b.z1 < Marker
    ensures Empty(Removed(b))
    ensures forall x, y, z :: !Holds(Removed(b), x, y, z)
  {
  }

  /** The overlap search sees only the bricks that hold cubes: an empty one, a marked one, meets nothing. */
  lemma OverlapIgnoresEmpty(s: seq<Brick>, t: int)
    requires 0 <= t < |s|
    ensures DoesOverlapExist(s, t) <==> exists k :: 0 <= k < |s| && k != t && !Empty(s[k]) && Meet(s[t], s[k])
  {
  }

  // ---------------------------------------------------------------------
  // The usort comparator
  // ---------------------------------------------------------------------

  /** `<=>` on integers. */
  function Spaceship(p: int, q: int): int
  {
    if p < q then -1 else if p > q then 1 else 0
  }

  /** `$brickA->z1 <=> $brickB->z1 ?: $brickA->x1 <=> $brickB->x1 ?: $brickA->y1 <=> $brickB->y1`. */
  function Compare(a: Brick, b: Brick): int
  {
    if Spaceship(a.z1, b.z1) != 0 then Spaceship(a.z1, b.z1)
    else if Spaceship(a.x1, b.x1) != 0 then Spaceship(a.x1, b.x1)
    else Spaceship(a.y1, b.y1)
  }

  /** `a` may come before `b`. */
  predicate Before(a: Brick, b: Brick)
  {
    Compare(a, b) <= 0
  }

  /** The comparator orders bricks by lowest level, then lowest x, then lowest y. */
  lemma BeforeMeaning(a: Brick, b: Brick)
    ensures Before(a, b) <==> a.z1 < b.z1 || (a.z1 == b.z1 && (a.x1 < b.x1 || (a.x1 == b.x1 && a.y1 <= b.y1)))
    ensures Before(a, b) || Before(b, a)
  {
  }

  predicate Sorted(s: seq<Brick>)
  {
    forall i, j :: 0 <= i < j < |s| ==> Before(s[i], s[j])
  }

  /** What a brick contributes to the settling measure: how far it can still fall. */
  function Lift(b: Brick): nat
  {
    if b.z1 > 1 then b.z1 - 1 else 0
  }

  function Lifts(s: seq<Brick>): nat
  {
    if |s| == 0 then 0 else Lift(s[0]) + Lifts(s[1..])
  }

  /** What settling keeps of a brick: its footprint and height. */
  type Form = (int, int, int, int, int)

  function FormOf(b: Brick): Form
  {
    (b.x1, b.x2, b.y1, b.y2, b.z2 - b.z1)
  }

  function Forms(s: seq<Brick>): multiset<Form>
  {
    if |s| == 0 then multiset{} else multiset{FormOf(s[0])} + Forms(s[1..])
  }

  /** Placing `x` before the first brick it may precede; a brick of equal key already there stays after it. */
  function Insert(x: Brick, t: seq<Brick>): (r: seq<Brick>)
    ensures |r| == |t| + 1
    ensures multiset(r) == multiset(t) + multiset{x}
  {
    if |t| == 0 || Before(x, t[0]) then [x] + t
    else
      assert t == [t[0]] + t[1..];
      [t[0]] + Insert(x, t[1..])
  }

  lemma {:induction false} InsertSorted(x: Brick, t: seq<Brick>)
    requires Sorted(t)
    ensures Sorted(Insert(x, t))
    decreases |t|
  {
    var r := Insert(x, t);
    if |t| == 0 || Before(x, t[0]) {
      forall i, j | 0 <= i < j < |r|
        ensures Before(r[i], r[j])
      {
        if i == 0 && j > 1 {
          assert Before(t[0], t[j - 1]);
        }
      }
    } else {
      var rest := Insert(x, t[1..]);
      InsertSorted(x, t[1..]);
      assert r == [t[0]] + rest;
      forall i, j | 0 <= i < j < |r|
        ensures Before(r[i], r[j])
      {
        if i == 0 {
          assert rest[j - 1] in multiset(rest);
          if rest[j - 1] != x {
            assert rest[j - 1] in multiset(t[1..]);
            var k :| 1 <= k < |t| && t[k] == rest[j - 1];
          }
        } else {
          assert r[i] == rest[i - 1] && r[j] == rest[j - 1];
        }
      }
    }
  }

  lemma {:induction false} InsertKeeps(x: Brick, t: seq<Brick>)
    ensures Lifts(Insert(x, t)) == Lifts(t) + Lift(x)
    ensures Forms(Insert(x, t)) == Forms(t) + multiset{FormOf(x)}
    decreases |t|
  {
    var r := Insert(x, t);
    if |t| == 0 || Before(x, t[0]) {
      assert r[1..] == t;
    } else {
      InsertKeeps(x, t[1..]);
      assert r[1..] == Insert(x, t[1..]);
    }
  }

  /** `usort` with the comparator above: the same bricks in order. */
  function Sort(s: seq<Brick>): (r: seq<Brick>)
    ensures |r| == |s| && multiset(r) == multiset(s) && Sorted(r)
  {
    if |s| == 0 then s
    else
      assert s == [s[0]] + s[1..];
      var t := Sort(s[1..]);
      InsertSorted(s[0], t);
      Insert(s[0], t)
  }

  /** Sorting keeps the settling measure. */
  lemma {:induction false} SortLifts(s: seq<Brick>)
    ensures Lifts(Sort(s)) == Lifts(s)
    decreases |s|
  {
    if |s| > 0 {
      var t := Sort(s[1..]);
      assert Sort(s) == Insert(s[0], t);
      SortLifts(s[1..]);
      InsertKeeps(s[0], t);
    }
  }

  /** Sorting keeps the forms. */
  lemma {:induction false} SortForms(s: seq<Brick>)
    ensures Forms(Sort(s)) == Forms(s)
    decreases |s|
  {
    if |s| > 0 {
      var t := Sort(s[1..]);
      assert Sort(s) == Insert(s[0], t);
      SortForms(s[1..]);
      InsertKeeps(s[0], t);
    }
  }

  /** Sorting keeps every brick at level 1 or above. */
  lemma SortGrounded(s: seq<Brick>)
    requires Grounded(s)
    ensures Grounded(Sort(s))
  {
    var r := Sort(s);
    forall i | 0 <= i < |r|
      ensures r[i].z1 >= 1
    {
      assert r[i] in multiset(s);
    }
  }

  // ---------------------------------------------------------------------
  // Settling
  // ---------------------------------------------------------------------

  /** `$brick->z1--`: the brick stretched one level down, as the overlap test sees it. */
  function Lower(b: Brick): Brick
  {
    b.(z1 := b.z1 - 1)
  }

  /** `$brick->z1--` then `$brick->z2--`: the brick one level down. */
  function Drop(b: Brick): Brick
  {
    b.(z1 := b.z1 - 1, z2 := b.z2 - 1)
  }

  /** Brick `i` is on the ground or stretching it one level down meets another brick. */
  predicate Resting(s: seq<Brick>, i: int)
    requires 0 <= i < |s|
  {
    s[i].z1 <= 1 || DoesOverlapExist(s[i := Lower(s[i])], i)
  }

  lemma {:induction false} LiftsUpdate(s: seq<Brick>, i: int, b: Brick)
    requires 0 <= i < |s|
    ensures Lifts(s[i := b]) == Lifts(s) - Lift(s[i]) + Lift(b)
    decreases |s|
  {
    if i > 0 {
      LiftsUpdate(s[1..], i - 1, b);
      assert s[i := b][1..] == s[1..][i - 1 := b];
    }
  }

  /**
   * The `while ($brick->z1 > 1)` loop for brick `i`: it comes down a level at
   * a time until it reaches level 1 or one more level would meet another
   * brick. Only brick `i` moves, it keeps its footprint and height, and the
   * flag says whether it moved.
   */
  function Fall(s: seq<Brick>, i: int): (r: (seq<Brick>, bool))
    requires 0 <= i < |s|
    ensures |r.0| == |s| && forall k :: 0 <= k < |s| && k != i ==> r.0[k] == s[k]
    ensures FormOf(r.0[i]) == FormOf(s[i]) && r.0[i].z1 <= s[i].z1
    ensures r.0[i].z1 >= 1 || r.0[i] == s[i]
    ensures Resting(r.0, i)
    ensures r.1 <==> r.0[i].z1 < s[i].z1
    ensures !r.1 ==> r.0 == s
    ensures Lifts(r.0) == Lifts(s) - (s[i].z1 - r.0[i].z1)
    decreases s[i].z1
  {
    if s[i].z1 <= 1 || DoesOverlapExist(s[i := Lower(s[i])], i) then (s, false)
    else
      var t := s[i := Drop(s[i])];
      LiftsUpdate(s, i, Drop(s[i]));
      var r := Fall(t, i);
      (r.0, true)
  }

  /** The `foreach` over the bricks from index `k` on, each falling in turn. */
  function Pass(s: seq<Brick>, k: int): (r: (seq<Brick>, bool))
    requires 0 <= k <= |s|
    ensures |r.0| == |s|
    ensures forall i :: 0 <= i < |s| ==> FormOf(r.0[i]) == FormOf(s[i]) && (r.0[i].z1 >= 1 || r.0[i] == s[i])
    ensures Lifts(r.0) <= Lifts(s) && (r.1 ==> Lifts(r.0) < Lifts(s))
    ensures !r.1 ==> r.0 == s && forall i :: k <= i < |s| ==> Resting(s, i)
    decreases |s| - k
  {
    if k == |s| then (s, false)
    else
      var f := Fall(s, k);
      var p := Pass(f.0, k + 1);
      (p.0, f.1 || p.1)
  }

  /** Bricks with the same forms position by position have the same forms. */
  lemma {:induction false} FormsPointwise(a: seq<Brick>, b: seq<Brick>)
    requires |a| == |b| && forall i :: 0 <= i < |a| ==> FormOf(a[i]) == FormOf(b[i])
    ensures Forms(a) == Forms(b)
    decreases |a|
  {
    if |a| > 0 {
      FormsPointwise(a[1..], b[1..]);
    }
  }

  /** Every brick at level 1 or above. */
  predicate Grounded(s: seq<Brick>)
  {
    forall i :: 0 <= i < |s| ==> s[i].z1 >= 1
  }

  /**
   * The `do ... while` loop: the same bricks, each keeping its footprint and
   * height, sorted by the comparator, with every brick on the ground or on
   * another brick. No brick goes below level 1.
   */
  function Settle(s: seq<Brick>): (r: seq<Brick>)
    ensures |r| == |s| && Forms(r) == Forms(s)
    ensures Sorted(r) && forall i :: 0 <= i < |r| ==> Resting(r, i)
    ensures Grounded(s) ==> Grounded(r)
    decreases Lifts(s)
  {
    var sorted := Sort(s);
    SortLifts(s);
    SortForms(s);
    assert Grounded(s) ==> Grounded(sorted) by {
      if Grounded(s) {
        SortGrounded(s);
      }
    }
    var p := Pass(sorted, 0);
    FormsPointwise(p.0, sorted);
    if p.1 then Settle(p.0) else sorted
  }
}
