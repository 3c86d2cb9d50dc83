/**
 * Sand slabs (day 22, part 2): once the bricks have settled, add up over
 * every brick how many other bricks would fall if it were taken away.
 *
 * For each brick the script takes it out (its `z2` marked down by 1000) and
 * walks the array once in order: a brick above level 1 that, stretched one
 * level down, meets nothing is counted and marked out the same way. Then
 * every brick whose `z2` went below zero gets its 1000 back.
 */
module Day22Part2 {
  import opened Common
  import opened Day22Bricks

  /** Brick `j` is above level 1 and, stretched one level down, meets no brick that is still in. */
  predicate Falls(s: seq<Brick>, i: int, j: int)
    requires 0 <= j < |s|
  {
    j != i && s[j].z1 > 1 && !DoesOverlapExist(s[j := Lower(s[j])], j)
  }

  /** A brick above level 1 falls exactly when every brick its stretched self would meet is out: taken out or fallen before it. */
  lemma FallsMeaning(s: seq<Brick>, i: int, j: int)
    requires 0 <= j < |s|
    ensures Falls(s, i, j) <==>
      (j != i && s[j].z1 > 1 && forall m :: 0 <= m < |s| && m != j && Meet(Lower(s[j]), s[m]) ==> Empty(s[m]))
  {
    var t := s[j := Lower(s[j])];
    OverlapIgnoresEmpty(t, j);
    assert forall m :: 0 <= m < |s| && m != j ==> t[m] == s[m];
  }

  /** The other bricks from index `j` on. */
  function Others(n: int, i: int, j: int): nat
    requires 0 <= j <= n
  {
    n - j - if j <= i < n then 1 else 0
  }

  /**
   * The inner `foreach` from index `j` on: it counts at most the other
   * bricks it visits, and the bricks it changes are exactly the ones it
   * counts, each marked out and otherwise as it was.
   */
  function Chain(s: seq<Brick>, i: int, j: int, count: nat): (r: (seq<Brick>, nat))
    requires 0 <= j <= |s|
    ensures |r.0| == |s|
    ensures count <= r.1 <= count + Others(|s|, i, j)
    ensures forall k :: 0 <= k < |s| ==> r.0[k] == s[k] || (j <= k && k != i && r.0[k] == Removed(s[k]))
    ensures r.1 == count + |Marked(s, r.0, j)|
    decreases |s| - j
  {
    if j == |s| then
      assert Marked(s, s, j) == {};
      (s, count)
    else if Falls(s, i, j) then
      var t := s[j := Removed(s[j])];
      var r := Chain(t, i, j + 1, count + 1);
      assert forall k :: 0 <= k < |s| && k != j ==> t[k] == s[k];
      MarkedStep(s, t, r.0, j);
      r
    else
      var r := Chain(s, i, j + 1, count);
      MarkedSkip(s, r.0, j);
      r
  }

  /** The indices from `j` on at which `b` differs from `a`. */
  ghost function Marked(a: seq<Brick>, b: seq<Brick>, j: int): set<int>
    requires |a| == |b|
  {
    set k | 0 <= k < |a| && j <= k && b[k] != a[k]
  }

  lemma MarkedStep(s: seq<Brick>, t: seq<Brick>, u: seq<Brick>, j: int)
    requires 0 <= j < |s| && |t| == |s| && |u| == |s|
    requires t == s[j := Removed(s[j])]
    requires forall k :: 0 <= k < |s| ==> u[k] == t[k] || (j + 1 <= k && u[k] == Removed(t[k]))
    ensures |Marked(s, u, j)| == |Marked(t, u, j + 1)| + 1
  {
    assert u[j] == Removed(s[j]) != s[j];
    assert Marked(s, u, j) == Marked(t, u, j + 1) + {j};
  }

  lemma MarkedSkip(s: seq<Brick>, u: seq<Brick>, j: int)
    requires 0 <= j < |s| && |u| == |s|
    requires forall k :: 0 <= k < |s| ==> u[k] == s[k] || (j + 1 <= k && u[k] == Removed(s[k]))
    ensures Marked(s, u, j) == Marked(s, u, j + 1)
  {
  }

  /** The second inner `foreach`: every brick whose `z2` is below zero gets its 1000 back. */
  function Unmark(s: seq<Brick>): (r: seq<Brick>)
    ensures |r| == |s|
    ensures forall k :: 0 <= k < |s| ==> r[k] == if s[k].z2 < 0 then s[k].(z2 := s[k].z2 + Marker) else s[k]
  {
    seq(|s|, k requires 0 <= k < |s| => if s[k].z2 < 0 then s[k].(z2 := s[k].z2 + Marker) else s[k])
  }

  /** One pass of the outer `foreach`: the bricks that fall with brick `i` taken out, and the array after. */
  function Turn(s: seq<Brick>, i: int): (r: (seq<Brick>, nat))
    requires 0 <= i < |s|
    ensures |r.0| == |s| && r.1 <= |s| - 1
  {
    var c := Chain(s[i := Removed(s[i])], i, 0, 0);
    (Unmark(c.0), c.1)
  }

  /** Every top between level 0 and 999. */
  predicate InRange(s: seq<Brick>)
  {
    forall k :: 0 <= k < |s| ==> 0 <= s[k].z2 < Marker
  }

  /** With every top between level 0 and 999, a pass leaves the array as it found it. */
  lemma TurnRestores(s: seq<Brick>, i: int)
    requires 0 <= i < |s| && InRange(s)
    ensures Turn(s, i).0 == s
  {
    var t := s[i := Removed(s[i])];
    var c := Chain(t, i, 0, 0);
    var u := Unmark(c.0);
    forall k | 0 <= k < |s|
      ensures u[k] == s[k]
    {
      if k == i {
        assert c.0[k] == t[k] == Removed(s[k]);
      } else {
        assert t[k] == s[k];
      }
    }
  }

  /** The outer `foreach` from brick `i` on, adding up each pass's count. */
  function TotalFrom(s: seq<Brick>, i: int): (r: nat)
    requires 0 <= i <= |s|
    ensures r <= (|s| - i) * (|s| - 1)
    decreases |s| - i
  {
    if i == |s| then 0
    else
      var t := Turn(s, i);
      var rest := TotalFrom(t.0, i + 1);
      assert (|s| - i) * (|s| - 1) == (|s| - (i + 1)) * (|s| - 1) + (|s| - 1);
      t.1 + rest
  }

  /** The count for brick `i` alone, each taken from the same array. */
  function Fallen(s: seq<Brick>, i: int): nat
    requires 0 <= i < |s|
  {
    Turn(s, i).1
  }

  function FallenFrom(s: seq<Brick>, i: int): nat
    requires 0 <= i <= |s|
    decreases |s| - i
  {
    if i == |s| then 0 else Fallen(s, i) + FallenFrom(s, i + 1)
  }

  /** With every top between level 0 and 999 the passes do not disturb each other: the total is the sum of the counts for each brick taken out of the settled array. */
  lemma {:induction false} TotalIndependent(s: seq<Brick>, i: int)
    requires 0 <= i <= |s| && InRange(s)
    ensures TotalFrom(s, i) == FallenFrom(s, i)
    decreases |s| - i
  {
    if i < |s| {
      TurnRestores(s, i);
      TotalIndependent(s, i + 1);
    }
  }

  /** `calculateBrickOverlap`: settle, then add up the falls; at most one less than the number of bricks for each brick. */
  function CalculateBrickOverlap(bricks: seq<Brick>): (r: nat)
    ensures r <= Pairs(|bricks|)
  {
    var s := Settle(bricks);
    assert TotalFrom(s, 0) <= Pairs(|s|);
    TotalFrom(s, 0)
  }

  /** The number of ordered pairs of distinct bricks among `n`. */
  function Pairs(n: int): int
  {
    n * (n - 1)
  }

  /** With every settled top between level 0 and 999, the answer is the sum over the bricks of how many fall when that one alone is taken out of the settled stack. */
  lemma CalculateIndependent(bricks: seq<Brick>)
    requires InRange(Settle(bricks))
    ensures CalculateBrickOverlap(bricks) == FallenFrom(Settle(bricks), 0)
  {
    assert CalculateBrickOverlap(bricks) == TotalFrom(Settle(bricks), 0);
    TotalIndependent(Settle(bricks), 0);
  }

  /** The script on the parsed lines. */
  function Answer(lines: seq<Line>): (r: nat)
    ensures r <= Pairs(|lines|)
  {
    CalculateBrickOverlap(ParseInput(lines))
  }
}
