/**
 * Sand slabs (day 22, part 1): once the bricks have settled, count those
 * that could be taken away without another brick falling.
 *
 * For each brick in array order the script takes it out (its `z2` marked
 * down by 1000), then tries, for every later brick whose bottom is one
 * level above the taken brick's top, whether stretching it one level down
 * meets nothing. A brick that could fall that way keeps its lowered `z1`:
 * the `continue` skips the line that would put it back. The taken brick's
 * `z2` is restored before the next one.
 */
module Day22Part1 {
  import opened Common
  import opened Day22Bricks

  /** Brick `k` stretched one level down meets no other brick. */
  predicate Drops(s: seq<Brick>, k: int)
    requires 0 <= k < |s|
  {
    !DoesOverlapExist(s[k := Lower(s[k])], k)
  }

  /** Brick `k` comes after brick `i`, sits right on top of it, and could fall. */
  predicate Candidate(s: seq<Brick>, i: int, next: int, k: int)
    requires 0 <= i < |s| && 0 <= k < |s|
  {
    k > i && s[k].z1 == next && Drops(s, k)
  }

  /**
   * The inner `foreach` from index `j` on: the flag comes out set exactly
   * when it went in set or some brick from `j` on is a candidate in the array
   * as it stood; nothing changes unless a candidate is found, and a brick
   * that changes is a later one lowered by exactly one level.
   */
  function Scan(s: seq<Brick>, i: int, next: int, j: int, found: bool): (r: (seq<Brick>, bool))
    requires 0 <= i < |s| && 0 <= j <= |s|
    ensures |r.0| == |s|
    ensures r.1 <==> found || exists k :: j <= k < |s| && Candidate(s, i, next, k)
    ensures !r.1 ==> r.0 == s
    ensures forall k :: 0 <= k < |s| ==> r.0[k] == s[k] || (j <= k && i < k && r.0[k] == Lower(s[k]))
    decreases |s| - j
  {
    if j == |s| then (s, found)
    else if Candidate(s, i, next, j) then
      var r := Scan(s[j := Lower(s[j])], i, next, j + 1, true);
      assert forall k :: 0 <= k < |s| && k != j ==> s[j := Lower(s[j])][k] == s[k];
      r
    else
      Scan(s, i, next, j + 1, found)
  }

  /** The array with brick `i` taken out. */
  function Without(s: seq<Brick>, i: int): seq<Brick>
    requires 0 <= i < |s|
  {
    s[i := Removed(s[i])]
  }

  /** Brick `i` can go: no later brick sitting right on top of it could fall once it is out. */
  predicate Safe(s: seq<Brick>, i: int)
    requires 0 <= i < |s|
  {
    forall k :: i < k < |s| && s[k].z1 == s[i].z2 + 1 ==> !Drops(Without(s, i), k)
  }

  /** With brick `i` lower than 1000 levels, it is safe exactly when each later brick right on top of it has a third brick under it. */
  lemma SafeMeaning(s: seq<Brick>, i: int)
    requires 0 <= i < |s| && s[i].z2 - s[i].z1 < Marker
    ensures Safe(s, i) <==> forall k :: i < k < |s| && s[k].z1 == s[i].z2 + 1 ==>
      exists m :: 0 <= m < |s| && m != k && m != i && Meet(Lower(s[k]), s[m])
  {
    RemovedEmpty(s[i]);
    forall k | i < k < |s|
      ensures Drops(Without(s, i), k) <==> !exists m :: 0 <= m < |s| && m != k && m != i && Meet(Lower(s[k]), s[m])
    {
      var t := Without(s, i)[k := Lower(s[k])];
      OverlapIgnoresEmpty(t, k);
      assert t[i] == Removed(s[i]) && Empty(t[i]);
      assert forall m :: 0 <= m < |s| && m != k && m != i ==> t[m] == s[m];
    }
  }

  /** Every brick from `i` on is safe. */
  predicate SafeFrom(s: seq<Brick>, i: int)
    requires 0 <= i <= |s|
  {
    forall k :: i <= k < |s| ==> Safe(s, k)
  }

  /**
   * One pass of the outer `foreach`: the brick counts exactly when it is
   * safe; its own `z2` is back as it was, and the only bricks that change are
   * later ones lowered by one level, none when it counts.
   */
  function Turn(s: seq<Brick>, i: int): (r: (seq<Brick>, bool))
    requires 0 <= i < |s|
    ensures |r.0| == |s|
    ensures r.1 <==> Safe(s, i)
    ensures r.0[i] == s[i]
    ensures forall k :: 0 <= k < |s| ==> r.0[k] == s[k] || (i < k && r.0[k] == Lower(s[k]))
    ensures r.1 ==> r.0 == s
  {
    var t := Without(s, i);
    var sc := Scan(t, i, s[i].z2 + 1, 0, false);
    assert !sc.1 <==> Safe(s, i) by {
      if sc.1 {
        var k :| 0 <= k < |t| && Candidate(t, i, s[i].z2 + 1, k);
        assert t[k] == s[k];
      } else {
        forall k | i < k < |s| && s[k].z1 == s[i].z2 + 1
          ensures !Drops(t, k)
        {
          assert t[k] == s[k];
          assert !Candidate(t, i, s[i].z2 + 1, k);
        }
      }
    }
    var u := sc.0[i := sc.0[i].(z2 := sc.0[i].z2 + Marker)];
    assert u[i] == s[i];
    assert sc.1 ==> forall k :: 0 <= k < |s| ==> u[k] == s[k] || (i < k && u[k] == Lower(s[k]));
    (u, !sc.1)
  }

  /** The outer `foreach` from brick `i` on, counting the safe ones in turn. */
  function CountFrom(s: seq<Brick>, i: int): (r: nat)
    requires 0 <= i <= |s|
    ensures r <= |s| - i
    decreases |s| - i
  {
    if i == |s| then 0
    else
      var t := Turn(s, i);
      CountFrom(t.0, i + 1) + if t.1 then 1 else 0
  }

  /** Every brick counts exactly when every brick is safe in the settled array: no turn then changes it. */
  lemma {:induction false} CountAll(s: seq<Brick>, i: int)
    requires 0 <= i <= |s|
    ensures CountFrom(s, i) == |s| - i <==> SafeFrom(s, i)
    decreases |s| - i
  {
    if i < |s| {
      var t := Turn(s, i);
      assert CountFrom(s, i) == CountFrom(t.0, i + 1) + if t.1 then 1 else 0;
      assert SafeFrom(s, i) <==> Safe(s, i) && SafeFrom(s, i + 1);
      if t.1 {
        assert t.0 == s;
        CountAll(s, i + 1);
      } else {
        assert CountFrom(t.0, i + 1) <= |s| - (i + 1);
      }
    }
  }

  /**
   * `calculateBrickOverlap`: settle, then count. The answer is at most the
   * number of bricks, and equals it exactly when every settled brick is safe.
   */
  function CalculateBrickOverlap(bricks: seq<Brick>): (r: nat)
    ensures r <= |bricks|
    ensures r == |bricks| <==> SafeFrom(Settle(bricks), 0)
  {
    var s := Settle(bricks);
    assert |s| == |bricks|;
    CountAll(s, 0);
    CountFrom(s, 0)
  }

  /** The script on the parsed lines. */
  function Answer(lines: seq<Line>): (r: nat)
    ensures r <= |lines|
  {
    CalculateBrickOverlap(ParseInput(lines))
  }
}
