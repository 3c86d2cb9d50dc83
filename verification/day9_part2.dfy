/**
 * Mirage maintenance (day 9, part 2): the same extrapolation run on every
 * history reversed, which yields the value that precedes the first one.
 */
module Day9Part2 {
  import opened Common
  import opened Day9Part1

  /** `array_reverse`. */
  function Reverse(s: seq<int>): (r: seq<int>)
    ensures |r| == |s|
    ensures forall i :: 0 <= i < |s| ==> r[i] == s[|s| - 1 - i]
  {
    seq(|s|, i requires 0 <= i < |s| => s[|s| - 1 - i])
  }

  function Negate(s: seq<int>): (r: seq<int>)
    ensures |r| == |s|
    ensures forall i :: 0 <= i < |s| ==> r[i] == -s[i]
  {
    seq(|s|, i requires 0 <= i < |s| => -s[i])
  }

  /** The value the script computes for one history: the next value of the reversed history. */
  function PreviousValue(h: seq<int>): int
  {
    NextValue(Reverse(h))
  }

  function PreviousValues(histories: seq<seq<int>>): (vs: seq<int>)
    ensures |vs| == |histories|
    ensures forall k :: 0 <= k < |vs| ==> vs[k] == PreviousValue(histories[k])
  {
    Each(PreviousValue, histories)
  }

  /** `extrapolate` with reversed histories: the sum of every history's previous value. */
  method ExtrapolateBackwards(histories: seq<seq<int>>) returns (total: int)
    ensures total == Sum(PreviousValues(histories))
  {
    total := 0;
    var k := 0;
    while k < |histories|
      invariant 0 <= k <= |histories|
      invariant total == Sum(PreviousValues(histories[..k]))
    {
      var prev := ExtrapolateHistory(Reverse(histories[k]));
      EachSnoc(PreviousValue, histories, k);
      SumAppend(PreviousValues(histories[..k]), prev);
      total := total + prev;
      k := k + 1;
    }
    assert histories[..|histories|] == histories;
  }

  /** Negating a history negates its next value. */
  lemma NextNegate(s: seq<int>)
    ensures NextValue(Negate(s)) == -NextValue(s)
  {
    var zeros := seq(|s|, i requires 0 <= i < |s| => 0);
    NextLinear(s, Negate(s), zeros);
    ZeroHistory(zeros);
  }

  lemma DifferencesReverseAt(s: seq<int>, i: int)
    requires 0 <= i < |s| - 1
    ensures Differences(Reverse(s))[i] == s[|s| - 2 - i] - s[|s| - 1 - i]
    ensures Negate(Reverse(Differences(s)))[i] == s[|s| - 2 - i] - s[|s| - 1 - i]
  {
    var r := Reverse(s);
    assert r[i + 1] == s[|s| - 2 - i] && r[i] == s[|s| - 1 - i];
    var d := Differences(s);
    assert Reverse(d)[i] == d[|s| - 2 - i];
  }

  /** The differences of a reversed history are the reversed, negated differences. */
  lemma DifferencesReverse(s: seq<int>)
    ensures Differences(Reverse(s)) == Negate(Reverse(Differences(s)))
  {
    var lhs := Differences(Reverse(s));
    var rhs := Negate(Reverse(Differences(s)));
    assert |lhs| == |rhs|;
    forall i | 0 <= i < |lhs|
      ensures lhs[i] == rhs[i]
    {
      DifferencesReverseAt(s, i);
    }
  }

  /**
   * Reference recurrence: the previous value of a non-empty history is its
   * first value minus the previous value of its difference level.
   */
  lemma PreviousRecurrence(h: seq<int>)
    requires |h| >= 1
    ensures PreviousValue(h) == h[0] - PreviousValue(Differences(h))
  {
    var r := Reverse(h);
    NextRecurrence(r);
    assert Last(r) == h[0];
    DifferencesReverse(h);
    NextNegate(Reverse(Differences(h)));
  }

  /** Putting `p` in front of a history puts `h[0] - p` in front of its differences. */
  lemma DifferencesCons(p: int, h: seq<int>)
    requires |h| >= 1
    ensures Differences([p] + h) == [h[0] - p] + Differences(h)
  {
    var ph := [p] + h;
    var lhs := Differences(ph);
    var rhs := [h[0] - p] + Differences(h);
    forall i | 0 <= i < |lhs|
      ensures lhs[i] == rhs[i]
    {
      assert ph[i + 1] == h[i];
      if i > 0 {
        assert ph[i] == h[i - 1];
      }
    }
  }

  /**
   * Prepending the previous value extends every difference level backwards
   * by its own previous value.
   */
  lemma ExtendsDifferencesBackwards(h: seq<int>)
    requires |h| >= 1
    ensures Differences([PreviousValue(h)] + h) == [PreviousValue(Differences(h))] + Differences(h)
  {
    PreviousRecurrence(h);
    DifferencesCons(PreviousValue(h), h);
  }

  /** An arithmetic history a, a + d, … of at least two values extrapolates backwards to a − d. */
  lemma ArithmeticPrevious(h: seq<int>, a: int, d: int)
    requires |h| >= 2 && Arithmetic(h, a, d)
    ensures PreviousValue(h) == a - d
  {
    var n := |h|;
    var r := Reverse(h);
    var a' := a + d * (n - 1);
    forall i | 0 <= i < n
      ensures r[i] == a' + -d * i
    {
      assert r[i] == h[n - 1 - i] == a + d * (n - 1 - i);
      assert d * (n - 1 - i) == d * (n - 1) - d * i;
    }
    ArithmeticHistory(r, a', -d);
    assert a' + -d * n == a - d by {
      assert d * (n - 1) == d * n - d;
    }
  }

  /** A single value extrapolates backwards to itself. */
  lemma SinglePrevious(x: int)
    ensures PreviousValue([x]) == x
  {
    assert Reverse([x]) == [x];
    ConstantHistory([x], x);
  }
}
