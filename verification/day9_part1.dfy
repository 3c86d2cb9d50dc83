/**
 * Mirage maintenance (day 9, part 1): every history is reduced to successive
 * levels of pairwise differences; the next value of the history is its last
 * value plus the last values of all difference levels. The answer sums the
 * next values of all histories.
 */
module Day9Part1 {
  import opened Common

  /** One level down: the pairwise differences, one element shorter. */
  function Differences(s: seq<int>): (d: seq<int>)
    ensures |d| == if |s| == 0 then 0 else |s| - 1
    ensures forall i :: 0 <= i < |d| ==> d[i] == s[i + 1] - s[i]
  {
    if |s| <= 1 then [] else seq(|s| - 1, i requires 0 <= i < |s| - 1 => s[i + 1] - s[i])
  }

  /** `end($seq)`, with PHP's `false` (0 in arithmetic) for an empty array. */
  function Last(s: seq<int>): int
  {
    if |s| == 0 then 0 else s[|s| - 1]
  }

  /** The last value of every difference level, deepest level first (the `array_unshift` order). */
  function LastValues(s: seq<int>): (lasts: seq<int>)
    ensures |lasts| == if |s| == 0 then 0 else |s| - 1
    decreases |s|
  {
    if |s| <= 1 then [] else LastValues(Differences(s)) + [Last(Differences(s))]
  }

  /** The value the script computes for one history. */
  function NextValue(h: seq<int>): int
  {
    Sum(LastValues(h)) + Last(h)
  }

  /** The loop body of `extrapolate` for one history, with its inner difference loop. */
  method ExtrapolateHistory(history: seq<int>) returns (next: int)
    ensures next == NextValue(history)
  {
    var sequence := history;
    var lastValues: seq<int> := [];
    while |sequence| > 1
      invariant LastValues(history) == LastValues(sequence) + lastValues
      decreases |sequence|
    {
      var newSequence := DifferenceLevel(sequence);
      LastValuesStep(sequence, lastValues);
      sequence := newSequence;
      if |sequence| > 0 {
        lastValues := [Last(sequence)] + lastValues;
      }
    }
    assert LastValues(sequence) == [];
    assert lastValues == LastValues(history);
    next := Sum(lastValues) + Last(history);
  }

  /** The inner `for` loop: one level of pairwise differences. */
  method DifferenceLevel(sequence: seq<int>) returns (newSequence: seq<int>)
    requires |sequence| > 1
    ensures newSequence == Differences(sequence)
  {
    newSequence := [];
    var i := 0;
    while i < |sequence| - 1
      invariant 0 <= i <= |sequence| - 1
      invariant |newSequence| == i
      invariant forall j :: 0 <= j < i ==> newSequence[j] == sequence[j + 1] - sequence[j]
    {
      newSequence := newSequence + [sequence[i + 1] - sequence[i]];
      i := i + 1;
    }
  }

  lemma LastValuesStep(s: seq<int>, acc: seq<int>)
    requires |s| > 1
    ensures LastValues(s) + acc == LastValues(Differences(s)) + ([Last(Differences(s))] + acc)
  {
    var d := Differences(s);
    assert LastValues(s) == LastValues(d) + [Last(d)];
    AppendAssociative(LastValues(d), [Last(d)], acc);
  }

  lemma AppendAssociative(a: seq<int>, b: seq<int>, c: seq<int>)
    ensures (a + b) + c == a + (b + c)
  {
  }

  /** `extrapolate`: the sum of every history's next value. */
  method Extrapolate(histories: seq<seq<int>>) returns (total: int)
    ensures total == Sum(NextValues(histories))
  {
    total := 0;
    var k := 0;
    while k < |histories|
      invariant 0 <= k <= |histories|
      invariant total == Sum(NextValues(histories[..k]))
    {
      var next := ExtrapolateHistory(histories[k]);
      EachSnoc(NextValue, histories, k);
      SumAppend(NextValues(histories[..k]), next);
      total := total + next;
      k := k + 1;
    }
    assert histories[..|histories|] == histories;
  }

  /** One value per history, in order. */
  function Each(f: seq<int> -> int, histories: seq<seq<int>>): (vs: seq<int>)
    ensures |vs| == |histories|
    ensures forall k :: 0 <= k < |vs| ==> vs[k] == f(histories[k])
  {
    seq(|histories|, k requires 0 <= k < |histories| => f(histories[k]))
  }

  /** The values of one more history are the values so far and one more. */
  lemma EachSnoc(f: seq<int> -> int, histories: seq<seq<int>>, k: int)
    requires 0 <= k < |histories|
    ensures Each(f, histories[..k + 1]) == Each(f, histories[..k]) + [f(histories[k])]
  {
    var a := Each(f, histories[..k + 1]);
    var b := Each(f, histories[..k]) + [f(histories[k])];
    forall j | 0 <= j < |a|
      ensures a[j] == b[j]
    {
      assert histories[..k + 1][j] == histories[j];
      if j < k {
        assert histories[..k][j] == histories[j];
      }
    }
  }

  function NextValues(histories: seq<seq<int>>): (vs: seq<int>)
    ensures |vs| == |histories|
    ensures forall k :: 0 <= k < |vs| ==> vs[k] == NextValue(histories[k])
  {
    Each(NextValue, histories)
  }

  /**
   * Reference recurrence: the next value of a non-empty history is its last
   * value plus the next value of its difference level.
   */
  lemma NextRecurrence(s: seq<int>)
    requires |s| >= 1
    ensures NextValue(s) == Last(s) + NextValue(Differences(s))
  {
    if |s| >= 2 {
      SumAppend(LastValues(Differences(s)), Last(Differences(s)));
    }
  }

  /**
   * Appending the next value extends every difference level by its own
   * next value: the difference table of `h + [next]` continues the table of
   * `h` one column further.
   */
  lemma ExtendsDifferences(h: seq<int>)
    requires |h| >= 1
    ensures Differences(h + [NextValue(h)]) == Differences(h) + [NextValue(Differences(h))]
  {
    var x := NextValue(h);
    NextRecurrence(h);
    var lhs := Differences(h + [x]);
    var rhs := Differences(h) + [NextValue(Differences(h))];
    assert |lhs| == |rhs|;
    forall i | 0 <= i < |lhs|
      ensures lhs[i] == rhs[i]
    {
      if i == |h| - 1 {
        assert (h + [x])[i + 1] == x;
        assert (h + [x])[i] == Last(h);
      } else {
        assert (h + [x])[i + 1] == h[i + 1];
        assert (h + [x])[i] == h[i];
      }
    }
  }

  predicate AllEqual(s: seq<int>, c: int)
  {
    forall i :: 0 <= i < |s| ==> s[i] == c
  }

  /** A history of zeros extrapolates to zero. */
  lemma {:induction false} ZeroHistory(s: seq<int>)
    requires AllEqual(s, 0)
    ensures NextValue(s) == 0
    decreases |s|
  {
    if |s| >= 1 {
      NextRecurrence(s);
      ZeroHistory(Differences(s));
    }
  }

  /** A constant non-empty history extrapolates to the same constant; in particular a single value extrapolates to itself. */
  lemma ConstantHistory(s: seq<int>, c: int)
    requires |s| >= 1 && AllEqual(s, c)
    ensures NextValue(s) == c
  {
    NextRecurrence(s);
    ZeroHistory(Differences(s));
  }

  predicate Arithmetic(s: seq<int>, a: int, d: int)
  {
    forall i :: 0 <= i < |s| ==> s[i] == a + d * i
  }

  lemma ArithmeticDifferences(s: seq<int>, a: int, d: int)
    requires Arithmetic(s, a, d)
    ensures AllEqual(Differences(s), d)
  {
    var ds := Differences(s);
    forall i | 0 <= i < |ds|
      ensures ds[i] == d
    {
      assert s[i + 1] == a + d * (i + 1) && s[i] == a + d * i;
      assert d * (i + 1) == d * i + d;
    }
  }

  lemma ArithmeticNextTerm(a: int, d: int, n: int)
    ensures a + d * (n - 1) + d == a + d * n
  {
  }

  /** An arithmetic history a, a + d, …, a + d·(n − 1) of at least two values extrapolates to a + d·n. */
  lemma ArithmeticHistory(s: seq<int>, a: int, d: int)
    requires |s| >= 2 && Arithmetic(s, a, d)
    ensures NextValue(s) == a + d * |s|
  {
    var n := |s|;
    var ds := Differences(s);
    ArithmeticDifferences(s, a, d);
    ConstantHistory(ds, d);
    NextRecurrence(s);
    var last := s[n - 1];
    assert last == a + d * (n - 1);
    assert NextValue(s) == last + d;
    ArithmeticNextTerm(a, d, n);
  }

  /** The next value is linear: extrapolating a sum of histories adds their next values. */
  lemma {:induction false} NextLinear(s: seq<int>, t: seq<int>, u: seq<int>)
    requires |s| == |t| == |u|
    requires forall i :: 0 <= i < |u| ==> u[i] == s[i] + t[i]
    ensures NextValue(u) == NextValue(s) + NextValue(t)
    decreases |u|
  {
    if |u| >= 1 {
      NextRecurrence(s);
      NextRecurrence(t);
      NextRecurrence(u);
      NextLinear(Differences(s), Differences(t), Differences(u));
    }
  }
}
