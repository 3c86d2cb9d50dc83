/**
 * Boat races (day 6, part 1): holding the button for `h` of the race's `time`
 * milliseconds gives speed `h` for the remaining `time - h`, and a hold wins
 * when the distance beats the record. The answer multiplies the number of
 * winning holds of every race.
 */
module Day6Part1 {
  import opened Common

  datatype Race = Race(time: int, record: int)

  /** Distance covered when the button is held for `h`. */
  function Distance(time: int, h: int): int
  {
    h * (time - h)
  }

  predicate Wins(time: int, record: int, h: int)
  {
    Distance(time, h) > record
  }

  /** Number of winning holds among 1 .. hi - 1. */
  function WinsBelow(time: int, record: int, hi: int): (n: nat)
    ensures n <= Max(0, hi - 1)
    decreases hi
  {
    if hi <= 1 then 0
    else WinsBelow(time, record, hi - 1) + (if Wins(time, record, hi - 1) then 1 else 0)
  }

  /** Reference count: winning holds among 1 .. time - 1. */
  function WinningCount(time: int, record: int): nat
  {
    WinsBelow(time, record, time)
  }

  /** calculateWinningStrategies: tries every hold from 1 to time - 1. */
  method CalculateWinningStrategies(time: int, record: int) returns (ways: nat)
    ensures ways == WinningCount(time, record)
    ensures ways <= Max(0, time - 1)
  {
    ways := 0;
    var h := 1;
    while h < time
      invariant 1 <= h <= Max(1, time)
      invariant ways == WinsBelow(time, record, h)
    {
      if Distance(time, h) > record {
        ways := ways + 1;
      }
      h := h + 1;
    }
  }

  /** The distance formula is symmetric: holding `h` and holding `time - h` go equally far. */
  lemma WinsSymmetric(time: int, record: int, h: int)
    ensures Wins(time, record, h) <==> Wins(time, record, time - h)
  {
    assert Distance(time, time - h) == (time - h) * h;
  }

  /**
   * The winning holds form one contiguous run: a hold between two winning
   * holds wins too, since the distance is concave in the hold.
   */
  lemma WinnersContiguous(time: int, record: int, a: int, b: int, c: int)
    requires a <= b <= c
    requires Wins(time, record, a) && Wins(time, record, c)
    ensures Wins(time, record, b)
  {
    assert Distance(time, b) - Distance(time, a) == (b - a) * (time - a - b);
    assert Distance(time, b) - Distance(time, c) == (c - b) * (b + c - time);
    if a + b <= time {
      assert (b - a) * (time - a - b) >= 0;
    } else {
      assert (c - b) * (b + c - time) >= 0;
    }
  }

  /** Widening the range of holds never lowers the count. */
  lemma {:induction false} WinsBelowMonotone(time: int, record: int, lo: int, hi: int)
    requires lo <= hi
    ensures WinsBelow(time, record, lo) <= WinsBelow(time, record, hi)
    decreases hi - lo
  {
    if lo < hi {
      WinsBelowMonotone(time, record, lo, hi - 1);
    }
  }

  /** Every hold in range wins exactly when the count is the full range. */
  lemma {:induction false} AllWinIffFullCount(time: int, record: int, hi: int)
    ensures WinsBelow(time, record, hi) == Max(0, hi - 1) <==> forall h :: 1 <= h < hi ==> Wins(time, record, h)
    decreases hi
  {
    if hi > 1 {
      AllWinIffFullCount(time, record, hi - 1);
    }
  }

  /** No hold wins exactly when the count is zero. */
  lemma {:induction false} NoneWinIffZero(time: int, record: int, hi: int)
    ensures WinsBelow(time, record, hi) == 0 <==> forall h :: 1 <= h < hi ==> !Wins(time, record, h)
    decreases hi
  {
    if hi > 1 {
      NoneWinIffZero(time, record, hi - 1);
    }
  }

  /** Times and records are paired position by position, up to the shorter list. */
  function PairRaces(times: seq<int>, records: seq<int>): (races: seq<Race>)
    ensures |races| == Min(|times|, |records|)
    ensures forall i :: 0 <= i < |races| ==> races[i] == Race(times[i], records[i])
  {
    if |times| == 0 || |records| == 0 then []
    else [Race(times[0], records[0])] + PairRaces(times[1..], records[1..])
  }

  function Counts(races: seq<Race>): (cs: seq<int>)
    ensures |cs| == |races|
    ensures forall i :: 0 <= i < |cs| ==> cs[i] == WinningCount(races[i].time, races[i].record)
  {
    if |races| == 0 then []
    else Counts(races[..|races| - 1]) + [WinningCount(races[|races| - 1].time, races[|races| - 1].record)]
  }

  /** calculateTotalWinningWays: multiplies the counts, starting from 1. */
  method CalculateTotalWinningWays(races: seq<Race>) returns (total: int)
    ensures total == Product(Counts(races))
    ensures total >= 0
    ensures total == 0 <==> exists i :: 0 <= i < |races| && WinningCount(races[i].time, races[i].record) == 0
    ensures |races| == 0 ==> total == 1
  {
    total := 1;
    var i := 0;
    while i < |races|
      invariant 0 <= i <= |races|
      invariant total == Product(Counts(races[..i]))
    {
      var ways := CalculateWinningStrategies(races[i].time, races[i].record);
      TotalStep(races, i, total, ways);
      total := total * ways;
      i := i + 1;
    }
    assert races[..|races|] == races;
    TotalMeaning(races);
  }

  /** Multiplying in the next race's count gives the product over one more race. */
  lemma TotalStep(races: seq<Race>, i: int, total: int, ways: int)
    requires 0 <= i < |races| && total == Product(Counts(races[..i]))
    requires ways == WinningCount(races[i].time, races[i].record)
    ensures total * ways == Product(Counts(races[..i + 1]))
  {
    assert races[..i + 1][..i] == races[..i];
    assert Counts(races[..i + 1]) == Counts(races[..i]) + [ways];
    ProductAppend(Counts(races[..i]), ways);
  }

  /** The product of the counts is never negative, and zero exactly when some race has no winning hold. */
  lemma TotalMeaning(races: seq<Race>)
    ensures Product(Counts(races)) >= 0
    ensures Product(Counts(races)) == 0 <==> exists i :: 0 <= i < |races| && WinningCount(races[i].time, races[i].record) == 0
  {
    var cs := Counts(races);
    ProductNonNegative(cs);
    ProductZero(cs);
    assert forall i :: 0 <= i < |races| ==> (cs[i] == 0 <==> WinningCount(races[i].time, races[i].record) == 0);
  }
}
