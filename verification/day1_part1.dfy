/**
 * Calibration values (day 1, part 1): each line keeps only its digits, and the
 * line's value is the two-digit number made of the first and the last digit.
 */
module Day1Part1 {
  import opened Common

  /** The line with every non-digit character removed. */
  function CleanLine(line: string): (r: string)
    ensures |r| <= |line|
    ensures forall i :: 0 <= i < |r| ==> IsDigit(r[i])
  {
    if |line| == 0 then []
    else if IsDigit(line[0]) then [line[0]] + CleanLine(line[1..])
    else CleanLine(line[1..])
  }

  /** Cleaning distributes over concatenation: it keeps exactly the digits, in order. */
  lemma {:induction false} CleanLineConcat(a: string, b: string)
    ensures CleanLine(a + b) == CleanLine(a) + CleanLine(b)
    decreases |a|
  {
    if |a| == 0 {
      assert a + b == b;
    } else {
      assert (a + b)[1..] == a[1..] + b;
      CleanLineConcat(a[1..], b);
    }
  }

  /** A line made only of digits is left unchanged; in particular cleaning is idempotent. */
  lemma {:induction false} CleanLineKeepsDigits(line: string)
    requires forall i :: 0 <= i < |line| ==> IsDigit(line[i])
    ensures CleanLine(line) == line
    decreases |line|
  {
    if |line| > 0 {
      CleanLineKeepsDigits(line[1..]);
    }
  }

  lemma CleanLineIdempotent(line: string)
    ensures CleanLine(CleanLine(line)) == CleanLine(line)
  {
    CleanLineKeepsDigits(CleanLine(line));
  }

  /** Positions `i` of the line that hold the first and the last digit. */
  predicate IsFirstDigit(line: string, i: int)
  {
    0 <= i < |line| && IsDigit(line[i]) && forall k :: 0 <= k < i ==> !IsDigit(line[k])
  }

  predicate IsLastDigit(line: string, j: int)
  {
    0 <= j < |line| && IsDigit(line[j]) && forall k :: j < k < |line| ==> !IsDigit(line[k])
  }

  /**
   * `intval(first . last)` of the cleaned line; `intval("")` is 0 when the line
   * holds no digit.
   */
  function CalibrationValue(line: string): (v: nat)
    ensures v < 100
  {
    var clean := CleanLine(line);
    if |clean| == 0 then 0
    else 10 * DigitValue(clean[0]) + DigitValue(clean[|clean| - 1])
  }

  lemma {:induction false} FirstOfClean(line: string)
    requires |CleanLine(line)| > 0
    ensures exists i :: IsFirstDigit(line, i) && CleanLine(line)[0] == line[i]
    decreases |line|
  {
    if IsDigit(line[0]) {
      assert IsFirstDigit(line, 0);
    } else {
      FirstOfClean(line[1..]);
      var i :| IsFirstDigit(line[1..], i) && CleanLine(line[1..])[0] == line[1..][i];
      assert IsFirstDigit(line, i + 1);
    }
  }

  lemma {:induction false} LastOfClean(line: string)
    requires |CleanLine(line)| > 0
    ensures exists j :: IsLastDigit(line, j) && CleanLine(line)[|CleanLine(line)| - 1] == line[j]
    decreases |line|
  {
    var rest := CleanLine(line[1..]);
    if |rest| > 0 {
      LastOfClean(line[1..]);
      var j :| IsLastDigit(line[1..], j) && rest[|rest| - 1] == line[1..][j];
      assert IsLastDigit(line, j + 1);
    } else {
      NoDigitsWhenCleanEmpty(line[1..]);
      assert IsLastDigit(line, 0);
    }
  }

  lemma {:induction false} NoDigitsWhenCleanEmpty(line: string)
    requires |CleanLine(line)| == 0
    ensures forall k :: 0 <= k < |line| ==> !IsDigit(line[k])
    decreases |line|
  {
    if |line| > 0 {
      NoDigitsWhenCleanEmpty(line[1..]);
      assert forall k :: 1 <= k < |line| ==> line[k] == line[1..][k - 1];
    }
  }

  /**
   * The calibration value is ten times the line's first digit plus its last
   * digit (a single digit is used twice), and 0 for a line without digits.
   */
  lemma CalibrationValueMeaning(line: string)
    ensures (forall k :: 0 <= k < |line| ==> !IsDigit(line[k])) ==> CalibrationValue(line) == 0
    ensures forall i, j :: IsFirstDigit(line, i) && IsLastDigit(line, j) ==>
      CalibrationValue(line) == 10 * DigitValue(line[i]) + DigitValue(line[j])
  {
    if |CleanLine(line)| == 0 {
      NoDigitsWhenCleanEmpty(line);
    } else {
      FirstOfClean(line);
      LastOfClean(line);
      forall i, j | IsFirstDigit(line, i) && IsLastDigit(line, j)
        ensures CalibrationValue(line) == 10 * DigitValue(line[i]) + DigitValue(line[j])
      {
        var i' :| IsFirstDigit(line, i') && CleanLine(line)[0] == line[i'];
        var j' :| IsLastDigit(line, j') && CleanLine(line)[|CleanLine(line)| - 1] == line[j'];
        assert i == i';
        assert j == j';
      }
    }
  }

  /** The per-line values, in line order. */
  function LineValues(lines: seq<string>): (vs: seq<int>)
    ensures |vs| == |lines|
    ensures forall i :: 0 <= i < |lines| ==> vs[i] == CalibrationValue(lines[i])
  {
    seq(|lines|, i requires 0 <= i < |lines| => CalibrationValue(lines[i]))
  }

  /** The loop of getCalibrationSum: the total is the sum of the line values. */
  method GetCalibrationSum(lines: seq<string>) returns (total: int)
    ensures total == Sum(LineValues(lines))
    ensures 0 <= total <= 99 * |lines|
  {
    total := 0;
    var n := 0;
    while n < |lines|
      invariant 0 <= n <= |lines|
      invariant total == Sum(LineValues(lines)[..n])
      invariant 0 <= total <= 99 * n
    {
      assert LineValues(lines)[..n + 1] == LineValues(lines)[..n] + [CalibrationValue(lines[n])];
      SumAppend(LineValues(lines)[..n], CalibrationValue(lines[n]));
      total := total + CalibrationValue(lines[n]);
      n := n + 1;
    }
    assert LineValues(lines)[..n] == LineValues(lines);
  }
}
