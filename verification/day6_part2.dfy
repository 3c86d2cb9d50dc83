/**
 * One long race (day 6, part 2): the digits of each input line, with every
 * other character dropped, form a single time and a single record; the answer
 * is that race's number of winning holds.
 */
module Day6Part2 {
  import opened Common
  import Day1Part1
  import Day6Part1

  /** `(int)` of the line with every non-digit removed; no digit at all reads as 0. */
  function ConcatenatedNumber(line: string): (n: nat)
    ensures |Day1Part1.CleanLine(line)| == 0 ==> n == 0
  {
    DecimalValue(Day1Part1.CleanLine(line))
  }

  /** Splitting a line anywhere, its number is the left part's digits followed by the right part's. */
  lemma DigitsConcatenate(a: string, b: string)
    ensures ConcatenatedNumber(a + b)
      == ConcatenatedNumber(a) * Pow10(|Day1Part1.CleanLine(b)|) + ConcatenatedNumber(b)
  {
    Day1Part1.CleanLineConcat(a, b);
    DecimalValueConcat(Day1Part1.CleanLine(a), Day1Part1.CleanLine(b));
  }

  /** Spaces between the digits, as in "Time:  7  15   30", do not change the number. */
  lemma SpacesIgnored(a: string, b: string)
    ensures ConcatenatedNumber(a + " " + b) == ConcatenatedNumber(a + b)
  {
    Day1Part1.CleanLineConcat(a + " ", b);
    Day1Part1.CleanLineConcat(a, " ");
    Day1Part1.CleanLineConcat(a, b);
    assert Day1Part1.CleanLine(" ") == [];
    assert Day1Part1.CleanLine(a) + [] == Day1Part1.CleanLine(a);
  }

  function ParseConcatenatedRaceData(timeLine: string, distanceLine: string): (race: Day6Part1.Race)
    ensures race.time >= 0 && race.record >= 0
  {
    Day6Part1.Race(ConcatenatedNumber(timeLine), ConcatenatedNumber(distanceLine))
  }

  /** calculateTotalWinningWaysForLongRace: the loop over holds 1 .. time - 1 of part 1, on the single race. */
  method CalculateTotalWinningWaysForLongRace(timeLine: string, distanceLine: string) returns (ways: nat)
    ensures ways == Day6Part1.WinningCount(ConcatenatedNumber(timeLine), ConcatenatedNumber(distanceLine))
    ensures ways <= Max(0, ConcatenatedNumber(timeLine) - 1)
  {
    var race := ParseConcatenatedRaceData(timeLine, distanceLine);
    ways := Day6Part1.CalculateWinningStrategies(race.time, race.record);
  }

  /** Raising the record never increases the number of winning holds. */
  lemma {:induction false} RecordMonotone(time: int, r1: int, r2: int, hi: int)
    requires r1 <= r2
    ensures Day6Part1.WinsBelow(time, r2, hi) <= Day6Part1.WinsBelow(time, r1, hi)
    decreases hi
  {
    if hi > 1 {
      RecordMonotone(time, r1, r2, hi - 1);
    }
  }
}
