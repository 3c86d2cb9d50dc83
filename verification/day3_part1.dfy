/**
 * Engine schematic (day 3, part 1): numbers are maximal runs of digits in a
 * row; a number is a part number when one of its digits has a symbol among
 * its eight neighbours. The answer sums the part numbers.
 */
module Day3Part1 {
  import opened Common

  /** The schematic's rows; rows may differ in length. */
  type Schematic = seq<string>

  /** The eight neighbour offsets (row, column), in the order the scan tries them. */
  const Offsets: seq<(int, int)> := [(-1, -1), (-1, 0), (-1, 1), (0, -1), (0, 1), (1, -1), (1, 0), (1, 1)]

  /** A symbol is any character that is not a digit, '.' or ' '. */
  predicate IsSymbol(c: char)
  {
    !IsDigit(c) && c != '.' && c != ' '
  }

  predicate InGrid(g: Schematic, r: int, c: int)
  {
    0 <= r < |g| && 0 <= c < |g[r]|
  }

  predicate SymbolAt(g: Schematic, r: int, c: int)
  {
    InGrid(g, r, c) && IsSymbol(g[r][c])
  }

  /** (r', c') is one of the eight cells around (r, c). */
  predicate Adjacent(r: int, c: int, r': int, c': int)
  {
    -1 <= r' - r <= 1 && -1 <= c' - c <= 1 && (r', c') != (r, c)
  }

  /** The offsets are exactly the eight neighbour displacements. */
  lemma OffsetsAreNeighbours(r: int, c: int, r': int, c': int)
    ensures Adjacent(r, c, r', c') <==> exists k :: 0 <= k < |Offsets| && (r', c') == (r + Offsets[k].0, c + Offsets[k].1)
  {
    if Adjacent(r, c, r', c') {
      var d := (r' - r, c' - c);
      var k := if d == (-1, -1) then 0 else if d == (-1, 0) then 1 else if d == (-1, 1) then 2
        else if d == (0, -1) then 3 else if d == (0, 1) then 4 else if d == (1, -1) then 5
        else if d == (1, 0) then 6 else 7;
      assert (r', c') == (r + Offsets[k].0, c + Offsets[k].1);
    }
  }

  /** The offset loop of hasAdjacentSymbol, from offset `k` on. */
  function HasAdjacentSymbolFrom(g: Schematic, i: int, j: int, k: nat): (b: bool)
    requires k <= |Offsets|
    ensures b <==> exists m :: k <= m < |Offsets| && SymbolAt(g, i + Offsets[m].0, j + Offsets[m].1)
    decreases |Offsets| - k
  {
    if k == |Offsets| then false
    else SymbolAt(g, i + Offsets[k].0, j + Offsets[k].1) || HasAdjacentSymbolFrom(g, i, j, k + 1)
  }

  /** hasAdjacentSymbol: some in-bounds neighbour of (i, j) holds a symbol. */
  function HasAdjacentSymbol(g: Schematic, i: int, j: int): bool
  {
    HasAdjacentSymbolFrom(g, i, j, 0)
  }

  lemma HasAdjacentSymbolMeaning(g: Schematic, i: int, j: int)
    ensures HasAdjacentSymbol(g, i, j) <==> exists r, c :: SymbolAt(g, r, c) && Adjacent(i, j, r, c)
  {
    if HasAdjacentSymbol(g, i, j) {
      var m :| 0 <= m < |Offsets| && SymbolAt(g, i + Offsets[m].0, j + Offsets[m].1);
      OffsetsAreNeighbours(i, j, i + Offsets[m].0, j + Offsets[m].1);
    }
    if exists r, c :: SymbolAt(g, r, c) && Adjacent(i, j, r, c) {
      var r, c :| SymbolAt(g, r, c) && Adjacent(i, j, r, c);
      OffsetsAreNeighbours(i, j, r, c);
    }
  }

  /** isNumberAdjacentToSymbol: some column in [startCol, endCol] has an adjacent symbol. */
  predicate IsNumberAdjacentToSymbol(g: Schematic, row: int, startCol: int, endCol: int)
  {
    exists col :: startCol <= col <= endCol && HasAdjacentSymbol(g, row, col)
  }

  /** The end (exclusive) of the digit run continuing at `j`: the inner while loop. */
  function RunEnd(line: string, j: nat): (k: nat)
    requires j <= |line|
    ensures j <= k <= |line|
    ensures forall m :: j <= m < k ==> IsDigit(line[m])
    ensures k == |line| || !IsDigit(line[k])
    decreases |line| - j
  {
    if j == |line| || !IsDigit(line[j]) then j else RunEnd(line, j + 1)
  }

  /** `(int)` of the digit run that starts at `j`. */
  function RunValue(line: string, j: nat): nat
    requires j < |line| && IsDigit(line[j])
  {
    var k := RunEnd(line, j + 1);
    assert forall m :: 0 <= m < k - j ==> line[j..k][m] == line[j + m];
    DecimalValue(line[j..k])
  }

  /** What the number found at `j` adds to the sum: its value when it touches a symbol. */
  function NumberAt(g: Schematic, i: nat, j: nat): (v: int)
    requires i < |g| && j < |g[i]| && IsDigit(g[i][j])
  {
    if IsNumberAdjacentToSymbol(g, i, j, RunEnd(g[i], j + 1) - 1) then RunValue(g[i], j) else 0
  }

  /** The column loop of sumOfPartNumbers from column `j`: after a number it resumes at the run's end. */
  function ScanRow(g: Schematic, i: nat, j: nat): int
    requires i < |g| && j <= |g[i]|
    decreases |g[i]| - j
  {
    if j == |g[i]| then 0
    else if !IsDigit(g[i][j]) then ScanRow(g, i, j + 1)
    else NumberAt(g, i, j) + ScanRow(g, i, RunEnd(g[i], j + 1))
  }

  /** Column `s` begins a maximal digit run. */
  predicate IsRunStart(line: string, s: nat)
  {
    s < |line| && IsDigit(line[s]) && (s == 0 || !IsDigit(line[s - 1]))
  }

  /** Reference total of a row from column `j`: every maximal run starting at or after `j` counts once. */
  function RunStartsSum(g: Schematic, i: nat, j: nat): int
    requires i < |g| && j <= |g[i]|
    decreases |g[i]| - j
  {
    if j == |g[i]| then 0
    else (if IsRunStart(g[i], j) then NumberAt(g, i, j) else 0) + RunStartsSum(g, i, j + 1)
  }

  /** Columns strictly inside a run start nothing. */
  lemma {:induction false} NoStartsInsideRun(g: Schematic, i: nat, a: nat, k: nat)
    requires i < |g| && 0 < a <= k <= |g[i]|
    requires forall m :: a - 1 <= m < k ==> IsDigit(g[i][m])
    ensures RunStartsSum(g, i, a) == RunStartsSum(g, i, k)
    decreases k - a
  {
    if a < k {
      assert !IsRunStart(g[i], a);
      NoStartsInsideRun(g, i, a + 1, k);
    }
  }

  /**
   * Scanning a row counts exactly the maximal digit runs, each once: the
   * jumping scan equals the sum over run starts.
   */
  lemma {:induction false} ScanRowCountsEachRunOnce(g: Schematic, i: nat, j: nat)
    requires i < |g| && j <= |g[i]|
    requires j == 0 || j == |g[i]| || !IsDigit(g[i][j - 1]) || !IsDigit(g[i][j])
    ensures ScanRow(g, i, j) == RunStartsSum(g, i, j)
    decreases |g[i]| - j
  {
    if j < |g[i]| {
      if !IsDigit(g[i][j]) {
        ScanRowCountsEachRunOnce(g, i, j + 1);
      } else {
        var k := RunEnd(g[i], j + 1);
        assert IsRunStart(g[i], j);
        NoStartsInsideRun(g, i, j + 1, k);
        ScanRowCountsEachRunOnce(g, i, k);
      }
    }
  }

  /** Sum of the rows' reference totals over rows [0, n). */
  function PartNumberSum(g: Schematic, n: nat): int
    requires n <= |g|
  {
    if n == 0 then 0 else PartNumberSum(g, n - 1) + RunStartsSum(g, n - 1, 0)
  }

  /**
   * sumOfPartNumbers: the nested scan over rows and columns adds each maximal
   * digit run once, when it is adjacent to a symbol.
   */
  method SumOfPartNumbers(g: Schematic) returns (sum: int)
    ensures sum == PartNumberSum(g, |g|)
  {
    sum := 0;
    var i := 0;
    while i < |g|
      invariant 0 <= i <= |g|
      invariant sum == PartNumberSum(g, i)
    {
      var j := 0;
      var rowSum := 0;
      while j < |g[i]|
        invariant 0 <= j <= |g[i]|
        invariant j == 0 || !IsDigit(g[i][j - 1]) || j == |g[i]| || !IsDigit(g[i][j])
        invariant rowSum + ScanRow(g, i, j) == ScanRow(g, i, 0)
        decreases |g[i]| - j
      {
        if IsDigit(g[i][j]) {
          var k := j + 1;
          while k < |g[i]| && IsDigit(g[i][k])
            invariant j + 1 <= k <= |g[i]|
            invariant RunEnd(g[i], k) == RunEnd(g[i], j + 1)
            decreases |g[i]| - k
          {
            k := k + 1;
          }
          if IsNumberAdjacentToSymbol(g, i, j, k - 1) {
            rowSum := rowSum + RunValue(g[i], j);
          }
          j := k;
        } else {
          j := j + 1;
        }
      }
      ScanRowCountsEachRunOnce(g, i, 0);
      sum := sum + rowSum;
      i := i + 1;
    }
  }
}
