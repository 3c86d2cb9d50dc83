/**
 * Hot springs (day 12, part 1): a row of springs is operational `.`,
 * damaged `#` or unknown `?`, together with the lengths of the contiguous
 * damaged groups. Every `?` is tried both ways; the answer counts the
 * completed rows whose damaged groups are exactly the listed ones.
 */
module Day12Part1 {
  import opened Common

  /** `processSpringCharacter`'s outcome: go on with the new run and group index, reject, or throw on another character. */
  datatype Step = Continue(current: nat, offset: nat) | Reject | Throws

  /**
   * `processSpringCharacter`: a `.` closes the current run, which must equal
   * the current group; a `#` extends it, which must stay within the current
   * group. A group index past the end reads PHP's `null`, which matches no run.
   */
  function ProcessSpring(c: char, current: nat, offset: nat, damaged: seq<int>): (r: Step)
    ensures c != '.' && c != '#' <==> r == Throws
    ensures r.Continue? && c == '#' ==> r == Continue(current + 1, offset) && offset < |damaged| && current + 1 <= damaged[offset]
    ensures r.Continue? && c == '.' && current > 0 ==> r == Continue(0, offset + 1) && offset < |damaged| && damaged[offset] == current
    ensures r.Continue? && c == '.' && current == 0 ==> r == Continue(0, offset)
  {
    if c == '.' then
      if current > 0 then
        if offset >= |damaged| || current != damaged[offset] then Reject else Continue(0, offset + 1)
      else Continue(current, offset)
    else if c == '#' then
      if offset >= |damaged| || current + 1 > damaged[offset] then Reject else Continue(current + 1, offset)
    else Throws
  }

  /** The final test of `isArrangementPossible`: the trailing run matches and every group has been used. */
  predicate Finished(current: nat, offset: nat, damaged: seq<int>)
  {
    (current == 0 || (offset < |damaged| && current == damaged[offset]))
    && offset == |damaged| - (if current > 0 then 1 else 0)
  }

  /** The `foreach` of `isArrangementPossible` from a given run and group index; `None` where it throws. */
  function Scan(s: string, current: nat, offset: nat, damaged: seq<int>): Option<bool>
  {
    if |s| == 0 then Some(Finished(current, offset, damaged))
    else
      match ProcessSpring(s[0], current, offset, damaged)
      case Reject => Some(false)
      case Throws => None
      case Continue(c, o) => Scan(s[1..], c, o, damaged)
  }

  /** `isArrangementPossible`; `None` where the script throws on a character other than `.` and `#`. */
  function Possible(s: string, damaged: seq<int>): Option<bool>
  {
    Scan(s, 0, 0, damaged)
  }

  predicate IsSpring(c: char)
  {
    c == '.' || c == '#'
  }

  predicate AllSprings(s: string)
  {
    forall i :: 0 <= i < |s| ==> IsSpring(s[i])
  }

  /**
   * Reference: the lengths of the maximal blocks of `#`, left to right, in
   * the row `s` preceded by `current` extra `#`.
   */
  function RunsFrom(current: nat, s: string): seq<int>
    decreases |s|
  {
    if |s| == 0 then (if current > 0 then [current] else [])
    else if s[0] == '#' then RunsFrom(current + 1, s[1..])
    else (if current > 0 then [current] else []) + RunsFrom(0, s[1..])
  }

  /** The damaged groups of a row. */
  function Runs(s: string): seq<int>
  {
    RunsFrom(0, s)
  }

  lemma {:induction false} RunsFromPending(current: nat, s: string)
    requires current > 0
    ensures |RunsFrom(current, s)| >= 1 && RunsFrom(current, s)[0] >= current
    decreases |s|
  {
    if |s| > 0 && s[0] == '#' {
      RunsFromPending(current + 1, s[1..]);
    }
  }

  /**
   * The scan from a run of `current` and group index `offset` accepts
   * exactly when the remaining groups are the runs still to come.
   */
  lemma {:induction false} ScanRuns(s: string, current: nat, offset: nat, damaged: seq<int>)
    requires AllSprings(s) && offset <= |damaged|
    ensures Scan(s, current, offset, damaged) == Some(RunsFrom(current, s) == damaged[offset..])
    decreases |s|
  {
    if |s| == 0 {
      if current > 0 && offset < |damaged| {
        assert damaged[offset..] == [damaged[offset]] + damaged[offset + 1..];
      }
    } else if s[0] == '#' {
      if offset >= |damaged| || current + 1 > damaged[offset] {
        RunsFromPending(current + 1, s[1..]);
      } else {
        ScanRuns(s[1..], current + 1, offset, damaged);
      }
    } else if current > 0 {
      RunsFromPending(current, s);
      if offset < |damaged| {
        assert damaged[offset..] == [damaged[offset]] + damaged[offset + 1..];
        if current == damaged[offset] {
          ScanRuns(s[1..], 0, offset + 1, damaged);
        }
      }
    } else {
      ScanRuns(s[1..], 0, offset, damaged);
      assert RunsFrom(0, s) == RunsFrom(0, s[1..]);
    }
  }

  /** A row of `.` and `#` is accepted exactly when its damaged groups are the listed ones. */
  lemma PossibleIffRuns(s: string, damaged: seq<int>)
    requires AllSprings(s)
    ensures Possible(s, damaged) == Some(Runs(s) == damaged)
  {
    ScanRuns(s, 0, 0, damaged);
    assert damaged[0..] == damaged;
  }

  /** `replaceChar`: the row with the character at `index` replaced. */
  function ReplaceChar(s: string, c: char, index: nat): (r: string)
    requires index < |s|
    ensures |r| == |s| && r[index] == c
    ensures forall j :: 0 <= j < |s| && j != index ==> r[j] == s[j]
  {
    s[..index] + [c] + s[index + 1..]
  }

  /** The number of `?` in a row. */
  function Unknowns(s: string): nat
  {
    if |s| == 0 then 0 else (if s[0] == '?' then 1 else 0) + Unknowns(s[1..])
  }

  lemma {:induction false} UnknownsConcat(a: string, b: string)
    ensures Unknowns(a + b) == Unknowns(a) + Unknowns(b)
    decreases |a|
  {
    if |a| == 0 {
      assert a + b == b;
    } else {
      assert (a + b)[1..] == a[1..] + b;
      UnknownsConcat(a[1..], b);
    }
  }

  /** Resolving one `?` leaves one `?` fewer. */
  lemma ReplaceUnknown(s: string, c: char, index: nat)
    requires index < |s| && s[index] == '?' && c != '?'
    ensures Unknowns(ReplaceChar(s, c, index)) + 1 == Unknowns(s)
  {
    var pre := s[..index];
    var post := s[index + 1..];
    var mid := [s[index]] + post;
    var mid' := [c] + post;
    assert mid[0] == '?' && mid[1..] == post;
    assert mid'[0] == c && mid'[1..] == post;
    assert s == pre + mid;
    assert ReplaceChar(s, c, index) == pre + mid';
    UnknownsConcat(pre, mid);
    UnknownsConcat(pre, mid');
  }

  /** A completion of the row with one `?` resolved to `c` completes the row, with `c` at that place. */
  lemma CompletesReplaced(s: string, c: char, index: nat, ts: seq<string>)
    requires index < |s| && s[index] == '?' && IsSpring(c)
    requires forall t :: t in ts ==> Completes(ReplaceChar(s, c, index), t)
    ensures forall t :: t in ts ==> Completes(s, t) && t[index] == c
  {
  }

  /** Two duplicate-free lists that differ at one place in every element concatenate to a duplicate-free list. */
  lemma DistinctMerge(a: seq<string>, b: seq<string>, index: nat)
    requires Distinct(a) && Distinct(b)
    requires forall t :: t in a ==> index < |t| && t[index] == '.'
    requires forall t :: t in b ==> index < |t| && t[index] == '#'
    ensures Distinct(a + b)
  {
    var r := a + b;
    forall i, j | 0 <= i < j < |r|
      ensures r[i] != r[j]
    {
      if i < |a| && j >= |a| {
        assert r[i] in a && r[j] in b;
      }
    }
  }

  /** `t` is `s` with every `?` resolved to `.` or `#` and every other character kept. */
  predicate Completes(s: string, t: string)
  {
    |t| == |s| && forall i :: 0 <= i < |s| ==> if s[i] == '?' then IsSpring(t[i]) else t[i] == s[i]
  }

  predicate Distinct(ts: seq<string>)
  {
    forall i, j :: 0 <= i < j < |ts| ==> ts[i] != ts[j]
  }

  /**
   * `getArrangements`: every completion of the row that the check accepts,
   * each once, at most two per `?`; `None` where the check throws.
   */
  function Arrangements(s: string, damaged: seq<int>): (r: Option<seq<string>>)
    ensures r.Some? ==> forall t :: t in r.value ==> Completes(s, t) && Possible(t, damaged) == Some(true)
    ensures r.Some? ==> Distinct(r.value)
    ensures r.Some? ==> |r.value| <= Pow2(Unknowns(s))
    decreases Unknowns(s)
  {
    match IndexOf(s, '?')
    case None =>
      (match Possible(s, damaged)
       case None => None
       case Some(ok) => Some(if ok then [s] else []))
    case Some(i) =>
      ReplaceUnknown(s, '.', i);
      ReplaceUnknown(s, '#', i);
      var dots := Arrangements(ReplaceChar(s, '.', i), damaged);
      var hashes := Arrangements(ReplaceChar(s, '#', i), damaged);
      if dots.None? || hashes.None? then None
      else
        MergeArrangements(s, damaged, i, dots.value, hashes.value);
        Some(dots.value + hashes.value)
  }

  /** The arrangements with one `?` resolved to `.` and those with it resolved to `#` together are arrangements of the row. */
  lemma MergeArrangements(s: string, damaged: seq<int>, i: nat, a: seq<string>, b: seq<string>)
    requires i < |s| && s[i] == '?'
    requires forall t :: t in a ==> Completes(ReplaceChar(s, '.', i), t) && Possible(t, damaged) == Some(true)
    requires forall t :: t in b ==> Completes(ReplaceChar(s, '#', i), t) && Possible(t, damaged) == Some(true)
    requires Distinct(a) && Distinct(b)
    requires |a| <= Pow2(Unknowns(ReplaceChar(s, '.', i))) && |b| <= Pow2(Unknowns(ReplaceChar(s, '#', i)))
    ensures forall t :: t in a + b ==> Completes(s, t) && Possible(t, damaged) == Some(true)
    ensures Distinct(a + b)
    ensures |a + b| <= Pow2(Unknowns(s))
  {
    MergeCompletes(s, damaged, i, a, b);
    DistinctMerge(a, b, i);
    MergeCount(s, i, |a|, |b|);
  }

  lemma MergeCompletes(s: string, damaged: seq<int>, i: nat, a: seq<string>, b: seq<string>)
    requires i < |s| && s[i] == '?'
    requires forall t :: t in a ==> Completes(ReplaceChar(s, '.', i), t) && Possible(t, damaged) == Some(true)
    requires forall t :: t in b ==> Completes(ReplaceChar(s, '#', i), t) && Possible(t, damaged) == Some(true)
    ensures forall t :: t in a + b ==> Completes(s, t) && Possible(t, damaged) == Some(true)
    ensures forall t :: t in a ==> i < |t| && t[i] == '.'
    ensures forall t :: t in b ==> i < |t| && t[i] == '#'
  {
    CompletesReplaced(s, '.', i, a);
    CompletesReplaced(s, '#', i, b);
  }

  lemma MergeCount(s: string, i: nat, na: nat, nb: nat)
    requires i < |s| && s[i] == '?'
    requires na <= Pow2(Unknowns(ReplaceChar(s, '.', i))) && nb <= Pow2(Unknowns(ReplaceChar(s, '#', i)))
    ensures na + nb <= Pow2(Unknowns(s))
  {
    ReplaceUnknown(s, '.', i);
    ReplaceUnknown(s, '#', i);
    var n := Unknowns(ReplaceChar(s, '.', i));
    assert Pow2(n + 1) == 2 * Pow2(n);
  }

  /** A row of `.`, `#` and `?` only. */
  predicate WellFormed(s: string)
  {
    forall i :: 0 <= i < |s| ==> IsSpring(s[i]) || s[i] == '?'
  }

  lemma CompletesWellFormed(s: string, t: string)
    requires WellFormed(s) && Completes(s, t)
    ensures AllSprings(t)
  {
  }

  /**
   * On a well-formed row nothing throws, and every accepted completion is
   * listed.
   */
  lemma {:induction false} ArrangementsComplete(s: string, damaged: seq<int>, t: string)
    requires WellFormed(s) && Completes(s, t) && Runs(t) == damaged
    ensures Arrangements(s, damaged).Some? && t in Arrangements(s, damaged).value
    decreases Unknowns(s)
  {
    PossibleIffRuns(t, damaged);
    match IndexOf(s, '?')
    case None =>
      assert t == s;
    case Some(i) =>
      ReplaceUnknown(s, '.', i);
      ReplaceUnknown(s, '#', i);
      ResolveStep(s, t, i);
      var c := t[i];
      ArrangementsComplete(ReplaceChar(s, c, i), damaged, t);
      var other := if c == '.' then '#' else '.';
      ArrangementsDefined(ReplaceChar(s, other, i), damaged);
      ArrangementsSplit(s, damaged, i);
  }

  /** Resolving a `?` of a well-formed row the way a completion does keeps the row well formed and the completion a completion of it. */
  lemma ResolveStep(s: string, t: string, i: nat)
    requires WellFormed(s) && Completes(s, t) && i < |s| && s[i] == '?'
    ensures IsSpring(t[i])
    ensures WellFormed(ReplaceChar(s, '.', i)) && WellFormed(ReplaceChar(s, '#', i))
    ensures Completes(ReplaceChar(s, t[i], i), t)
  {
  }

  /** With a first `?` at `i`, the arrangements are those with it resolved to `.` followed by those with it resolved to `#`. */
  lemma ArrangementsSplit(s: string, damaged: seq<int>, i: nat)
    requires i < |s| && s[i] == '?' && IndexOf(s, '?') == Some(i)
    requires Arrangements(ReplaceChar(s, '.', i), damaged).Some? && Arrangements(ReplaceChar(s, '#', i), damaged).Some?
    ensures Arrangements(s, damaged) ==
      Some(Arrangements(ReplaceChar(s, '.', i), damaged).value + Arrangements(ReplaceChar(s, '#', i), damaged).value)
  {
  }

  /** On a well-formed row `getArrangements` does not throw. */
  lemma {:induction false} ArrangementsDefined(s: string, damaged: seq<int>)
    requires WellFormed(s)
    ensures Arrangements(s, damaged).Some?
    decreases Unknowns(s)
  {
    match IndexOf(s, '?')
    case None =>
      ScanRuns(s, 0, 0, damaged);
    case Some(i) =>
      ReplaceUnknown(s, '.', i);
      ReplaceUnknown(s, '#', i);
      ArrangementsDefined(ReplaceChar(s, '.', i), damaged);
      ArrangementsDefined(ReplaceChar(s, '#', i), damaged);
  }

  /**
   * The listed arrangements of a well-formed row are exactly its completions
   * whose damaged groups are the listed ones, each once.
   */
  lemma ArrangementsExactly(s: string, damaged: seq<int>, t: string)
    requires WellFormed(s)
    ensures Arrangements(s, damaged).Some?
    ensures Distinct(Arrangements(s, damaged).value)
    ensures t in Arrangements(s, damaged).value <==> Completes(s, t) && Runs(t) == damaged
  {
    ArrangementsDefined(s, damaged);
    if t in Arrangements(s, damaged).value {
      CompletesWellFormed(s, t);
      PossibleIffRuns(t, damaged);
    }
    if Completes(s, t) && Runs(t) == damaged {
      ArrangementsComplete(s, damaged, t);
    }
  }

  /** One input line: the row and its damaged group lengths. */
  datatype Record = Record(springs: string, damaged: seq<int>)

  /** The number of arrangements of one line; 0 where the line throws. */
  function LineCount(rec: Record): nat
  {
    match Arrangements(rec.springs, rec.damaged)
    case None => 0
    case Some(list) => |list|
  }

  /** The arrangement counts of `records` added up, line by line. */
  function CountSum(records: seq<Record>): nat
  {
    if |records| == 0 then 0 else CountSum(records[..|records| - 1]) + LineCount(records[|records| - 1])
  }

  /** `totalArrangements`: the number of arrangements summed over all lines; `None` where a line throws. */
  method TotalArrangements(records: seq<Record>) returns (r: Option<int>)
    ensures r.Some? <==> forall k :: 0 <= k < |records| ==> Arrangements(records[k].springs, records[k].damaged).Some?
    ensures r.Some? ==> r.value >= 0
    ensures r.Some? ==> r.value == CountSum(records)
  {
    var sum := 0;
    var k := 0;
    while k < |records|
      invariant 0 <= k <= |records| && sum >= 0
      invariant forall j :: 0 <= j < k ==> Arrangements(records[j].springs, records[j].damaged).Some?
      invariant sum == CountSum(records[..k])
    {
      var a := Arrangements(records[k].springs, records[k].damaged);
      if a.None? {
        return None;
      }
      assert records[..k + 1][..k] == records[..k];
      sum := sum + |a.value|;
      k := k + 1;
    }
    assert records[..k] == records;
    return Some(sum);
  }
}
