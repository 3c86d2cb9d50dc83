/**
 * Hot springs (day 12, part 2): every row is unfolded to five copies and
 * the arrangements are counted without listing them, by trying each start
 * of the first damaged group and recursing on what follows it.
 */
module Day12Part2 {
  import opened Common
  import opened Day12Part1

  /** `$str[$i]`, which reads as the empty string (matching nothing) outside the row. */
  function CharAt(s: string, i: int): (r: Option<char>)
    ensures r.Some? <==> 0 <= i < |s|
    ensures r.Some? ==> r.value == s[i]
  {
    if 0 <= i < |s| then Some(s[i]) else None
  }

  /** `substr($s, $start)` for a non-negative start: the empty string past the end. */
  function Substr(s: string, start: nat): (r: string)
    ensures |r| <= |s|
    ensures start <= |s| ==> r == s[start..]
  {
    if start >= |s| then "" else s[start..]
  }

  /** `calculateRemaining`: the sum of the later groups at the top call, else one group less than the caller's. */
  function Remaining(remaining: Option<int>, amount: int, later: seq<int>): int
  {
    match remaining
    case None => Sum(later)
    case Some(r) => r - amount
  }

  /** `isSubStringValid`: every position in `[start, end)` may be damaged. */
  predicate SubStringValid(s: string, start: int, end: int)
  {
    forall j :: start <= j < end ==> CharAt(s, j) == Some('#') || CharAt(s, j) == Some('?')
  }

  /** `$x === '.' || $x === '?'`: the position may be operational. */
  predicate MayBeOperational(c: Option<char>)
  {
    c == Some('.') || c == Some('?')
  }

  /** `isValidSpringConfiguration`: a block of `distance` damaged springs may start at `start`. */
  predicate ValidPlacement(start: nat, distance: int, s: string)
  {
    var next := start + distance >= |s| || MayBeOperational(CharAt(s, start + distance));
    var prev := start == 0 || MayBeOperational(CharAt(s, start - 1));
    next && prev && SubStringValid(s, start, Min(|s|, start + distance))
  }

  /**
   * A block that fits inside the row may start at `start` exactly when every
   * spring of it may be damaged and its neighbours, where present, may be
   * operational.
   */
  lemma ValidPlacementIff(start: nat, distance: nat, s: string)
    requires start + distance <= |s|
    ensures ValidPlacement(start, distance, s) <==>
      (forall j :: start <= j < start + distance ==> s[j] == '#' || s[j] == '?')
      && (start == 0 || s[start - 1] == '.' || s[start - 1] == '?')
      && (start + distance == |s| || s[start + distance] == '.' || s[start + distance] == '?')
  {
    if SubStringValid(s, start, start + distance) {
      forall j | start <= j < start + distance
        ensures s[j] == '#' || s[j] == '?'
      {
        assert CharAt(s, j) == Some('#') || CharAt(s, j) == Some('?');
      }
    }
  }

  /** `calculateMaxIndex`: a `#` at `i` ends the scan after `i`, since the first group cannot start past it. */
  function MaxIndex(i: nat, s: string, iMax: int): (r: int)
    ensures r <= iMax
    ensures CharAt(s, i) == Some('#') ==> r <= i + 1
  {
    if CharAt(s, i) == Some('#') then Min(i + 1, iMax) else iMax
  }

  /**
   * `getCountOfPossibleValues` without its memo: with no group left (or a
   * first group below one) a row counts once if it has no `#`; otherwise
   * every start of the first group is tried.
   */
  function CountPossible(s: string, damaged: seq<int>, remaining: Option<int>): nat
    decreases |s| + |damaged|, 1, 0
  {
    if |damaged| == 0 || damaged[0] < 1 then (if '#' in s then 0 else 1)
    else
      var amount := damaged[0];
      var later := damaged[1..];
      var rem := Remaining(remaining, amount, later);
      Possibilities(s, amount, rem, later, 0, |s| - amount - rem + 1)
  }

  /** The arrangements with the first group starting at `index`: one if it ends the row, else those of the rest. */
  function Placement(s: string, amount: int, rem: int, later: seq<int>, index: nat): nat
    requires amount >= 1
    decreases |s| + |later| + 1, 0, 0
  {
    if !ValidPlacement(index, amount, s) then 0
    else if index + amount == |s| then 1
    else CountPossible(Substr(s, index + amount + 1), later, Some(rem))
  }

  /** `calculatePossibilities`' loop from `index`, with the bound `iMax` that a `#` lowers. */
  function Possibilities(s: string, amount: int, rem: int, later: seq<int>, index: nat, iMax: int): nat
    requires amount >= 1
    decreases |s| + |later| + 1, 0, if iMax > index then iMax - index else 0
  {
    if index >= iMax then 0
    else Placement(s, amount, rem, later, index) + Possibilities(s, amount, rem, later, index + 1, MaxIndex(index, s, iMax))
  }

  /** Once the scan meets a `#`, the start there is the last one tried. */
  lemma HashEndsScan(s: string, amount: int, rem: int, later: seq<int>, index: nat, iMax: int)
    requires amount >= 1 && index < iMax && index < |s| && s[index] == '#'
    ensures Possibilities(s, amount, rem, later, index, iMax) == Placement(s, amount, rem, later, index)
  {
  }

  /** With no group left, or a first group below one, the row counts once exactly when it has no `#`. */
  lemma NoGroupLeft(s: string, damaged: seq<int>, remaining: Option<int>)
    requires |damaged| == 0 || damaged[0] < 1
    ensures CountPossible(s, damaged, remaining) == 1 <==> '#' !in s
    ensures CountPossible(s, damaged, remaining) <= 1
  {
  }

  lemma SumFront(g: seq<int>)
    requires |g| >= 1
    ensures Sum(g) == g[0] + Sum(g[1..])
  {
    assert g == [g[0]] + g[1..];
    SumConcat([g[0]], g[1..]);
    assert [g[0]][..0] == [];
  }

  /**
   * The remaining length handed down always equals the sum of the groups
   * after the current one, so the result depends on the row and the groups
   * alone (what the memo key holds).
   */
  lemma RemainingDetermined(s: string, damaged: seq<int>)
    requires |damaged| >= 1
    ensures Remaining(Some(Sum(damaged)), damaged[0], damaged[1..]) == Remaining(None, damaged[0], damaged[1..])
    ensures CountPossible(s, damaged, Some(Sum(damaged))) == CountPossible(s, damaged, None)
  {
    SumFront(damaged);
  }

  predicate Positive(g: seq<int>)
  {
    forall k :: 0 <= k < |g| ==> g[k] >= 1
  }

  lemma {:induction false} SumPositive(g: seq<int>)
    requires Positive(g)
    ensures Sum(g) >= |g|
    decreases |g|
  {
    if |g| > 0 {
      SumPositive(g[..|g| - 1]);
    }
  }

  /** The first `amount` springs may all be damaged and the one after, if any, may be operational. */
  predicate Fits(s: string, amount: int)
  {
    1 <= amount <= |s|
    && (forall j :: 0 <= j < amount ==> s[j] == '#' || s[j] == '?')
    && (amount == |s| || s[amount] == '.' || s[amount] == '?')
  }

  /**
   * Reference count, by the first spring: it may be operational (count the
   * rest with the same groups), or the first group may start here (count
   * what follows the block and its gap with the later groups).
   */
  function Ways(s: string, g: seq<int>): nat
    decreases |s|
  {
    if |g| == 0 then (if '#' in s then 0 else 1)
    else if |s| == 0 then 0
    else
      (if s[0] == '.' || s[0] == '?' then Ways(s[1..], g) else 0)
      + (if Fits(s, g[0]) then (if g[0] == |s| then (if |g| == 1 then 1 else 0) else Ways(s[g[0] + 1..], g[1..])) else 0)
  }

  /** No arrangement when the row is shorter than the groups with one gap between each two. */
  lemma {:induction false} WaysShort(u: string, g: seq<int>)
    requires |g| >= 1 && Positive(g) && |u| < Sum(g) + |g| - 1
    ensures Ways(u, g) == 0
    decreases |u|
  {
    SumFront(g);
    SumPositive(g[1..]);
    if |u| > 0 {
      WaysShort(u[1..], g);
      if Fits(u, g[0]) && g[0] < |u| {
        WaysShort(u[g[0] + 1..], g[1..]);
      }
    }
  }

  /**
   * The loop of `calculatePossibilities`, from a start before which the row
   * has no `#`, counts the reference arrangements of the rest of the row.
   */
  lemma {:induction false} LoopWays(s: string, g: seq<int>, i: nat)
    requires WellFormed(s) && |g| >= 1 && Positive(g) && i <= |s|
    requires forall j :: 0 <= j < i ==> s[j] != '#'
    ensures Possibilities(s, g[0], Sum(g[1..]), g[1..], i, |s| - g[0] - Sum(g[1..]) + 1) == Ways(s[i..], g)
    decreases |s| + |g[1..]| + 1, 0, |s| - i, 1
  {
    var d := g[0];
    var later := g[1..];
    var rem := Sum(later);
    var m := |s| - d - rem + 1;
    SumFront(g);
    SumPositive(later);
    var u := s[i..];
    if i >= m {
      WaysShort(u, g);
    } else {
      assert |u| >= 1 && u[0] == s[i] && u[1..] == s[i + 1..];
      PlacementWays(s, g, i);
      if s[i] != '#' {
        LoopWays(s, g, i + 1);
      }
      WaysUnfold(u, g);
    }
  }

  /** After a stretch without `#`, a block that fits in the row may start at `i` exactly when it fits at the head of the rest. */
  lemma ValidIffFits(s: string, d: int, i: nat)
    requires WellFormed(s) && d >= 1 && i + d <= |s|
    requires forall j :: 0 <= j < i ==> s[j] != '#'
    ensures ValidPlacement(i, d, s) <==> Fits(s[i..], d)
  {
    var u := s[i..];
    ValidPlacementIff(i, d, s);
    assert forall j :: 0 <= j < |u| ==> u[j] == s[i + j];
    assert i > 0 ==> s[i - 1] != '#';
  }

  /** Trying the first group at `i` counts the reference arrangements of the rest of the row that start it there. */
  lemma {:induction false} PlacementWays(s: string, g: seq<int>, i: nat)
    requires WellFormed(s) && |g| >= 1 && Positive(g) && i < |s|
    requires i < |s| - g[0] - Sum(g[1..]) + 1
    requires forall j :: 0 <= j < i ==> s[j] != '#'
    ensures Placement(s, g[0], Sum(g[1..]), g[1..], i) == Place(s[i..], g)
    decreases |s| + |g[1..]| + 1, 0, |s| - i, 0
  {
    var d := g[0];
    var later := g[1..];
    var rem := Sum(later);
    var u := s[i..];
    PositiveTail(g);
    SumPositive(later);
    ValidIffFits(s, d, i);
    if !ValidPlacement(i, d, s) {
      assert Placement(s, d, rem, later, i) == 0 == Place(u, g);
    } else if i + d == |s| {
      assert |later| == 0;
      assert Placement(s, d, rem, later, i) == 1 == Place(u, g);
    } else {
      var v := s[i + d + 1..];
      assert u[d + 1..] == v;
      assert Substr(s, i + d + 1) == v;
      assert Place(u, g) == Ways(v, later);
      WellFormedSuffix(s, i + d + 1);
      CountWays(v, later, Some(rem));
    }
  }

  lemma PositiveTail(g: seq<int>)
    requires |g| >= 1 && Positive(g)
    ensures g[0] >= 1 && Positive(g[1..])
  {
    assert forall k :: 0 <= k < |g| - 1 ==> g[1..][k] == g[k + 1];
  }

  lemma WellFormedSuffix(s: string, k: nat)
    requires WellFormed(s) && k <= |s|
    ensures WellFormed(s[k..])
  {
    assert forall j :: 0 <= j < |s| - k ==> s[k..][j] == s[k + j];
  }

  /**
   * On a well-formed row with positive groups, the count equals the
   * reference count, whether the remaining length comes from the top call
   * or from a caller.
   */
  lemma {:induction false} CountWays(s: string, g: seq<int>, remaining: Option<int>)
    requires WellFormed(s) && Positive(g)
    requires remaining == None || remaining == Some(Sum(g))
    ensures CountPossible(s, g, remaining) == Ways(s, g)
    decreases |s| + |g|, 1, 0
  {
    if |g| > 0 {
      SumFront(g);
      LoopWays(s, g, 0);
      assert s[0..] == s;
    }
  }

  /** The row with the character at `i` replaced (without a precondition, for the statements below). */
  function Set(s: string, i: nat, c: char): string
  {
    if i < |s| then ReplaceChar(s, c, i) else s
  }

  /** Splitting on one `?` partitions the reference arrangements into those with `.` and those with `#` there. */
  lemma {:induction false} WaysSplit(s: string, g: seq<int>, i: nat)
    requires i < |s| && s[i] == '?' && Positive(g)
    ensures Ways(s, g) == Ways(Set(s, i, '.'), g) + Ways(Set(s, i, '#'), g)
    decreases |s|, 2
  {
    if |g| == 0 {
      NoGroupSplit(s, g, i);
    } else {
      SkipSplit(s, g, i);
      PlaceSplit(s, g, i);
      WaysUnfold(Set(s, i, '.'), g);
      WaysUnfold(Set(s, i, '#'), g);
    }
  }

  /** The reference count when the first spring is taken as operational. */
  function Skip(s: string, g: seq<int>): nat
    requires |s| > 0
  {
    if s[0] == '.' || s[0] == '?' then Ways(s[1..], g) else 0
  }

  /** The reference count when the first group starts at the first spring. */
  function Place(s: string, g: seq<int>): nat
    requires |s| > 0 && |g| > 0
  {
    if Fits(s, g[0]) then (if g[0] == |s| then (if |g| == 1 then 1 else 0) else Ways(s[g[0] + 1..], g[1..])) else 0
  }

  lemma WaysUnfold(s: string, g: seq<int>)
    requires |s| > 0 && |g| > 0
    ensures Ways(s, g) == Skip(s, g) + Place(s, g)
  {
  }

  lemma NoGroupSplit(s: string, g: seq<int>, i: nat)
    requires i < |s| && s[i] == '?' && |g| == 0
    ensures Ways(s, g) == Ways(Set(s, i, '.'), g) + Ways(Set(s, i, '#'), g)
  {
    var dot := Set(s, i, '.');
    var hash := Set(s, i, '#');
    assert '#' in hash;
    if '#' in dot {
      var k :| 0 <= k < |dot| && dot[k] == '#';
      assert s[k] == '#';
    }
    if '#' in s {
      var k :| 0 <= k < |s| && s[k] == '#';
      assert dot[k] == '#';
    }
  }

  lemma {:induction false} SkipSplit(s: string, g: seq<int>, i: nat)
    requires i < |s| && s[i] == '?' && Positive(g) && |g| > 0
    ensures Ways(s, g) == Skip(Set(s, i, '.'), g) + Skip(Set(s, i, '#'), g) + Place(s, g)
    decreases |s|, 0
  {
    var dot := Set(s, i, '.');
    var hash := Set(s, i, '#');
    WaysUnfold(s, g);
    if i == 0 {
      assert dot[1..] == s[1..];
    } else {
      assert dot[0] == s[0] && hash[0] == s[0];
      SetSuffix(s, i, '.', 1);
      SetSuffix(s, i, '#', 1);
      WaysSplit(s[1..], g, i - 1);
    }
  }

  lemma {:induction false} PlaceSplit(s: string, g: seq<int>, i: nat)
    requires i < |s| && s[i] == '?' && Positive(g) && |g| > 0
    ensures Place(s, g) == Place(Set(s, i, '.'), g) + Place(Set(s, i, '#'), g)
    decreases |s|, 1
  {
    var d := g[0];
    if i < d {
      PlaceBefore(s, g, i);
    } else if i == d {
      PlaceGap(s, g, i);
    } else {
      PlaceAfter(s, g, i);
    }
  }

  /** A `?` past the gap after the first block: the split happens in the rest of the row. */
  lemma {:induction false} PlaceAfter(s: string, g: seq<int>, i: nat)
    requires i < |s| && s[i] == '?' && Positive(g) && |g| > 0 && i > g[0]
    ensures Place(s, g) == Place(Set(s, i, '.'), g) + Place(Set(s, i, '#'), g)
    decreases |s|, 0
  {
    var dot := Set(s, i, '.');
    var hash := Set(s, i, '#');
    var d := g[0];
    FitsBeforeSet(s, i, '.', d);
    FitsBeforeSet(s, i, '#', d);
    if Fits(s, d) {
      PlaceRest(s, g);
      PlaceRest(dot, g);
      PlaceRest(hash, g);
      SetSuffix(s, i, '.', d + 1);
      SetSuffix(s, i, '#', d + 1);
      PositiveTail(g);
      WaysSplit(s[d + 1..], g[1..], i - d - 1);
    }
  }

  /** Whether a block fits at the head of the row does not depend on a spring past the gap after it. */
  lemma FitsBeforeSet(s: string, i: nat, c: char, d: int)
    requires d < i < |s|
    ensures Fits(Set(s, i, c), d) <==> Fits(s, d)
  {
    var t := Set(s, i, c);
    assert forall j :: 0 <= j <= d ==> t[j] == s[j];
  }

  /** Replacing past the start of a suffix is replacing in the suffix. */
  lemma SetSuffix(s: string, i: nat, c: char, m: nat)
    requires m <= i < |s|
    ensures Set(s, i, c)[m..] == Set(s[m..], i - m, c)
  {
    var a := Set(s, i, c)[m..];
    var b := Set(s[m..], i - m, c);
    assert |a| == |b|;
    forall j | 0 <= j < |a|
      ensures a[j] == b[j]
    {
      if j != i - m {
        assert a[j] == s[m + j];
      }
    }
  }

  lemma PlaceRest(s: string, g: seq<int>)
    requires |s| > 0 && |g| > 0 && Fits(s, g[0]) && g[0] < |s|
    ensures Place(s, g) == Ways(s[g[0] + 1..], g[1..])
  {
  }

  /** A `?` inside the first block: only `#` there lets the block start at the first spring. */
  lemma PlaceBefore(s: string, g: seq<int>, i: nat)
    requires i < |s| && s[i] == '?' && |g| > 0 && i < g[0]
    ensures Place(Set(s, i, '.'), g) == 0 && Place(Set(s, i, '#'), g) == Place(s, g)
  {
    var hash := Set(s, i, '#');
    var d := g[0];
    assert !Fits(Set(s, i, '.'), d);
    assert Fits(hash, d) <==> Fits(s, d);
    if Fits(s, d) && d < |s| {
      assert hash[d + 1..] == s[d + 1..];
    }
  }

  /** A `?` right after the first block: only `.` there lets the block start at the first spring. */
  lemma PlaceGap(s: string, g: seq<int>, i: nat)
    requires i < |s| && s[i] == '?' && |g| > 0 && i == g[0]
    ensures Place(Set(s, i, '#'), g) == 0 && Place(Set(s, i, '.'), g) == Place(s, g)
  {
    var dot := Set(s, i, '.');
    var d := g[0];
    assert !Fits(Set(s, i, '#'), d);
    assert Fits(dot, d) <==> Fits(s, d);
    if Fits(s, d) && d < |s| {
      assert dot[d + 1..] == s[d + 1..];
    }
  }

  /** The number of leading `#`. */
  function LeadingHashes(s: string): (n: nat)
    ensures n <= |s|
    ensures forall j :: 0 <= j < n ==> s[j] == '#'
    ensures n < |s| ==> s[n] != '#'
  {
    if |s| > 0 && s[0] == '#' then 1 + LeadingHashes(s[1..]) else 0
  }

  /** A pending run plus the leading `#` form the first group; the rest starts after the `.` that ends it. */
  lemma {:induction false} RunsFromLeading(c: nat, s: string)
    requires AllSprings(s)
    ensures
      var n := LeadingHashes(s);
      var first := if c + n > 0 then [c + n] else [];
      RunsFrom(c, s) == if n == |s| then first else first + Runs(s[n + 1..])
    decreases |s|
  {
    var n := LeadingHashes(s);
    if |s| > 0 && s[0] == '#' {
      var n' := LeadingHashes(s[1..]);
      assert n == n' + 1 && c + n == (c + 1) + n';
      assert RunsFrom(c, s) == RunsFrom(c + 1, s[1..]);
      RunsFromLeading(c + 1, s[1..]);
      if n < |s| {
        assert s[1..][n' + 1..] == s[n + 1..];
      }
    } else {
      assert n == 0;
    }
  }

  /** On a row without `?` the reference counts one arrangement exactly when its groups are the listed ones. */
  lemma {:induction false} WaysNoUnknown(s: string, g: seq<int>)
    requires AllSprings(s) && Positive(g)
    ensures Ways(s, g) == if Runs(s) == g then 1 else 0
    decreases |s|
  {
    var n := LeadingHashes(s);
    RunsFromLeading(0, s);
    if |g| == 0 {
      if '#' in s {
        var k :| 0 <= k < |s| && s[k] == '#';
        RunsFromLeading(0, s[k..]);
        RunsWithHash(s, k);
      } else {
        RunsNoHash(s);
      }
    } else if |s| == 0 {
    } else if s[0] == '.' {
      WaysNoUnknown(s[1..], g);
      assert !Fits(s, g[0]);
    } else {
      assert n >= 1;
      assert Fits(s, g[0]) <==> n == g[0];
      if n < |s| {
        WaysNoUnknown(s[n + 1..], g[1..]);
        assert Runs(s) == [n] + Runs(s[n + 1..]);
        assert Runs(s) == g <==> n == g[0] && Runs(s[n + 1..]) == g[1..];
      } else {
        assert Runs(s) == [n];
      }
    }
  }

  lemma {:induction false} RunsNoHash(s: string)
    requires '#' !in s
    ensures Runs(s) == []
    decreases |s|
  {
    if |s| > 0 {
      assert s[0] != '#';
      RunsNoHash(s[1..]);
    }
  }

  lemma {:induction false} RunsWithHash(s: string, k: nat)
    requires AllSprings(s) && k < |s| && s[k] == '#'
    ensures Runs(s) != []
    decreases |s|
  {
    if s[0] == '#' {
      RunsFromPending(1, s[1..]);
    } else {
      RunsWithHash(s[1..], k - 1);
    }
  }

  /**
   * The count of part 2 equals the number of arrangements part 1 lists, on
   * every well-formed row with positive groups.
   */
  lemma {:induction false} CountMatchesEnumeration(s: string, g: seq<int>)
    requires WellFormed(s) && Positive(g)
    ensures Arrangements(s, g).Some?
    ensures CountPossible(s, g, None) == |Arrangements(s, g).value|
    decreases Unknowns(s)
  {
    ArrangementsDefined(s, g);
    CountWays(s, g, None);
    match IndexOf(s, '?')
    case None =>
      PossibleIffRuns(s, g);
      WaysNoUnknown(s, g);
    case Some(i) =>
      ReplaceUnknown(s, '.', i);
      ReplaceUnknown(s, '#', i);
      CountMatchesEnumeration(ReplaceChar(s, '.', i), g);
      CountMatchesEnumeration(ReplaceChar(s, '#', i), g);
      CountWays(ReplaceChar(s, '.', i), g, None);
      CountWays(ReplaceChar(s, '#', i), g, None);
      WaysSplit(s, g, i);
  }

  lemma ImplodeFive(s: string)
    ensures Implode("?", [s, s, s, s, s]) == (s + "?") + (s + "?") + (s + "?") + (s + "?") + s
  {
    var a := s + "?";
    assert [s, s, s, s, s][1..] == [s, s, s, s];
    assert [s, s, s, s][1..] == [s, s, s];
    assert [s, s, s][1..] == [s, s];
    assert [s, s][1..] == [s];
    assert Implode("?", [s, s]) == a + s;
    assert Implode("?", [s, s, s]) == a + (a + s);
    assert Implode("?", [s, s, s, s]) == a + (a + (a + s));
    assert Implode("?", [s, s, s, s, s]) == a + (a + (a + (a + s)));
  }

  /** `repeatSeparatedString($s, '?', 5)`: five copies of the row joined by `?`. */
  function UnfoldSprings(s: string): (r: string)
    ensures |r| == 5 * |s| + 4
    ensures Unknowns(r) == 5 * Unknowns(s) + 4
  {
    var q := Implode("?", [s, s, s, s, s]);
    var a := s + "?";
    ImplodeFive(s);
    UnknownsConcat(s, "?");
    UnknownsConcat(a, a);
    UnknownsConcat(a + a, a);
    UnknownsConcat(a + a + a, a);
    UnknownsConcat(a + a + a + a, s);
    q
  }

  /** `n` copies of the groups, one after another. */
  function Repeat(g: seq<int>, n: nat): (r: seq<int>)
    ensures |r| == n * |g|
  {
    if n == 0 then [] else Repeat(g, n - 1) + g
  }

  /** The repeated groups are the same groups, and sum to `n` times as much. */
  lemma {:induction false} RepeatProperties(g: seq<int>, n: nat)
    ensures Sum(Repeat(g, n)) == n * Sum(g)
    ensures Positive(g) ==> Positive(Repeat(g, n))
    ensures forall v :: v in Repeat(g, n) ==> v in g
  {
    RepeatSum(g, n);
    if Positive(g) {
      RepeatPositive(g, n);
    }
    RepeatMembers(g, n);
  }

  lemma {:induction false} RepeatSum(g: seq<int>, n: nat)
    ensures Sum(Repeat(g, n)) == n * Sum(g)
  {
    if n > 0 {
      RepeatSum(g, n - 1);
      SumConcat(Repeat(g, n - 1), g);
      assert (n - 1) * Sum(g) + Sum(g) == n * Sum(g);
    }
  }

  lemma {:induction false} RepeatPositive(g: seq<int>, n: nat)
    requires Positive(g)
    ensures Positive(Repeat(g, n))
  {
    if n > 0 {
      RepeatPositive(g, n - 1);
      var r := Repeat(g, n - 1);
      assert forall k :: 0 <= k < |r + g| ==> (r + g)[k] == if k < |r| then r[k] else g[k - |r|];
    }
  }

  lemma {:induction false} RepeatMembers(g: seq<int>, n: nat)
    ensures forall v :: v in Repeat(g, n) ==> v in g
  {
    if n > 0 {
      RepeatMembers(g, n - 1);
    }
  }

  /** `prepareDamagedSprings`: five copies of the groups. */
  function UnfoldGroups(g: seq<int>): (r: seq<int>)
    ensures |r| == 5 * |g|
  {
    Repeat(g, 5)
  }

  /**
   * The unfolded count of a well-formed row with positive groups is the
   * number of arrangements of the unfolded row.
   */
  lemma UnfoldedCount(s: string, g: seq<int>)
    requires WellFormed(s) && Positive(g)
    ensures Arrangements(UnfoldSprings(s), UnfoldGroups(g)).Some?
    ensures CountPossible(UnfoldSprings(s), UnfoldGroups(g), None) == |Arrangements(UnfoldSprings(s), UnfoldGroups(g)).value|
  {
    var u := UnfoldSprings(s);
    var a := s + "?";
    ImplodeFive(s);
    assert WellFormed(a);
    assert WellFormed(a + a);
    assert WellFormed(a + a + a);
    assert WellFormed(a + a + a + a);
    RepeatProperties(g, 5);
    CountMatchesEnumeration(u, UnfoldGroups(g));
  }

  /** The unfolded count of one line; a line that is not two parts adds nothing. */
  function LineCount(line: Option<Record>): nat
  {
    match line
    case None => 0
    case Some(r) => CountPossible(UnfoldSprings(r.springs), UnfoldGroups(r.damaged), None)
  }

  function LineCounts(lines: seq<Option<Record>>): (counts: seq<int>)
    ensures |counts| == |lines|
    ensures forall k :: 0 <= k < |lines| ==> counts[k] == LineCount(lines[k])
  {
    if |lines| == 0 then [] else LineCounts(lines[..|lines| - 1]) + [LineCount(lines[|lines| - 1])]
  }

  lemma LineCountsStep(lines: seq<Option<Record>>, k: nat)
    requires k < |lines|
    ensures Sum(LineCounts(lines[..k + 1])) == Sum(LineCounts(lines[..k])) + LineCount(lines[k])
  {
    assert lines[..k + 1][..k] == lines[..k];
    SumAppend(LineCounts(lines[..k]), LineCount(lines[k]));
  }

  /** `totalArrangements` with `evaluateLineArrangements`: the sum of the unfolded counts of the lines. */
  method TotalArrangements(lines: seq<Option<Record>>) returns (total: int)
    ensures total == Sum(LineCounts(lines))
    ensures total >= 0
  {
    total := 0;
    var k := 0;
    while k < |lines|
      invariant 0 <= k <= |lines|
      invariant total == Sum(LineCounts(lines[..k]))
    {
      var c := LineCount(lines[k]);
      LineCountsStep(lines, k);
      total := total + c;
      k := k + 1;
    }
    assert lines[..|lines|] == lines;
    SumNonNegative(LineCounts(lines));
  }
}
