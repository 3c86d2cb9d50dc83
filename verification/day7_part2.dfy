/**
 * Camel Cards with jokers (day 7, part 2): J is now the weakest card for
 * tie-breaking, but when typing a hand the jokers are added to the count of
 * a most frequent other card.
 */
module Day7Part2 {
  import opened Common
  import opened Day7Part1

  /** cardValue with J = 1. */
  function JokerValue(c: char): (v: int)
    requires IsCard(c)
    ensures 1 <= v <= 14
  {
    if c == 'J' then 1 else CardValue(c)
  }

  /** The joker is below every other card, and values still tell cards apart. */
  lemma JokerValueOrder(c: char, d: char)
    requires IsCard(c) && IsCard(d)
    ensures c != 'J' ==> JokerValue('J') < JokerValue(c)
    ensures JokerValue(c) == JokerValue(d) <==> c == d
  {
    CardValueInjective(c, d);
  }

  // ---------------------------------------------------------------------
  // The count table as a map
  // ---------------------------------------------------------------------

  /** `array_count_values(str_split($hand))`. */
  function CountMap(h: string): (m: map<char, nat>)
    ensures m.Keys == Distinct(h)
    ensures forall c :: c in m ==> m[c] == Count(h, c)
  {
    map c | c in Distinct(h) :: Count(h, c)
  }

  lemma {:induction false} LargestExists(s: set<char>)
    requires |s| > 0
    ensures exists c :: c in s && forall d :: d in s ==> d <= c
    decreases |s|
  {
    var x :| x in s;
    if |s| > 1 {
      LargestExists(s - {x});
      var c :| c in s - {x} && forall d :: d in s - {x} ==> d <= c;
      var best := if x > c then x else c;
      forall d | d in s
        ensures d <= best
      {
        if d != x {
          assert d in s - {x};
        }
      }
    } else {
      assert s == {x} by {
        assert |s - {x}| == 0;
      }
    }
  }

  /** The greatest card of a non-empty set; `rsort` puts it first. */
  function Largest(s: set<char>): (c: char)
    requires |s| > 0
    ensures c in s && forall d :: d in s ==> d <= c
  {
    LargestExists(s);
    var c :| c in s && forall d :: d in s ==> d <= c;
    c
  }

  /** `max($counts)`; 0 for an empty table. */
  function MapMax(m: map<char, nat>): (v: nat)
    ensures forall c :: c in m ==> m[c] <= v
    ensures |m| > 0 ==> exists c :: c in m && m[c] == v
    ensures |m| == 0 ==> v == 0
    decreases |m|
  {
    if |m| == 0 then 0
    else
      var k := Largest(m.Keys);
      var rest := m - {k};
      assert |rest| == |m| - 1;
      var v := MapMax(rest);
      assert forall c :: c in m && c != k ==> c in rest && rest[c] == m[c];
      Max(m[k], v)
  }

  /** The counts of two tables with the same keys and values agree on their maximum. */
  lemma MapMaxOfCountMap(h: string)
    ensures MapMax(CountMap(h)) == MaxCount(h)
  {
    var m := CountMap(h);
    if |h| > 0 {
      assert h[0] in Distinct(h);
      var i :| 0 <= i < |h| && Count(h, h[i]) == MaxCount(h);
      assert h[i] in m;
      var c :| c in m && m[c] == MapMax(m);
      var j :| 0 <= j < |h| && h[j] == c;
    } else {
      assert Distinct(h) == {};
    }
  }

  /** The card `rsort` puts first among the most frequent ones: the greatest of them. */
  function TopCard(counts: map<char, nat>): (top: char)
    requires |counts| > 0
    ensures top in counts && counts[top] == MapMax(counts)
    ensures forall c :: c in counts && counts[c] == MapMax(counts) ==> c <= top
  {
    var c :| c in counts && counts[c] == MapMax(counts);
    var tops := set c | c in counts && counts[c] == MapMax(counts);
    assert c in tops;
    assert forall d :: d in counts && counts[d] == MapMax(counts) ==> d in tops;
    Largest(tops)
  }

  /** adjustCountsBasedOnJokers: the jokers are added to the top card's count. */
  function AdjustCountsBasedOnJokers(counts: map<char, nat>, jokers: nat): (r: map<char, nat>)
    requires |counts| > 0
    ensures r.Keys == counts.Keys
    ensures MapMax(r) == MapMax(counts) + jokers
    ensures r[TopCard(counts)] == counts[TopCard(counts)] + jokers
    ensures forall c :: c in counts && c != TopCard(counts) ==> r[c] == counts[c]
  {
    var top := TopCard(counts);
    var r := counts[top := MapMax(counts) + jokers];
    assert r[top] == MapMax(counts) + jokers;
    r
  }

  /** `$counts['J'] ?? 0`. */
  function JokerCount(h: string): (n: nat)
    ensures n == (if 'J' in CountMap(h) then CountMap(h)['J'] else 0)
  {
    CountBound(h, 'J');
    Count(h, 'J')
  }

  /** The count table without the jokers, as handRank keeps it after `unset`. */
  function PlainCounts(h: string): (m: map<char, nat>)
    ensures m.Keys == Distinct(h) - {'J'}
    ensures forall c :: c in m ==> m[c] == Count(h, c)
  {
    CountMap(h) - {'J'}
  }

  /** The table handRank types once the jokers have been placed. */
  function AdjustedCounts(h: string): (m: map<char, nat>)
    requires |PlainCounts(h)| > 0
  {
    if JokerCount(h) > 0 then AdjustCountsBasedOnJokers(PlainCounts(h), JokerCount(h)) else PlainCounts(h)
  }

  /** handRank with jokers: all jokers is Five of a kind; otherwise the adjusted table is typed as before. */
  function JokerRank(h: string): (r: int)
    ensures 3 <= r <= 9
  {
    if |PlainCounts(h)| == 0 then 9
    else TypeOf(|AdjustedCounts(h)|, MapMax(AdjustedCounts(h)))
  }

  /** A hand of jokers only is Five of a kind. */
  lemma AllJokers(h: string)
    requires forall i :: 0 <= i < |h| ==> h[i] == 'J'
    ensures JokerRank(h) == 9
  {
    assert Distinct(h) - {'J'} == {} by {
      forall c | c in Distinct(h)
        ensures c == 'J'
      {
        var i :| 0 <= i < |h| && h[i] == c;
      }
    }
  }

  /** Part 1's count table and maximum, read off the map. */
  lemma CountMapMeasures(h: string)
    ensures |CountMap(h)| == |Distinct(h)|
    ensures MapMax(CountMap(h)) == MaxCount(h)
  {
    assert CountMap(h).Keys == Distinct(h);
    MapMaxOfCountMap(h);
  }

  lemma PlainCountsWithoutJokers(h: string)
    requires 'J' !in Distinct(h)
    ensures PlainCounts(h) == CountMap(h)
  {
    assert PlainCounts(h).Keys == CountMap(h).Keys;
  }

  /** A hand without jokers is typed exactly as in part 1. */
  lemma NoJokersAsBefore(h: string)
    requires |h| > 0
    requires forall i :: 0 <= i < |h| ==> h[i] != 'J'
    ensures JokerRank(h) == HandRank(h)
  {
    assert 'J' !in Distinct(h);
    CountBound(h, 'J');
    PlainCountsWithoutJokers(h);
    CountMapMeasures(h);
    assert h[0] in Distinct(h);
    assert JokerCount(h) == 0;
    assert AdjustedCounts(h) == CountMap(h);
  }

  // ---------------------------------------------------------------------
  // Jokers act as copies of the chosen card
  // ---------------------------------------------------------------------

  /** Every joker replaced by `top`. */
  function Substitute(h: string, top: char): (g: string)
    ensures |g| == |h|
  {
    if |h| == 0 then []
    else [if h[0] == 'J' then top else h[0]] + Substitute(h[1..], top)
  }

  /** Counting a card in a hand: its first card, then the rest. */
  lemma CountFirst(s: string, c: char)
    requires |s| > 0
    ensures Count(s, c) == (if s[0] == c then 1 else 0) + Count(s[1..], c)
  {
    assert s == [s[0]] + s[1..];
    assert multiset(s) == multiset{s[0]} + multiset(s[1..]);
  }

  /** The first card of the substituted hand, and the rest. */
  lemma SubstituteFirst(h: string, top: char)
    requires |h| > 0
    ensures Substitute(h, top)[0] == (if h[0] == 'J' then top else h[0])
    ensures Substitute(h, top)[1..] == Substitute(h[1..], top)
  {
  }

  /** Substituting gives `top` the jokers' count on top of its own. */
  lemma {:induction false} SubstituteCountTop(h: string, top: char)
    requires top != 'J'
    ensures Count(Substitute(h, top), top) == Count(h, top) + Count(h, 'J')
    decreases |h|
  {
    if |h| > 0 {
      SubstituteCountTop(h[1..], top);
      SubstituteFirst(h, top);
      CountFirst(Substitute(h, top), top);
      CountFirst(h, 'J');
      CountFirst(h, top);
    }
  }

  /** The jokers are gone once substituted. */
  lemma {:induction false} SubstituteCountJoker(h: string, top: char)
    requires top != 'J'
    ensures Count(Substitute(h, top), 'J') == 0
    decreases |h|
  {
    if |h| > 0 {
      SubstituteCountJoker(h[1..], top);
      SubstituteFirst(h, top);
      CountFirst(Substitute(h, top), 'J');
    }
  }

  /** Every card other than `top` and the joker keeps its count through substitution. */
  lemma {:induction false} SubstituteCountOther(h: string, top: char, c: char)
    requires top != 'J' && c != top && c != 'J'
    ensures Count(Substitute(h, top), c) == Count(h, c)
    decreases |h|
  {
    if |h| > 0 {
      SubstituteCountOther(h[1..], top, c);
      SubstituteFirst(h, top);
      CountFirst(Substitute(h, top), c);
      CountFirst(h, c);
    }
  }

  /** Substituting moves the jokers' count onto `top` and leaves every other card's count alone. */
  lemma SubstituteCount(h: string, top: char, c: char)
    requires top != 'J'
    ensures Count(Substitute(h, top), c)
      == if c == top then Count(h, top) + Count(h, 'J') else if c == 'J' then 0 else Count(h, c)
  {
    if c == top {
      SubstituteCountTop(h, top);
    } else if c == 'J' {
      SubstituteCountJoker(h, top);
    } else {
      SubstituteCountOther(h, top, c);
    }
  }

  lemma SubstitutedKeys(h: string, top: char)
    requires top in PlainCounts(h)
    ensures Distinct(Substitute(h, top)) == PlainCounts(h).Keys
  {
    var g := Substitute(h, top);
    forall c
      ensures c in Distinct(g) <==> c in PlainCounts(h)
    {
      SubstituteCount(h, top, c);
      CountBound(g, c);
      CountBound(h, c);
    }
  }

  /** The substituted hand's count table is the adjusted table. */
  /** The adjusted table holds each card's count, with the jokers added to the top card's. */
  lemma AdjustedValues(h: string)
    requires |PlainCounts(h)| > 0
    ensures AdjustedCounts(h).Keys == PlainCounts(h).Keys
    ensures forall c :: c in PlainCounts(h) ==>
      AdjustedCounts(h)[c] == if c == TopCard(PlainCounts(h)) then Count(h, c) + Count(h, 'J') else Count(h, c)
  {
  }

  lemma MapsEqual(a: map<char, nat>, b: map<char, nat>)
    requires a.Keys == b.Keys
    requires forall c :: c in a ==> a[c] == b[c]
    ensures a == b
  {
  }

  lemma SubstitutedTable(h: string)
    requires |PlainCounts(h)| > 0
    ensures CountMap(Substitute(h, TopCard(PlainCounts(h)))) == AdjustedCounts(h)
  {
    var top := TopCard(PlainCounts(h));
    var cm := CountMap(Substitute(h, top));
    var adjusted := AdjustedCounts(h);
    AdjustedValues(h);
    SubstitutedKeys(h, top);
    forall c | c in cm
      ensures cm[c] == adjusted[c]
    {
      SubstituteCount(h, top, c);
    }
    MapsEqual(cm, adjusted);
  }

  /**
   * The type of a hand with jokers is the part-1 type of the hand in which
   * every joker became the card adjustCountsBasedOnJokers picks: the jokers
   * are counted once, as extra copies of that card.
   */
  lemma JokersBecomeTopCard(h: string)
    requires exists i :: 0 <= i < |h| && h[i] != 'J'
    ensures |PlainCounts(h)| > 0
    ensures JokerRank(h) == HandRank(Substitute(h, TopCard(PlainCounts(h))))
  {
    var i :| 0 <= i < |h| && h[i] != 'J';
    assert h[i] in Distinct(h);
    assert h[i] in PlainCounts(h);
    var g := Substitute(h, TopCard(PlainCounts(h)));
    SubstitutedTable(h);
    CountMapMeasures(g);
  }

  // ---------------------------------------------------------------------
  // Ordering and winnings
  // ---------------------------------------------------------------------

  function JokerValues(h: string): (vs: seq<int>)
    requires ValidHand(h)
    ensures |vs| == 5
  {
    seq(5, i requires 0 <= i < 5 => JokerValue(h[i]))
  }

  function JokerKey(h: string): (k: Key)
    requires ValidHand(h)
    ensures |k.values| == 5
  {
    Key(JokerRank(h), JokerValues(h))
  }

  /** With jokers too, two valid hands compare equal exactly when they are the same hand. */
  lemma CompareJokerHandsZeroIff(a: string, b: string)
    requires ValidHand(a) && ValidHand(b)
    ensures CompareKeys(JokerKey(a), JokerKey(b)) == 0 <==> a == b
  {
    CompareKeysOrder(JokerKey(a), JokerKey(b), JokerKey(b));
    if JokerValues(a) == JokerValues(b) {
      forall i | 0 <= i < 5
        ensures a[i] == b[i]
      {
        assert JokerValues(a)[i] == JokerValues(b)[i];
        JokerValueOrder(a[i], b[i]);
      }
    }
  }

  function JokerEntries(hands: seq<HandBid>): (es: seq<Entry>)
    requires forall i :: 0 <= i < |hands| ==> ValidHand(hands[i].hand)
    ensures |es| == |hands| && FiveValues(es)
    ensures forall i :: 0 <= i < |es| ==> es[i] == Entry(JokerKey(hands[i].hand), hands[i].bid)
  {
    seq(|hands|, i requires 0 <= i < |hands| => Entry(JokerKey(hands[i].hand), hands[i].bid))
  }

  /** calculateTotalWinnings with the joker comparator. */
  method CalculateTotalWinningsWithJokers(hands: seq<HandBid>) returns (total: int, ordered: seq<Entry>)
    requires forall i :: 0 <= i < |hands| ==> ValidHand(hands[i].hand)
    ensures multiset(ordered) == multiset(JokerEntries(hands))
    ensures FiveValues(ordered) && Sorted(ordered)
    ensures forall k :: WithKey(ordered, k) == WithKey(JokerEntries(hands), k)
    ensures total == Winnings(ordered)
  {
    ordered := SortEntries(JokerEntries(hands));
    forall k
      ensures WithKey(ordered, k) == WithKey(JokerEntries(hands), k)
    {
      SortStable(JokerEntries(hands), k);
    }
    total := 0;
    var i := 0;
    while i < |ordered|
      invariant 0 <= i <= |ordered|
      invariant total == Winnings(ordered[..i])
    {
      assert ordered[..i + 1][..i] == ordered[..i];
      total := total + (i + 1) * ordered[i].bid;
      i := i + 1;
    }
    assert ordered[..|ordered|] == ordered;
  }
}
