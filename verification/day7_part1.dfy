/**
 * Camel Cards (day 7, part 1): every hand of five cards gets a type from how
 * often its cards repeat; hands are ordered by type and then card by card, and
 * each hand wins its bid times its position in that order.
 */
module Day7Part1 {
  import opened Common

  const Cards: string := "23456789TJQKA"

  predicate IsCard(c: char)
  {
    c in Cards
  }

  /** cardValue: face value for 2 .. 9, then T = 10, J = 11, Q = 12, K = 13, A = 14. */
  function CardValue(c: char): (v: int)
    requires IsCard(c)
    ensures 2 <= v <= 14
  {
    if '2' <= c <= '9' then (c as int) - ('0' as int)
    else if c == 'T' then 10
    else if c == 'J' then 11
    else if c == 'Q' then 12
    else if c == 'K' then 13
    else 14
  }

  /** Different cards have different values. */
  lemma CardValueInjective(c: char, d: char)
    requires IsCard(c) && IsCard(d)
    ensures CardValue(c) == CardValue(d) <==> c == d
  {
  }

  /** The comparator reads five cards, each of which must have a value. */
  predicate ValidHand(h: string)
  {
    |h| == 5 && forall i :: 0 <= i < |h| ==> IsCard(h[i])
  }

  // ---------------------------------------------------------------------
  // Card counts: `array_count_values(str_split($hand))`
  // ---------------------------------------------------------------------

  function Count(h: string, c: char): nat
  {
    multiset(h)[c]
  }

  /** The cards that occur in the hand: the keys of the count table. */
  function Distinct(h: string): set<char>
  {
    set i | 0 <= i < |h| :: h[i]
  }

  /** `max($counts)` over the keys from index k on; 0 for no keys. */
  function MaxCountFrom(h: string, k: nat): (m: nat)
    requires k <= |h|
    ensures forall i :: k <= i < |h| ==> Count(h, h[i]) <= m
    ensures k < |h| ==> exists i :: k <= i < |h| && Count(h, h[i]) == m
    ensures k == |h| ==> m == 0
    decreases |h| - k
  {
    if k == |h| then 0 else Max(Count(h, h[k]), MaxCountFrom(h, k + 1))
  }

  function MaxCount(h: string): (m: nat)
    ensures forall i :: 0 <= i < |h| ==> Count(h, h[i]) <= m
    ensures |h| > 0 ==> exists i :: 0 <= i < |h| && Count(h, h[i]) == m
    ensures |h| == 0 ==> m == 0
  {
    MaxCountFrom(h, 0)
  }

  /**
   * The type ladder of handRank: Five of a kind 9, Four of a kind 8, Full
   * house 7, Three of a kind 6, Two pair 5, One pair 4, High card 3, from the
   * number of distinct cards and the largest count.
   */
  function TypeOf(distinct: int, maxCount: int): (r: int)
    ensures 3 <= r <= 9
  {
    if distinct == 1 then 9
    else if distinct == 2 then (if maxCount == 4 then 8 else if maxCount == 3 then 7 else 3)
    else if distinct == 3 then (if maxCount == 3 then 6 else 5)
    else if distinct == 4 then 4
    else 3
  }

  function HandRank(h: string): (r: int)
    ensures 3 <= r <= 9
  {
    TypeOf(|Distinct(h)|, MaxCount(h))
  }

  // ---------------------------------------------------------------------
  // Facts about counts
  // ---------------------------------------------------------------------

  lemma CountBound(h: string, c: char)
    ensures Count(h, c) <= |h|
    ensures Count(h, c) > 0 <==> c in Distinct(h)
  {
    if c in multiset(h) {
      var i :| 0 <= i < |h| && h[i] == c;
      assert c in Distinct(h);
    }
    if c in Distinct(h) {
      var i :| 0 <= i < |h| && h[i] == c;
      assert c in multiset(h);
    }
    assert Count(h, c) <= |multiset(h)|;
  }

  /** The hand with every copy of c removed. */
  function Remove(h: string, c: char): (r: string)
    ensures |h| == Count(h, c) + |r|
    ensures forall d :: d != c ==> Count(r, d) == Count(h, d)
    ensures c !in Distinct(r)
    ensures forall i :: 0 <= i < |r| ==> r[i] in Distinct(h)
  {
    if |h| == 0 then []
    else
      assert h == [h[0]] + h[1..];
      var t := Remove(h[1..], c);
      var r := if h[0] == c then t else [h[0]] + t;
      assert forall i :: 0 <= i < |t| ==> t[i] in Distinct(h) by {
        forall i | 0 <= i < |t|
          ensures t[i] in Distinct(h)
        {
          var j :| 0 <= j < |h[1..]| && h[1..][j] == t[i];
          assert h[j + 1] == t[i];
        }
      }
      assert h[0] in Distinct(h);
      r
  }

  /** Removing c from a hand drawn from D leaves a hand drawn from D without c. */
  lemma RemoveWithin(h: string, c: char, D: set<char>)
    requires forall i :: 0 <= i < |h| ==> h[i] in D
    ensures forall i :: 0 <= i < |Remove(h, c)| ==> Remove(h, c)[i] in D - {c}
  {
    var r := Remove(h, c);
    forall i | 0 <= i < |r|
      ensures r[i] in D - {c}
    {
      assert r[i] in Distinct(r);
      var j :| 0 <= j < |h| && h[j] == r[i];
    }
  }

  lemma ScaleStep(k: int, n: nat)
    requires n >= 1
    ensures k * n == k + k * (n - 1)
  {
  }

  /** Pigeonhole: a hand whose cards come from D, none more than k times, has at most k·|D| cards. */
  lemma {:induction false} Pigeonhole(h: string, D: set<char>, k: int)
    requires forall i :: 0 <= i < |h| ==> h[i] in D
    requires forall c :: c in D ==> Count(h, c) <= k
    ensures |h| <= k * |D|
    decreases |D|
  {
    if |h| == 0 {
      if |D| > 0 {
        var c :| c in D;
        assert k >= 0;
      }
    } else {
      var c := h[0];
      var r := Remove(h, c);
      RemoveWithin(h, c, D);
      Pigeonhole(r, D - {c}, k);
      ScaleStep(k, |D|);
    }
  }

  /** A card that fills the whole hand is its only card. */
  lemma {:induction false} FullCount(h: string, c: char)
    requires Count(h, c) == |h|
    ensures forall i :: 0 <= i < |h| ==> h[i] == c
    decreases |h|
  {
    if |h| > 0 {
      assert h == [h[0]] + h[1..];
      CountBound(h[1..], c);
      FullCount(h[1..], c);
      forall i | 0 <= i < |h|
        ensures h[i] == c
      {
        if i > 0 {
          assert h[i] == h[1..][i - 1];
        }
      }
    }
  }

  /** A card that fills the whole hand is its only distinct card. */
  lemma FullCountDistinct(h: string, c: char)
    requires |h| > 0 && Count(h, c) == |h|
    ensures |Distinct(h)| == 1
  {
    FullCount(h, c);
    assert Distinct(h) == {c} by {
      forall d | d in Distinct(h)
        ensures d == c
      {
        var j :| 0 <= j < |h| && h[j] == d;
      }
      assert h[0] in Distinct(h);
    }
  }

  lemma SingletonSet(D: set<char>, x: char)
    requires |D| == 1 && x in D
    ensures D == {x}
  {
    assert |D - {x}| == 0;
  }

  /** A hand has as many distinct cards as cards exactly when no card repeats. */
  lemma {:induction false} DistinctCount(h: string)
    ensures |Distinct(h)| <= |h|
    ensures |Distinct(h)| == |h| <==> forall i, j :: 0 <= i < j < |h| ==> h[i] != h[j]
    decreases |h|
  {
    if |h| > 0 {
      var t := h[1..];
      DistinctCount(t);
      assert Distinct(h) == {h[0]} + Distinct(t) by {
        forall c | c in Distinct(h)
          ensures c in {h[0]} + Distinct(t)
        {
          var i :| 0 <= i < |h| && h[i] == c;
          if i > 0 {
            assert t[i - 1] == c;
          }
        }
        forall c | c in Distinct(t)
          ensures c in Distinct(h)
        {
          var i :| 0 <= i < |t| && t[i] == c;
          assert h[i + 1] == c;
        }
      }
      if h[0] in Distinct(t) {
        var j :| 0 <= j < |t| && t[j] == h[0];
        assert h[0] == h[j + 1];
      } else {
        if forall i, j :: 0 <= i < j < |t| ==> t[i] != t[j] {
          forall i, j | 0 <= i < j < |h|
            ensures h[i] != h[j]
          {
            if i == 0 {
              assert h[j] == t[j - 1];
            } else {
              assert h[i] == t[i - 1] && h[j] == t[j - 1];
            }
          }
        } else {
          var i, j :| 0 <= i < j < |t| && t[i] == t[j];
          assert h[i + 1] == h[j + 1];
        }
      }
    }
  }

  // ---------------------------------------------------------------------
  // What the type means
  // ---------------------------------------------------------------------

  /** Five of a kind exactly when every card equals the first. */
  lemma FiveOfAKindIff(h: string)
    requires |h| > 0
    ensures HandRank(h) == 9 <==> forall i :: 0 <= i < |h| ==> h[i] == h[0]
  {
    assert h[0] in Distinct(h);
    if forall i :: 0 <= i < |h| ==> h[i] == h[0] {
      assert Distinct(h) == {h[0]};
    }
    if HandRank(h) == 9 {
      SingletonSet(Distinct(h), h[0]);
      forall i | 0 <= i < |h|
        ensures h[i] == h[0]
      {
        assert h[i] in Distinct(h);
      }
    }
  }

  /** For five cards, two distinct cards always split as 4 + 1 or 3 + 2. */
  lemma TwoDistinctCounts(h: string)
    requires |h| == 5 && |Distinct(h)| == 2
    ensures MaxCount(h) == 3 || MaxCount(h) == 4
  {
    forall c | c in Distinct(h)
      ensures Count(h, c) <= MaxCount(h)
    {
      var i :| 0 <= i < |h| && h[i] == c;
    }
    Pigeonhole(h, Distinct(h), MaxCount(h));
    var i :| 0 <= i < |h| && Count(h, h[i]) == MaxCount(h);
    CountBound(h, h[i]);
    if MaxCount(h) == 5 {
      FullCountDistinct(h, h[i]);
    }
  }

  /** For five cards, High card exactly when no card repeats. */
  lemma HighCardIff(h: string)
    requires |h| == 5
    ensures HandRank(h) == 3 <==> forall i, j :: 0 <= i < j < |h| ==> h[i] != h[j]
  {
    DistinctCount(h);
    assert h[0] in Distinct(h);
    if |Distinct(h)| == 2 {
      TwoDistinctCounts(h);
    }
  }

  lemma {:induction false} SubsetCard(a: set<char>, b: set<char>)
    requires a <= b
    ensures |a| <= |b|
    decreases |a|
  {
    if a != {} {
      var y :| y in a;
      SubsetCard(a - {y}, b - {y});
    }
  }

  /** Every other distinct card takes at least one of the cards `c` leaves. */
  lemma DistinctBound(h: string, c: char)
    requires c in Distinct(h)
    ensures |Distinct(h)| <= |h| - Count(h, c) + 1
  {
    var r := Remove(h, c);
    forall d | d in Distinct(h) - {c}
      ensures d in Distinct(r)
    {
      CountBound(h, d);
      CountBound(r, d);
    }
    SubsetCard(Distinct(h) - {c}, Distinct(r));
    DistinctCount(r);
  }

  /** The largest count and the number of distinct cards bound each other both ways. */
  lemma MaxCountRange(h: string)
    requires |h| > 0
    ensures |h| <= MaxCount(h) * |Distinct(h)|
    ensures |Distinct(h)| + MaxCount(h) <= |h| + 1
    ensures 1 <= |Distinct(h)| <= |h|
  {
    forall c | c in Distinct(h)
      ensures Count(h, c) <= MaxCount(h)
    {
      var i :| 0 <= i < |h| && h[i] == c;
    }
    Pigeonhole(h, Distinct(h), MaxCount(h));
    var i :| 0 <= i < |h| && Count(h, h[i]) == MaxCount(h);
    DistinctBound(h, h[i]);
    DistinctCount(h);
    assert h[0] in Distinct(h);
  }

  lemma ProfileArith(m: int, d: int)
    requires 1 <= d <= 5 && 5 <= m * d && d + m <= 6
    ensures d == 1 ==> m == 5
    ensures d == 2 ==> 3 <= m <= 4
    ensures d == 3 ==> 2 <= m <= 3
    ensures d == 4 ==> m == 2
    ensures d == 5 ==> m == 1
  {
  }

  /** For five cards the number of distinct cards fixes the largest count up to the choices the type ladder tells apart. */
  lemma Profile(h: string)
    requires |h| == 5
    ensures var d, m := |Distinct(h)|, MaxCount(h);
      && 1 <= d <= 5
      && (d == 1 <==> m == 5)
      && (d == 2 ==> m == 3 || m == 4)
      && (m == 4 ==> d == 2)
      && (d == 3 ==> m == 2 || m == 3)
      && (d == 4 ==> m == 2)
      && (d == 5 <==> m == 1)
  {
    MaxCountRange(h);
    ProfileArith(MaxCount(h), |Distinct(h)|);
  }

  /** Four of a kind exactly when some card occurs four times. */
  lemma FourOfAKindIff(h: string)
    requires |h| == 5
    ensures HandRank(h) == 8 <==> exists i :: 0 <= i < |h| && Count(h, h[i]) == 4
  {
    Profile(h);
    if exists i :: 0 <= i < |h| && Count(h, h[i]) == 4 {
      var i :| 0 <= i < |h| && Count(h, h[i]) == 4;
      if MaxCount(h) == 5 {
        var j :| 0 <= j < |h| && Count(h, h[j]) == 5;
        FullCount(h, h[j]);
        assert false;
      }
    }
  }

  /** Full house exactly when the hand holds two kinds of card, one of them three times. */
  lemma FullHouseIff(h: string)
    requires |h| == 5
    ensures HandRank(h) == 7 <==> |Distinct(h)| == 2 && MaxCount(h) == 3
  {
    Profile(h);
  }

  /** Three of a kind exactly when the hand holds three kinds of card, one of them three times. */
  lemma ThreeOfAKindIff(h: string)
    requires |h| == 5
    ensures HandRank(h) == 6 <==> |Distinct(h)| == 3 && MaxCount(h) == 3
  {
    Profile(h);
  }

  /** Two pair exactly when the hand holds three kinds of card, none more than twice. */
  lemma TwoPairIff(h: string)
    requires |h| == 5
    ensures HandRank(h) == 5 <==> |Distinct(h)| == 3 && MaxCount(h) == 2
  {
    Profile(h);
  }

  /** One pair exactly when the hand holds four kinds of card; then the largest count is 2. */
  lemma OnePairIff(h: string)
    requires |h| == 5
    ensures HandRank(h) == 4 <==> |Distinct(h)| == 4
    ensures HandRank(h) == 4 ==> MaxCount(h) == 2
  {
    Profile(h);
  }

  lemma DistinctIgnoresOrder(h: string, g: string)
    requires multiset(h) == multiset(g)
    ensures Distinct(h) == Distinct(g)
  {
    forall c
      ensures c in Distinct(h) <==> c in Distinct(g)
    {
      CountBound(h, c);
      CountBound(g, c);
    }
  }

  /** The largest count of `g` is at least that of `h` when `g` holds every card of `h` as often. */
  lemma MaxCountCovers(h: string, g: string)
    requires multiset(h) == multiset(g)
    ensures MaxCount(h) <= MaxCount(g)
  {
    if |h| > 0 {
      var i :| 0 <= i < |h| && Count(h, h[i]) == MaxCount(h);
      assert h[i] in multiset(g);
      var k :| 0 <= k < |g| && g[k] == h[i];
      assert Count(g, g[k]) <= MaxCount(g);
    }
  }

  /** The type depends only on which cards the hand holds, not on their order. */
  lemma RankIgnoresOrder(h: string, g: string)
    requires multiset(h) == multiset(g)
    ensures HandRank(h) == HandRank(g)
  {
    DistinctIgnoresOrder(h, g);
    MaxCountCovers(h, g);
    MaxCountCovers(g, h);
  }

  // ---------------------------------------------------------------------
  // The comparator of orderHands
  // ---------------------------------------------------------------------

  /** What the comparator looks at: the type, then the card values left to right. */
  datatype Key = Key(rank: int, values: seq<int>)

  /** The card-by-card loop: 1, -1 or 0 at the first differing position. */
  function CompareValues(va: seq<int>, vb: seq<int>): (r: int)
    requires |va| == |vb|
    ensures r == 0 <==> va == vb
    ensures r == 1 || r == -1 || r == 0
  {
    if |va| == 0 then 0
    else if va[0] > vb[0] then 1
    else if va[0] < vb[0] then -1
    else
      var r := CompareValues(va[1..], vb[1..]);
      assert va == [va[0]] + va[1..] && vb == [vb[0]] + vb[1..];
      r
  }

  function CompareKeys(a: Key, b: Key): int
    requires |a.values| == |b.values|
  {
    if a.rank > b.rank then 1
    else if a.rank < b.rank then -1
    else CompareValues(a.values, b.values)
  }

  lemma {:induction false} CompareValuesAntisymmetric(va: seq<int>, vb: seq<int>)
    requires |va| == |vb|
    ensures CompareValues(va, vb) == -CompareValues(vb, va)
  {
    if |va| > 0 && va[0] == vb[0] {
      CompareValuesAntisymmetric(va[1..], vb[1..]);
    }
  }

  lemma {:induction false} CompareValuesTransitive(va: seq<int>, vb: seq<int>, vc: seq<int>)
    requires |va| == |vb| == |vc|
    requires CompareValues(va, vb) <= 0 && CompareValues(vb, vc) <= 0
    ensures CompareValues(va, vc) <= 0
  {
    if |va| > 0 && va[0] == vb[0] && vb[0] == vc[0] {
      CompareValuesTransitive(va[1..], vb[1..], vc[1..]);
    }
  }

  /** The comparator is antisymmetric, returns 0 only on equal keys, and its "≤" is transitive. */
  lemma CompareKeysOrder(a: Key, b: Key, c: Key)
    requires |a.values| == |b.values| == |c.values|
    ensures CompareKeys(a, b) == -CompareKeys(b, a)
    ensures CompareKeys(a, b) == 0 <==> a == b
    ensures CompareKeys(a, b) <= 0 && CompareKeys(b, c) <= 0 ==> CompareKeys(a, c) <= 0
  {
    CompareValuesAntisymmetric(a.values, b.values);
    if CompareKeys(a, b) <= 0 && CompareKeys(b, c) <= 0 && a.rank == b.rank == c.rank {
      CompareValuesTransitive(a.values, b.values, c.values);
    }
  }

  function Values(h: string): (vs: seq<int>)
    requires ValidHand(h)
    ensures |vs| == 5
  {
    seq(5, i requires 0 <= i < 5 => CardValue(h[i]))
  }

  function HandKey(h: string): (k: Key)
    requires ValidHand(h)
    ensures |k.values| == 5
  {
    Key(HandRank(h), Values(h))
  }

  /** Two valid hands compare equal exactly when they hold the same cards in the same order. */
  lemma CompareHandsZeroIff(a: string, b: string)
    requires ValidHand(a) && ValidHand(b)
    ensures CompareKeys(HandKey(a), HandKey(b)) == 0 <==> a == b
  {
    CompareKeysOrder(HandKey(a), HandKey(b), HandKey(b));
    if Values(a) == Values(b) {
      forall i | 0 <= i < 5
        ensures a[i] == b[i]
      {
        assert Values(a)[i] == Values(b)[i];
        CardValueInjective(a[i], b[i]);
      }
    }
  }

  // ---------------------------------------------------------------------
  // usort: a stable insertion sort by key
  // ---------------------------------------------------------------------

  datatype Entry = Entry(key: Key, bid: int)

  /** Every key carries the five card values the comparator reads. */
  predicate FiveValues(es: seq<Entry>)
  {
    forall i :: 0 <= i < |es| ==> |es[i].key.values| == 5
  }

  predicate Sorted(es: seq<Entry>)
    requires FiveValues(es)
  {
    forall i, j :: 0 <= i < j < |es| ==> CompareKeys(es[i].key, es[j].key) <= 0
  }

  /** Puts e before the first entry that is strictly greater, after all equal ones. */
  function Insert(e: Entry, s: seq<Entry>): (r: seq<Entry>)
    requires |e.key.values| == 5 && FiveValues(s)
    ensures multiset(r) == multiset(s) + multiset{e}
    ensures FiveValues(r)
  {
    if |s| == 0 then [e]
    else if CompareKeys(e.key, s[0].key) < 0 then
      assert s == [s[0]] + s[1..];
      [e] + s
    else
      assert s == [s[0]] + s[1..];
      var t := Insert(e, s[1..]);
      assert forall x :: x in t ==> x in multiset(s[1..]) + multiset{e};
      [s[0]] + t
  }

  /** Key `x` is at most every key of `s`. */
  predicate Below(x: Key, s: seq<Entry>)
    requires |x.values| == 5 && FiveValues(s)
  {
    forall j :: 0 <= j < |s| ==> CompareKeys(x, s[j].key) <= 0
  }

  lemma SortedCons(x: Entry, t: seq<Entry>)
    requires |x.key.values| == 5 && FiveValues(t) && Sorted(t) && Below(x.key, t)
    ensures FiveValues([x] + t) && Sorted([x] + t)
  {
    var r := [x] + t;
    forall i, j | 0 <= i < j < |r|
      ensures CompareKeys(r[i].key, r[j].key) <= 0
    {
      assert r[j] == t[j - 1];
      if i > 0 {
        assert r[i] == t[i - 1];
      }
    }
  }

  /** Inserting an entry no smaller than `x` keeps `x` below everything. */
  lemma {:induction false} InsertBelow(x: Key, e: Entry, s: seq<Entry>)
    requires |x.values| == 5 && |e.key.values| == 5 && FiveValues(s)
    requires Below(x, s) && CompareKeys(x, e.key) <= 0
    ensures Below(x, Insert(e, s))
    decreases |s|
  {
    if |s| > 0 && CompareKeys(e.key, s[0].key) >= 0 {
      InsertBelow(x, e, s[1..]);
      var t := Insert(e, s[1..]);
      assert Insert(e, s) == [s[0]] + t;
    }
  }

  lemma {:induction false} InsertSorted(e: Entry, s: seq<Entry>)
    requires |e.key.values| == 5 && FiveValues(s) && Sorted(s)
    ensures Sorted(Insert(e, s))
    decreases |s|
  {
    if |s| > 0 {
      var tail := s[1..];
      assert Sorted(tail) && Below(s[0].key, tail) by {
        forall i, j | 0 <= i < j < |tail|
          ensures CompareKeys(tail[i].key, tail[j].key) <= 0
        {
          assert tail[i] == s[i + 1] && tail[j] == s[j + 1];
        }
        forall j | 0 <= j < |tail|
          ensures CompareKeys(s[0].key, tail[j].key) <= 0
        {
          assert tail[j] == s[j + 1];
        }
      }
      if CompareKeys(e.key, s[0].key) < 0 {
        forall j | 0 <= j < |s|
          ensures CompareKeys(e.key, s[j].key) <= 0
        {
          CompareKeysOrder(e.key, s[0].key, s[j].key);
        }
        assert s == [s[0]] + tail;
        SortedCons(e, s);
      } else {
        InsertSorted(e, tail);
        CompareKeysOrder(s[0].key, e.key, e.key);
        InsertBelow(s[0].key, e, tail);
        SortedCons(s[0], Insert(e, tail));
      }
    }
  }

  /** orderHands: the entries in ascending comparator order. */
  function SortEntries(es: seq<Entry>): (r: seq<Entry>)
    requires FiveValues(es)
    ensures multiset(r) == multiset(es)
    ensures FiveValues(r) && Sorted(r)
  {
    if |es| == 0 then []
    else
      var init := es[..|es| - 1];
      assert es == init + [es[|es| - 1]];
      var s := SortEntries(init);
      InsertSorted(es[|es| - 1], s);
      Insert(es[|es| - 1], s)
  }

  /** The entries carrying key `k`, in the order they appear. */
  function WithKey(s: seq<Entry>, k: Key): seq<Entry>
  {
    if |s| == 0 then [] else (if s[0].key == k then [s[0]] else []) + WithKey(s[1..], k)
  }

  lemma {:induction false} WithKeyConcat(a: seq<Entry>, b: seq<Entry>, k: Key)
    ensures WithKey(a + b, k) == WithKey(a, k) + WithKey(b, k)
    decreases |a|
  {
    if |a| > 0 {
      var head := if a[0].key == k then [a[0]] else [];
      assert (a + b)[0] == a[0] && (a + b)[1..] == a[1..] + b;
      assert WithKey(a + b, k) == head + WithKey(a[1..] + b, k);
      WithKeyConcat(a[1..], b, k);
    } else {
      assert a + b == b;
    }
  }

  lemma {:induction false} WithKeyNone(s: seq<Entry>, k: Key)
    requires forall j :: 0 <= j < |s| ==> s[j].key != k
    ensures WithKey(s, k) == []
    decreases |s|
  {
    if |s| > 0 {
      WithKeyNone(s[1..], k);
    }
  }

  lemma SortedTail(s: seq<Entry>)
    requires |s| > 0 && FiveValues(s) && Sorted(s)
    ensures FiveValues(s[1..]) && Sorted(s[1..])
  {
    forall i, j | 0 <= i < j < |s[1..]|
      ensures CompareKeys(s[1..][i].key, s[1..][j].key) <= 0
    {
      assert s[1..][i] == s[i + 1] && s[1..][j] == s[j + 1];
    }
  }

  /** An entry strictly below the head of a sorted list shares its key with none of it. */
  lemma BelowHeadWithKey(e: Entry, s: seq<Entry>)
    requires |e.key.values| == 5 && |s| > 0 && FiveValues(s) && Sorted(s)
    requires CompareKeys(e.key, s[0].key) < 0
    ensures WithKey(s, e.key) == []
  {
    forall j | 0 <= j < |s|
      ensures s[j].key != e.key
    {
      CompareKeysOrder(e.key, s[0].key, s[j].key);
      CompareKeysOrder(s[j].key, e.key, e.key);
    }
    WithKeyNone(s, e.key);
  }

  lemma WithKeyCons(e: Entry, s: seq<Entry>, k: Key)
    ensures WithKey([e] + s, k) == (if e.key == k then [e] else []) + WithKey(s, k)
  {
    assert ([e] + s)[0] == e && ([e] + s)[1..] == s;
  }

  /** Inserting `e` puts it after every entry with its key, so the entries of each key keep their order with `e` last. */
  lemma {:induction false} InsertWithKey(e: Entry, s: seq<Entry>, k: Key)
    requires |e.key.values| == 5 && FiveValues(s) && Sorted(s)
    ensures WithKey(Insert(e, s), k) == WithKey(s, k) + (if e.key == k then [e] else [])
    decreases |s|
  {
    if |s| == 0 {
      WithKeyCons(e, [], k);
    } else if CompareKeys(e.key, s[0].key) < 0 {
      assert Insert(e, s) == [e] + s;
      WithKeyCons(e, s, k);
      if e.key == k {
        BelowHeadWithKey(e, s);
      }
    } else {
      SortedTail(s);
      InsertWithKey(e, s[1..], k);
      assert Insert(e, s) == [s[0]] + Insert(e, s[1..]);
      WithKeyCons(s[0], Insert(e, s[1..]), k);
      WithKeyCons(s[0], s[1..], k);
      assert [s[0]] + s[1..] == s;
    }
  }

  /** Sorting is stable: the entries of each key come out in their input order, as PHP 8's `usort` keeps them. */
  lemma {:induction false} SortStable(es: seq<Entry>, k: Key)
    requires FiveValues(es)
    ensures WithKey(SortEntries(es), k) == WithKey(es, k)
    decreases |es|
  {
    if |es| > 0 {
      var init, x := es[..|es| - 1], es[|es| - 1];
      var t := SortEntries(init);
      var tail := if x.key == k then [x] else [];
      assert WithKey(t, k) == WithKey(init, k) by {
        SortStable(init, k);
      }
      assert WithKey(Insert(x, t), k) == WithKey(t, k) + tail by {
        InsertWithKey(x, t, k);
      }
      assert WithKey(init + [x], k) == WithKey(init, k) + tail by {
        WithKeyConcat(init, [x], k);
        WithKeyCons(x, [], k);
      }
      assert SortEntries(es) == Insert(x, t);
      assert es == init + [x];
    }
  }

  /** An entry of `s` with key `k` is listed in `WithKey(s, k)`. */
  lemma {:induction false} WithKeyHas(s: seq<Entry>, j: nat)
    requires j < |s|
    ensures s[j] in WithKey(s, s[j].key)
    decreases j
  {
    if j > 0 {
      assert s[1..][j - 1] == s[j];
      WithKeyHas(s[1..], j - 1);
    }
  }

  /** Every entry listed in `WithKey(s, k)` is an entry of `s` with key `k`. */
  lemma {:induction false} WithKeyOnly(s: seq<Entry>, k: Key, e: Entry)
    requires e in WithKey(s, k)
    ensures e.key == k && e in s
    decreases |s|
  {
    if |s| > 0 && !(s[0].key == k && e == s[0]) {
      WithKeyOnly(s[1..], k, e);
    }
  }

  /** A non-empty list lists its head under the head's key. */
  lemma WithKeyNonEmpty(s: seq<Entry>)
    requires |s| > 0
    ensures WithKey(s, s[0].key) != []
  {
    WithKeyHas(s, 0);
  }

  /** Two sorted lists listing the same entries under every key start with the same entry. */
  lemma HeadsAgree(a: seq<Entry>, b: seq<Entry>)
    requires |a| > 0 && |b| > 0 && FiveValues(a) && FiveValues(b) && Sorted(a) && Sorted(b)
    requires WithKey(a, a[0].key) == WithKey(b, a[0].key) && WithKey(a, b[0].key) == WithKey(b, b[0].key)
    ensures a[0] == b[0]
  {
    var ka, kb := a[0].key, b[0].key;
    WithKeyHas(a, 0);
    WithKeyOnly(b, ka, a[0]);
    var j :| 0 <= j < |b| && b[j] == a[0];
    WithKeyHas(b, 0);
    WithKeyOnly(a, kb, b[0]);
    var i :| 0 <= i < |a| && a[i] == b[0];
    assert CompareKeys(kb, ka) <= 0 by {
      if j > 0 {
        assert CompareKeys(b[0].key, b[j].key) <= 0;
      }
    }
    assert CompareKeys(ka, kb) <= 0 by {
      if i > 0 {
        assert CompareKeys(a[0].key, a[i].key) <= 0;
      }
    }
    CompareKeysOrder(ka, kb, kb);
    assert ka == kb;
    assert WithKey(a, ka)[0] == a[0] by {
      assert WithKey(a, ka) == [a[0]] + WithKey(a[1..], ka);
    }
    assert WithKey(b, ka)[0] == b[0] by {
      assert WithKey(b, kb) == [b[0]] + WithKey(b[1..], kb);
    }
  }

  lemma TailsAgree(a: seq<Entry>, b: seq<Entry>, k: Key)
    requires |a| > 0 && |b| > 0 && a[0] == b[0] && WithKey(a, k) == WithKey(b, k)
    ensures WithKey(a[1..], k) == WithKey(b[1..], k)
  {
    var head := if a[0].key == k then [a[0]] else [];
    assert WithKey(a, k) == head + WithKey(a[1..], k);
    assert WithKey(b, k) == head + WithKey(b[1..], k);
    assert WithKey(a[1..], k) == WithKey(a, k)[|head|..];
    assert WithKey(b[1..], k) == WithKey(b, k)[|head|..];
  }

  /**
   * Sorted and stable pins the order down: two sorted lists whose entries
   * of each key come in the same order are the same list. So the winnings
   * do not depend on how the sort is carried out.
   */
  lemma {:induction false} SortedStableUnique(a: seq<Entry>, b: seq<Entry>)
    requires FiveValues(a) && FiveValues(b) && Sorted(a) && Sorted(b)
    requires forall k :: WithKey(a, k) == WithKey(b, k)
    ensures a == b
    decreases |a|
  {
    if |a| == 0 && |b| > 0 {
      WithKeyNonEmpty(b);
    } else if |a| > 0 && |b| == 0 {
      WithKeyNonEmpty(a);
    } else if |a| > 0 {
      HeadsAgree(a, b);
      forall k
        ensures WithKey(a[1..], k) == WithKey(b[1..], k)
      {
        TailsAgree(a, b, k);
      }
      SortedTail(a);
      SortedTail(b);
      SortedStableUnique(a[1..], b[1..]);
      assert a == [a[0]] + a[1..] && b == [b[0]] + b[1..];
    }
  }

  // ---------------------------------------------------------------------
  // Winnings
  // ---------------------------------------------------------------------

  /** Every entry's bid times its position counted from 1. */
  function Winnings(es: seq<Entry>): int
  {
    if |es| == 0 then 0 else Winnings(es[..|es| - 1]) + |es| * es[|es| - 1].bid
  }

  datatype HandBid = HandBid(hand: string, bid: int)

  function Entries(hands: seq<HandBid>): (es: seq<Entry>)
    requires forall i :: 0 <= i < |hands| ==> ValidHand(hands[i].hand)
    ensures |es| == |hands| && FiveValues(es)
    ensures forall i :: 0 <= i < |es| ==> es[i] == Entry(HandKey(hands[i].hand), hands[i].bid)
  {
    seq(|hands|, i requires 0 <= i < |hands| => Entry(HandKey(hands[i].hand), hands[i].bid))
  }

  /** With non-negative bids the winnings are non-negative and at least every single hand's share. */
  lemma {:induction false} WinningsAtLeastBids(es: seq<Entry>)
    requires forall i :: 0 <= i < |es| ==> es[i].bid >= 0
    ensures Winnings(es) >= 0
    ensures forall i :: 0 <= i < |es| ==> Winnings(es) >= (i + 1) * es[i].bid
  {
    if |es| > 0 {
      WinningsAtLeastBids(es[..|es| - 1]);
      forall i | 0 <= i < |es| - 1
        ensures Winnings(es) >= (i + 1) * es[i].bid
      {
        assert es[..|es| - 1][i] == es[i];
      }
    }
  }

  /** calculateTotalWinnings: sort, then add (position + 1) · bid. */
  method CalculateTotalWinnings(hands: seq<HandBid>) returns (total: int, ordered: seq<Entry>)
    requires forall i :: 0 <= i < |hands| ==> ValidHand(hands[i].hand)
    ensures multiset(ordered) == multiset(Entries(hands))
    ensures FiveValues(ordered) && Sorted(ordered)
    ensures forall k :: WithKey(ordered, k) == WithKey(Entries(hands), k)
    ensures total == Winnings(ordered)
  {
    ordered := SortEntries(Entries(hands));
    forall k
      ensures WithKey(ordered, k) == WithKey(Entries(hands), k)
    {
      SortStable(Entries(hands), k);
    }
    total := 0;
    var i := 0;
    while i < |ordered|
      invariant 0 <= i <= |ordered|
      invariant total == Winnings(ordered[..i])
    {
      assert ordered[..i + 1][..i] == ordered[..i];
      total := total + (i + 1) * ordered[i].bid;
      i := i + 1;
    }
    assert ordered[..|ordered|] == ordered;
  }
}
