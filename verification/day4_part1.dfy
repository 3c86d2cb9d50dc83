/**
 * Scratchcards (day 4, part 1): a card's matches are its winning numbers that
 * also appear among the numbers it has; the first match is worth one point and
 * every further match doubles the card's worth.
 */
module Day4Part1 {
  import opened Common

  /** A card after splitting at ':' and '|'. */
  datatype Card = Card(winning: seq<int>, own: seq<int>)

  /** `count(array_intersect($winning, $own))`: winning entries, with repeats, that occur among the own numbers. */
  function MatchCount(card: Card): (m: nat)
    ensures m <= |card.winning|
    decreases |card.winning|
  {
    if |card.winning| == 0 then 0
    else
      var w := card.winning;
      MatchCount(Card(w[..|w| - 1], card.own)) + (if w[|w| - 1] in card.own then 1 else 0)
  }

  /** Positions of winning entries that the card holds. */
  function MatchedPositions(card: Card, n: nat): set<nat>
    requires n <= |card.winning|
  {
    set k: nat | k < n && card.winning[k] in card.own
  }

  /** The match count is the number of winning positions whose number the card holds. */
  lemma {:induction false} MatchCountIsMatchedPositions(card: Card)
    ensures MatchCount(card) == |MatchedPositions(card, |card.winning|)|
    decreases |card.winning|
  {
    var w := card.winning;
    if |w| > 0 {
      var init := Card(w[..|w| - 1], card.own);
      MatchCountIsMatchedPositions(init);
      var before := MatchedPositions(init, |init.winning|);
      assert before == MatchedPositions(card, |w| - 1);
      if w[|w| - 1] in card.own {
        assert MatchedPositions(card, |w|) == before + {|w| - 1};
      } else {
        assert MatchedPositions(card, |w|) == before;
      }
    }
  }

  /** All winning numbers held gives the full count; none held gives zero. */
  lemma {:induction false} MatchCountExtremes(card: Card)
    ensures (forall k :: 0 <= k < |card.winning| ==> card.winning[k] in card.own) ==> MatchCount(card) == |card.winning|
    ensures (forall k :: 0 <= k < |card.winning| ==> card.winning[k] !in card.own) ==> MatchCount(card) == 0
    decreases |card.winning|
  {
    var w := card.winning;
    if |w| > 0 {
      var init := Card(w[..|w| - 1], card.own);
      MatchCountExtremes(init);
      assert forall k :: 0 <= k < |w| - 1 ==> init.winning[k] == w[k];
    }
  }

  /** `$matchCount > 0 ? pow(2, $matchCount - 1) : 0`. */
  function Points(matches: nat): nat
  {
    if matches > 0 then Pow2(matches - 1) else 0
  }

  /** A card scores iff it has a match; one match is one point, and each further match doubles the score. */
  lemma PointsDoubling(matches: nat)
    ensures Points(matches) > 0 <==> matches > 0
    ensures Points(1) == 1
    ensures matches > 0 ==> Points(matches + 1) == 2 * Points(matches)
  {
  }

  function CardPoints(cards: seq<Card>): (ps: seq<int>)
    ensures |ps| == |cards|
  {
    seq(|cards|, i requires 0 <= i < |cards| => Points(MatchCount(cards[i])))
  }

  /** calculateTotalPoints: the sum of the cards' points. */
  method CalculateTotalPoints(cards: seq<Card>) returns (total: int)
    ensures total == Sum(CardPoints(cards))
    ensures total >= 0
  {
    total := 0;
    var n := 0;
    while n < |cards|
      invariant 0 <= n <= |cards|
      invariant total == Sum(CardPoints(cards)[..n])
      invariant total >= 0
    {
      var points := Points(MatchCount(cards[n]));
      assert CardPoints(cards)[..n + 1] == CardPoints(cards)[..n] + [points];
      SumAppend(CardPoints(cards)[..n], points);
      total := total + points;
      n := n + 1;
    }
    assert CardPoints(cards)[..n] == CardPoints(cards);
  }
}
