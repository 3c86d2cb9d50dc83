/**
 * Scratchcards (day 4, part 2): a card with m matches wins one copy of each of
 * the next m cards, and copies win like originals. The answer counts the
 * original cards plus every copy won.
 */
module Day4Part2 {
  import opened Common
  import opened Day4Part1

  /** processCardCopies: the copies won by card `i` and, recursively, by those copies; 0 past the last card. */
  function Copies(ms: seq<nat>, i: nat): nat
    decreases |ms| - i, 1
  {
    if i >= |ms| then 0 else CopiesLoop(ms, i, ms[i])
  }

  /** The for loop of processCardCopies after `t` rounds: the sum of 1 + copies(i + k) for k = 1..t. */
  function CopiesLoop(ms: seq<nat>, i: nat, t: nat): (r: nat)
    requires i < |ms|
    ensures r >= t
    decreases |ms| - i, 0, t
  {
    if t == 0 then 0 else CopiesLoop(ms, i, t - 1) + 1 + Copies(ms, i + t)
  }

  /** The match counts of the cards. */
  function Matches(cards: seq<Card>): (ms: seq<nat>)
    ensures |ms| == |cards|
  {
    seq(|cards|, i requires 0 <= i < |cards| => MatchCount(cards[i]))
  }

  function AllCopies(ms: seq<nat>): (cs: seq<int>)
    ensures |cs| == |ms|
  {
    seq(|ms|, i requires 0 <= i < |ms| => Copies(ms, i))
  }

  /** calculateTotalPoints: the card count plus the copies each card generates. */
  function TotalCards(ms: seq<nat>): int
  {
    |ms| + Sum(AllCopies(ms))
  }

  /**
   * A card wins at least one copy per match, and exactly one per match when
   * the cards it wins win nothing themselves; a card without matches wins
   * nothing. A win past the last card still counts one.
   */
  lemma CopiesBounds(ms: seq<nat>, i: nat)
    requires i < |ms|
    ensures Copies(ms, i) >= ms[i]
    ensures ms[i] == 0 ==> Copies(ms, i) == 0
    ensures (forall k :: i < k <= i + ms[i] ==> Copies(ms, k) == 0) ==> Copies(ms, i) == ms[i]
  {
    if forall k :: i < k <= i + ms[i] ==> Copies(ms, k) == 0 {
      LoopWithoutDescendants(ms, i, ms[i]);
    }
  }

  lemma {:induction false} LoopWithoutDescendants(ms: seq<nat>, i: nat, t: nat)
    requires i < |ms|
    requires forall k :: i < k <= i + t ==> Copies(ms, k) == 0
    ensures CopiesLoop(ms, i, t) == t
  {
    if t > 0 {
      LoopWithoutDescendants(ms, i, t - 1);
    }
  }

  /** The last card's wins all fall past the end, and each still adds one. */
  lemma LastCardCopies(ms: seq<nat>)
    requires |ms| > 0
    ensures Copies(ms, |ms| - 1) == ms[|ms| - 1]
  {
    CopiesBounds(ms, |ms| - 1);
  }

  /**
   * The same count computed bottom-up from the last card to the first, each
   * card's copies read from the already computed later cards: it equals the
   * recursive count.
   */
  method CountCards(ms: seq<nat>) returns (total: int)
    ensures total == TotalCards(ms)
  {
    var later: seq<nat> := [];
    var sum := 0;
    var i := |ms|;
    while i > 0
      invariant 0 <= i <= |ms|
      invariant |later| == |ms| - i
      invariant forall j :: 0 <= j < |later| ==> later[j] == Copies(ms, i + j)
      invariant sum == Sum(AllCopies(ms)[i..])
    {
      i := i - 1;
      var acc := 0;
      var k := 0;
      while k < ms[i]
        invariant 0 <= k <= ms[i]
        invariant acc == CopiesLoop(ms, i, k)
      {
        k := k + 1;
        var next := if k - 1 < |later| then later[k - 1] else 0;
        assert next == Copies(ms, i + k);
        acc := acc + 1 + next;
      }
      assert acc == Copies(ms, i);
      assert AllCopies(ms)[i..] == [acc] + AllCopies(ms)[i + 1..];
      SumConcat([acc], AllCopies(ms)[i + 1..]);
      assert Sum([acc]) == acc by { assert [acc][..0] == []; }
      later := [acc] + later;
      sum := acc + sum;
    }
    assert AllCopies(ms)[0..] == AllCopies(ms);
    total := |ms| + sum;
  }
}
