/**
 * Aplenty, both parts in one script (day 19, part 3). The walk of a part
 * and the box splitting are those of parts 1 and 2, with two differences
 * for a rule that names a rating other than `x`, `m`, `a`, `s`:
 *  - the part's missing rating is read as `null`, and `null` compares with
 *    the threshold string as the empty string does, so `<` passes and `>`
 *    fails (part 1 fails both);
 *  - `split` leaves the box as it is (part 2 stops with an error), so the
 *    whole box goes to the destination and also on to the next rule.
 * For workflows that name only the four ratings the script computes what
 * parts 1 and 2 compute.
 */
module Day19Part3 {
  import opened Common
  import P1 = Day19Part1
  import P2 = Day19Part2

  /** The rule test of the part 1 loop: a four-piece rule compares, a one-piece rule passes. */
  predicate Passes(p: P1.Part, rule: P1.Rule)
  {
    match rule
    case Fallback(_) => true
    case Cond(rating, op, t, _) =>
      match P1.Lookup(p, rating)
      case None => op == P1.Lt
      case Some(v) => if op == P1.Gt then v > t else v < t
  }

  /** The destination of the first rule that passes, if one does. */
  function Pick(p: P1.Part, rules: seq<P1.Rule>): (d: Option<string>)
    ensures d.None? <==> forall k :: 0 <= k < |rules| ==> !Passes(p, rules[k])
  {
    if |rules| == 0 then None
    else if Passes(p, rules[0]) then Some(rules[0].dest)
    else
      assert forall k :: 1 <= k < |rules| ==> rules[k] == rules[1..][k - 1];
      Pick(p, rules[1..])
  }

  /** One pass of the `foreach` inside the `while`: the next workflow, or the same one when no rule passes. */
  function NextWorkflow(wf: P1.Workflows, p: P1.Part, id: string): string
  {
    if id !in wf then id
    else match Pick(p, wf[id])
      case None => id
      case Some(d) => d
  }

  /** The `while` loop from `id` for at most `fuel` hops. */
  function Run(wf: P1.Workflows, p: P1.Part, id: string, fuel: nat): (r: Option<string>)
    ensures r.Some? ==> P1.Terminal(r.value)
    decreases fuel
  {
    if P1.Terminal(id) then Some(id)
    else if fuel == 0 then None
    else Run(wf, p, NextWorkflow(wf, p, id), fuel - 1)
  }

  /** Every conditional rule names one of `x`, `m`, `a`, `s`. */
  predicate KnownRatings(rules: seq<P1.Rule>)
  {
    forall k :: 0 <= k < |rules| && rules[k].Cond? ==> P1.CategoryOf(rules[k].rating).Some?
  }

  ghost predicate WellFormed(wf: P1.Workflows)
  {
    forall id :: id in wf ==> KnownRatings(wf[id])
  }

  /** On a known rating the rule test is part 1's. */
  lemma PassesAgree(p: P1.Part, rule: P1.Rule)
    requires rule.Cond? ==> P1.CategoryOf(rule.rating).Some?
    ensures Passes(p, rule) == P1.Passes(p, rule)
  {
  }

  lemma {:induction false} PickAgree(p: P1.Part, rules: seq<P1.Rule>)
    requires KnownRatings(rules)
    ensures Pick(p, rules) == P1.Pick(p, rules)
    decreases |rules|
  {
    if |rules| > 0 {
      PassesAgree(p, rules[0]);
      assert forall k :: 1 <= k < |rules| ==> rules[k] == rules[1..][k - 1];
      PickAgree(p, rules[1..]);
    }
  }

  /** With known ratings only, the walk is part 1's walk. */
  lemma {:induction false} RunAgree(wf: P1.Workflows, p: P1.Part, id: string, fuel: nat)
    requires WellFormed(wf)
    ensures Run(wf, p, id, fuel) == P1.Run(wf, p, id, fuel)
    decreases fuel
  {
    if !P1.Terminal(id) && fuel > 0 {
      if id in wf {
        PickAgree(p, wf[id]);
      }
      RunAgree(wf, p, NextWorkflow(wf, p, id), fuel - 1);
    }
  }

  /** The part 1 answer: the rating sums of the parts whose walk ends at `A`, or `None` if a walk does not end. */
  function Ratings(wf: P1.Workflows, parts: seq<P1.Part>, fuel: nat): Option<int>
  {
    if |parts| == 0 then Some(0)
    else
      var q := parts[|parts| - 1];
      match Ratings(wf, parts[..|parts| - 1], fuel)
      case None => None
      case Some(t) =>
        match Run(wf, q, "in", fuel)
        case None => None
        case Some(id) => Some(if id == "A" then t + P1.RatingSum(q) else t)
  }

  /** With known ratings only, the part 1 answer is that of `processPart` summed over the parts. */
  lemma {:induction false} RatingsAgree(wf: P1.Workflows, parts: seq<P1.Part>, fuel: nat)
    requires WellFormed(wf)
    ensures Ratings(wf, parts, fuel).Some? <==> P1.AllEnd(wf, parts, fuel)
    ensures Ratings(wf, parts, fuel).Some? ==>
      Ratings(wf, parts, fuel).value == Sum(P1.RatingSums(P1.AcceptedParts(wf, parts, fuel)))
    decreases |parts|
  {
    if |parts| > 0 {
      var init := parts[..|parts| - 1];
      var q := parts[|parts| - 1];
      RatingsAgree(wf, init, fuel);
      RunAgree(wf, q, "in", fuel);
      assert parts == init + [q];
      assert P1.AllEnd(wf, parts, fuel) <==> P1.AllEnd(wf, init, fuel) && P1.Run(wf, q, "in", fuel).Some? by {
        assert forall i :: 0 <= i < |init| ==> parts[i] == init[i];
      }
      if P1.Run(wf, q, "in", fuel).Some? {
        P1.TotalStep(wf, init, q, fuel);
      }
    }
  }

  /** `split`: the named rating's interval cut down by `f`; an unknown name leaves the box unchanged. */
  function Split(rating: string, op: P2.Bound, n: int, b: P2.Box): (r: P2.Box)
    ensures P1.CategoryOf(rating).None? ==> r == b
    ensures P1.CategoryOf(rating).Some? ==> Some(r) == P2.Split(rating, op, n, b)
  {
    match P1.CategoryOf(rating)
    case None => b
    case Some(c) => P2.With(b, c, P2.CalculateRange(op, n, P2.Get(b, c)))
  }

  /** One box popped from `$Q`, as `Process` of part 2 but with this script's `split`. */
  function Process(wf: P1.Workflows, id: string, b: P2.Box, fuel: nat): Option<seq<P2.Box>>
    decreases fuel, 0, 0
  {
    if id == "R" || P2.Empty(b) then Some([])
    else if id == "A" then Some([b])
    else if fuel == 0 then None
    else if id !in wf then Some([])
    else Rules(wf, wf[id], b, fuel - 1)
  }

  function Rules(wf: P1.Workflows, rules: seq<P1.Rule>, b: P2.Box, fuel: nat): Option<seq<P2.Box>>
    decreases fuel, 1, |rules|
  {
    if |rules| == 0 then Some([])
    else match rules[0]
      case Fallback(d) => Process(wf, d, b, fuel)
      case Cond(rating, op, n, d) =>
        match Process(wf, d, Split(rating, P2.Strict(op), n, b), fuel)
        case None => None
        case Some(here) =>
          match Rules(wf, rules[1..], Split(rating, P2.Complement(op), n, b), fuel)
          case None => None
          case Some(rest) => Some(here + rest)
  }

  /** With known ratings only, the boxes reaching `A` are part 2's. */
  lemma {:induction false} ProcessAgree(wf: P1.Workflows, id: string, b: P2.Box, fuel: nat)
    requires WellFormed(wf)
    ensures Process(wf, id, b, fuel) == P2.Process(wf, id, b, fuel)
    decreases fuel, 0, 0
  {
    if !(id == "R" || P2.Empty(b) || id == "A" || fuel == 0 || id !in wf) {
      RulesAgree(wf, wf[id], b, fuel - 1);
    }
  }

  lemma {:induction false} RulesAgree(wf: P1.Workflows, rules: seq<P1.Rule>, b: P2.Box, fuel: nat)
    requires WellFormed(wf) && KnownRatings(rules)
    ensures Rules(wf, rules, b, fuel) == P2.Rules(wf, rules, b, fuel)
    decreases fuel, 1, |rules|
  {
    if |rules| > 0 {
      assert KnownRatings(rules[1..]) by {
        assert forall k :: 1 <= k < |rules| ==> rules[k] == rules[1..][k - 1];
      }
      match rules[0]
      case Fallback(d) =>
        ProcessAgree(wf, d, b, fuel);
      case Cond(rating, op, n, d) =>
        ProcessAgree(wf, d, Split(rating, P2.Strict(op), n, b), fuel);
        RulesAgree(wf, rules[1..], Split(rating, P2.Complement(op), n, b), fuel);
    }
  }

  /** The part 2 answer: the total volume of the boxes that reach `A` from `in` with 1..4000 everywhere. */
  function Count(wf: P1.Workflows, fuel: nat): (r: Option<int>)
    ensures r.Some? <==> Process(wf, "in", P2.Full(), fuel).Some?
    ensures r.Some? ==> r.value == Sum(P2.Volumes(Process(wf, "in", P2.Full(), fuel).value))
  {
    match Process(wf, "in", P2.Full(), fuel)
    case None => None
    case Some(bs) => Some(Sum(P2.Volumes(bs)))
  }

  /** With known ratings only, the part 2 answer is `countItems`'s. */
  lemma CountAgree(wf: P1.Workflows, fuel: nat)
    requires WellFormed(wf)
    ensures Count(wf, fuel) == P2.CountItems(wf, fuel)
  {
    ProcessAgree(wf, "in", P2.Full(), fuel);
  }

  /** A workflow `in{q<5:A,R}` that names an unknown rating. */
  function UnknownRating(): P1.Workflows
  {
    map["in" := [P1.Cond("q", P1.Lt, 5, "A"), P1.Fallback("R")]]
  }

  /**
   * Where the scripts part: on `in{q<5:A,R}` this script accepts every part
   * and counts every box, part 1 rejects every part, and part 2 stops with
   * an error.
   */
  lemma UnknownRatingDiffers(p: P1.Part)
    ensures Run(UnknownRating(), p, "in", 1) == Some("A")
    ensures P1.Run(UnknownRating(), p, "in", 1) == Some("R")
    ensures Count(UnknownRating(), 1) == Some(4000 * 4000 * 4000 * 4000)
    ensures P2.CountItems(UnknownRating(), 1).None?
  {
    var wf := UnknownRating();
    var rules := wf["in"];
    assert P1.CategoryOf("q").None?;
    assert !P1.Passes(p, rules[0]) && rules[1..] == [P1.Fallback("R")];
    assert P1.Pick(p, rules) == Some("R");
    assert Split("q", P2.Below, 5, P2.Full()) == P2.Full();
    assert Split("q", P2.AtLeast, 5, P2.Full()) == P2.Full();
    assert !P2.Empty(P2.Full());
    assert Process(wf, "A", P2.Full(), 0) == Some([P2.Full()]);
    assert Rules(wf, rules[1..], P2.Full(), 0) == Some([]);
    assert Rules(wf, rules, P2.Full(), 0) == Some([P2.Full()] + []);
    assert [P2.Full()] + [] == [P2.Full()];
    assert NextWorkflow(wf, p, "in") == "A";
    assert P1.NextWorkflow(wf, p, "in") == "R";
    assert Process(wf, "in", P2.Full(), 1) == Some([P2.Full()]);
    assert P2.Volumes([P2.Full()]) == [4000 * 4000 * 4000 * 4000];
  }
}
