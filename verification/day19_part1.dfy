/**
 * Aplenty (day 19, part 1): every part has four ratings `x`, `m`, `a`, `s`
 * and walks through named workflows from `in`. A workflow is a list of rules
 * tried in order; the first rule that passes names the next workflow, and
 * `A` or `R` ends the walk. The answer adds up the ratings of the accepted
 * parts.
 *
 * Workflows are given parsed: a map from a workflow's name to its rules. A
 * rule is either conditional (`a<2006:qkq`: a rating name, `<` or `>`, a
 * threshold and a destination) or a bare destination. A rule's rating name
 * is kept as written, so a rule may name a rating a part does not have.
 *
 * The walk of `processPart` need not end (a workflow whose rules all fail
 * leaves the walk where it is, and workflows may form a cycle), so it is
 * modelled with a bound on the number of workflow hops; `None` stands for a
 * walk that has not ended within the bound.
 */
module Day19Part1 {
  import opened Common

  /** The four ratings of a part. */
  datatype Category = X | M | A | S

  /** The category a rule's rating name stands for, if any. */
  function CategoryOf(name: string): (c: Option<Category>)
    ensures c == Some(X) <==> name == "x"
    ensures c == Some(M) <==> name == "m"
    ensures c == Some(A) <==> name == "a"
    ensures c == Some(S) <==> name == "s"
  {
    if name == "x" then Some(X)
    else if name == "m" then Some(M)
    else if name == "a" then Some(A)
    else if name == "s" then Some(S)
    else None
  }

  /** A part: `array_combine(['x', 'm', 'a', 's'], ...)` of its four ratings. */
  datatype Part = Part(x: int, m: int, a: int, s: int)

  function Value(p: Part, c: Category): int
  {
    match c
    case X => p.x
    case M => p.m
    case A => p.a
    case S => p.s
  }

  /** `$part[$rating] ?? null`: the rating a rule names, `None` when the part has no such key. */
  function Lookup(p: Part, name: string): Option<int>
  {
    match CategoryOf(name)
    case None => None
    case Some(c) => Some(Value(p, c))
  }

  /** `array_sum($part)`. */
  function RatingSum(p: Part): int
  {
    p.x + p.m + p.a + p.s
  }

  /** The comparison of a conditional rule. */
  datatype Cmp = Gt | Lt

  /** A rule as split by `preg_split`: four pieces for a conditional rule, one for a fallback. */
  datatype Rule =
    | Cond(rating: string, op: Cmp, threshold: int, dest: string)
    | Fallback(dest: string)

  type Workflows = map<string, seq<Rule>>

  /**
   * `evaluateRule`: a one-piece rule always passes; a conditional rule
   * passes when the part has the named rating and it is strictly greater
   * (`>`) or strictly less (`<`) than the threshold.
   */
  predicate Passes(p: Part, rule: Rule)
  {
    match rule
    case Fallback(_) => true
    case Cond(rating, op, t, _) =>
      match Lookup(p, rating)
      case None => false
      case Some(v) => (op == Gt && v > t) || (op == Lt && v < t)
  }

  /** What `evaluateRule` decides, case by case. */
  lemma PassesSpec(p: Part, rule: Rule)
    ensures rule.Fallback? ==> Passes(p, rule)
    ensures rule.Cond? && CategoryOf(rule.rating).None? ==> !Passes(p, rule)
    ensures rule.Cond? && rule.op == Gt && CategoryOf(rule.rating).Some? ==>
      (Passes(p, rule) <==> Value(p, CategoryOf(rule.rating).value) > rule.threshold)
    ensures rule.Cond? && rule.op == Lt && CategoryOf(rule.rating).Some? ==>
      (Passes(p, rule) <==> Value(p, CategoryOf(rule.rating).value) < rule.threshold)
  {
  }

  /** Rule `k` is the first rule of `rules` that passes. */
  predicate FirstPass(p: Part, rules: seq<Rule>, k: int)
  {
    && 0 <= k < |rules|
    && Passes(p, rules[k])
    && forall j :: 0 <= j < k ==> !Passes(p, rules[j])
  }

  /** The destination of the first rule of `rules` that passes, if one does. */
  function Pick(p: Part, rules: seq<Rule>): (d: Option<string>)
    ensures d.None? <==> forall k :: 0 <= k < |rules| ==> !Passes(p, rules[k])
    ensures d.Some? ==> exists k :: FirstPass(p, rules, k) && d.value == rules[k].dest
  {
    if |rules| == 0 then None
    else if Passes(p, rules[0]) then
      assert FirstPass(p, rules, 0);
      Some(rules[0].dest)
    else
      var d := Pick(p, rules[1..]);
      assert forall k :: 1 <= k < |rules| ==> rules[k] == rules[1..][k - 1];
      if d.Some? then
        var k :| FirstPass(p, rules[1..], k) && d.value == rules[1..][k].dest;
        assert FirstPass(p, rules, k + 1);
        d
      else d
  }

  /**
   * `processWorkflow`: the destination of the first passing rule of the
   * current workflow, or the current workflow's own name when none passes.
   * A name with no workflow behaves as a workflow with no rules (the
   * `foreach` over the missing entry does nothing).
   */
  function NextWorkflow(wf: Workflows, p: Part, id: string): string
  {
    if id !in wf then id
    else match Pick(p, wf[id])
      case None => id
      case Some(d) => d
  }

  predicate Terminal(id: string)
  {
    id == "A" || id == "R"
  }

  /** The walk from `id` for at most `fuel` hops: the `A` or `R` it ends at, or `None`. */
  function Run(wf: Workflows, p: Part, id: string, fuel: nat): (r: Option<string>)
    ensures r.Some? ==> Terminal(r.value)
    decreases fuel
  {
    if Terminal(id) then Some(id)
    else if fuel == 0 then None
    else Run(wf, p, NextWorkflow(wf, p, id), fuel - 1)
  }

  /** A walk that has ended keeps its end when it is allowed more hops. */
  lemma {:induction false} RunMonotone(wf: Workflows, p: Part, id: string, fuel: nat, more: nat)
    requires Run(wf, p, id, fuel).Some? && fuel <= more
    ensures Run(wf, p, id, more) == Run(wf, p, id, fuel)
    decreases fuel
  {
    if !Terminal(id) {
      RunMonotone(wf, p, NextWorkflow(wf, p, id), fuel - 1, more - 1);
    }
  }

  /** A workflow that sends the part back to itself never lets the walk end. */
  lemma {:induction false} Stuck(wf: Workflows, p: Part, id: string, fuel: nat)
    requires !Terminal(id) && NextWorkflow(wf, p, id) == id
    ensures Run(wf, p, id, fuel).None?
    decreases fuel
  {
    if fuel > 0 {
      Stuck(wf, p, id, fuel - 1);
    }
  }

  /**
   * `processPart`: the part's rating sum when its walk from `in` ends at
   * `A`, 0 when it ends at `R`, and `None` when it has not ended within
   * `fuel` hops.
   */
  function ProcessPart(wf: Workflows, p: Part, fuel: nat): (r: Option<int>)
    ensures r.Some? <==> Run(wf, p, "in", fuel).Some?
    ensures r == Some(RatingSum(p)) || r == Some(0) || r.None?
    ensures Run(wf, p, "in", fuel) == Some("A") ==> r == Some(RatingSum(p))
    ensures Run(wf, p, "in", fuel) == Some("R") ==> r == Some(0)
  {
    match Run(wf, p, "in", fuel)
    case None => None
    case Some(id) => if id == "A" then Some(RatingSum(p)) else Some(0)
  }

  /** The parts whose walk ends at `A`, in order. */
  function AcceptedParts(wf: Workflows, parts: seq<Part>, fuel: nat): seq<Part>
  {
    if |parts| == 0 then []
    else
      var rest := AcceptedParts(wf, parts[..|parts| - 1], fuel);
      if Run(wf, parts[|parts| - 1], "in", fuel) == Some("A") then rest + [parts[|parts| - 1]] else rest
  }

  function RatingSums(ps: seq<Part>): (r: seq<int>)
    ensures |r| == |ps|
    ensures forall i :: 0 <= i < |ps| ==> r[i] == RatingSum(ps[i])
  {
    seq(|ps|, i requires 0 <= i < |ps| => RatingSum(ps[i]))
  }

  /** Every walk ends within the bound. */
  predicate AllEnd(wf: Workflows, parts: seq<Part>, fuel: nat)
  {
    forall i :: 0 <= i < |parts| ==> Run(wf, parts[i], "in", fuel).Some?
  }

  /** One more part adds its `processPart` value to the total of the accepted parts. */
  lemma TotalStep(wf: Workflows, parts: seq<Part>, q: Part, fuel: nat)
    requires Run(wf, q, "in", fuel).Some?
    ensures Sum(RatingSums(AcceptedParts(wf, parts + [q], fuel))) ==
      Sum(RatingSums(AcceptedParts(wf, parts, fuel))) + ProcessPart(wf, q, fuel).value
  {
    var ps := parts + [q];
    assert ps[..|ps| - 1] == parts && ps[|ps| - 1] == q;
    var acc := AcceptedParts(wf, parts, fuel);
    if Run(wf, q, "in", fuel) == Some("A") {
      assert RatingSums(acc + [q]) == RatingSums(acc) + [RatingSum(q)];
      SumAppend(RatingSums(acc), RatingSum(q));
    }
  }

  /**
   * The `array_reduce` over the parts: when every walk ends, the sum of the
   * rating sums of the accepted parts; otherwise `None`.
   */
  method TotalRatings(wf: Workflows, parts: seq<Part>, fuel: nat) returns (r: Option<int>)
    ensures r.Some? <==> AllEnd(wf, parts, fuel)
    ensures r.Some? ==> r.value == Sum(RatingSums(AcceptedParts(wf, parts, fuel)))
  {
    var total := 0;
    var i := 0;
    while i < |parts|
      invariant 0 <= i <= |parts|
      invariant AllEnd(wf, parts[..i], fuel)
      invariant total == Sum(RatingSums(AcceptedParts(wf, parts[..i], fuel)))
    {
      var v := ProcessPart(wf, parts[i], fuel);
      if v.None? {
        assert !AllEnd(wf, parts, fuel);
        return None;
      }
      assert parts[..i + 1] == parts[..i] + [parts[i]];
      TotalStep(wf, parts[..i], parts[i], fuel);
      total := total + v.value;
      i := i + 1;
    }
    assert parts[..|parts|] == parts;
    return Some(total);
  }

  /**
   * A worked walk: with the four workflows below, the part
   * `{x=787,m=2655,a=1222,s=2876}` goes `in`, `qqz`, `qs`, `lnx`, `A` and
   * adds 7540; three hops are not enough.
   */
  lemma ExampleWalk()
    ensures Run(ExampleWorkflows(), Part(787, 2655, 1222, 2876), "in", 4) == Some("A")
    ensures ProcessPart(ExampleWorkflows(), Part(787, 2655, 1222, 2876), 4) == Some(7540)
    ensures Run(ExampleWorkflows(), Part(787, 2655, 1222, 2876), "in", 3).None?
  {
    var wf, p := ExampleWorkflows(), Part(787, 2655, 1222, 2876);
    ExampleHops();
    assert Run(wf, p, "lnx", 1) == Run(wf, p, "A", 0) == Some("A");
    assert Run(wf, p, "in", 4) == Run(wf, p, "qqz", 3) == Run(wf, p, "qs", 2) == Run(wf, p, "lnx", 1);
    assert Run(wf, p, "in", 3) == Run(wf, p, "qqz", 2) == Run(wf, p, "qs", 1) == Run(wf, p, "lnx", 0);
  }

  /** The four hops of the worked walk, one workflow at a time. */
  lemma ExampleHops()
    ensures var wf, p := ExampleWorkflows(), Part(787, 2655, 1222, 2876);
      && NextWorkflow(wf, p, "in") == "qqz"
      && NextWorkflow(wf, p, "qqz") == "qs"
      && NextWorkflow(wf, p, "qs") == "lnx"
      && NextWorkflow(wf, p, "lnx") == "A"
  {
    var wf, p := ExampleWorkflows(), Part(787, 2655, 1222, 2876);
    assert !Passes(p, wf["in"][0]) && wf["in"][1..] == [Fallback("qqz")];
    assert Passes(p, wf["qqz"][0]);
    assert !Passes(p, wf["qs"][0]) && wf["qs"][1..] == [Fallback("lnx")];
    assert Passes(p, wf["lnx"][0]);
  }

  function ExampleWorkflows(): Workflows
  {
    map[
      "in" := [Cond("s", Lt, 1351, "px"), Fallback("qqz")],
      "qqz" := [Cond("s", Gt, 2770, "qs"), Cond("m", Lt, 1801, "hdj"), Fallback("R")],
      "qs" := [Cond("s", Gt, 3448, "A"), Fallback("lnx")],
      "lnx" := [Cond("m", Gt, 1548, "A"), Fallback("A")]
    ]
  }
}
