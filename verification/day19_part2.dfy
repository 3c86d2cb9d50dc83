/**
 * Aplenty (day 19, part 2): how many of the parts with every rating in
 * 1..4000 the workflows accept. `countItems` pushes boxes (a name and a
 * closed interval per rating) through the workflows: a conditional rule
 * sends the piece of the box that passes it to its destination and goes on
 * with the rest; a fallback sends all that is left. Boxes that reach `A`
 * add their volume.
 *
 * `countItems` keeps its boxes on a stack; since the answer is a sum, the
 * model follows each box depth-first by recursion instead, and collects the
 * boxes that reach `A`. The number of workflow hops a box may take is
 * bounded by `fuel`, as the walks of part 1 are; `None` stands for a run
 * that has not ended within the bound or that stops with an error.
 */
module Day19Part2 {
  import opened Common
  import opened Day19Part1

  /** A closed interval `[lo, hi]`; it is empty when `lo > hi`. */
  datatype Range = Range(lo: int, hi: int)

  predicate InRange(v: int, r: Range)
  {
    r.lo <= v <= r.hi
  }

  /** The ranges of the four ratings: `$ranges` keyed by `x`, `m`, `a`, `s`. */
  datatype Box = Box(x: Range, m: Range, a: Range, s: Range)

  function Get(b: Box, c: Category): Range
  {
    match c
    case X => b.x
    case M => b.m
    case A => b.a
    case S => b.s
  }

  function With(b: Box, c: Category, r: Range): (b': Box)
    ensures Get(b', c) == r
    ensures forall d :: d != c ==> Get(b', d) == Get(b, d)
  {
    match c
    case X => b.(x := r)
    case M => b.(m := r)
    case A => b.(a := r)
    case S => b.(s := r)
  }

  /** The part lies in the box: each of its ratings in that rating's interval. */
  predicate Inside(p: Part, b: Box)
  {
    InRange(p.x, b.x) && InRange(p.m, b.m) && InRange(p.a, b.a) && InRange(p.s, b.s)
  }

  /** `isFirstGreaterThanSecond` over `x`, `m`, `a`, `s`. */
  predicate Empty(b: Box)
  {
    b.x.lo > b.x.hi || b.m.lo > b.m.hi || b.a.lo > b.a.hi || b.s.lo > b.s.hi
  }

  /** A box is empty exactly when no part lies in it. */
  lemma EmptySpec(b: Box)
    ensures !Empty(b) <==> exists p :: Inside(p, b)
  {
    if !Empty(b) {
      assert Inside(Part(b.x.lo, b.m.lo, b.a.lo, b.s.lo), b);
    }
  }

  /** The four operators `calculateRange` knows: `>`, `<`, `>=`, `<=`. */
  datatype Bound = Above | Below | AtLeast | AtMost

  predicate Holds(op: Bound, n: int, v: int)
  {
    match op
    case Above => v > n
    case Below => v < n
    case AtLeast => v >= n
    case AtMost => v <= n
  }

  /**
   * `calculateRange`: the interval cut down to the values that satisfy the
   * bound. It never widens: `>` and `>=` only raise the start, `<` and `<=`
   * only lower the end.
   */
  function CalculateRange(op: Bound, n: int, r: Range): (r': Range)
    ensures r.lo <= r'.lo && r'.hi <= r.hi
    ensures op == Above ==> r' == Range(Max(r.lo, n + 1), r.hi)
    ensures op == Below ==> r' == Range(r.lo, Min(r.hi, n - 1))
    ensures op == AtLeast ==> r' == Range(Max(r.lo, n), r.hi)
    ensures op == AtMost ==> r' == Range(r.lo, Min(r.hi, n))
  {
    match op
    case Above => Range(Max(r.lo, n + 1), r.hi)
    case Below => Range(r.lo, Min(r.hi, n - 1))
    case AtLeast => Range(Max(r.lo, n), r.hi)
    case AtMost => Range(r.lo, Min(r.hi, n))
  }

  /** A value is in the cut-down interval exactly when it is in the interval and satisfies the bound. */
  lemma CalculateRangeSpec(op: Bound, n: int, r: Range, v: int)
    ensures InRange(v, CalculateRange(op, n, r)) <==> InRange(v, r) && Holds(op, n, v)
  {
  }

  /** The bound of a rule's own comparison. */
  function Strict(op: Cmp): Bound
  {
    if op == Gt then Above else Below
  }

  /** `$operation == '>' ? '<=' : '>='`: the bound of the rule's failing values. */
  function Complement(op: Cmp): (b: Bound)
    ensures forall n, v :: Holds(b, n, v) <==> !Holds(Strict(op), n, v)
  {
    if op == Gt then AtMost else AtLeast
  }

  /**
   * `calculateRangeBasedOnRating`: the box with the named rating's interval
   * cut down and the other three copied. A name other than `x`, `m`, `a`,
   * `s` has no interval; `calculateRange` then receives `null` for an `int`
   * and throws, which is `None` here.
   */
  function Split(rating: string, op: Bound, n: int, b: Box): (r: Option<Box>)
    ensures r.None? <==> CategoryOf(rating).None?
    ensures r.Some? ==> Get(r.value, CategoryOf(rating).value) == CalculateRange(op, n, Get(b, CategoryOf(rating).value))
    ensures r.Some? ==> forall c :: c != CategoryOf(rating).value ==> Get(r.value, c) == Get(b, c)
  {
    match CategoryOf(rating)
    case None => None
    case Some(c) => Some(With(b, c, CalculateRange(op, n, Get(b, c))))
  }

  lemma InsideGet(p: Part, b: Box)
    ensures Inside(p, b) <==> forall c :: InRange(Value(p, c), Get(b, c))
  {
    assert Value(p, X) == p.x && Value(p, M) == p.m && Value(p, A) == p.a && Value(p, S) == p.s;
  }

  /**
   * A conditional rule cuts the box in two: a part lies in the piece sent
   * to the destination exactly when it lies in the box and passes the rule
   * as part 1 evaluates it, and in the piece that goes on exactly when it
   * lies in the box and fails the rule.
   */
  lemma SplitPartition(rule: Rule, b: Box, p: Part)
    requires rule.Cond? && CategoryOf(rule.rating).Some?
    ensures Inside(p, Split(rule.rating, Strict(rule.op), rule.threshold, b).value) <==> Inside(p, b) && Passes(p, rule)
    ensures Inside(p, Split(rule.rating, Complement(rule.op), rule.threshold, b).value) <==> Inside(p, b) && !Passes(p, rule)
  {
    var c := CategoryOf(rule.rating).value;
    var here := Split(rule.rating, Strict(rule.op), rule.threshold, b).value;
    var rest := Split(rule.rating, Complement(rule.op), rule.threshold, b).value;
    InsideGet(p, b);
    InsideGet(p, here);
    InsideGet(p, rest);
    CalculateRangeSpec(Strict(rule.op), rule.threshold, Get(b, c), Value(p, c));
    CalculateRangeSpec(Complement(rule.op), rule.threshold, Get(b, c), Value(p, c));
  }

  function Size(r: Range): int
  {
    r.hi - r.lo + 1
  }

  /** `calculatePart2`: the product of the interval sizes, the number of parts in a non-empty box. */
  function Volume(b: Box): (v: int)
    ensures !Empty(b) ==> v > 0
  {
    Size(b.x) * Size(b.m) * Size(b.a) * Size(b.s)
  }

  function Volumes(bs: seq<Box>): (vs: seq<int>)
    ensures |vs| == |bs|
    ensures forall i :: 0 <= i < |bs| ==> vs[i] == Volume(bs[i])
  {
    seq(|bs|, i requires 0 <= i < |bs| => Volume(bs[i]))
  }

  /**
   * One box popped from the queue at workflow `id`: `R` and empty boxes are
   * dropped, a box at `A` is accepted, and otherwise the workflow's rules
   * share the box out. A missing workflow shares out nothing.
   * The result is the boxes that reach `A`.
   */
  function Process(wf: Workflows, id: string, b: Box, fuel: nat): Option<seq<Box>>
    decreases fuel, 0, 0
  {
    if id == "R" || Empty(b) then Some([])
    else if id == "A" then Some([b])
    else if fuel == 0 then None
    else if id !in wf then Some([])
    else Rules(wf, wf[id], b, fuel - 1)
  }

  /**
   * The `foreach` over a workflow's rules with `b` left: a fallback sends
   * all of `b` on and stops; a conditional rule sends the passing piece to
   * its destination and goes on with the failing piece. What is left after
   * the last rule is dropped.
   */
  function Rules(wf: Workflows, rules: seq<Rule>, b: Box, fuel: nat): Option<seq<Box>>
    decreases fuel, 1, |rules|
  {
    if |rules| == 0 then Some([])
    else match rules[0]
      case Fallback(d) => Process(wf, d, b, fuel)
      case Cond(rating, op, n, d) =>
        match Split(rating, Strict(op), n, b)
        case None => None
        case Some(piece) =>
          var left := Split(rating, Complement(op), n, b).value;
          match Process(wf, d, piece, fuel)
          case None => None
          case Some(here) =>
            match Rules(wf, rules[1..], left, fuel)
            case None => None
            case Some(rest) => Some(here + rest)
  }

  predicate InAny(p: Part, bs: seq<Box>)
  {
    exists i :: 0 <= i < |bs| && Inside(p, bs[i])
  }

  /** The boxes are non-empty, lie in `b`, and no part lies in two of them. */
  ghost predicate Shape(bs: seq<Box>, b: Box)
  {
    && (forall i :: 0 <= i < |bs| ==> !Empty(bs[i]))
    && (forall i, p :: 0 <= i < |bs| && Inside(p, bs[i]) ==> Inside(p, b))
    && (forall i, j, p :: 0 <= i < j < |bs| && Inside(p, bs[i]) ==> !Inside(p, bs[j]))
  }

  lemma InAnyConcat(p: Part, xs: seq<Box>, ys: seq<Box>)
    ensures InAny(p, xs + ys) <==> InAny(p, xs) || InAny(p, ys)
  {
    if InAny(p, xs + ys) {
      var i :| 0 <= i < |xs + ys| && Inside(p, (xs + ys)[i]);
      if i >= |xs| {
        assert Inside(p, ys[i - |xs|]);
      }
    }
    if InAny(p, xs) {
      var i :| 0 <= i < |xs| && Inside(p, xs[i]);
      assert (xs + ys)[i] == xs[i];
    }
    if InAny(p, ys) {
      var i :| 0 <= i < |ys| && Inside(p, ys[i]);
      assert (xs + ys)[|xs| + i] == ys[i];
    }
  }

  /** Boxes from two pieces of `b` that share no part keep their shape together. */
  lemma ShapeConcat(xs: seq<Box>, ys: seq<Box>, b1: Box, b2: Box, b: Box)
    requires Shape(xs, b1) && Shape(ys, b2)
    requires forall p :: Inside(p, b1) ==> Inside(p, b) && !Inside(p, b2)
    requires forall p :: Inside(p, b2) ==> Inside(p, b)
    ensures Shape(xs + ys, b)
  {
    var zs := xs + ys;
    forall i, j, p | 0 <= i < j < |zs| && Inside(p, zs[i])
      ensures !Inside(p, zs[j])
    {
      if j < |xs| {
        assert zs[i] == xs[i] && zs[j] == xs[j];
      } else if i < |xs| {
        assert zs[i] == xs[i] && zs[j] == ys[j - |xs|];
        assert Inside(p, b1) && !Inside(p, b2);
      } else {
        assert zs[i] == ys[i - |xs|] && zs[j] == ys[j - |xs|];
      }
    }
    forall i, p | 0 <= i < |zs| && Inside(p, zs[i])
      ensures Inside(p, b)
    {
      if i < |xs| {
        assert zs[i] == xs[i];
      } else {
        assert zs[i] == ys[i - |xs|];
      }
    }
  }

  /** The accepted boxes of one box are non-empty, lie in it, and share no part. */
  lemma {:induction false} ProcessShape(wf: Workflows, id: string, b: Box, fuel: nat)
    requires Process(wf, id, b, fuel).Some?
    ensures Shape(Process(wf, id, b, fuel).value, b)
    decreases fuel, 0, 0
  {
    if !(id == "R" || Empty(b) || id == "A" || id !in wf) {
      RulesShape(wf, wf[id], b, fuel - 1);
    }
  }

  lemma {:induction false} RulesShape(wf: Workflows, rules: seq<Rule>, b: Box, fuel: nat)
    requires Rules(wf, rules, b, fuel).Some?
    ensures Shape(Rules(wf, rules, b, fuel).value, b)
    decreases fuel, 1, |rules|
  {
    if |rules| > 0 {
      match rules[0]
      case Fallback(d) =>
        ProcessShape(wf, d, b, fuel);
      case Cond(rating, op, n, d) =>
        var piece := Split(rating, Strict(op), n, b).value;
        var left := Split(rating, Complement(op), n, b).value;
        ProcessShape(wf, d, piece, fuel);
        RulesShape(wf, rules[1..], left, fuel);
        forall p | Inside(p, piece) || Inside(p, left)
          ensures Inside(p, b) && !(Inside(p, piece) && Inside(p, left))
        {
          SplitPartition(rules[0], b, p);
        }
        ShapeConcat(Process(wf, d, piece, fuel).value, Rules(wf, rules[1..], left, fuel).value, piece, left, b);
    }
  }

  /**
   * A part in the box ends up in one of its accepted boxes exactly when the
   * part's own walk from `id` (part 1) ends at `A` within the same number
   * of hops.
   */
  lemma {:induction false} ProcessRoutes(wf: Workflows, id: string, b: Box, fuel: nat, p: Part)
    requires Process(wf, id, b, fuel).Some? && Inside(p, b)
    ensures InAny(p, Process(wf, id, b, fuel).value) <==> Run(wf, p, id, fuel) == Some("A")
    decreases fuel, 0, 0
  {
    if id == "A" {
      assert Inside(p, Process(wf, id, b, fuel).value[0]);
    } else if id != "R" {
      if id !in wf {
        Stuck(wf, p, id, fuel);
      } else {
        RulesRoutes(wf, wf[id], b, fuel - 1, p);
        if Pick(p, wf[id]).None? {
          Stuck(wf, p, id, fuel);
        }
      }
    }
  }

  /** Through a workflow's rules, a part follows the first rule it passes, as in part 1. */
  lemma {:induction false} RulesRoutes(wf: Workflows, rules: seq<Rule>, b: Box, fuel: nat, p: Part)
    requires Rules(wf, rules, b, fuel).Some? && Inside(p, b)
    ensures InAny(p, Rules(wf, rules, b, fuel).value) <==>
      Pick(p, rules).Some? && Run(wf, p, Pick(p, rules).value, fuel) == Some("A")
    decreases fuel, 1, |rules|
  {
    if |rules| > 0 {
      match rules[0]
      case Fallback(d) =>
        ProcessRoutes(wf, d, b, fuel, p);
      case Cond(rating, op, n, d) =>
        var piece := Split(rating, Strict(op), n, b).value;
        var left := Split(rating, Complement(op), n, b).value;
        var here := Process(wf, d, piece, fuel).value;
        var rest := Rules(wf, rules[1..], left, fuel).value;
        SplitPartition(rules[0], b, p);
        InAnyConcat(p, here, rest);
        if Passes(p, rules[0]) {
          ProcessRoutes(wf, d, piece, fuel, p);
          RulesShape(wf, rules[1..], left, fuel);
        } else {
          ProcessShape(wf, d, piece, fuel);
          RulesRoutes(wf, rules[1..], left, fuel, p);
        }
    }
  }

  /** The starting box: every rating in 1..4000. */
  function Full(): Box
  {
    Box(Range(1, 4000), Range(1, 4000), Range(1, 4000), Range(1, 4000))
  }

  /** `countItems` from `in` with the full box: the total volume of the accepted boxes. */
  function CountItems(wf: Workflows, fuel: nat): (r: Option<int>)
    ensures r.Some? <==> Process(wf, "in", Full(), fuel).Some?
    ensures r.Some? ==> r.value == Sum(Volumes(Process(wf, "in", Full(), fuel).value))
  {
    match Process(wf, "in", Full(), fuel)
    case None => None
    case Some(bs) => Some(Sum(Volumes(bs)))
  }

  /**
   * What the count counts: it adds up the volumes of boxes that share no
   * part, and a part lies in one of them exactly when its ratings are in
   * 1..4000 and its walk of part 1 ends at `A`.
   */
  lemma CountItemsMeaning(wf: Workflows, fuel: nat)
    requires CountItems(wf, fuel).Some?
    ensures var bs := Process(wf, "in", Full(), fuel).value;
      && CountItems(wf, fuel).value == Sum(Volumes(bs))
      && (forall i, j, p :: 0 <= i < j < |bs| && Inside(p, bs[i]) ==> !Inside(p, bs[j]))
      && (forall p :: InAny(p, bs) <==> Inside(p, Full()) && Run(wf, p, "in", fuel) == Some("A"))
  {
    var bs := Process(wf, "in", Full(), fuel).value;
    ProcessShape(wf, "in", Full(), fuel);
    forall p
      ensures InAny(p, bs) <==> Inside(p, Full()) && Run(wf, p, "in", fuel) == Some("A")
    {
      if Inside(p, Full()) {
        ProcessRoutes(wf, "in", Full(), fuel, p);
      }
    }
  }
}
