/**
 * Ghost walk (day 8, part 2): every node whose name ends in 'A' starts a walk;
 * each walk's length to its first node ending in 'Z' is measured, and the
 * answer is the least common multiple of those lengths.
 */
module Day8Part2 {
  import opened Common
  import opened Day8Part1

  predicate EndsWith(s: string, c: char)
  {
    |s| > 0 && s[|s| - 1] == c
  }

  /** findStartingNodes: the node names ending in 'A', in network order. */
  function FindStartingNodes(order: seq<string>): (starts: seq<string>)
    ensures forall n :: n in starts <==> n in order && EndsWith(n, 'A')
    ensures |starts| <= |order|
  {
    if |order| == 0 then []
    else
      var rest := FindStartingNodes(order[..|order| - 1]);
      var n := order[|order| - 1];
      assert order == order[..|order| - 1] + [n];
      if EndsWith(n, 'A') then rest + [n] else rest
  }

  // ---------------------------------------------------------------------
  // findCycleLength
  // ---------------------------------------------------------------------

  /**
   * The do-while loop from `node` after `steps` steps: step first, then
   * test for a final 'Z'. Nothing is checked on the way, so a missing node
   * or successor is PHP's `null` (the name "") and the walk goes on.
   */
  function CycleFrom(net: map<string, seq<string>>, instructions: string, node: string, steps: nat, fuel: nat): (o: Outcome)
    ensures o.Reached? ==> steps < o.steps <= steps + fuel
    ensures o.Reached? || o == ModuloByZero || o == OutOfFuel
    ensures o == ModuloByZero <==> |instructions| == 0
    decreases fuel
  {
    if |instructions| == 0 then ModuloByZero
    else if fuel == 0 then OutOfFuel
    else
      var next := Next(net, instructions, node, steps);
      if EndsWith(next, 'Z') then Reached(steps + 1)
      else CycleFrom(net, instructions, next, steps + 1, fuel - 1)
  }

  function FindCycleLength(net: map<string, seq<string>>, instructions: string, start: string, fuel: nat): (o: Outcome)
    ensures o.Reached? ==> 1 <= o.steps <= fuel
  {
    CycleFrom(net, instructions, start, 0, fuel)
  }

  /** The name the walk from `start` stands on after k steps, a missing node or successor leading to "". */
  function Path(net: map<string, seq<string>>, instructions: string, start: string, k: nat): string
    requires |instructions| > 0
  {
    if k == 0 then start else Next(net, instructions, Path(net, instructions, start, k - 1), k - 1)
  }

  /** The first step at least 1 at which the walk from `start` stands on a node ending in 'Z'. */
  ghost predicate FirstZ(net: map<string, seq<string>>, instructions: string, start: string, n: nat)
    requires |instructions| > 0
  {
    n >= 1 && EndsWith(Path(net, instructions, start, n), 'Z')
    && forall k :: 1 <= k < n ==> !EndsWith(Path(net, instructions, start, k), 'Z')
  }

  lemma {:induction false} CycleFromSound(net: map<string, seq<string>>, instructions: string, start: string,
                                          node: string, steps: nat, fuel: nat)
    requires |instructions| > 0
    requires Path(net, instructions, start, steps) == node
    requires forall k :: 1 <= k <= steps ==> !EndsWith(Path(net, instructions, start, k), 'Z')
    requires CycleFrom(net, instructions, node, steps, fuel).Reached?
    ensures FirstZ(net, instructions, start, CycleFrom(net, instructions, node, steps, fuel).steps)
    decreases fuel
  {
    var next := Next(net, instructions, node, steps);
    assert Path(net, instructions, start, steps + 1) == next;
    if !EndsWith(next, 'Z') {
      CycleFromSound(net, instructions, start, next, steps + 1, fuel - 1);
    }
  }

  lemma {:induction false} CycleFromComplete(net: map<string, seq<string>>, instructions: string, start: string,
                                             node: string, steps: nat, fuel: nat, n: nat)
    requires |instructions| > 0 && FirstZ(net, instructions, start, n)
    requires steps < n && fuel >= n - steps
    requires Path(net, instructions, start, steps) == node
    ensures CycleFrom(net, instructions, node, steps, fuel) == Reached(n)
    decreases n - steps
  {
    var next := Path(net, instructions, start, steps + 1);
    assert next == Next(net, instructions, node, steps);
    if steps + 1 < n {
      CycleFromComplete(net, instructions, start, next, steps + 1, fuel - 1, n);
    }
  }

  /** findCycleLength returns n exactly when n is the first step ≥ 1 that lands on a 'Z' node, within the fuel. */
  lemma FindCycleLengthMeaning(net: map<string, seq<string>>, instructions: string, start: string, fuel: nat, n: nat)
    requires |instructions| > 0
    ensures FindCycleLength(net, instructions, start, fuel) == Reached(n)
      <==> n <= fuel && FirstZ(net, instructions, start, n)
  {
    if FindCycleLength(net, instructions, start, fuel) == Reached(n) {
      CycleFromSound(net, instructions, start, start, 0, fuel);
    }
    if n <= fuel && FirstZ(net, instructions, start, n) {
      CycleFromComplete(net, instructions, start, start, 0, fuel, n);
    }
  }

  /** A walk that leaves the network never ends: PHP's `null` leads only to itself, and "" does not end in 'Z'. */
  lemma {:induction false} LostForever(net: map<string, seq<string>>, instructions: string, steps: nat, fuel: nat)
    requires "" !in net
    ensures CycleFrom(net, instructions, "", steps, fuel) == if |instructions| == 0 then ModuloByZero else OutOfFuel
    decreases fuel
  {
    if |instructions| > 0 && fuel > 0 {
      LostForever(net, instructions, steps + 1, fuel - 1);
    }
  }

  // ---------------------------------------------------------------------
  // gcd and lcm
  // ---------------------------------------------------------------------

  /** gcd: Euclid's algorithm with PHP's `%`. */
  function Gcd(a: int, b: int): int
    decreases Abs(b)
  {
    if b == 0 then a else Gcd(b, PhpMod(a, b))
  }

  ghost predicate Divides(d: int, x: int)
  {
    exists k :: x == d * k
  }

  lemma DividesRemainder(d: int, a: nat, b: nat)
    requires b > 0 && Divides(d, b)
    ensures Divides(d, a) <==> Divides(d, a % b)
  {
    var q := a / b;
    assert a == q * b + a % b;
    var kb :| b == d * kb;
    if Divides(d, a) {
      var ka :| a == d * ka;
      assert a % b == d * (ka - q * kb) by {
        assert q * b == d * (q * kb);
      }
    }
    if Divides(d, a % b) {
      var kr :| a % b == d * kr;
      assert a == d * (q * kb + kr) by {
        assert q * b == d * (q * kb);
      }
    }
  }

  /** For non-negative inputs the result is a non-negative common divisor that every common divisor divides. */
  lemma {:induction false} GcdIsGreatest(a: nat, b: nat)
    ensures Gcd(a, b) >= 0
    ensures Divides(Gcd(a, b), a) && Divides(Gcd(a, b), b)
    ensures forall d :: Divides(d, a) && Divides(d, b) ==> Divides(d, Gcd(a, b))
    ensures Gcd(a, b) == 0 <==> a == 0 && b == 0
    decreases b
  {
    if b == 0 {
      assert a == a * 1;
      assert 0 == a * 0;
    } else {
      var r := a % b;
      assert PhpMod(a, b) == r;
      GcdIsGreatest(b, r);
      DividesRemainder(Gcd(b, r), a, b);
      forall d | Divides(d, a) && Divides(d, b)
        ensures Divides(d, Gcd(a, b))
      {
        DividesRemainder(d, a, b);
      }
    }
  }

  lemma DivideExact(g: int, y: int)
    requires g > 0
    ensures (g * y) / g == y
  {
    var q := (g * y) / g;
    var r := (g * y) % g;
    assert g * y == g * q + r && 0 <= r < g;
    assert g * (y - q) == r;
    MulSign(g, y - q);
  }

  lemma MulSign(g: int, z: int)
    requires g > 0
    ensures z >= 1 ==> g * z >= g
    ensures z <= -1 ==> g * z <= -g
  {
    if z >= 1 {
      assert g * z == g + g * (z - 1);
    } else if z <= -1 {
      assert g * z == -g + g * (z + 1);
    }
  }

  /** lcm: a·b / gcd(a, b). */
  function Lcm(a: nat, b: nat): int
    requires a > 0 || b > 0
  {
    GcdIsGreatest(a, b);
    (a * b) / Gcd(a, b)
  }

  /** The gcd of two positive numbers is positive and splits each into a positive cofactor. */
  lemma GcdCofactors(a: nat, b: nat) returns (ka: int, kb: int)
    requires a > 0 && b > 0
    ensures Gcd(a, b) > 0 && a == Gcd(a, b) * ka && b == Gcd(a, b) * kb
    ensures ka > 0 && kb > 0
  {
    GcdIsGreatest(a, b);
    var g := Gcd(a, b);
    ka :| a == g * ka;
    kb :| b == g * kb;
    MulSign(g, ka);
    MulSign(g, kb);
  }

  lemma LcmByCofactors(a: nat, b: nat, ka: int, kb: int)
    requires a > 0 && b > 0
    requires Gcd(a, b) > 0 && a == Gcd(a, b) * ka && b == Gcd(a, b) * kb
    ensures Lcm(a, b) == ka * b && Lcm(a, b) == a * kb
  {
    var g := Gcd(a, b);
    assert a * b == g * (ka * b);
    DivideExact(g, ka * b);
    assert a * b == g * (a * kb) by {
      assert a * b == a * (g * kb);
    }
    DivideExact(g, a * kb);
  }

  /** For positive inputs lcm is a positive common multiple, no larger than a·b. */
  lemma LcmIsCommonMultiple(a: nat, b: nat)
    requires a > 0 && b > 0
    ensures Lcm(a, b) > 0 && Lcm(a, b) <= a * b
    ensures Divides(a, Lcm(a, b)) && Divides(b, Lcm(a, b))
  {
    var ka, kb := GcdCofactors(a, b);
    LcmByCofactors(a, b, ka, kb);
    var l := Lcm(a, b);
    assert l == b * ka;
    assert l == a * kb;
    MulSign(b, ka);
    assert l <= a * b by {
      MulSign(ka * b, Gcd(a, b));
      assert a * b == (ka * b) * Gcd(a, b);
    }
  }

  /** A remainder is fixed by the quotient and remainder that rebuild the dividend. */
  lemma ModUnique(x: int, d: int, q: int, rest: int)
    requires d > 0 && x == q * d + rest && 0 <= rest < d
    ensures x % d == rest
  {
    var q', r' := x / d, x % d;
    assert (q - q') * d == r' - rest;
    if q - q' >= 1 {
      MulSign(d, q - q');
    } else if q - q' <= -1 {
      MulSign(d, q - q');
    }
  }

  /** Scaling both operands scales the remainder. */
  lemma ModScale(m: nat, a: nat, b: nat)
    requires m > 0 && b > 0
    ensures m * b > 0 && (m * a) % (m * b) == m * (a % b)
  {
    var q, rest := a / b, a % b;
    MulSign(m, b);
    assert m * a == q * (m * b) + m * rest by {
      assert a == q * b + rest;
    }
    assert m * b - m * rest == m * (b - rest);
    MulSign(m, b - rest);
    ModUnique(m * a, m * b, q, m * rest);
  }

  /** gcd(m·a, m·b) = m·gcd(a, b). */
  lemma {:induction false} GcdScale(m: nat, a: nat, b: nat)
    requires m > 0
    ensures Gcd(m * a, m * b) == m * Gcd(a, b)
    decreases b
  {
    if b > 0 {
      var rest := a % b;
      ModScale(m, a, b);
      assert PhpMod(m * a, m * b) == m * rest;
      assert PhpMod(a, b) == rest;
      GcdScale(m, b, rest);
    }
  }

  /** lcm divides every common multiple of its two arguments. */
  lemma LcmIsLeast(a: nat, b: nat, m: nat)
    requires a > 0 && b > 0 && Divides(a, m) && Divides(b, m)
    ensures Divides(Lcm(a, b), m)
  {
    var ka, kb := GcdCofactors(a, b);
    LcmByCofactors(a, b, ka, kb);
    var g, l := Gcd(a, b), Lcm(a, b);
    if m == 0 {
      assert m == l * 0;
    } else {
      var s :| m == a * s;
      var t :| m == b * t;
      ProductDividesBoth(a, b, m, s, t);
      GcdIsGreatest(m * a, m * b);
      GcdScale(m, a, b);
      var k :| m * g == (a * b) * k;
      ProductByLcm(a, b, g, l, ka);
      Cancel(g, l, m, k);
    }
  }

  lemma ProductDividesBoth(a: int, b: int, m: int, s: int, t: int)
    requires m == a * s && m == b * t
    ensures Divides(a * b, m * a) && Divides(a * b, m * b)
  {
    assert m * a == (a * b) * t by {
      assert m * a == (b * t) * a;
    }
    assert m * b == (a * b) * s by {
      assert m * b == (a * s) * b;
    }
  }

  lemma ProductByLcm(a: int, b: int, g: int, l: int, ka: int)
    requires a == g * ka && l == ka * b
    ensures a * b == l * g
  {
  }

  lemma Cancel(g: int, l: int, m: int, k: int)
    requires g > 0 && m * g == (l * g) * k
    ensures m == l * k
  {
    assert g * (m - l * k) == 0;
    MulSign(g, m - l * k);
  }

  /** A positive divisor of a positive number is no larger than it. */
  lemma DividesBound(d: int, m: int)
    requires d > 0 && m > 0 && Divides(d, m)
    ensures d <= m
  {
    var k :| m == d * k;
    MulSign(d, k);
  }

  /** calculateLCM: folds lcm over the lengths, starting from 1. */
  function CalculateLcm(lengths: seq<int>): (m: int)
    requires forall i :: 0 <= i < |lengths| ==> lengths[i] > 0
    ensures m > 0
    ensures forall i :: 0 <= i < |lengths| ==> Divides(lengths[i], m)
    ensures |lengths| == 0 ==> m == 1
  {
    if |lengths| == 0 then 1
    else
      var init := lengths[..|lengths| - 1];
      var prev := CalculateLcm(init);
      var x := lengths[|lengths| - 1];
      LcmIsCommonMultiple(prev, x);
      var m := Lcm(prev, x);
      forall i | 0 <= i < |lengths|
        ensures Divides(lengths[i], m)
      {
        if i < |lengths| - 1 {
          assert init[i] == lengths[i];
          DividesTransitive(lengths[i], prev, m);
        }
      }
      m
  }

  /** The fold divides, and so is no larger than, every positive common multiple of the lengths: it is the least one. */
  lemma {:induction false} CalculateLcmLeast(lengths: seq<int>, m: nat)
    requires forall i :: 0 <= i < |lengths| ==> lengths[i] > 0
    requires forall i :: 0 <= i < |lengths| ==> Divides(lengths[i], m)
    ensures Divides(CalculateLcm(lengths), m)
    ensures m > 0 ==> CalculateLcm(lengths) <= m
    decreases |lengths|
  {
    if |lengths| == 0 {
      assert m == 1 * m;
    } else {
      var init := lengths[..|lengths| - 1];
      assert forall i :: 0 <= i < |init| ==> init[i] == lengths[i];
      CalculateLcmLeast(init, m);
      LcmIsLeast(CalculateLcm(init), lengths[|lengths| - 1], m);
    }
    if m > 0 {
      DividesBound(CalculateLcm(lengths), m);
    }
  }

  lemma DividesTransitive(a: int, b: int, c: int)
    requires Divides(a, b) && Divides(b, c)
    ensures Divides(a, c)
  {
    var k1 :| b == a * k1;
    var k2 :| c == b * k2;
    assert c == a * (k1 * k2);
  }

  // ---------------------------------------------------------------------
  // navigateNetwork
  // ---------------------------------------------------------------------

  /** Cycle lengths of the starts in order, or the first failing outcome. */
  function CycleLengths(net: map<string, seq<string>>, instructions: string, starts: seq<string>, fuel: nat): (r: Result)
    ensures r.Failed? ==> !r.outcome.Reached?
    ensures r.Lengths? ==> |r.lengths| == |starts|
    ensures r.Lengths? ==> forall i :: 0 <= i < |starts| ==> FindCycleLength(net, instructions, starts[i], fuel) == Reached(r.lengths[i])
  {
    if |starts| == 0 then Lengths([])
    else
      match CycleLengths(net, instructions, starts[..|starts| - 1], fuel)
      case Failed(o) => Failed(o)
      case Lengths(ls) =>
        match FindCycleLength(net, instructions, starts[|starts| - 1], fuel)
        case Reached(n) => Lengths(ls + [n])
        case o => Failed(o)
  }

  datatype Result = Lengths(lengths: seq<nat>) | Failed(outcome: Outcome)

  lemma LengthsDivide(net: map<string, seq<string>>, instructions: string, starts: seq<string>, fuel: nat,
                      ls: seq<nat>, m: int)
    requires |ls| == |starts|
    requires forall i :: 0 <= i < |starts| ==> FindCycleLength(net, instructions, starts[i], fuel) == Reached(ls[i])
    requires forall i :: 0 <= i < |ls| ==> Divides(ls[i], m)
    ensures forall n :: n in starts ==> exists c: nat :: FindCycleLength(net, instructions, n, fuel) == Reached(c) && Divides(c, m)
  {
    forall n | n in starts
      ensures exists c: nat :: FindCycleLength(net, instructions, n, fuel) == Reached(c) && Divides(c, m)
    {
      var i :| 0 <= i < |starts| && starts[i] == n;
      assert FindCycleLength(net, instructions, n, fuel) == Reached(ls[i]) && Divides(ls[i], m);
    }
  }

  /** Every positive common multiple of the starts' cycle lengths is a multiple of the answer, so no smaller one exists. */
  lemma NavigateGhostsLeast(net: Network, instructions: string, fuel: nat, m: nat)
    requires NavigateGhosts(net, instructions, fuel).Reached?
    requires forall n :: n in net.order && EndsWith(n, 'A') ==>
      FindCycleLength(net.succ, instructions, n, fuel).Reached? && Divides(FindCycleLength(net.succ, instructions, n, fuel).steps, m)
    ensures Divides(NavigateGhosts(net, instructions, fuel).steps, m)
    ensures m > 0 ==> NavigateGhosts(net, instructions, fuel).steps <= m
  {
    var starts := FindStartingNodes(net.order);
    var ls := CycleLengths(net.succ, instructions, starts, fuel).lengths;
    forall i | 0 <= i < |ls|
      ensures ls[i] > 0 && Divides(ls[i], m)
    {
      assert starts[i] in starts;
      assert FindCycleLength(net.succ, instructions, starts[i], fuel) == Reached(ls[i]);
    }
    CalculateLcmLeast(ls, m);
  }

  /** navigateNetwork: the lcm of every start's cycle length; every one of them divides the answer. */
  function NavigateGhosts(net: Network, instructions: string, fuel: nat): (o: Outcome)
    ensures o.Reached? ==> o.steps >= 1
    ensures o.Reached? ==> forall n :: n in net.order && EndsWith(n, 'A') ==>
      exists c: nat :: FindCycleLength(net.succ, instructions, n, fuel) == Reached(c) && Divides(c, o.steps)
  {
    var starts := FindStartingNodes(net.order);
    match CycleLengths(net.succ, instructions, starts, fuel)
    case Failed(o) => o
    case Lengths(ls) =>
      assert forall i :: 0 <= i < |ls| ==> ls[i] > 0 by {
        forall i | 0 <= i < |ls|
          ensures ls[i] > 0
        {
          assert FindCycleLength(net.succ, instructions, starts[i], fuel) == Reached(ls[i]);
        }
      }
      var m := CalculateLcm(ls);
      LengthsDivide(net.succ, instructions, starts, fuel, ls, m);
      Reached(m)
  }
}
