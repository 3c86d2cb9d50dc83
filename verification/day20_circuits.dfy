/**
 * Two small circuits on which the day 20 part 1 script goes wrong, worked
 * through press by press. The module names are left open: any names will
 * do as long as they differ from each other and from `button` and
 * `broadcaster`.
 *
 * `Circuit1` (`broadcaster -> a`, `%a -> b, con`, `%b -> con`,
 * `&con -> out`) shows the forgotten conjunction memory: on the third press
 * the script starts `con` from all low again and it sends high to `out`,
 * where with its memory kept it sends low.
 *
 * `Circuit2` (`broadcaster -> a`, `%a -> out`) shows the early exit: every
 * flip-flop is off after two presses, and the script answers 2,500,000
 * where 1000 presses give 500 high and 2500 low pulses, 1,250,000.
 */
module Day20Circuits {
  import opened Common
  import opened Day20Part1

  /** The module names the circuits use. */
  datatype Names = Names(a: string, b: string, con: string, out: string)

  predicate Distinct(n: Names)
  {
    && n.a != n.b && n.a != n.con && n.a != n.out && n.b != n.con && n.b != n.out && n.con != n.out
    && n.a != "button" && n.b != "button" && n.con != "button" && n.out != "button"
    && n.a != "broadcaster" && n.b != "broadcaster" && n.con != "broadcaster" && n.out != "broadcaster"
  }

  /** The names as written in the circuits above. */
  lemma Plain()
    ensures Distinct(Names("a", "b", "con", "out"))
  {
  }

  /** One pulse handled: how `Drain` goes on from the state and queue after it. */
  lemma DrainStep(dests: map<string, seq<string>>, s: State, queue: seq<Pulse>, fuel: nat,
                  t: State, out: seq<Pulse>, next: seq<Pulse>, u: State, rest: seq<Pulse>, trace: seq<Pulse>)
    requires |queue| > 0 && fuel > 0
    requires Handle(dests, s, queue[0]) == (t, out) && next == queue[1..] + out
    requires Drain(dests, t, next, fuel - 1) == Some((u, rest))
    requires trace == [queue[0]] + rest
    ensures Drain(dests, s, queue, fuel) == Some((u, trace))
  {
  }

  // ---------------------------------------------------------------------
  // Circuit1: the forgotten memory
  // ---------------------------------------------------------------------

  function Circuit1(n: Names): map<string, seq<string>>
  {
    map["broadcaster" := [n.a], n.a := [n.b, n.con], n.b := [n.con], n.con := [n.out]]
  }

  function Flips1(n: Names, a: bool, b: bool): map<string, bool>
  {
    map[n.a := a, n.b := b]
  }

  function Mem1(n: Names, a: bool, b: bool): map<string, map<string, bool>>
  {
    map[n.con := map[n.a := a, n.b := b]]
  }

  /** `Mem1(n, false, false)` is the memory `prepare` builds for the circuit, and `Flips1(n, false, false)` the starting flip-flops. */
  lemma Circuit1Start(n: Names)
    requires Distinct(n)
    ensures PrepareModuleDetails([("broadcaster", [n.a]), ("%" + n.a, [n.b, n.con]), ("%" + n.b, [n.con]), ("&" + n.con, [n.out])]) ==
      Details(Circuit1(n), Flips1(n, false, false), {n.con})
    ensures InitialRow(Circuit1(n), n.con, Mem1(n, false, false)[n.con])
  {
    var d := Circuit1(n);
    var lines := [("broadcaster", [n.a]), ("%" + n.a, [n.b, n.con]), ("%" + n.b, [n.con]), ("&" + n.con, [n.out])];
    assert ("%" + n.a)[1..] == n.a && IsFlipFlop("%" + n.a);
    assert ("%" + n.b)[1..] == n.b && IsFlipFlop("%" + n.b);
    assert ("&" + n.con)[1..] == n.con && IsConjunction("&" + n.con) && !IsFlipFlop("&" + n.con);
    assert !IsFlipFlop("broadcaster") && !IsConjunction("broadcaster");
    assert lines[..1][..0] == [];
    var d1 := Details(map["broadcaster" := [n.a]], map[], {});
    assert PrepareModuleDetails(lines[..1]) == d1;
    assert lines[..2][..1] == lines[..1];
    var d2 := Details(map["broadcaster" := [n.a], n.a := [n.b, n.con]], map[n.a := false], {});
    assert PrepareModuleDetails(lines[..2]) == d2;
    assert lines[..3][..2] == lines[..2];
    var d3 := Details(map["broadcaster" := [n.a], n.a := [n.b, n.con], n.b := [n.con]], Flips1(n, false, false), {});
    assert PrepareModuleDetails(lines[..3]) == d3;
    assert lines[..3] == lines[..|lines| - 1];
    forall x
      ensures x in Mem1(n, false, false)[n.con] <==> x in d && n.con in d[x]
    {
      if x in d && n.con in d[x] {
        assert x == n.a || x == n.b by {
          assert n.con !in d["broadcaster"] && n.con !in d[n.con];
        }
      }
    }
  }

  lemma AllHigh2(x: string, y: string, a: bool, b: bool)
    requires x != y
    ensures AllHigh(map[x := a, y := b]) == (a && b)
  {
    var row := map[x := a, y := b];
    assert row[x] == a && row[y] == b;
  }

  lemma Circuit1Broadcast(n: Names, s: State)
    requires Distinct(n)
    ensures Handle(Circuit1(n), s, Pulse("broadcaster", false, "button")) == (s, [Pulse(n.a, false, "broadcaster")])
  {
    assert Targets(Circuit1(n), "broadcaster") == [n.a];
    assert Sends([n.a], false, "broadcaster") == [Pulse(n.a, false, "broadcaster")];
  }

  /** A low pulse to `a` toggles it; it sends its new state to `b` and `con`. */
  lemma Circuit1FlipA(n: Names, a: bool, b: bool, m: map<string, map<string, bool>>)
    requires Distinct(n)
    ensures Handle(Circuit1(n), State(Flips1(n, a, b), m), Pulse(n.a, false, "broadcaster")) ==
      (State(Flips1(n, !a, b), m), [Pulse(n.b, !a, n.a), Pulse(n.con, !a, n.a)])
  {
    assert Flips1(n, a, b)[n.a := !a] == Flips1(n, !a, b);
    assert Targets(Circuit1(n), n.a) == [n.b, n.con];
    assert Sends([n.b, n.con], !a, n.a) == [Pulse(n.b, !a, n.a), Pulse(n.con, !a, n.a)];
  }

  /** `b` ignores a high pulse; a low one toggles it and it tells `con`. */
  lemma Circuit1FlipB(n: Names, a: bool, b: bool, m: map<string, map<string, bool>>, high: bool)
    requires Distinct(n)
    ensures Handle(Circuit1(n), State(Flips1(n, a, b), m), Pulse(n.b, high, n.a)) ==
      if high then (State(Flips1(n, a, b), m), []) else (State(Flips1(n, a, !b), m), [Pulse(n.con, !b, n.b)])
  {
    assert Flips1(n, a, b)[n.b := !b] == Flips1(n, a, !b);
    assert Targets(Circuit1(n), n.b) == [n.con];
    assert Sends([n.con], !b, n.b) == [Pulse(n.con, !b, n.b)];
  }

  /** `con` records a pulse from `a` or `b` and sends low to `out` exactly when it remembers high from both. */
  lemma Circuit1Con(n: Names, a: bool, b: bool, c: bool, d: bool, from: string, high: bool, a2: bool, b2: bool)
    requires Distinct(n)
    requires from == n.a || from == n.b
    requires if from == n.a then a2 == high && b2 == d else a2 == c && b2 == high
    ensures Handle(Circuit1(n), State(Flips1(n, a, b), Mem1(n, c, d)), Pulse(n.con, high, from)) ==
      (State(Flips1(n, a, b), Mem1(n, a2, b2)), [Pulse(n.out, !(a2 && b2), n.con)])
  {
    AllHigh2(n.a, n.b, a2, b2);
    var row := Mem1(n, c, d)[n.con][from := high];
    assert row == map[n.a := a2, n.b := b2];
    assert Mem1(n, c, d)[n.con := row] == Mem1(n, a2, b2);
    assert Targets(Circuit1(n), n.con) == [n.out];
    assert Sends([n.out], !(a2 && b2), n.con) == [Pulse(n.out, !(a2 && b2), n.con)];
    assert n.con !in Flips1(n, a, b);
  }

  /** `out` is no module: a pulse to it changes nothing. */
  lemma Circuit1Out(n: Names, s: State, high: bool)
    requires Distinct(n) && n.out !in s.flips && n.out !in s.mem
    ensures Handle(Circuit1(n), s, Pulse(n.out, high, n.con)) == (s, [])
  {
  }

  /** The pulses of a press that turns `a` on; `out` hears low exactly when `con` remembered high from `b`. */
  function OddTrace(n: Names, mb: bool): seq<Pulse>
  {
    [Pulse("broadcaster", false, "button"), Pulse(n.a, false, "broadcaster"), Pulse(n.b, true, n.a),
     Pulse(n.con, true, n.a), Pulse(n.out, !mb, n.con)]
  }

  /** After `a` turns on: `b` ignores the high pulse, `con` records it and tells `out`. */
  lemma Circuit1OddTail(n: Names, b: bool, mb: bool, fuel: nat)
    requires Distinct(n) && fuel >= 3
    ensures Drain(Circuit1(n), State(Flips1(n, true, b), Mem1(n, false, mb)), [Pulse(n.b, true, n.a), Pulse(n.con, true, n.a)], fuel) ==
      Some((State(Flips1(n, true, b), Mem1(n, true, mb)), OddTrace(n, mb)[2..]))
  {
    var d := Circuit1(n);
    var s1 := State(Flips1(n, true, b), Mem1(n, false, mb));
    var s2 := State(Flips1(n, true, b), Mem1(n, true, mb));
    var o := Pulse(n.out, !mb, n.con);
    var pb, pc := Pulse(n.b, true, n.a), Pulse(n.con, true, n.a);
    Circuit1Out(n, s2, !mb);
    DrainStep(d, s2, [o], fuel - 2, s2, [], [], s2, [], [o]);
    Circuit1Con(n, true, b, false, mb, n.a, true, true, mb);
    DrainStep(d, s1, [pc], fuel - 1, s2, [o], [o], s2, [o], [pc, o]);
    Circuit1FlipB(n, true, b, Mem1(n, false, mb), true);
    DrainStep(d, s1, [pb, pc], fuel, s1, [], [pc], s2, [pc, o], [pb, pc, o]);
  }

  /**
   * A press with `a` off and `con` remembering low from `a` (the first and
   * the third): `a` turns on and sends high to `con`, which then sends low
   * exactly when it remembers high from `b`.
   */
  lemma Circuit1PressOdd(n: Names, b: bool, mb: bool, fuel: nat)
    requires Distinct(n) && fuel >= 5
    ensures Press(Circuit1(n), State(Flips1(n, false, b), Mem1(n, false, mb)), fuel) ==
      Some((State(Flips1(n, true, b), Mem1(n, true, mb)), OddTrace(n, mb)))
  {
    var d := Circuit1(n);
    var s0 := State(Flips1(n, false, b), Mem1(n, false, mb));
    var s1 := State(Flips1(n, true, b), Mem1(n, false, mb));
    var s2 := State(Flips1(n, true, b), Mem1(n, true, mb));
    var tail := OddTrace(n, mb)[2..];
    var pa, pb, pc := Pulse(n.a, false, "broadcaster"), Pulse(n.b, true, n.a), Pulse(n.con, true, n.a);
    Circuit1OddTail(n, b, mb, fuel - 2);
    Circuit1FlipA(n, false, b, Mem1(n, false, mb));
    DrainStep(d, s0, [pa], fuel - 1, s1, [pb, pc], [pb, pc], s2, tail, [pa] + tail);
    Circuit1Broadcast(n, s0);
    DrainStep(d, s0, Button(), fuel, s0, [pa], [pa], s2, [pa] + tail, OddTrace(n, mb));
  }

  /** The pulses of a press that turns `a` off and `b` on. */
  function EvenTrace(n: Names): seq<Pulse>
  {
    [Pulse("broadcaster", false, "button"), Pulse(n.a, false, "broadcaster"), Pulse(n.b, false, n.a),
     Pulse(n.con, false, n.a), Pulse(n.con, true, n.b), Pulse(n.out, true, n.con), Pulse(n.out, true, n.con)]
  }

  /** The end of a press that turns `a` off: `con` hears high from `b` and sends high to `out` a second time. */
  lemma Circuit1EvenEnd(n: Names, mb: bool, fuel: nat)
    requires Distinct(n) && fuel >= 3
    ensures Drain(Circuit1(n), State(Flips1(n, false, true), Mem1(n, false, mb)), [Pulse(n.con, true, n.b), Pulse(n.out, true, n.con)], fuel) ==
      Some((State(Flips1(n, false, true), Mem1(n, false, true)), [Pulse(n.con, true, n.b), Pulse(n.out, true, n.con), Pulse(n.out, true, n.con)]))
  {
    var d := Circuit1(n);
    var s3 := State(Flips1(n, false, true), Mem1(n, false, mb));
    var s4 := State(Flips1(n, false, true), Mem1(n, false, true));
    var o := Pulse(n.out, true, n.con);
    var pd := Pulse(n.con, true, n.b);
    Circuit1Out(n, s4, true);
    DrainStep(d, s4, [o], fuel - 2, s4, [], [], s4, [], [o]);
    DrainStep(d, s4, [o, o], fuel - 1, s4, [], [o], s4, [o], [o, o]);
    Circuit1Con(n, false, true, false, mb, n.b, true, false, true);
    DrainStep(d, s3, [pd, o], fuel, s4, [o], [o, o], s4, [o, o], [pd, o, o]);
  }

  /** `con` hears low from `a`, then high from `b`. */
  lemma Circuit1EvenMid(n: Names, ma: bool, mb: bool, fuel: nat)
    requires Distinct(n) && fuel >= 4
    ensures Drain(Circuit1(n), State(Flips1(n, false, true), Mem1(n, ma, mb)), [Pulse(n.con, false, n.a), Pulse(n.con, true, n.b)], fuel) ==
      Some((State(Flips1(n, false, true), Mem1(n, false, true)),
            [Pulse(n.con, false, n.a), Pulse(n.con, true, n.b), Pulse(n.out, true, n.con), Pulse(n.out, true, n.con)]))
  {
    var d := Circuit1(n);
    var s2 := State(Flips1(n, false, true), Mem1(n, ma, mb));
    var s3 := State(Flips1(n, false, true), Mem1(n, false, mb));
    var s4 := State(Flips1(n, false, true), Mem1(n, false, true));
    var o := Pulse(n.out, true, n.con);
    var pc, pd := Pulse(n.con, false, n.a), Pulse(n.con, true, n.b);
    Circuit1EvenEnd(n, mb, fuel - 1);
    Circuit1Con(n, false, true, ma, mb, n.a, false, false, mb);
    DrainStep(d, s2, [pc, pd], fuel, s3, [o], [pd, o], s4, [pd, o, o], [pc, pd, o, o]);
  }

  /** After `a` turns off: `b` turns on, `con` hears low from `a` and high from `b`. */
  lemma Circuit1EvenTail(n: Names, ma: bool, mb: bool, fuel: nat)
    requires Distinct(n) && fuel >= 5
    ensures Drain(Circuit1(n), State(Flips1(n, false, false), Mem1(n, ma, mb)), [Pulse(n.b, false, n.a), Pulse(n.con, false, n.a)], fuel) ==
      Some((State(Flips1(n, false, true), Mem1(n, false, true)),
            [Pulse(n.b, false, n.a), Pulse(n.con, false, n.a), Pulse(n.con, true, n.b), Pulse(n.out, true, n.con), Pulse(n.out, true, n.con)]))
  {
    var d := Circuit1(n);
    var s1 := State(Flips1(n, false, false), Mem1(n, ma, mb));
    var s2 := State(Flips1(n, false, true), Mem1(n, ma, mb));
    var s3 := State(Flips1(n, false, true), Mem1(n, false, mb));
    var s4 := State(Flips1(n, false, true), Mem1(n, false, true));
    var o := Pulse(n.out, true, n.con);
    var pb, pc, pd := Pulse(n.b, false, n.a), Pulse(n.con, false, n.a), Pulse(n.con, true, n.b);
    Circuit1EvenMid(n, ma, mb, fuel - 1);
    Circuit1FlipB(n, false, false, Mem1(n, ma, mb), false);
    DrainStep(d, s1, [pb, pc], fuel, s2, [pd], [pc, pd], s4, [pc, pd, o, o], [pb, pc, pd, o, o]);
  }

  /** `a` hears low from `broadcaster` and turns off. */
  lemma Circuit1EvenHead(n: Names, ma: bool, mb: bool, fuel: nat)
    requires Distinct(n) && fuel >= 6
    ensures Drain(Circuit1(n), State(Flips1(n, true, false), Mem1(n, ma, mb)), [Pulse(n.a, false, "broadcaster")], fuel) ==
      Some((State(Flips1(n, false, true), Mem1(n, false, true)),
            [Pulse(n.a, false, "broadcaster"), Pulse(n.b, false, n.a), Pulse(n.con, false, n.a), Pulse(n.con, true, n.b),
             Pulse(n.out, true, n.con), Pulse(n.out, true, n.con)]))
  {
    var d := Circuit1(n);
    var s0 := State(Flips1(n, true, false), Mem1(n, ma, mb));
    var s1 := State(Flips1(n, false, false), Mem1(n, ma, mb));
    var s4 := State(Flips1(n, false, true), Mem1(n, false, true));
    var o := Pulse(n.out, true, n.con);
    var pa, pb, pc := Pulse(n.a, false, "broadcaster"), Pulse(n.b, false, n.a), Pulse(n.con, false, n.a);
    var tail := [pb, pc, Pulse(n.con, true, n.b), o, o];
    Circuit1EvenTail(n, ma, mb, fuel - 1);
    Circuit1FlipA(n, true, false, Mem1(n, ma, mb));
    DrainStep(d, s0, [pa], fuel, s1, [pb, pc], [pb, pc], s4, tail, [pa, pb, pc, Pulse(n.con, true, n.b), o, o]);
  }

  /**
   * A press with `a` on and `b` off, whatever `con` remembers (the second):
   * `a` turns off and `b` on, and `con` ends up remembering low from `a`
   * and high from `b`, sending high twice.
   */
  lemma Circuit1PressEven(n: Names, ma: bool, mb: bool, fuel: nat)
    requires Distinct(n) && fuel >= 7
    ensures Press(Circuit1(n), State(Flips1(n, true, false), Mem1(n, ma, mb)), fuel) ==
      Some((State(Flips1(n, false, true), Mem1(n, false, true)), EvenTrace(n)))
  {
    var d := Circuit1(n);
    var s0 := State(Flips1(n, true, false), Mem1(n, ma, mb));
    var s1 := State(Flips1(n, false, false), Mem1(n, ma, mb));
    var s4 := State(Flips1(n, false, true), Mem1(n, false, true));
    var o := Pulse(n.out, true, n.con);
    var pa, pb, pc := Pulse(n.a, false, "broadcaster"), Pulse(n.b, false, n.a), Pulse(n.con, false, n.a);
    var tail := [pa, pb, pc, Pulse(n.con, true, n.b), o, o];
    Circuit1EvenHead(n, ma, mb, fuel - 1);
    Circuit1Broadcast(n, s0);
    DrainStep(d, s0, Button(), fuel, s0, [pa], [pa], s4, tail, EvenTrace(n));
  }

  /**
   * The loop as written on `Circuit1`: after two presses it has counted
   * six high and six low pulses, and it makes the third press from the
   * flip-flops those presses left but from the memory `prepare` built.
   */
  lemma Circuit1AsWritten(n: Names, fuel: nat)
    requires Distinct(n) && fuel >= 7
    ensures PressLoop(Circuit1(n), Mem1(n, false, false), Flips1(n, false, false), 0, 0, 0, fuel) ==
      PressLoop(Circuit1(n), Mem1(n, false, false), Flips1(n, false, true), 2, 6, 6, fuel)
  {
    Circuit1PressOdd(n, false, false, fuel);
    Circuit1PressEven(n, false, false, fuel);
    OddCounts(n, false, true);
    OddCounts(n, false, false);
    EvenCounts(n, true);
    EvenCounts(n, false);
    assert Flips1(n, true, false)[n.a] && Flips1(n, false, true)[n.b];
    assert !AnyRowOn(Mem1(n, false, false)) by {
      assert !AnyOn(Mem1(n, false, false)[n.con]);
    }
    assert PressLoop(Circuit1(n), Mem1(n, false, false), Flips1(n, true, false), 1, 3, 2, fuel) ==
      PressLoop(Circuit1(n), Mem1(n, false, false), Flips1(n, false, true), 2, 6, 6, fuel);
  }

  /** With the whole state kept, two presses on `Circuit1` count six high and six low pulses and leave `con` remembering high from `b`. */
  lemma Circuit1Kept(n: Names, fuel: nat)
    requires Distinct(n) && fuel >= 7
    ensures Repeat(Counted(Circuit1(n), fuel), Tally(State(Flips1(n, false, false), Mem1(n, false, false)), 0, 0), 2) ==
      Some(Tally(State(Flips1(n, false, true), Mem1(n, false, true)), 6, 6))
  {
    var press := Counted(Circuit1(n), fuel);
    Circuit1PressOdd(n, false, false, fuel);
    Circuit1PressEven(n, true, false, fuel);
    OddCounts(n, false, true);
    OddCounts(n, false, false);
    EvenCounts(n, true);
    EvenCounts(n, false);
    var t0 := Tally(State(Flips1(n, false, false), Mem1(n, false, false)), 0, 0);
    var t1 := Tally(State(Flips1(n, true, false), Mem1(n, true, false)), 3, 2);
    var t2 := Tally(State(Flips1(n, false, true), Mem1(n, false, true)), 6, 6);
    assert Step(press, t0) == Some(t1);
    assert Step(press, t1) == Some(t2);
    assert Repeat(press, t2, 0) == Some(t2);
  }

  /**
   * The memories forgotten. The loop as written and the loop with the
   * state kept reach the third press with the same flip-flops (`a` off,
   * `b` on) and the same counts. Kept, `con` remembers high from `b`, and
   * the third press sends low to `out`; as written, `con` starts from all
   * low, and the third press sends high to `out`.
   */
  lemma ForgottenMemory(n: Names, fuel: nat)
    requires Distinct(n) && fuel >= 7
    ensures PressLoop(Circuit1(n), Mem1(n, false, false), Flips1(n, false, false), 0, 0, 0, fuel) ==
      PressLoop(Circuit1(n), Mem1(n, false, false), Flips1(n, false, true), 2, 6, 6, fuel)
    ensures Repeat(Counted(Circuit1(n), fuel), Tally(State(Flips1(n, false, false), Mem1(n, false, false)), 0, 0), 2) ==
      Some(Tally(State(Flips1(n, false, true), Mem1(n, false, true)), 6, 6))
    ensures Press(Circuit1(n), State(Flips1(n, false, true), Mem1(n, false, false)), fuel) ==
      Some((State(Flips1(n, true, true), Mem1(n, true, false)), OddTrace(n, false)))
    ensures Press(Circuit1(n), State(Flips1(n, false, true), Mem1(n, false, true)), fuel) ==
      Some((State(Flips1(n, true, true), Mem1(n, true, true)), OddTrace(n, true)))
    ensures OddTrace(n, false)[4] == Pulse(n.out, true, n.con) && OddTrace(n, true)[4] == Pulse(n.out, false, n.con)
  {
    Circuit1AsWritten(n, fuel);
    Circuit1Kept(n, fuel);
    Circuit1PressOdd(n, true, true, fuel);
    Circuit1PressOdd(n, true, false, fuel);
  }

  /** Pulses all of one kind are all counted or not at all. */
  lemma {:induction false} CountUniform(t: seq<Pulse>, kind: bool, high: bool)
    requires forall i :: 0 <= i < |t| ==> t[i].high == kind
    ensures Count(t, high) == if kind == high then |t| else 0
  {
    if |t| > 0 {
      CountUniform(t[..|t| - 1], kind, high);
    }
  }

  /** A press that turns `a` on sends two low pulses, two high ones, and one to `out` that is low exactly when `con` remembered high from `b`. */
  lemma OddCounts(n: Names, mb: bool, high: bool)
    ensures Count(OddTrace(n, mb), high) == 2 + (if mb != high then 1 else 0)
  {
    var t := OddTrace(n, mb);
    assert t == t[..2] + t[2..4] + t[4..];
    CountConcat(t[..2] + t[2..4], t[4..], high);
    CountConcat(t[..2], t[2..4], high);
    CountUniform(t[..2], false, high);
    CountUniform(t[2..4], true, high);
    CountUniform(t[4..], !mb, high);
  }

  /** A press that turns `a` off sends three high pulses and four low ones. */
  lemma EvenCounts(n: Names, high: bool)
    ensures Count(EvenTrace(n), high) == if high then 3 else 4
  {
    var t := EvenTrace(n);
    assert t == t[..4] + t[4..];
    CountConcat(t[..4], t[4..], high);
    CountUniform(t[..4], false, high);
    CountUniform(t[4..], true, high);
  }

  // ---------------------------------------------------------------------
  // Circuit2: the early exit
  // ---------------------------------------------------------------------

  function Circuit2(n: Names): map<string, seq<string>>
  {
    map["broadcaster" := [n.a], n.a := [n.out]]
  }

  function Start2(n: Names, on: bool): State
  {
    State(map[n.a := on], map[])
  }

  /** A press toggles `a`, which sends its new state to `out`. */
  lemma Circuit2Press(n: Names, on: bool, fuel: nat)
    requires Distinct(n) && fuel >= 3
    ensures Press(Circuit2(n), Start2(n, on), fuel) ==
      Some((Start2(n, !on), [Pulse("broadcaster", false, "button"), Pulse(n.a, false, "broadcaster"), Pulse(n.out, !on, n.a)]))
  {
    var d := Circuit2(n);
    var s0, s1 := Start2(n, on), Start2(n, !on);
    var pa, o := Pulse(n.a, false, "broadcaster"), Pulse(n.out, !on, n.a);
    DrainStep(d, s1, [o], fuel - 2, s1, [], [], s1, [], [o]);
    assert map[n.a := on][n.a := !on] == map[n.a := !on];
    assert Targets(d, n.a) == [n.out];
    assert Sends([n.out], !on, n.a) == [o];
    DrainStep(d, s0, [pa], fuel - 1, s1, [o], [o], s1, [o], [pa, o]);
    assert Targets(d, "broadcaster") == [n.a];
    assert Sends([n.a], false, "broadcaster") == [pa];
    DrainStep(d, s0, Button(), fuel, s0, [pa], [pa], s1, [pa, o], [Button()[0], pa, o]);
  }

  /** With the counts: the first press sends one high and two low pulses, the second three low ones. */
  lemma Circuit2Counts(n: Names, fuel: nat)
    requires Distinct(n) && fuel >= 3
    ensures Step(Counted(Circuit2(n), fuel), Tally(Start2(n, false), 0, 0)) == Some(Tally(Start2(n, true), 1, 2))
    ensures Step(Counted(Circuit2(n), fuel), Tally(Start2(n, true), 1, 2)) == Some(Tally(Start2(n, false), 1, 5))
  {
    Circuit2Press(n, false, fuel);
    Circuit2Press(n, true, fuel);
    Circuit2TraceCounts(n, false);
    Circuit2TraceCounts(n, true);
  }

  lemma Circuit2TraceCounts(n: Names, on: bool)
    ensures Count([Pulse("broadcaster", false, "button"), Pulse(n.a, false, "broadcaster"), Pulse(n.out, on, n.a)], true) ==
      if on then 1 else 0
    ensures Count([Pulse("broadcaster", false, "button"), Pulse(n.a, false, "broadcaster"), Pulse(n.out, on, n.a)], false) ==
      if on then 2 else 3
  {
    var t := [Pulse("broadcaster", false, "button"), Pulse(n.a, false, "broadcaster"), Pulse(n.out, on, n.a)];
    assert t == t[..2] + t[2..];
    CountConcat(t[..2], t[2..], true);
    CountConcat(t[..2], t[2..], false);
    CountUniform(t[..2], false, true);
    CountUniform(t[..2], false, false);
    CountUniform(t[2..], on, true);
    CountUniform(t[2..], on, false);
  }

  /**
   * The early exit overcounts. After two presses on `Circuit2` every
   * flip-flop is off again, with one high and five low pulses counted. The
   * loop as written then answers 1000/2 · 1000 · 1 · 5 = 2,500,000; the
   * corrected loop answers 500 · 500 · 1 · 5 = 1,250,000, which is the
   * product of the 500 high and 2500 low pulses of 1000 presses.
   */
  lemma EarlyExitOvercounts(n: Names, fuel: nat)
    requires Distinct(n) && fuel >= 3
    ensures PressLoop(Circuit2(n), map[], map[n.a := false], 0, 0, 0, fuel) == Value(2500000)
    ensures PressLoopFixed(Counted(Circuit2(n), fuel), Start2(n, false), Tally(Start2(n, false), 0, 0), 0) == Value(1250000)
    ensures Repeat(Counted(Circuit2(n), fuel), Tally(Start2(n, false), 0, 0), 1000) == Some(Tally(Start2(n, false), 500, 2500))
  {
    var press := Counted(Circuit2(n), fuel);
    var s0, s1 := Start2(n, false), Start2(n, true);
    Circuit2Counts(n, fuel);
    // as written
    assert s1.flips[n.a];
    assert !AnyOn(s0.flips) && !AnyRowOn(map[]);
    assert PressLoop(Circuit2(n), map[], s1.flips, 1, 1, 2, fuel) == Value(2500000);
    // corrected
    assert s1 != s0 by {
      assert s1.flips[n.a] != s0.flips[n.a];
    }
    assert PressLoopFixed(press, s0, Tally(s1, 1, 2), 1) == Value(1250000);
    // the whole run
    assert Repeat(press, Tally(s0, 1, 5), 0) == Some(Tally(s0, 1, 5));
    assert Repeat(press, Tally(s0, 0, 0), 2) == Some(Tally(s0, 1, 5));
    RepeatCycle(press, s0, 2, 500, 1, 5);
  }
}
