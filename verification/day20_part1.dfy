/**
 * Pulse propagation (day 20, part 1): modules pass high and low pulses.
 * Pressing the button sends a low pulse to `broadcaster`, which repeats it
 * to its destinations; a flip-flop (`%`) ignores high pulses and toggles on
 * a low one, sending its new state; a conjunction (`&`) remembers the last
 * pulse from each input and sends low exactly when all of them are high.
 * Pulses are handled in the order they are sent. The answer multiplies the
 * numbers of high and low pulses over 1000 presses.
 *
 * The module lines come parsed: each name as written (with its `%` or `&`)
 * and its destinations. A press's pulses need not die out (a conjunction
 * may feed itself), so each press handles at most `fuel` pulses.
 *
 * As the script is written, the conjunction memories are passed to each
 * press by value, so every press starts them all low again, while the
 * flip-flop states carry over; and the early exit taken when every
 * flip-flop is off multiplies by 1000/L and by 1000 instead of by 1000/L
 * twice. `Run` models the script as written; `RunFixed` keeps the memories
 * across presses and counts all 1000 presses, and `PressLoopFixedCorrect` shows
 * that its early exit on a repeated state gives exactly that count.
 */
module Day20Part1 {
  import opened Common

  /** A pulse on its way: its destination, whether it is high, and its sender. */
  datatype Pulse = Pulse(to: string, high: bool, from: string)

  /** The pulses a module sends: one per destination, in order, all alike. */
  function Sends(targets: seq<string>, high: bool, from: string): (ps: seq<Pulse>)
    ensures |ps| == |targets|
    ensures forall i :: 0 <= i < |ps| ==> ps[i] == Pulse(targets[i], high, from)
  {
    seq(|targets|, i requires 0 <= i < |targets| => Pulse(targets[i], high, from))
  }

  /** The number of pulses of one kind among `trace`. */
  function Count(trace: seq<Pulse>, high: bool): (n: nat)
    ensures n <= |trace|
  {
    if |trace| == 0 then 0
    else Count(trace[..|trace| - 1], high) + (if trace[|trace| - 1].high == high then 1 else 0)
  }

  /** Every pulse is counted once, as high or as low. */
  lemma {:induction false} CountSplit(trace: seq<Pulse>)
    ensures Count(trace, true) + Count(trace, false) == |trace|
  {
    if |trace| > 0 {
      CountSplit(trace[..|trace| - 1]);
    }
  }

  lemma {:induction false} CountConcat(a: seq<Pulse>, b: seq<Pulse>, high: bool)
    ensures Count(a + b, high) == Count(a, high) + Count(b, high)
    decreases |b|
  {
    if |b| == 0 {
      assert a + b == a;
    } else {
      assert (a + b)[..|a + b| - 1] == a + b[..|b| - 1];
      CountConcat(a, b[..|b| - 1], high);
    }
  }

  // ---------------------------------------------------------------------
  // prepareModuleDetails and prepare
  // ---------------------------------------------------------------------

  predicate IsFlipFlop(name: string)
  {
    |name| > 0 && name[0] == '%'
  }

  predicate IsConjunction(name: string)
  {
    |name| > 0 && name[0] == '&'
  }

  /** The module's name without its `%` or `&`. */
  function Strip(name: string): string
  {
    if IsFlipFlop(name) || IsConjunction(name) then name[1..] else name
  }

  /** What `prepareModuleDetails` builds: the destinations by name, the flip-flops (all off) and the conjunctions. */
  datatype Details = Details(dests: map<string, seq<string>>, flips: map<string, bool>, conjs: set<string>)

  /**
   * `prepareModuleDetails` over the lines in order: every module's
   * destinations under its stripped name (a later line with the same name
   * wins), every flip-flop off, every conjunction listed.
   */
  function PrepareModuleDetails(lines: seq<(string, seq<string>)>): (d: Details)
    ensures forall n :: n in d.flips ==> !d.flips[n]
  {
    if |lines| == 0 then Details(map[], map[], {})
    else
      var d := PrepareModuleDetails(lines[..|lines| - 1]);
      var (name, targets) := lines[|lines| - 1];
      if IsFlipFlop(name) then Details(d.dests[name[1..] := targets], d.flips[name[1..] := false], d.conjs)
      else if IsConjunction(name) then Details(d.dests[name[1..] := targets], d.flips, d.conjs + {name[1..]})
      else Details(d.dests[name := targets], d.flips, d.conjs)
  }

  /** A kind of module line: any line, a flip-flop line, a conjunction line. */
  datatype Kind = AnyLine | FlipFlopLine | ConjunctionLine

  predicate HasKind(name: string, k: Kind)
  {
    match k
    case AnyLine => true
    case FlipFlopLine => IsFlipFlop(name)
    case ConjunctionLine => IsConjunction(name)
  }

  /** The names `prepareModuleDetails` records for a kind: those with destinations, the flip-flops, the conjunctions. */
  function Recorded(d: Details, k: Kind): set<string>
  {
    match k
    case AnyLine => d.dests.Keys
    case FlipFlopLine => d.flips.Keys
    case ConjunctionLine => d.conjs
  }

  /**
   * Every line's module has destinations, a flip-flop line makes a
   * flip-flop and a conjunction line a conjunction, and nothing else does.
   */
  lemma {:induction false} PrepareModuleDetailsKeys(lines: seq<(string, seq<string>)>, k: Kind)
    ensures forall n :: n in Recorded(PrepareModuleDetails(lines), k) <==>
      exists i :: 0 <= i < |lines| && HasKind(lines[i].0, k) && Strip(lines[i].0) == n
    decreases |lines|
  {
    if |lines| > 0 {
      var init, last := lines[..|lines| - 1], lines[|lines| - 1];
      PrepareModuleDetailsKeys(init, k);
      var keys, keys0 := Recorded(PrepareModuleDetails(lines), k), Recorded(PrepareModuleDetails(init), k);
      assert keys == keys0 + (if HasKind(last.0, k) then {Strip(last.0)} else {});
      assert forall i :: 0 <= i < |init| ==> lines[i] == init[i];
      forall n
        ensures n in keys <==> exists i :: 0 <= i < |lines| && HasKind(lines[i].0, k) && Strip(lines[i].0) == n
      {
        if n in keys0 {
          var i :| 0 <= i < |init| && HasKind(init[i].0, k) && Strip(init[i].0) == n;
          assert lines[i] == init[i];
        }
      }
    }
  }

  /** A name's destinations are those of the last line with that name. */
  lemma {:induction false} LastLineWins(lines: seq<(string, seq<string>)>, i: nat)
    requires i < |lines|
    requires forall j :: i < j < |lines| ==> Strip(lines[j].0) != Strip(lines[i].0)
    ensures var d := PrepareModuleDetails(lines);
      Strip(lines[i].0) in d.dests && d.dests[Strip(lines[i].0)] == lines[i].1
    decreases |lines|
  {
    if i < |lines| - 1 {
      var init := lines[..|lines| - 1];
      assert init[i] == lines[i];
      LastLineWins(init, i);
    }
  }

  /** A conjunction's starting memory: a low entry for each module that lists it as a destination, and no other. */
  ghost predicate InitialRow(dests: map<string, seq<string>>, c: string, row: map<string, bool>)
  {
    && (forall n :: n in row <==> n in dests && c in dests[n])
    && (forall n :: n in row ==> !row[n])
  }

  /** `prepare`: the starting memory of every conjunction, built entry by entry. */
  method Prepare(dests: map<string, seq<string>>, conjs: set<string>) returns (mem: map<string, map<string, bool>>)
    ensures mem.Keys == conjs
    ensures forall c :: c in mem ==> InitialRow(dests, c, mem[c])
  {
    mem := map[];
    var todo := conjs;
    while todo != {}
      invariant todo <= conjs
      invariant mem.Keys == conjs - todo
      invariant forall c :: c in mem ==> InitialRow(dests, c, mem[c])
      decreases |todo|
    {
      var c :| c in todo;
      var row: map<string, bool> := map[];
      var names := dests.Keys;
      while names != {}
        invariant names <= dests.Keys
        invariant forall n :: n in row <==> n in dests && n !in names && c in dests[n]
        invariant forall n :: n in row ==> !row[n]
        decreases |names|
      {
        var n :| n in names;
        if c in dests[n] {
          row := row[n := false];
        }
        names := names - {n};
      }
      mem := mem[c := row];
      todo := todo - {c};
    }
  }

  // ---------------------------------------------------------------------
  // processEvents
  // ---------------------------------------------------------------------

  /** The flip-flop states and the conjunction memories. */
  datatype State = State(flips: map<string, bool>, mem: map<string, map<string, bool>>)

  /** `$module[$where]`: a module's destinations; a name with no line sends nothing. */
  function Targets(dests: map<string, seq<string>>, name: string): seq<string>
  {
    if name in dests then dests[name] else []
  }

  predicate AllHigh(row: map<string, bool>)
  {
    forall n :: n in row ==> row[n]
  }

  /**
   * One event of `processEvents`: the new state and the pulses it queues.
   * The tests go in the script's order: `button`, `broadcaster`, a
   * flip-flop, a conjunction; any other module does nothing.
   */
  function Handle(dests: map<string, seq<string>>, s: State, p: Pulse): (r: (State, seq<Pulse>))
  {
    if p.to == "button" then (s, [Pulse("broadcaster", false, "button")])
    else if p.to == "broadcaster" then (s, Sends(Targets(dests, p.to), p.high, p.to))
    else if p.to in s.flips then
      if p.high then (s, [])
      else (s.(flips := s.flips[p.to := !s.flips[p.to]]), Sends(Targets(dests, p.to), !s.flips[p.to], p.to))
    else if p.to in s.mem then
      var row := s.mem[p.to][p.from := p.high];
      (s.(mem := s.mem[p.to := row]), Sends(Targets(dests, p.to), !AllHigh(row), p.to))
    else (s, [])
  }

  /** No pulse makes or removes a flip-flop or a conjunction. */
  lemma HandleKeys(dests: map<string, seq<string>>, s: State, p: Pulse)
    ensures Handle(dests, s, p).0.flips.Keys == s.flips.Keys && Handle(dests, s, p).0.mem.Keys == s.mem.Keys
  {
  }

  /** The broadcaster repeats the pulse it gets to each destination and changes nothing. */
  lemma BroadcasterSpec(dests: map<string, seq<string>>, s: State, p: Pulse)
    requires p.to == "broadcaster"
    ensures Handle(dests, s, p).0 == s
    ensures Handle(dests, s, p).1 == Sends(Targets(dests, "broadcaster"), p.high, "broadcaster")
  {
  }

  /**
   * A flip-flop ignores a high pulse; on a low pulse it toggles, sends its
   * new state (the negation of the old one) to each destination, and
   * leaves every other state and memory alone.
   */
  lemma FlipFlopSpec(dests: map<string, seq<string>>, s: State, p: Pulse)
    requires p.to != "button" && p.to != "broadcaster" && p.to in s.flips
    ensures p.high ==> Handle(dests, s, p) == (s, [])
    ensures !p.high ==> Handle(dests, s, p).0.flips[p.to] == !s.flips[p.to]
    ensures !p.high ==> forall n :: n in s.flips && n != p.to ==> Handle(dests, s, p).0.flips[n] == s.flips[n]
    ensures !p.high ==> Handle(dests, s, p).0.mem == s.mem
    ensures !p.high ==> Handle(dests, s, p).1 == Sends(Targets(dests, p.to), Handle(dests, s, p).0.flips[p.to], p.to)
  {
  }

  /** Two low pulses put a flip-flop back as it was. */
  lemma FlipFlopTwice(dests: map<string, seq<string>>, s: State, p: Pulse)
    requires p.to != "button" && p.to != "broadcaster" && p.to in s.flips && !p.high
    ensures Handle(dests, Handle(dests, s, p).0, p).0 == s
  {
    var s1 := Handle(dests, s, p).0;
    assert s1.flips[p.to := !s1.flips[p.to]] == s.flips;
  }

  /**
   * A conjunction first records the pulse under its sender, then sends low
   * to each destination exactly when every remembered pulse is high.
   */
  lemma ConjunctionSpec(dests: map<string, seq<string>>, s: State, p: Pulse)
    requires p.to != "button" && p.to != "broadcaster" && p.to !in s.flips && p.to in s.mem
    ensures var (t, out) := Handle(dests, s, p);
      && p.from in t.mem[p.to] && t.mem[p.to][p.from] == p.high
      && (forall n :: n in s.mem[p.to] && n != p.from ==> n in t.mem[p.to] && t.mem[p.to][n] == s.mem[p.to][n])
      && t.flips == s.flips
      && |out| == |Targets(dests, p.to)|
      && forall i :: 0 <= i < |out| ==> (!out[i].high <==> forall n :: n in t.mem[p.to] ==> t.mem[p.to][n])
  {
  }

  /**
   * The `while ($events)` loop: handle the first queued pulse, queue what it
   * sends at the back, for at most `fuel` pulses. The result is the state
   * at the end and every pulse handled, in order.
   */
  function Drain(dests: map<string, seq<string>>, s: State, queue: seq<Pulse>, fuel: nat): (r: Option<(State, seq<Pulse>)>)
    ensures r.Some? ==> |queue| <= |r.value.1| <= fuel
    decreases fuel
  {
    if |queue| == 0 then Some((s, []))
    else if fuel == 0 then None
    else
      var (t, out) := Handle(dests, s, queue[0]);
      match Drain(dests, t, queue[1..] + out, fuel - 1)
      case None => None
      case Some((u, trace)) => Some((u, [queue[0]] + trace))
  }

  /** The pulse loop keeps the set of flip-flops and the set of conjunctions. */
  lemma {:induction false} DrainKeys(dests: map<string, seq<string>>, s: State, queue: seq<Pulse>, fuel: nat)
    requires Drain(dests, s, queue, fuel).Some?
    ensures Drain(dests, s, queue, fuel).value.0.flips.Keys == s.flips.Keys
    ensures Drain(dests, s, queue, fuel).value.0.mem.Keys == s.mem.Keys
    decreases fuel
  {
    if |queue| > 0 {
      var (t, out) := Handle(dests, s, queue[0]);
      HandleKeys(dests, s, queue[0]);
      DrainKeys(dests, t, queue[1..] + out, fuel - 1);
    }
  }

  /** First in, first out: the pulses already queued are handled first, in queue order. */
  lemma {:induction false} DrainFifo(dests: map<string, seq<string>>, s: State, queue: seq<Pulse>, fuel: nat)
    requires Drain(dests, s, queue, fuel).Some?
    ensures Drain(dests, s, queue, fuel).value.1[..|queue|] == queue
    decreases fuel
  {
    if |queue| > 0 {
      var (t, out) := Handle(dests, s, queue[0]);
      DrainFifo(dests, t, queue[1..] + out, fuel - 1);
      var trace := Drain(dests, t, queue[1..] + out, fuel - 1).value.1;
      assert trace[..|queue| - 1] == (queue[1..] + out)[..|queue| - 1] == queue[1..];
      assert ([queue[0]] + trace)[..|queue|] == [queue[0]] + trace[..|queue| - 1];
    }
  }

  /** The low pulse from the button to `broadcaster`, as a one-pulse queue. */
  function Button(): seq<Pulse>
  {
    [Pulse("broadcaster", false, "button")]
  }

  /** One button press: the pulse loop from a low pulse to `broadcaster`. */
  function Press(dests: map<string, seq<string>>, s: State, fuel: nat): (r: Option<(State, seq<Pulse>)>)
    ensures r.Some? ==> |r.value.1| >= 1 && r.value.1[0] == Pulse("broadcaster", false, "button")
  {
    var r := Drain(dests, s, Button(), fuel);
    if r.None? then r
    else DrainFifo(dests, s, Button(), fuel); r
  }

  // ---------------------------------------------------------------------
  // run, as written
  // ---------------------------------------------------------------------

  /** `in_array(true, $binaryModules, true)`: some flip-flop is on. */
  predicate AnyOn(flips: map<string, bool>)
  {
    exists n :: n in flips && flips[n]
  }

  /** Some conjunction remembers a high pulse. */
  predicate AnyRowOn(mem: map<string, map<string, bool>>)
  {
    exists c :: c in mem && AnyOn(mem[c])
  }

  /**
   * What `run` ends with: a product, the early exit whose factor 1000/L is
   * a fraction (PHP computes it in floating point; the three numbers it
   * works from are given), or a press whose pulses outlast the bound.
   */
  datatype Outcome = Value(n: int) | FloatExit(presses: nat, high: nat, low: nat) | OutOfFuel

  /**
   * The `for` loop of `run` from press `k` with the running counts. Each
   * press gets the starting conjunction memories `mem0` afresh and the
   * flip-flop states left by the last one. When a press leaves every
   * flip-flop off, the loop returns 1000/L · 1000 · high · low, L being the
   * presses so far (the second summand reads an entry the results array
   * never has, so it is 0).
   */
  function PressLoop(dests: map<string, seq<string>>, mem0: map<string, map<string, bool>>,
                     flips: map<string, bool>, k: nat, high: nat, low: nat, fuel: nat): (o: Outcome)
    requires k <= 1000
    ensures o.FloatExit? ==> k < o.presses <= 1000 && 1000 % o.presses != 0
    decreases 1000 - k
  {
    if k == 1000 then Value(high * low)
    else
      match Press(dests, State(flips, mem0), fuel)
      case None => OutOfFuel
      case Some((s, trace)) =>
        var h, l := high + Count(trace, true), low + Count(trace, false);
        if AnyOn(s.flips) || AnyRowOn(mem0) then PressLoop(dests, mem0, s.flips, k + 1, h, l, fuel)
        else if 1000 % (k + 1) == 0 then Value((1000 / (k + 1)) * 1000 * h * l)
        else FloatExit(k + 1, h, l)
  }

  /** `run` as written. */
  method Run(lines: seq<(string, seq<string>)>, fuel: nat) returns (o: Outcome)
    ensures o == PressLoop(PrepareModuleDetails(lines).dests, InitialMemory(PrepareModuleDetails(lines)),
                           PrepareModuleDetails(lines).flips, 0, 0, 0, fuel)
  {
    var d := PrepareModuleDetails(lines);
    var mem0 := Prepare(d.dests, d.conjs);
    InitialMemoryUnique(d, mem0);
    o := PressLoop(d.dests, mem0, d.flips, 0, 0, 0, fuel);
  }

  /** The starting memories `prepare` builds, as one value. */
  ghost function InitialMemory(d: Details): (mem: map<string, map<string, bool>>)
    ensures mem.Keys == d.conjs
    ensures forall c :: c in mem ==> InitialRow(d.dests, c, mem[c])
  {
    map c | c in d.conjs :: map n | n in d.dests && c in d.dests[n] :: false
  }

  /** Only one memory has the shape `prepare` promises. */
  lemma InitialMemoryUnique(d: Details, mem: map<string, map<string, bool>>)
    requires mem.Keys == d.conjs
    requires forall c :: c in mem ==> InitialRow(d.dests, c, mem[c])
    ensures mem == InitialMemory(d)
  {
    var m := InitialMemory(d);
    forall c | c in mem
      ensures mem[c] == m[c]
    {
      assert mem[c].Keys == m[c].Keys;
    }
  }

  // ---------------------------------------------------------------------
  // run, corrected
  // ---------------------------------------------------------------------

  /** The state between presses and the high and low pulses counted so far. */
  datatype Tally = Tally(state: State, high: nat, low: nat)

  /** One press seen from outside: the state it leaves and its numbers of high and low pulses, or `None`. */
  type Presser = State -> Option<(State, nat, nat)>

  /** A press of the button on the circuit `dests`, with its pulses counted. */
  function Counted(dests: map<string, seq<string>>, fuel: nat): (press: Presser)
    ensures forall s :: press(s).Some? <==> Press(dests, s, fuel).Some?
  {
    s => match Press(dests, s, fuel)
      case None => None
      case Some((u, trace)) => Some((u, Count(trace, true), Count(trace, false)))
  }

  /** One more press, its pulses added to the counts. */
  function Step(press: Presser, t: Tally): (r: Option<Tally>)
    ensures r.Some? <==> press(t.state).Some?
  {
    match press(t.state)
    case None => None
    case Some((u, h, l)) => Some(Tally(u, t.high + h, t.low + l))
  }

  /** `n` presses from `t` with the whole state carried from each press to the next. */
  function Repeat(press: Presser, t: Tally, n: nat): Option<Tally>
    decreases n
  {
    if n == 0 then Some(t)
    else match Step(press, t)
      case None => None
      case Some(u) => Repeat(press, u, n - 1)
  }

  /** Pressing `a` times and then `b` times is pressing `a + b` times. */
  lemma {:induction false} RepeatAdd(press: Presser, t: Tally, a: nat, b: nat)
    requires Repeat(press, t, a).Some?
    ensures Repeat(press, t, a + b) == Repeat(press, Repeat(press, t, a).value, b)
    decreases a
  {
    if a > 0 {
      RepeatAdd(press, Step(press, t).value, a - 1, b);
    }
  }

  /** If `n` presses finish, so do fewer. */
  lemma {:induction false} RepeatPrefix(press: Presser, t: Tally, k: nat, n: nat)
    requires k <= n && Repeat(press, t, n).Some?
    ensures Repeat(press, t, k).Some?
    decreases k
  {
    if k > 0 {
      RepeatPrefix(press, Step(press, t).value, k - 1, n - 1);
    }
  }

  /** The counts a run of presses adds do not depend on the counts it starts from. */
  lemma {:induction false} RepeatShift(press: Presser, t: Tally, x: nat, y: nat, n: nat)
    requires Repeat(press, t, n).Some?
    ensures var u := Repeat(press, t, n).value;
      Repeat(press, Tally(t.state, t.high + x, t.low + y), n) == Some(Tally(u.state, u.high + x, u.low + y))
    decreases n
  {
    if n > 0 {
      var v := Step(press, t).value;
      assert Step(press, Tally(t.state, t.high + x, t.low + y)) == Some(Tally(v.state, v.high + x, v.low + y));
      RepeatShift(press, v, x, y, n - 1);
    }
  }

  /** A run of `L` presses that ends where it began repeats: `q` rounds of it multiply its counts by `q`. */
  lemma {:induction false} RepeatCycle(press: Presser, s: State, cycle: nat, q: nat, h: nat, l: nat)
    requires Repeat(press, Tally(s, 0, 0), cycle) == Some(Tally(s, h, l))
    ensures Repeat(press, Tally(s, 0, 0), q * cycle) == Some(Tally(s, q * h, q * l))
    decreases q
  {
    if q > 0 {
      RepeatCycle(press, s, cycle, q - 1, h, l);
      RepeatAdd(press, Tally(s, 0, 0), (q - 1) * cycle, cycle);
      RepeatShift(press, Tally(s, 0, 0), (q - 1) * h, (q - 1) * l, cycle);
      assert (q - 1) * cycle + cycle == q * cycle;
      assert (q - 1) * h + h == q * h && (q - 1) * l + l == q * l;
    }
  }

  /**
   * The loop with both defects removed: the whole state (flip-flops and
   * conjunction memories) carries from press to press, and when it is back
   * to the start after L presses with L dividing 1000, the counts so far
   * are scaled by 1000/L each.
   */
  function PressLoopFixed(press: Presser, s0: State, t: Tally, k: nat): Outcome
    requires k <= 1000
    decreases 1000 - k
  {
    if k == 1000 then Value(t.high * t.low)
    else
      match Step(press, t)
      case None => OutOfFuel
      case Some(u) =>
        if u.state == s0 && 1000 % (k + 1) == 0 then Value((1000 / (k + 1)) * (1000 / (k + 1)) * u.high * u.low)
        else PressLoopFixed(press, s0, u, k + 1)
  }

  lemma Scale(len: nat, q: nat, h: nat, l: nat)
    requires 0 < len && 1000 % len == 0 && q == 1000 / len
    ensures q * len == 1000
    ensures q * h * (q * l) == q * q * h * l
  {
  }

  /** From press `k` on, the corrected loop yields the product of the high and low counts of all 1000 presses. */
  lemma {:induction false} PressLoopFixedCorrect(press: Presser, s0: State, t: Tally, k: nat, fin: Tally)
    requires k <= 1000
    requires Repeat(press, Tally(s0, 0, 0), k) == Some(t)
    requires Repeat(press, Tally(s0, 0, 0), 1000) == Some(fin)
    ensures PressLoopFixed(press, s0, t, k) == Value(fin.high * fin.low)
    decreases 1000 - k
  {
    var t0 := Tally(s0, 0, 0);
    if k < 1000 {
      RepeatPrefix(press, t0, k + 1, 1000);
      RepeatAdd(press, t0, k, 1);
      var u := Step(press, t).value;
      assert Repeat(press, t, 1) == Some(u);
      if u.state == s0 && 1000 % (k + 1) == 0 {
        var q := 1000 / (k + 1);
        Scale(k + 1, q, u.high, u.low);
        RepeatCycle(press, s0, k + 1, q, u.high, u.low);
      } else {
        PressLoopFixedCorrect(press, s0, u, k + 1, fin);
      }
    }
  }

  /**
   * `run` corrected: the conjunction memories persist, the early exit
   * scales correctly, and the result is the product of the high and low
   * counts over 1000 presses.
   */
  method RunFixed(lines: seq<(string, seq<string>)>, fuel: nat) returns (o: Outcome)
    ensures var d := PrepareModuleDetails(lines);
      var fin := Repeat(Counted(d.dests, fuel), Tally(State(d.flips, InitialMemory(d)), 0, 0), 1000);
      fin.Some? ==> o == Value(fin.value.high * fin.value.low)
  {
    var d := PrepareModuleDetails(lines);
    var mem0 := Prepare(d.dests, d.conjs);
    InitialMemoryUnique(d, mem0);
    var s0 := State(d.flips, mem0);
    var press := Counted(d.dests, fuel);
    var fin := Repeat(press, Tally(s0, 0, 0), 1000);
    if fin.Some? {
      PressLoopFixedCorrect(press, s0, Tally(s0, 0, 0), 0, fin.value);
    }
    o := PressLoopFixed(press, s0, Tally(s0, 0, 0), 0);
  }
}
