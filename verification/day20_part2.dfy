/**
 * Pulse propagation, part 2 (day 20): how many presses until `rx` gets a
 * low pulse. `rx` is fed by one conjunction; the script watches the modules
 * that feed that conjunction, takes for each the number of presses between
 * two presses in which it receives a low pulse, and answers the lcm of those
 * numbers.
 *
 * A module is a type (the first character of its name, or, for a module
 * that only appears as a destination, its whole name), its destinations and
 * a state: PHP's `0` or a flip-flop's bit, or an array holding the last
 * pulse from each input. PHP arrays keep their keys in insertion order and
 * the script reads the first key of `rx`'s memory, so the module table and
 * the memories are `Ordered`.
 *
 * The module lines come parsed: each name as written and its destinations.
 * The script presses until every watched module has a cycle, which need not
 * happen, and a press's pulses need not die out, so both loops take fuel.
 */
module Day20Part2 {
  import opened Common
  import P1 = Day20Part1
  import L = Day8Part2

  // ---------------------------------------------------------------------
  // PHP arrays with string keys
  // ---------------------------------------------------------------------

  /** The keys in insertion order and the value at each. */
  datatype Ordered<V> = Ordered(keys: seq<string>, at: map<string, V>)

  predicate Unique(s: seq<string>)
  {
    forall i, j :: 0 <= i < j < |s| ==> s[i] != s[j]
  }

  /** Every key is listed once, and listed exactly when it has a value. */
  ghost predicate Valid<V>(o: Ordered<V>)
  {
    Unique(o.keys) && forall k :: k in o.at <==> k in o.keys
  }

  function Empty<V>(): Ordered<V>
  {
    Ordered([], map[])
  }

  /** `$a[$k] = $v`: a new key goes last, a key already there keeps its place. */
  function Put<V>(o: Ordered<V>, k: string, v: V): (r: Ordered<V>)
    ensures Valid(o) ==> Valid(r)
    ensures r.at.Keys == o.at.Keys + {k} && r.at[k] == v
    ensures forall j :: j in o.at && j != k ==> r.at[j] == o.at[j]
  {
    if k in o.at then Ordered(o.keys, o.at[k := v])
    else Ordered(o.keys + [k], o.at[k := v])
  }

  /** The keys already there keep their places; a new key goes last. */
  lemma PutOrder<V>(o: Ordered<V>, k: string, v: V)
    requires Valid(o)
    ensures k in o.at ==> Put(o, k, v).keys == o.keys
    ensures k !in o.at ==> Put(o, k, v).keys == o.keys + [k]
  {
  }

  /** Writing the same value twice is writing it once. */
  lemma PutTwice<V>(o: Ordered<V>, k: string, v: V)
    ensures Put(Put(o, k, v), k, v) == Put(o, k, v)
  {
  }

  // ---------------------------------------------------------------------
  // Wiring (`run`)
  // ---------------------------------------------------------------------

  /** A module's state: PHP's `0` or a flip-flop's bool, or an array from input names to the last pulse. */
  datatype State = Bit(on: bool) | Memory(inputs: Ordered<bool>)

  /** `[type, destinations, state]`. */
  datatype Module = Module(kind: string, targets: seq<string>, state: State)

  type Modules = Ordered<Module>

  /** `$moduleID[0]`; PHP reads the empty string's first character as "". */
  function TypeOf(name: string): string
  {
    if |name| == 0 then "" else name[..1]
  }

  /** The name without its type character, except for a name starting with `b`. */
  function IdOf(name: string): string
  {
    if TypeOf(name) == "b" || |name| == 0 then name else name[1..]
  }

  /** The module a line declares: a conjunction starts with an empty array, any other module with `0`. */
  function Declared(name: string, targets: seq<string>): Module
  {
    Module(TypeOf(name), targets, if TypeOf(name) == "&" then Memory(Empty()) else Bit(false))
  }

  /** The first loop: one module per line, a later line under the same name taking its place. */
  function Declare(lines: seq<(string, seq<string>)>): (d: Modules)
    ensures Valid(d)
  {
    if |lines| == 0 then Empty()
    else
      var last := lines[|lines| - 1];
      Put(Declare(lines[..|lines| - 1]), IdOf(last.0), Declared(last.0, last.1))
  }

  /** The names of the lines, each without its type character. */
  function Names(lines: seq<(string, seq<string>)>): set<string>
  {
    if |lines| == 0 then {} else Names(lines[..|lines| - 1]) + {IdOf(lines[|lines| - 1].0)}
  }

  lemma {:induction false} NamesMeaning(lines: seq<(string, seq<string>)>, n: string)
    ensures n in Names(lines) <==> exists i :: 0 <= i < |lines| && IdOf(lines[i].0) == n
    decreases |lines|
  {
    if |lines| > 0 {
      var init := lines[..|lines| - 1];
      NamesMeaning(init, n);
      if n in Names(init) {
        var i :| 0 <= i < |init| && IdOf(init[i].0) == n;
        assert lines[i] == init[i];
      } else if n != IdOf(lines[|lines| - 1].0) {
        forall i | 0 <= i < |lines|
          ensures IdOf(lines[i].0) != n
        {
          if i < |init| {
            assert lines[i] == init[i];
          }
        }
      }
    }
  }

  lemma {:induction false} DeclareNames(lines: seq<(string, seq<string>)>)
    ensures Declare(lines).at.Keys == Names(lines)
    decreases |lines|
  {
    if |lines| > 0 {
      DeclareNames(lines[..|lines| - 1]);
    }
  }

  /** The modules are exactly the names of the lines, each without its type character. */
  lemma DeclareKeys(lines: seq<(string, seq<string>)>)
    ensures forall n :: n in Declare(lines).at <==> exists i :: 0 <= i < |lines| && IdOf(lines[i].0) == n
  {
    DeclareNames(lines);
    forall n
      ensures n in Names(lines) <==> exists i :: 0 <= i < |lines| && IdOf(lines[i].0) == n
    {
      NamesMeaning(lines, n);
    }
  }

  /** A module is what the last line under its name declares. */
  lemma {:induction false} DeclareLast(lines: seq<(string, seq<string>)>, i: nat)
    requires i < |lines|
    requires forall j :: i < j < |lines| ==> IdOf(lines[j].0) != IdOf(lines[i].0)
    ensures var d := Declare(lines);
      IdOf(lines[i].0) in d.at && d.at[IdOf(lines[i].0)] == Declared(lines[i].0, lines[i].1)
    decreases |lines|
  {
    if i < |lines| - 1 {
      var init := lines[..|lines| - 1];
      assert init[i] == lines[i];
      DeclareLast(init, i);
    }
  }

  /** Every array the first loop leaves is empty, and the conjunctions are the modules holding one. */
  ghost predicate Fresh(d: Modules)
  {
    && Valid(d)
    && (forall k :: k in d.at && d.at[k].state.Memory? ==> d.at[k].state.inputs == Empty())
    && (forall k :: k in d.at ==> (d.at[k].kind == "&" <==> d.at[k].state.Memory?))
  }

  lemma {:induction false} DeclareFresh(lines: seq<(string, seq<string>)>)
    ensures Fresh(Declare(lines))
    decreases |lines|
  {
    if |lines| > 0 {
      DeclareFresh(lines[..|lines| - 1]);
    }
  }

  /** A module notes its inputs when its type is `&` or, for a module made up as a destination, its own name. */
  predicate Records(c: string, m: Module)
  {
    m.kind == "&" || m.kind == c
  }

  /**
   * One destination `c` of `from`: `c` is made up if missing, then notes
   * `from` with a low pulse when it records its inputs. Writing a key into
   * PHP's `0` is an error.
   */
  function Attach(mods: Modules, from: string, c: string): Option<Modules>
  {
    var m1 := if c in mods.at then mods else Put(mods, c, Module(c, [], Memory(Empty())));
    var md := m1.at[c];
    if !Records(c, md) then Some(m1)
    else match md.state
      case Bit(_) => None
      case Memory(mem) => Some(Put(m1, c, md.(state := Memory(Put(mem, from, false)))))
  }

  /** The inner loop over the destinations of `from`. */
  function Link(mods: Modules, from: string, targets: seq<string>): Option<Modules>
    decreases |targets|
  {
    if |targets| == 0 then Some(mods)
    else match Link(mods, from, targets[..|targets| - 1])
      case None => None
      case Some(m) => Attach(m, from, targets[|targets| - 1])
  }

  /** The outer loop, over the modules the first loop made and their destinations. */
  function Wire(d: Modules, entries: seq<(string, seq<string>)>): Option<Modules>
    decreases |entries|
  {
    if |entries| == 0 then Some(d)
    else match Wire(d, entries[..|entries| - 1])
      case None => None
      case Some(m) => Link(m, entries[|entries| - 1].0, entries[|entries| - 1].1)
  }

  /** The module table as the outer loop sees it: each name with its destinations, in order. */
  function Entries(d: Modules): (e: seq<(string, seq<string>)>)
    requires Valid(d)
    ensures |e| == |d.keys|
    ensures forall i :: 0 <= i < |e| ==> e[i].0 == d.keys[i] && e[i].1 == d.at[d.keys[i]].targets
  {
    seq(|d.keys|, i requires 0 <= i < |d.keys| => (d.keys[i], d.at[d.keys[i]].targets))
  }

  /** Both loops of `run`; `None` where a destination cannot record its inputs. */
  function Wiring(lines: seq<(string, seq<string>)>): Option<Modules>
  {
    var d := Declare(lines);
    Wire(d, Entries(d))
  }

  // --- what the wiring computes ---------------------------------------

  /** Some entry lists `c` as a destination of `from`. */
  ghost predicate Feeds(entries: seq<(string, seq<string>)>, from: string, c: string)
  {
    exists a :: 0 <= a < |entries| && entries[a].0 == from && c in entries[a].1
  }

  /** Some entry lists `c` as a destination. */
  ghost predicate Named(entries: seq<(string, seq<string>)>, c: string)
  {
    exists a :: 0 <= a < |entries| && c in entries[a].1
  }

  /** Some entry lists a module that would record its inputs into PHP's `0`. */
  ghost predicate Blocked(d: Modules, entries: seq<(string, seq<string>)>)
  {
    exists c :: c in d.at && Records(c, d.at[c]) && d.at[c].state.Bit? && Named(entries, c)
  }

  /** Every array is valid. */
  ghost predicate Sound(mods: Modules)
  {
    Valid(mods) && forall k :: k in mods.at && mods.at[k].state.Memory? ==> Valid(mods.at[k].state.inputs)
  }

  /** A memory holding a low pulse from every input listed in `entries`, and nothing else. */
  ghost predicate Starting(mem: Ordered<bool>, entries: seq<(string, seq<string>)>, c: string)
  {
    && Valid(mem)
    && (forall f :: f in mem.at <==> Feeds(entries, f, c))
    && (forall f :: f in mem.at ==> !mem.at[f])
  }

  /** `w` is `d` after the outer loop ran over `entries`. */
  ghost predicate WiredFrom(d: Modules, entries: seq<(string, seq<string>)>, w: Modules)
  {
    && Sound(w)
    && (forall k :: k in w.at <==> k in d.at || Named(entries, k))
    && (forall k :: k in d.at ==>
         && w.at[k].kind == d.at[k].kind && w.at[k].targets == d.at[k].targets
         && w.at[k].state.Bit? == d.at[k].state.Bit?
         && (!Records(k, d.at[k]) || d.at[k].state.Bit? ==> w.at[k] == d.at[k]))
    && (forall k :: k in w.at && k !in d.at ==> w.at[k].kind == k && w.at[k].targets == [] && w.at[k].state.Memory?)
    && (forall c :: c in w.at && Records(c, w.at[c]) && w.at[c].state.Memory? ==> Starting(w.at[c].state.inputs, entries, c))
  }

  /** `r` is `m` after the inner loop noted `from` in each destination in `targets`. */
  ghost predicate LinkedFrom(m: Modules, from: string, targets: seq<string>, r: Modules)
  {
    && Sound(r)
    && (forall k :: k in r.at <==> k in m.at || k in targets)
    && (forall k :: k in m.at && (k !in targets || !Records(k, m.at[k])) ==> r.at[k] == m.at[k])
    && (forall k :: k in m.at && k in targets && Records(k, m.at[k]) ==>
         m.at[k].state.Memory? && r.at[k] == m.at[k].(state := Memory(Put(m.at[k].state.inputs, from, false))))
    && (forall k :: k !in m.at && k in targets ==> r.at[k] == Module(k, [], Memory(Put(Empty(), from, false))))
  }

  /** One destination fails exactly when it records its inputs into PHP's `0`. */
  lemma AttachNone(mods: Modules, from: string, c: string)
    ensures Attach(mods, from, c).None? <==> c in mods.at && Records(c, mods.at[c]) && mods.at[c].state.Bit?
  {
  }

  /** One destination: what changes. */
  lemma AttachSome(mods: Modules, from: string, c: string)
    requires Sound(mods)
    requires Attach(mods, from, c).Some?
    ensures LinkedFrom(mods, from, [c], Attach(mods, from, c).value)
  {
    if c !in mods.at {
      AttachNew(mods, from, c);
    } else if Records(c, mods.at[c]) {
      AttachRecord(mods, from, c);
    }
  }

  lemma AttachNew(mods: Modules, from: string, c: string)
    requires Sound(mods) && c !in mods.at
    ensures LinkedFrom(mods, from, [c], Attach(mods, from, c).value)
  {
    var m1 := Put(mods, c, Module(c, [], Memory(Empty())));
    var r := Put(m1, c, Module(c, [], Memory(Put(Empty(), from, false))));
    assert Attach(mods, from, c) == Some(r);
    assert Valid(Put(Empty(), from, false));
  }

  lemma AttachRecord(mods: Modules, from: string, c: string)
    requires Sound(mods) && c in mods.at && Records(c, mods.at[c]) && mods.at[c].state.Memory?
    ensures LinkedFrom(mods, from, [c], Attach(mods, from, c).value)
  {
    var md := mods.at[c];
    var r := Put(mods, c, md.(state := Memory(Put(md.state.inputs, from, false))));
    assert Attach(mods, from, c) == Some(r);
  }

  /** The inner loop fails exactly when a destination records its inputs into PHP's `0`. */
  lemma {:induction false} LinkSpec(mods: Modules, from: string, targets: seq<string>)
    requires Sound(mods)
    ensures Link(mods, from, targets).None? <==>
      exists c :: c in targets && c in mods.at && Records(c, mods.at[c]) && mods.at[c].state.Bit?
    ensures Link(mods, from, targets).Some? ==> LinkedFrom(mods, from, targets, Link(mods, from, targets).value)
    decreases |targets|
  {
    if |targets| > 0 {
      var init, c := targets[..|targets| - 1], targets[|targets| - 1];
      assert targets == init + [c];
      LinkSpec(mods, from, init);
      if Link(mods, from, init).Some? {
        var m1 := Link(mods, from, init).value;
        AttachNone(m1, from, c);
        if Attach(m1, from, c).Some? {
          AttachSome(m1, from, c);
          LinkStep(mods, from, init, c, m1, Attach(m1, from, c).value);
        } else {
          assert c in mods.at && c !in init && m1.at[c] == mods.at[c];
        }
      }
    }
  }

  /** The inner loop's last destination joins the ones before it. */
  lemma LinkStep(mods: Modules, from: string, init: seq<string>, c: string, m1: Modules, r: Modules)
    requires Sound(mods)
    requires LinkedFrom(mods, from, init, m1)
    requires LinkedFrom(m1, from, [c], r)
    requires !exists c' :: c' in init + [c] && c' in mods.at && Records(c', mods.at[c']) && mods.at[c'].state.Bit?
    ensures LinkedFrom(mods, from, init + [c], r)
  {
    var ts := init + [c];
    assert forall k :: k in ts <==> k in init || k == c;
    forall k | k in mods.at && k in ts && Records(k, mods.at[k])
      ensures mods.at[k].state.Memory? && r.at[k] == mods.at[k].(state := Memory(Put(mods.at[k].state.inputs, from, false)))
    {
      LinkStepRecord(mods, from, init, c, m1, r, k);
    }
    forall k | k !in mods.at && k in ts
      ensures r.at[k] == Module(k, [], Memory(Put(Empty(), from, false)))
    {
      LinkStepNew(mods, from, init, c, m1, r, k);
    }
  }

  lemma LinkStepRecord(mods: Modules, from: string, init: seq<string>, c: string, m1: Modules, r: Modules, k: string)
    requires LinkedFrom(mods, from, init, m1)
    requires LinkedFrom(m1, from, [c], r)
    requires k in mods.at && (k in init || k == c) && Records(k, mods.at[k]) && mods.at[k].state.Memory?
    ensures r.at[k] == mods.at[k].(state := Memory(Put(mods.at[k].state.inputs, from, false)))
  {
    if k in init && k == c {
      PutTwice(mods.at[k].state.inputs, from, false);
    }
  }

  lemma LinkStepNew(mods: Modules, from: string, init: seq<string>, c: string, m1: Modules, r: Modules, k: string)
    requires LinkedFrom(mods, from, init, m1)
    requires LinkedFrom(m1, from, [c], r)
    requires k !in mods.at && (k in init || k == c)
    ensures r.at[k] == Module(k, [], Memory(Put(Empty(), from, false)))
  {
    if k in init && k == c {
      PutTwice(Empty<bool>(), from, false);
    }
  }

  /** Adding one entry adds its destinations. */
  lemma Snoc(entries: seq<(string, seq<string>)>, e: (string, seq<string>))
    ensures forall k :: Named(entries + [e], k) <==> Named(entries, k) || k in e.1
    ensures forall f, c :: Feeds(entries + [e], f, c) <==> Feeds(entries, f, c) || (f == e.0 && c in e.1)
  {
    var all := entries + [e];
    assert forall a :: 0 <= a < |entries| ==> all[a] == entries[a];
    assert all[|entries|] == e;
  }

  /** Before the outer loop every recording module's array is empty, which is its starting memory for no entries. */
  lemma WireStart(d: Modules)
    requires Fresh(d)
    ensures WiredFrom(d, [], d)
  {
    assert Valid(Empty<bool>());
  }

  /** After one more entry, the loop fails exactly when that entry lists a recording module holding PHP's `0`. */
  lemma WireBlocked(d: Modules, init: seq<(string, seq<string>)>, e: (string, seq<string>), w0: Modules)
    requires WiredFrom(d, init, w0) && !Blocked(d, init)
    ensures (exists c :: c in e.1 && c in w0.at && Records(c, w0.at[c]) && w0.at[c].state.Bit?) <==> Blocked(d, init + [e])
  {
    Snoc(init, e);
  }

  /** After one more entry, the wiring so far meets its description. */
  lemma WireStep(d: Modules, init: seq<(string, seq<string>)>, e: (string, seq<string>), w0: Modules, r: Modules)
    requires WiredFrom(d, init, w0)
    requires LinkedFrom(w0, e.0, e.1, r)
    requires !exists c :: c in e.1 && c in w0.at && Records(c, w0.at[c]) && w0.at[c].state.Bit?
    ensures WiredFrom(d, init + [e], r)
  {
    Snoc(init, e);
    forall k | k in d.at
      ensures && r.at[k].kind == d.at[k].kind && r.at[k].targets == d.at[k].targets
              && r.at[k].state.Bit? == d.at[k].state.Bit?
              && (!Records(k, d.at[k]) || d.at[k].state.Bit? ==> r.at[k] == d.at[k])
    {
      WireStepKept(d, init, e, w0, r, k);
    }
    forall k | k in r.at && k !in d.at
      ensures r.at[k].kind == k && r.at[k].targets == [] && r.at[k].state.Memory?
    {
      if k in w0.at && !(k in e.1 && Records(k, w0.at[k])) {
        assert r.at[k] == w0.at[k];
      }
    }
    forall c | c in r.at && Records(c, r.at[c]) && r.at[c].state.Memory?
      ensures Starting(r.at[c].state.inputs, init + [e], c)
    {
      WireStepMemory(d, init, e, w0, r, c);
    }
  }

  lemma WireStepKept(d: Modules, init: seq<(string, seq<string>)>, e: (string, seq<string>), w0: Modules, r: Modules, k: string)
    requires WiredFrom(d, init, w0)
    requires LinkedFrom(w0, e.0, e.1, r)
    requires !exists c :: c in e.1 && c in w0.at && Records(c, w0.at[c]) && w0.at[c].state.Bit?
    requires k in d.at
    ensures && r.at[k].kind == d.at[k].kind && r.at[k].targets == d.at[k].targets
            && r.at[k].state.Bit? == d.at[k].state.Bit?
            && (!Records(k, d.at[k]) || d.at[k].state.Bit? ==> r.at[k] == d.at[k])
  {
    assert k in w0.at;
    if k in e.1 && Records(k, w0.at[k]) {
      assert w0.at[k].state.Memory?;
    }
  }

  lemma WireStepMemory(d: Modules, init: seq<(string, seq<string>)>, e: (string, seq<string>), w0: Modules, r: Modules, c: string)
    requires WiredFrom(d, init, w0)
    requires LinkedFrom(w0, e.0, e.1, r)
    requires c in r.at && Records(c, r.at[c]) && r.at[c].state.Memory?
    ensures Starting(r.at[c].state.inputs, init + [e], c)
  {
    if c !in w0.at {
      StartingNew(init, e, c);
    } else if c !in e.1 {
      assert r.at[c] == w0.at[c];
      StartingUntouched(w0.at[c].state.inputs, init, e, c);
    } else {
      StartingAdded(w0.at[c].state.inputs, init, e, c);
    }
  }

  /** A module made up for this entry starts with this entry's module as its only input. */
  lemma StartingNew(init: seq<(string, seq<string>)>, e: (string, seq<string>), c: string)
    requires !Named(init, c) && c in e.1
    ensures Starting(Put(Empty(), e.0, false), init + [e], c)
  {
    Snoc(init, e);
    assert Valid(Empty<bool>());
  }

  /** An entry that does not list `c` leaves its memory's description as it was. */
  lemma StartingUntouched(mem: Ordered<bool>, init: seq<(string, seq<string>)>, e: (string, seq<string>), c: string)
    requires Starting(mem, init, c) && c !in e.1
    ensures Starting(mem, init + [e], c)
  {
    Snoc(init, e);
  }

  /** An entry that lists `c` adds its module to `c`'s inputs, with a low pulse. */
  lemma StartingAdded(mem: Ordered<bool>, init: seq<(string, seq<string>)>, e: (string, seq<string>), c: string)
    requires Starting(mem, init, c) && c in e.1
    ensures Starting(Put(mem, e.0, false), init + [e], c)
  {
    Snoc(init, e);
  }

  /** The outer loop fails exactly when an entry lists a recording module holding PHP's `0`; otherwise it meets its description. */
  lemma {:induction false} WireSpec(d: Modules, entries: seq<(string, seq<string>)>)
    requires Fresh(d)
    ensures Wire(d, entries).None? <==> Blocked(d, entries)
    ensures Wire(d, entries).Some? ==> WiredFrom(d, entries, Wire(d, entries).value)
    decreases |entries|
  {
    if |entries| == 0 {
      WireStart(d);
    } else {
      var init, e := entries[..|entries| - 1], entries[|entries| - 1];
      assert entries == init + [e];
      WireSpec(d, init);
      Snoc(init, e);
      if Wire(d, init).Some? {
        var w0 := Wire(d, init).value;
        LinkSpec(w0, e.0, e.1);
        WireBlocked(d, init, e, w0);
        if Link(w0, e.0, e.1).Some? {
          WireStep(d, init, e, w0, Link(w0, e.0, e.1).value);
        }
      }
    }
  }

  /** The outer loop's entries list as destinations exactly the destinations of the modules. */
  lemma EntriesNamed(d: Modules)
    requires Valid(d)
    ensures forall k :: Named(Entries(d), k) <==> exists f :: f in d.at && k in d.at[f].targets
  {
    var e := Entries(d);
    forall k, f | f in d.at && k in d.at[f].targets
      ensures Named(e, k)
    {
      var a :| 0 <= a < |d.keys| && d.keys[a] == f;
      assert k in e[a].1;
    }
  }

  /** The outer loop's entries pair each module with its own destinations. */
  lemma EntriesFeeds(d: Modules)
    requires Valid(d)
    ensures forall f, c :: Feeds(Entries(d), f, c) <==> f in d.at && c in d.at[f].targets
  {
    var e := Entries(d);
    forall f, c | f in d.at && c in d.at[f].targets
      ensures Feeds(e, f, c)
    {
      var a :| 0 <= a < |d.keys| && d.keys[a] == f;
      assert e[a].0 == f && c in e[a].1;
    }
  }

  /** Some module lists as a destination a module that would note its inputs into PHP's `0`. */
  ghost predicate ListsScalar(d: Modules)
  {
    exists f, c :: f in d.at && c in d.at[f].targets && c in d.at && Records(c, d.at[c]) && d.at[c].state.Bit?
  }

  /** The outer loop over all modules meets a module that cannot record exactly when some module lists it. */
  lemma BlockedMeaning(d: Modules)
    requires Valid(d)
    ensures Blocked(d, Entries(d)) <==> ListsScalar(d)
  {
    EntriesNamed(d);
    if Blocked(d, Entries(d)) {
      var c :| c in d.at && Records(c, d.at[c]) && d.at[c].state.Bit? && Named(Entries(d), c);
      var f :| f in d.at && c in d.at[f].targets;
    }
  }

  /** The wiring of `run` fails exactly when a module lists as a destination a module that would note its inputs into PHP's `0`. */
  lemma WiringFails(lines: seq<(string, seq<string>)>)
    ensures Wiring(lines).None? <==> ListsScalar(Declare(lines))
  {
    var d := Declare(lines);
    DeclareFresh(lines);
    WireSpec(d, Entries(d));
    BlockedMeaning(d);
  }

  /** The modules after the outer loop: those declared plus every destination. */
  lemma WiredKeys(d: Modules, w: Modules)
    requires Valid(d) && WiredFrom(d, Entries(d), w)
    ensures forall k :: k in w.at <==> k in d.at || exists f :: f in d.at && k in d.at[f].targets
  {
    EntriesNamed(d);
  }

  /** The arrays after the outer loop: a low pulse from each module that lists the holder. */
  lemma WiredInputs(d: Modules, w: Modules)
    requires Valid(d) && WiredFrom(d, Entries(d), w)
    ensures forall c :: c in w.at && Records(c, w.at[c]) && w.at[c].state.Memory? ==>
      && (forall f :: f in w.at[c].state.inputs.at <==> f in d.at && c in d.at[f].targets)
      && (forall f :: f in w.at[c].state.inputs.at ==> !w.at[c].state.inputs.at[f])
  {
    EntriesFeeds(d);
  }

  /**
   * What the wiring of `run` builds: the modules declared plus every
   * destination; a declared module keeps its type and destinations, a
   * made-up one has its own name as its type and no destinations; and every
   * module that notes its inputs and holds an array holds a low pulse from
   * exactly the modules that list it.
   */
  lemma WiringMeaning(lines: seq<(string, seq<string>)>)
    requires Wiring(lines).Some?
    ensures var d, w := Declare(lines), Wiring(lines).value;
      && Sound(w)
      && (forall k :: k in w.at <==> k in d.at || exists f :: f in d.at && k in d.at[f].targets)
      && (forall k :: k in d.at ==> w.at[k].kind == d.at[k].kind && w.at[k].targets == d.at[k].targets)
      && (forall k :: k in w.at && k !in d.at ==> w.at[k].kind == k && w.at[k].targets == [])
      && (forall c :: c in w.at && Records(c, w.at[c]) && w.at[c].state.Memory? ==>
           && (forall f :: f in w.at[c].state.inputs.at <==> f in d.at && c in d.at[f].targets)
           && (forall f :: f in w.at[c].state.inputs.at ==> !w.at[c].state.inputs.at[f]))
  {
    var d := Declare(lines);
    DeclareFresh(lines);
    WireSpec(d, Entries(d));
    WiredKeys(d, Wiring(lines).value);
    WiredInputs(d, Wiring(lines).value);
  }

  // ---------------------------------------------------------------------
  // processModule
  // ---------------------------------------------------------------------

  /** PHP's truth value of a state: the bit, or whether the array has entries. */
  function Truthy(st: State): bool
  {
    match st
    case Bit(b) => b
    case Memory(m) => |m.keys| > 0
  }

  /** The array of a state; a conjunction always holds one (see `ProcessKeeps`). */
  function Inputs(st: State): Ordered<bool>
  {
    match st
    case Bit(_) => Empty()
    case Memory(m) => m
  }

  /** `array_sum(...) == count(...)` on entries that are 0 or 1: every entry is high. */
  predicate AllHigh(mem: Ordered<bool>)
  {
    forall k | k in mem.at :: mem.at[k]
  }

  /**
   * `processModule`: the modules after `p` arrives and the pulses sent, in
   * order. A name without a module sends nothing.
   */
  function ProcessModule(mods: Modules, p: P1.Pulse): (Modules, seq<P1.Pulse>)
  {
    if p.to !in mods.at then (mods, [])
    else
      var md := mods.at[p.to];
      if md.kind == "%" then
        if p.high then (mods, [])
        else
          var on := !Truthy(md.state);
          (Put(mods, p.to, md.(state := Bit(on))), P1.Sends(md.targets, on, p.to))
      else if md.kind == "&" then
        var mem := Put(Inputs(md.state), p.from, p.high);
        (Put(mods, p.to, md.(state := Memory(mem))), P1.Sends(md.targets, !AllHigh(mem), p.to))
      else (mods, P1.Sends(md.targets, p.high, p.to))
  }

  /** A flip-flop ignores a high pulse; a low pulse toggles it and it sends its new state to each destination. */
  lemma FlipFlopSpec(mods: Modules, p: P1.Pulse)
    requires p.to in mods.at && mods.at[p.to].kind == "%"
    ensures p.high ==> ProcessModule(mods, p) == (mods, [])
    ensures !p.high ==> var (m, out) := ProcessModule(mods, p);
      && m.at.Keys == mods.at.Keys
      && m.at[p.to] == mods.at[p.to].(state := Bit(!Truthy(mods.at[p.to].state)))
      && (forall k :: k in mods.at && k != p.to ==> m.at[k] == mods.at[k])
      && |out| == |mods.at[p.to].targets|
      && forall i :: 0 <= i < |out| ==> out[i] == P1.Pulse(mods.at[p.to].targets[i], m.at[p.to].state.on, p.to)
  {
  }

  /** Two low pulses put a flip-flop's bit back. */
  lemma FlipFlopTwice(mods: Modules, p: P1.Pulse)
    requires p.to in mods.at && mods.at[p.to].kind == "%" && mods.at[p.to].state.Bit? && !p.high
    ensures var m := ProcessModule(ProcessModule(mods, p).0, p).0;
      m.at[p.to] == mods.at[p.to] && forall k :: k in mods.at ==> k in m.at && m.at[k] == mods.at[k]
  {
  }

  /**
   * A conjunction notes the pulse under its sender, keeps its other
   * entries, and sends low to each destination exactly when every entry is
   * then high.
   */
  lemma ConjunctionSpec(mods: Modules, p: P1.Pulse)
    requires p.to in mods.at && mods.at[p.to].kind == "&" && mods.at[p.to].state.Memory?
    ensures var (m, out) := ProcessModule(mods, p); var before := mods.at[p.to].state.inputs;
      && m.at.Keys == mods.at.Keys
      && (forall k :: k in mods.at && k != p.to ==> m.at[k] == mods.at[k])
      && m.at[p.to].kind == "&" && m.at[p.to].targets == mods.at[p.to].targets && m.at[p.to].state.Memory?
      && m.at[p.to].state.inputs.at == before.at[p.from := p.high]
      && |out| == |mods.at[p.to].targets|
      && forall i :: 0 <= i < |out| ==>
           out[i].to == mods.at[p.to].targets[i] && out[i].from == p.to &&
           (!out[i].high <==> forall k :: k in before.at || k == p.from ==> before.at[p.from := p.high][k])
  {
  }

  /** Any other module (the broadcaster, a made-up one) passes the pulse on unchanged and keeps its state. */
  lemma ForwardSpec(mods: Modules, p: P1.Pulse)
    requires p.to in mods.at && mods.at[p.to].kind != "%" && mods.at[p.to].kind != "&"
    ensures ProcessModule(mods, p).0 == mods
    ensures ProcessModule(mods, p).1 == P1.Sends(mods.at[p.to].targets, p.high, p.to)
  {
  }

  /** Every conjunction holds an array, and every array is valid. */
  ghost predicate WellKinded(mods: Modules)
  {
    Sound(mods) && forall k :: k in mods.at && mods.at[k].kind == "&" ==> mods.at[k].state.Memory?
  }

  /** A pulse changes no module's type or destinations, adds or removes no module, and keeps every conjunction's array. */
  lemma ProcessKeeps(mods: Modules, p: P1.Pulse)
    requires WellKinded(mods)
    ensures var m := ProcessModule(mods, p).0;
      && WellKinded(m)
      && m.at.Keys == mods.at.Keys
      && forall k :: k in m.at ==> m.at[k].kind == mods.at[k].kind && m.at[k].targets == mods.at[k].targets
  {
    if p.to in mods.at {
      var md := mods.at[p.to];
      if md.kind == "%" && !p.high {
        KeepsPut(mods, p.to, md.(state := Bit(!Truthy(md.state))));
      } else if md.kind == "&" {
        KeepsPut(mods, p.to, md.(state := Memory(Put(Inputs(md.state), p.from, p.high))));
      }
    }
  }

  /** Replacing a module's state by a valid one of the same sort for a conjunction keeps the table well kinded. */
  lemma KeepsPut(mods: Modules, k: string, md: Module)
    requires WellKinded(mods) && k in mods.at
    requires md.kind == mods.at[k].kind && md.targets == mods.at[k].targets
    requires md.kind == "&" ==> md.state.Memory?
    requires md.state.Memory? ==> Valid(md.state.inputs)
    ensures var m := Put(mods, k, md);
      && WellKinded(m)
      && m.at.Keys == mods.at.Keys
      && forall j :: j in m.at ==> m.at[j].kind == mods.at[j].kind && m.at[j].targets == mods.at[j].targets
  {
  }

  /** The wiring gives every conjunction an array. */
  lemma WiringKinded(lines: seq<(string, seq<string>)>)
    requires Wiring(lines).Some?
    ensures WellKinded(Wiring(lines).value)
  {
    var d := Declare(lines);
    DeclareFresh(lines);
    WireSpec(d, Entries(d));
  }

  // ---------------------------------------------------------------------
  // processQueueIteration
  // ---------------------------------------------------------------------

  /**
   * What a press carries over: `$cycles`, the last press in which each
   * watched module got a low pulse, `$found`, the cycle length of each
   * watched module found so far, and `$count`, the pulses handled.
   */
  datatype Track = Track(cycles: Ordered<int>, found: Ordered<int>, low: nat, high: nat)

  /** The arrays are valid and only watched modules have cycle lengths. */
  ghost predicate Tracking(t: Track)
  {
    Valid(t.cycles) && Valid(t.found) && forall k :: k in t.found.at ==> k in t.cycles.at
  }

  /** After one pulse: go on watching, or stop because every watched module has a cycle length. */
  datatype Watched = Watching(track: Track) | AllFound(found: Ordered<int>)

  function FoundOf(w: Watched): Ordered<int>
  {
    match w
    case Watching(t) => t.found
    case AllFound(f) => f
  }

  /**
   * The bookkeeping for pulse `p` in press `i`: a low pulse to a watched
   * module that got one in an earlier numbered press and has no cycle
   * length yet gets the difference as its cycle length; any other low pulse
   * to a watched module records the press.
   */
  function Watch(t: Track, p: P1.Pulse, i: nat): (w: Watched)
    ensures forall k :: k in FoundOf(w).at && k !in t.found.at ==>
      !p.high && k == p.to && k in t.cycles.at && t.cycles.at[k] > 0 && FoundOf(w).at[k] == i - t.cycles.at[k]
    ensures w.Watching? ==> w.track.low == t.low && w.track.high == t.high
  {
    if !p.high && p.to in t.cycles.at then
      if t.cycles.at[p.to] > 0 && p.to !in t.found.at then
        var found := Put(t.found, p.to, i - t.cycles.at[p.to]);
        if |found.keys| == |t.cycles.keys| then AllFound(found)
        else Watching(t.(found := found))
      else Watching(t.(cycles := Put(t.cycles, p.to, i)))
    else Watching(t)
  }

  /** The bookkeeping keeps its arrays consistent and the watched modules fixed; it stops exactly when every watched module has a cycle length. */
  lemma WatchTracks(t: Track, p: P1.Pulse, i: nat)
    requires Tracking(t)
    ensures var w := Watch(t, p, i);
      && (w.Watching? ==> Tracking(w.track) && w.track.cycles.at.Keys == t.cycles.at.Keys && w.track.low == t.low && w.track.high == t.high)
      && (w.AllFound? ==> Valid(w.found) && w.found.at.Keys == t.cycles.at.Keys && |w.found.keys| > 0)
  {
    if !p.high && p.to in t.cycles.at && t.cycles.at[p.to] > 0 && p.to !in t.found.at {
      var found := Put(t.found, p.to, i - t.cycles.at[p.to]);
      if |found.keys| == |t.cycles.keys| {
        SameSize(found, t.cycles);
        assert p.to in t.cycles.keys;
      }
    }
  }

  /** Keys listed without repeats: as many as listed. */
  lemma {:induction false} UniqueSize(s: seq<string>)
    requires Unique(s)
    ensures |set k | k in s| == |s|
    decreases |s|
  {
    if |s| > 0 {
      var init := s[..|s| - 1];
      assert (set k | k in s) == (set k | k in init) + {s[|s| - 1]} by {
        assert s == init + [s[|s| - 1]];
      }
      assert s[|s| - 1] !in init;
      UniqueSize(init);
    }
  }

  /** Two valid arrays with as many keys, the keys of one among the other's, have the same keys. */
  lemma SameSize<V, W>(a: Ordered<V>, b: Ordered<W>)
    requires Valid(a) && Valid(b) && |a.keys| == |b.keys|
    requires forall k :: k in a.at ==> k in b.at
    ensures a.at.Keys == b.at.Keys
  {
    assert a.at.Keys == set k | k in a.keys;
    assert b.at.Keys == set k | k in b.keys;
    UniqueSize(a.keys);
    UniqueSize(b.keys);
    var sa, sb := a.at.Keys, b.at.Keys;
    assert sa <= sb;
    if !(sb <= sa) {
      var x :| x in sb && x !in sa;
      SubsetSize(sa, sb - {x});
    }
  }

  lemma {:induction false} SubsetSize(a: set<string>, b: set<string>)
    requires a <= b
    ensures |a| <= |b|
    decreases |a|
  {
    if a != {} {
      var y :| y in a;
      SubsetSize(a - {y}, b - {y});
    }
  }

  /** A press's outcome: it ran out of pulses with the modules and bookkeeping it leaves, or it stopped with every cycle length. */
  /** What a module does with a pulse: the modules after it and the pulses sent. */
  type Handler = (Modules, P1.Pulse) -> (Modules, seq<P1.Pulse>)

  datatype Press = Done(mods: Modules, track: Track, trace: seq<P1.Pulse>) | Early(found: Ordered<int>)

  /** `$count`: one more pulse of the pulse's level. */
  function Tally(t: Track, p: P1.Pulse): (c: Track)
    ensures c.cycles == t.cycles && c.found == t.found
    ensures c.low + c.high == t.low + t.high + 1
    ensures p.high ==> c.high == t.high + 1 && c.low == t.low
    ensures !p.high ==> c.low == t.low + 1 && c.high == t.high
  {
    if p.high then t.(high := t.high + 1) else t.(low := t.low + 1)
  }

  /**
   * The `while` loop of `processQueueIteration` on `queue` in press `i`:
   * count the pulse, do the bookkeeping, pass the pulse to its module, and
   * queue what it sends. At most `fuel` pulses are handled; `h` is
   * `processModule`.
   */
  function Drain(h: Handler, mods: Modules, t: Track, queue: seq<P1.Pulse>, i: nat, fuel: nat): (r: Option<Press>)
    decreases fuel
  {
    if |queue| == 0 then Some(Done(mods, t, []))
    else if fuel == 0 then None
    else
      var p := queue[0];
      var counted := Tally(t, p);
      match Watch(counted, p, i)
      case AllFound(found) => Some(Early(found))
      case Watching(t1) =>
        var (m, out) := h(mods, p);
        match Drain(h, m, t1, queue[1..] + out, i, fuel - 1)
        case None => None
        case Some(Early(found)) => Some(Early(found))
        case Some(Done(m1, t2, trace)) => Some(Done(m1, t2, [p] + trace))
  }

  /** The bookkeeping stays consistent; a press that stops early has a cycle length for every watched module. */
  lemma {:induction false} DrainTracks(h: Handler, mods: Modules, t: Track, queue: seq<P1.Pulse>, i: nat, fuel: nat)
    requires Tracking(t)
    requires Drain(h, mods, t, queue, i, fuel).Some?
    ensures var r := Drain(h, mods, t, queue, i, fuel).value;
      && (r.Done? ==> Tracking(r.track) && r.track.cycles.at.Keys == t.cycles.at.Keys)
      && (r.Early? ==> Valid(r.found) && r.found.at.Keys == t.cycles.at.Keys && |r.found.keys| > 0)
    decreases fuel
  {
    if |queue| > 0 {
      var p := queue[0];
      var counted := Tally(t, p);
      var w := Watch(counted, p, i);
      WatchTracks(counted, p, i);
      if w.Watching? {
        var (m, out) := h(mods, p);
        DrainTracks(h, m, w.track, queue[1..] + out, i, fuel - 1);
      }
    }
  }

  /** One pulse of a press that runs out of pulses: the bookkeeping went on and the rest of the press follows. */
  lemma DrainStep(h: Handler, mods: Modules, t: Track, queue: seq<P1.Pulse>, i: nat, fuel: nat) returns (t1: Track, m: Modules, out: seq<P1.Pulse>, r: Press)
    requires Drain(h, mods, t, queue, i, fuel).Some? && Drain(h, mods, t, queue, i, fuel).value.Done? && |queue| > 0
    ensures fuel > 0
    ensures Watch(Tally(t, queue[0]), queue[0], i) == Watching(t1)
    ensures (m, out) == h(mods, queue[0])
    ensures Drain(h, m, t1, queue[1..] + out, i, fuel - 1) == Some(r) && r.Done?
    ensures Drain(h, mods, t, queue, i, fuel) == Some(Done(r.mods, r.track, [queue[0]] + r.trace))
  {
    var p := queue[0];
    var w := Watch(Tally(t, p), p, i);
    assert w.Watching?;
    t1 := w.track;
    m, out := h(mods, p).0, h(mods, p).1;
    var rest := Drain(h, m, t1, queue[1..] + out, i, fuel - 1);
    assert rest.Some? && rest.value.Done?;
    r := rest.value;
  }

  /** A press that runs out of pulses handled every queued pulse first, in queue order. */
  lemma {:induction false} DrainFifo(h: Handler, mods: Modules, t: Track, queue: seq<P1.Pulse>, i: nat, fuel: nat)
    requires Drain(h, mods, t, queue, i, fuel).Some? && Drain(h, mods, t, queue, i, fuel).value.Done?
    ensures var r := Drain(h, mods, t, queue, i, fuel).value;
      |queue| <= |r.trace| && r.trace[..|queue|] == queue
    decreases fuel
  {
    if |queue| > 0 {
      var t1, m, out, r := DrainStep(h, mods, t, queue, i, fuel);
      DrainFifo(h, m, t1, queue[1..] + out, i, fuel - 1);
      assert r.trace[..|queue| - 1] == (queue[1..] + out)[..|queue| - 1] == queue[1..];
      assert ([queue[0]] + r.trace)[..|queue|] == [queue[0]] + r.trace[..|queue| - 1];
    }
  }

  /** `$count`: a press that runs out of pulses counted each pulse it handled, as high or as low. */
  lemma {:induction false} DrainCounts(h: Handler, mods: Modules, t: Track, queue: seq<P1.Pulse>, i: nat, fuel: nat)
    requires Drain(h, mods, t, queue, i, fuel).Some? && Drain(h, mods, t, queue, i, fuel).value.Done?
    ensures var r := Drain(h, mods, t, queue, i, fuel).value;
      && r.track.low == t.low + P1.Count(r.trace, false)
      && r.track.high == t.high + P1.Count(r.trace, true)
    decreases fuel
  {
    if |queue| > 0 {
      var t1, m, out, r := DrainStep(h, mods, t, queue, i, fuel);
      DrainCounts(h, m, t1, queue[1..] + out, i, fuel - 1);
      P1.CountConcat([queue[0]], r.trace, false);
      P1.CountConcat([queue[0]], r.trace, true);
    }
  }

  // ---------------------------------------------------------------------
  // calculateFinalResult
  // ---------------------------------------------------------------------

  /** `gmp_lcm`: the lcm of the magnitudes, 0 when either is 0. */
  function GmpLcm(a: int, b: int): (m: int)
    ensures m >= 0
    ensures m == 0 <==> a == 0 || b == 0
  {
    if a == 0 || b == 0 then 0
    else
      L.LcmIsCommonMultiple(Abs(a), Abs(b));
      L.Lcm(Abs(a), Abs(b))
  }

  /** The loop of `calculateFinalResult`: the first value, then lcm with each further value in turn. */
  function LcmFold(vals: seq<int>): int
    requires |vals| > 0
  {
    if |vals| == 1 then vals[0] else GmpLcm(LcmFold(vals[..|vals| - 1]), vals[|vals| - 1])
  }

  /** One cycle length of 0 makes the answer 0. */
  lemma {:induction false} LcmFoldZero(vals: seq<int>, j: nat)
    requires j < |vals| && vals[j] == 0
    ensures LcmFold(vals) == 0
    decreases |vals|
  {
    if |vals| > 1 && j < |vals| - 1 {
      var init := vals[..|vals| - 1];
      assert init[j] == 0;
      LcmFoldZero(init, j);
    }
  }

  /** lcm(1, x) = x. */
  lemma LcmOne(x: nat)
    requires x > 0
    ensures L.Lcm(1, x) == x
  {
    L.GcdIsGreatest(1, x);
    var g := L.Gcd(1, x);
    var k :| 1 == g * k;
    L.MulSign(g, k);
    if g > 1 {
      L.MulSign(k, g);
    }
    assert g == 1;
  }

  /** With positive cycle lengths the fold is the lcm of day 8's `calculateLCM`: positive, and a multiple of every length. */
  lemma {:induction false} LcmFoldAgrees(vals: seq<int>)
    requires |vals| > 0 && forall j :: 0 <= j < |vals| ==> vals[j] > 0
    ensures LcmFold(vals) == L.CalculateLcm(vals)
    ensures LcmFold(vals) > 0 && forall j :: 0 <= j < |vals| ==> L.Divides(vals[j], LcmFold(vals))
    decreases |vals|
  {
    var init, x := vals[..|vals| - 1], vals[|vals| - 1];
    assert forall j :: 0 <= j < |init| ==> init[j] == vals[j];
    if |vals| == 1 {
      assert L.CalculateLcm(init) == 1;
      LcmOne(x);
    } else {
      LcmFoldAgrees(init);
    }
  }

  /** With positive cycle lengths the fold divides, and is no larger than, every positive common multiple of them. */
  lemma LcmFoldLeast(vals: seq<int>, m: nat)
    requires |vals| > 0 && forall j :: 0 <= j < |vals| ==> vals[j] > 0
    requires forall j :: 0 <= j < |vals| ==> L.Divides(vals[j], m)
    ensures L.Divides(LcmFold(vals), m)
    ensures m > 0 ==> LcmFold(vals) <= m
  {
    LcmFoldAgrees(vals);
    L.CalculateLcmLeast(vals, m);
  }

  /** The cycle lengths in the order they were found. */
  function Values(found: Ordered<int>): (vals: seq<int>)
    requires Valid(found)
    ensures |vals| == |found.keys| && forall j :: 0 <= j < |vals| ==> vals[j] == found.at[found.keys[j]]
  {
    seq(|found.keys|, j requires 0 <= j < |found.keys| => found.at[found.keys[j]])
  }

  /** What the script prints, or why it prints nothing. */
  datatype Outcome = Value(n: int) | Crash | OutOfFuel

  /**
   * `calculateFinalResult`, declared to return a GMP number. Only `gmp_lcm`
   * makes one: with no cycle length it would return `null`, and with a
   * single one the plain integer `array_shift` gave, so both stop with an
   * error.
   */
  function FinalResult(found: Ordered<int>): (r: Outcome)
    requires Valid(found)
    ensures r.Crash? <==> |found.keys| <= 1
    ensures r.Value? ==> r.n == LcmFold(Values(found)) && (r.n == 0 <==> exists j :: 0 <= j < |found.keys| && found.at[found.keys[j]] == 0)
  {
    if |found.keys| <= 1 then Crash
    else
      FoldZeroIff(Values(found));
      Value(LcmFold(Values(found)))
  }

  /** The fold is 0 exactly when one of the values is. */
  lemma {:induction false} FoldZeroIff(vals: seq<int>)
    requires |vals| > 0
    ensures LcmFold(vals) == 0 <==> exists j :: 0 <= j < |vals| && vals[j] == 0
    decreases |vals|
  {
    if |vals| > 1 {
      var init := vals[..|vals| - 1];
      FoldZeroIff(init);
      if exists j :: 0 <= j < |init| && init[j] == 0 {
        var j :| 0 <= j < |init| && init[j] == 0;
        assert vals[j] == 0;
      }
      if exists j :: 0 <= j < |vals| && vals[j] == 0 {
        var j :| 0 <= j < |vals| && vals[j] == 0;
        if j < |init| {
          assert init[j] == 0;
        }
      }
    }
  }

  // ---------------------------------------------------------------------
  // processModulesQueue
  // ---------------------------------------------------------------------

  /** The press loop from press `i` on, at most `presses` presses of at most `pulses` pulses each. */
  function Presses(mods: Modules, t: Track, i: nat, presses: nat, pulses: nat): Outcome
    requires Tracking(t)
    decreases presses
  {
    if presses == 0 then OutOfFuel
    else
      var r := Drain(ProcessModule, mods, t, P1.Button(), i, pulses);
      if r.None? then OutOfFuel
      else
        DrainTracks(ProcessModule, mods, t, P1.Button(), i, pulses);
        match r.value
        case Early(found) => FinalResult(found)
        case Done(m, t1, _) => Presses(m, t1, i + 1, presses - 1, pulses)
  }

  /** The loop stops with an error only with a single watched module; it never reaches the `null` case. */
  lemma {:induction false} PressesCrash(mods: Modules, t: Track, i: nat, presses: nat, pulses: nat)
    requires Tracking(t)
    ensures Presses(mods, t, i, presses, pulses).Crash? ==> |t.cycles.at.Keys| == 1
    decreases presses
  {
    if presses > 0 {
      var r := Drain(ProcessModule, mods, t, P1.Button(), i, pulses);
      if r.Some? {
        DrainTracks(ProcessModule, mods, t, P1.Button(), i, pulses);
        if r.value.Done? {
          PressesCrash(r.value.mods, r.value.track, i + 1, presses - 1, pulses);
        } else {
          ValidSize(r.value.found);
        }
      }
    }
  }

  /** An answer is the lcm fold of a cycle length for every watched module, of which there are at least two. */
  lemma {:induction false} PressesValue(mods: Modules, t: Track, i: nat, presses: nat, pulses: nat)
    requires Tracking(t)
    ensures Presses(mods, t, i, presses, pulses).Value? ==>
      exists found :: Valid(found) && found.at.Keys == t.cycles.at.Keys && |found.keys| > 1 &&
        Presses(mods, t, i, presses, pulses).n == LcmFold(Values(found))
    decreases presses
  {
    if presses > 0 {
      var r := Drain(ProcessModule, mods, t, P1.Button(), i, pulses);
      if r.Some? {
        DrainTracks(ProcessModule, mods, t, P1.Button(), i, pulses);
        if r.value.Done? {
          PressesValue(r.value.mods, r.value.track, i + 1, presses - 1, pulses);
        }
      }
    }
  }

  /** A valid array has as many keys as it lists. */
  lemma ValidSize<V>(o: Ordered<V>)
    requires Valid(o)
    ensures |o.at.Keys| == |o.keys|
  {
    assert o.at.Keys == set k | k in o.keys;
    UniqueSize(o.keys);
  }

  /** With nothing watched no press stops early. */
  lemma {:induction false} DrainUnwatched(h: Handler, mods: Modules, t: Track, queue: seq<P1.Pulse>, i: nat, fuel: nat)
    requires t.cycles.at == map[]
    ensures Drain(h, mods, t, queue, i, fuel).Some? ==> Drain(h, mods, t, queue, i, fuel).value.Done?
    decreases fuel
  {
    if |queue| > 0 && fuel > 0 {
      var p := queue[0];
      var counted := Tally(t, p);
      assert Watch(counted, p, i) == Watching(counted);
      var (m, out) := h(mods, p);
      DrainUnwatched(h, m, counted, queue[1..] + out, i, fuel - 1);
    }
  }

  /** With nothing watched the script presses for ever. */
  lemma {:induction false} PressesUnwatched(mods: Modules, t: Track, i: nat, presses: nat, pulses: nat)
    requires Tracking(t) && t.cycles.at == map[]
    ensures Presses(mods, t, i, presses, pulses) == OutOfFuel
    decreases presses
  {
    if presses > 0 {
      DrainUnwatched(ProcessModule, mods, t, P1.Button(), i, pulses);
      var r := Drain(ProcessModule, mods, t, P1.Button(), i, pulses);
      if r.Some? {
        DrainTracks(ProcessModule, mods, t, P1.Button(), i, pulses);
        PressesUnwatched(r.value.mods, r.value.track, i + 1, presses - 1, pulses);
      }
    }
  }

  /** A memory as the numbers PHP stores in it: 1 for high, 0 for low. */
  function Numbers(mem: Ordered<bool>): (c: Ordered<int>)
    ensures Valid(mem) ==> Valid(c)
    ensures c.keys == mem.keys && c.at.Keys == mem.at.Keys
    ensures forall k :: k in c.at ==> c.at[k] == if mem.at[k] then 1 else 0
  {
    Ordered(mem.keys, map k | k in mem.at :: if mem.at[k] then 1 else 0)
  }

  /** `array_key_first($modules["rx"][2])`, with PHP's `null` key read as "". */
  function FirstInput(w: Modules): string
    requires "rx" in w.at && w.at["rx"].state.Memory?
  {
    var inputs := w.at["rx"].state.inputs;
    if |inputs.keys| == 0 then "" else inputs.keys[0]
  }

  /**
   * `$modules[array_key_first($modules["rx"][2])][2]`: the array of the
   * module that feeds `rx` first. `None` where `rx` is missing or holds
   * `0` (`array_key_first` refuses it), and where that module is missing
   * or holds `0`: `$cycles` is then `null` or `0`, and passing it to
   * `processQueueIteration`'s `array &$cycles` stops the script.
   */
  function CyclesOf(w: Modules): (c: Option<Ordered<int>>)
    requires Sound(w)
    ensures c.None? <==> "rx" !in w.at || w.at["rx"].state.Bit? || FirstInput(w) !in w.at || w.at[FirstInput(w)].state.Bit?
    ensures c.Some? ==> Valid(c.value) && c.value.at.Keys == w.at[FirstInput(w)].state.inputs.at.Keys
  {
    if "rx" !in w.at || w.at["rx"].state.Bit? then None
    else
      var feeder := FirstInput(w);
      if feeder in w.at && w.at[feeder].state.Memory? then Some(Numbers(w.at[feeder].state.inputs))
      else None
  }

  /** The wiring works and `rx`'s first feeder holds an array, so the presses start. */
  predicate Starts(lines: seq<(string, seq<string>)>)
  {
    Wiring(lines).Some? && (WiringMeaning(lines); CyclesOf(Wiring(lines).value).Some?)
  }

  /** `run`: wire the modules, then press until every module feeding `rx`'s first input has a cycle length. */
  function Run(lines: seq<(string, seq<string>)>, presses: nat, pulses: nat): Outcome
  {
    match Wiring(lines)
    case None => Crash
    case Some(w) =>
      WiringMeaning(lines);
      match CyclesOf(w)
      case None => Crash
      case Some(cycles) => Presses(w, Track(cycles, Empty(), 0, 0), 0, presses, pulses)
  }

  /**
   * The script stops with an error when the wiring fails, when `rx` is
   * missing or holds `0`, or when `rx`'s first feeder is missing or holds
   * `0`; once the presses start it can stop with an error only when that
   * feeder has a single input.
   */
  lemma RunCrash(lines: seq<(string, seq<string>)>, presses: nat, pulses: nat)
    ensures !Starts(lines) ==> Run(lines, presses, pulses) == Crash
    ensures Starts(lines) && Run(lines, presses, pulses) == Crash ==>
      |Wiring(lines).value.at[FirstInput(Wiring(lines).value)].state.inputs.at.Keys| == 1
  {
    if Wiring(lines).Some? {
      var w := Wiring(lines).value;
      WiringMeaning(lines);
      if CyclesOf(w).Some? {
        PressesCrash(w, Track(CyclesOf(w).value, Empty(), 0, 0), 0, presses, pulses);
        PressesValue(w, Track(CyclesOf(w).value, Empty(), 0, 0), 0, presses, pulses);
      }
    }
  }

  /** With a single watched module the script never prints an answer: it stops with an error or presses for ever. */
  lemma RunSingle(lines: seq<(string, seq<string>)>, presses: nat, pulses: nat)
    requires Starts(lines)
    requires |Wiring(lines).value.at[FirstInput(Wiring(lines).value)].state.inputs.at.Keys| == 1
    ensures !Run(lines, presses, pulses).Value?
  {
    var w := Wiring(lines).value;
    WiringMeaning(lines);
    var c := CyclesOf(w).value;
    PressesCrash(w, Track(c, Empty(), 0, 0), 0, presses, pulses);
    PressesValue(w, Track(c, Empty(), 0, 0), 0, presses, pulses);
    if Run(lines, presses, pulses).Value? {
      var found :| Valid(found) && found.at.Keys == c.at.Keys && |found.keys| > 1 &&
        Run(lines, presses, pulses).n == LcmFold(Values(found));
      ValidSize(found);
    }
  }

  /** When the first module feeding `rx` has no inputs, the script never answers. */
  lemma RunUnwatched(lines: seq<(string, seq<string>)>, presses: nat, pulses: nat)
    requires Starts(lines)
    requires Wiring(lines).value.at[FirstInput(Wiring(lines).value)].state.inputs.at == map[]
    ensures Run(lines, presses, pulses) == OutOfFuel
  {
    var w := Wiring(lines).value;
    WiringMeaning(lines);
    PressesUnwatched(w, Track(CyclesOf(w).value, Empty(), 0, 0), 0, presses, pulses);
  }
}
