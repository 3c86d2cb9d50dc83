/**
 * Snowverload (day 25, part 1): split the wiring diagram into two groups
 * and multiply their sizes.
 *
 * The script cuts nothing. It builds the component map, takes its first
 * key as a fixed start, and for every other component counts connections
 * from the start: a wire straight to the target counts once, and every
 * other neighbour of the start counts once when a breadth-first search from
 * it reaches a neighbour of the target without touching the components of
 * the paths already found. A component with at least four connections joins
 * the start's group; any other joins the second group.
 */
module Day25Part1 {
  import opened Common

  /** A component, by the number its name was given when parsing: distinct names, distinct numbers. */
  type Component = nat

  /** `MAX_CONNECTION_COUNT`. */
  const MaxConnectionCount: nat := 4

  predicate Distinct(s: seq<Component>)
  {
    forall i, j :: 0 <= i < j < |s| ==> s[i] != s[j]
  }

  // ---------------------------------------------------------------------
  // The component map
  // ---------------------------------------------------------------------

  /** `$componentRelations`: the neighbour lists, and the keys in the order the PHP array keeps them. */
  datatype Relations = Relations(keys: seq<Component>, adj: map<Component, seq<Component>>)

  /** The keys are distinct and are exactly the components that have a list. */
  ghost predicate Valid(g: Relations)
  {
    Distinct(g.keys) && forall c :: c in g.adj <==> c in g.keys
  }

  /** `$componentRelations[$c]`: a component without a list has no neighbours, as `foreach` over null visits nothing. */
  function Neighbours(g: Relations, c: Component): seq<Component>
  {
    if c in g.adj then g.adj[c] else []
  }

  /** `$componentRelations[$a][] = $b`: `b` goes at the end of `a`'s list, and a new key at the end of the keys. */
  function Append(g: Relations, a: Component, b: Component): (r: Relations)
    ensures Neighbours(r, a) == Neighbours(g, a) + [b]
    ensures forall c :: c != a ==> Neighbours(r, c) == Neighbours(g, c)
    ensures r.adj.Keys == g.adj.Keys + {a}
    ensures a in g.adj ==> r.keys == g.keys
    ensures a !in g.adj ==> r.keys == g.keys + [a]
  {
    if a in g.adj then Relations(g.keys, g.adj[a := g.adj[a] + [b]])
    else Relations(g.keys + [a], g.adj[a := [b]])
  }

  lemma AppendValid(g: Relations, a: Component, b: Component)
    requires Valid(g)
    ensures Valid(Append(g, a, b))
  {
  }

  /** A wire as a line lists it: the component before the colon and one of those after it. */
  type Wire = (Component, Component)

  /** The wires of the parsed lines, in the order the nested `foreach` visits them. */
  function Wires(lines: seq<(Component, seq<Component>)>): (r: seq<Wire>)
    ensures forall w :: w in r <==> exists i :: 0 <= i < |lines| && w.0 == lines[i].0 && w.1 in lines[i].1
  {
    if |lines| == 0 then []
    else
      var init, last := lines[..|lines| - 1], lines[|lines| - 1];
      var ws := seq(|last.1|, k requires 0 <= k < |last.1| => (last.0, last.1[k]));
      assert forall i :: 0 <= i < |init| ==> init[i] == lines[i];
      assert forall w :: w in ws <==> w.0 == last.0 && w.1 in last.1 by {
        forall w: Wire | w.0 == last.0 && w.1 in last.1
          ensures w in ws
        {
          var k :| 0 <= k < |last.1| && last.1[k] == w.1;
          assert ws[k] == w;
        }
      }
      Wires(init) + ws
  }

  /** Lines 74-75: one wire entered both ways. */
  function Connect(g: Relations, w: Wire): Relations
  {
    Append(Append(g, w.0, w.1), w.1, w.0)
  }

  /** Entering a wire appends its other ends to `c`'s list. */
  lemma ConnectNeighbours(g: Relations, w: Wire, c: Component)
    ensures Neighbours(Connect(g, w), c) == Neighbours(g, c) + Others(w, c)
  {
    var g1 := Append(g, w.0, w.1);
    var a: seq<Component> := if w.0 == c then [w.1] else [];
    var b: seq<Component> := if w.1 == c then [w.0] else [];
    assert Neighbours(g1, c) == Neighbours(g, c) + a;
    assert Neighbours(Connect(g, w), c) == Neighbours(g1, c) + b;
    assert Others(w, c) == a + b;
    assert Neighbours(g, c) + a + b == Neighbours(g, c) + (a + b);
  }

  /** The map after entering the wires in order. */
  function Build(ws: seq<Wire>): (r: Relations)
    ensures Valid(r)
  {
    if |ws| == 0 then Relations([], map[])
    else
      var g, w := Build(ws[..|ws| - 1]), ws[|ws| - 1];
      AppendValid(g, w.0, w.1);
      AppendValid(Append(g, w.0, w.1), w.1, w.0);
      Connect(g, w)
  }

  /** What `c`'s list should hold: for every wire in order, the other end for each of its ends that is `c`. */
  function Listed(ws: seq<Wire>, c: Component): seq<Component>
  {
    if |ws| == 0 then [] else Listed(ws[..|ws| - 1], c) + Others(ws[|ws| - 1], c)
  }

  /** The other end of the wire for each of its ends that is `c`. */
  function Others(w: Wire, c: Component): seq<Component>
  {
    (if w.0 == c then [w.1] else []) + (if w.1 == c then [w.0] else [])
  }

  lemma OthersSymmetric(w: Wire, a: Component, b: Component)
    ensures multiset(Others(w, a))[b] == multiset(Others(w, b))[a]
  {
  }

  /** Every component's list holds the other ends of its wires, in wire order. */
  lemma {:induction false} BuildListed(ws: seq<Wire>, c: Component)
    ensures Neighbours(Build(ws), c) == Listed(ws, c)
    decreases |ws|
  {
    if |ws| > 0 {
      var init, w := ws[..|ws| - 1], ws[|ws| - 1];
      BuildListed(init, c);
      assert Build(ws) == Connect(Build(init), w);
      ConnectNeighbours(Build(init), w, c);
    }
  }

  /** The lists are symmetric: `b` appears in `a`'s list as often as `a` in `b`'s. */
  lemma {:induction false} ListedSymmetric(ws: seq<Wire>, a: Component, b: Component)
    ensures multiset(Listed(ws, a))[b] == multiset(Listed(ws, b))[a]
    decreases |ws|
  {
    if |ws| > 0 {
      var init, w := ws[..|ws| - 1], ws[|ws| - 1];
      ListedSymmetric(init, a, b);
      OthersSymmetric(w, a, b);
      assert multiset(Listed(ws, a)) == multiset(Listed(init, a)) + multiset(Others(w, a));
      assert multiset(Listed(ws, b)) == multiset(Listed(init, b)) + multiset(Others(w, b));
    }
  }

  lemma {:induction false} ListedHas(ws: seq<Wire>, i: int)
    requires 0 <= i < |ws|
    ensures ws[i].1 in Listed(ws, ws[i].0) && ws[i].0 in Listed(ws, ws[i].1)
    decreases |ws|
  {
    if i < |ws| - 1 {
      ListedHas(ws[..|ws| - 1], i);
    }
  }

  /** Lines 73-76: the map is symmetric, and each wire appears in the lists of both its ends. */
  lemma BuildSymmetric(ws: seq<Wire>)
    ensures forall a, b :: multiset(Neighbours(Build(ws), a))[b] == multiset(Neighbours(Build(ws), b))[a]
    ensures forall i :: 0 <= i < |ws| ==> ws[i].1 in Neighbours(Build(ws), ws[i].0) && ws[i].0 in Neighbours(Build(ws), ws[i].1)
  {
    forall a, b
      ensures multiset(Neighbours(Build(ws), a))[b] == multiset(Neighbours(Build(ws), b))[a]
    {
      BuildListed(ws, a);
      BuildListed(ws, b);
      ListedSymmetric(ws, a, b);
    }
    forall i | 0 <= i < |ws|
      ensures ws[i].1 in Neighbours(Build(ws), ws[i].0) && ws[i].0 in Neighbours(Build(ws), ws[i].1)
    {
      BuildListed(ws, ws[i].0);
      BuildListed(ws, ws[i].1);
      ListedHas(ws, i);
    }
  }

  /** Both ends of every wire, in the order the script writes them. */
  function Ends(ws: seq<Wire>): (r: seq<Component>)
    ensures |r| == 2 * |ws|
  {
    if |ws| == 0 then [] else Ends(ws[..|ws| - 1]) + [ws[|ws| - 1].0, ws[|ws| - 1].1]
  }

  /** The components of `s` at their first appearance, in order. */
  function Dedup(s: seq<Component>): (r: seq<Component>)
    ensures |s| > 0 ==> |r| > 0 && r[0] == s[0]
  {
    if |s| == 0 then []
    else
      var d := Dedup(s[..|s| - 1]);
      if s[|s| - 1] in d then d else d + [s[|s| - 1]]
  }

  /** Each component of `s` once, and nothing else. */
  lemma {:induction false} DedupMeaning(s: seq<Component>)
    ensures Distinct(Dedup(s))
    ensures forall c :: c in Dedup(s) <==> c in s
    decreases |s|
  {
    if |s| > 0 {
      DedupMeaning(s[..|s| - 1]);
      assert forall c :: c in s <==> c in s[..|s| - 1] || c == s[|s| - 1];
    }
  }

  lemma EndsSnoc(ws: seq<Wire>)
    requires |ws| > 0
    ensures Ends(ws) == Ends(ws[..|ws| - 1]) + [ws[|ws| - 1].0] + [ws[|ws| - 1].1]
  {
  }

  lemma BuildSnoc(ws: seq<Wire>)
    requires |ws| > 0
    ensures Build(ws) == Append(Append(Build(ws[..|ws| - 1]), ws[|ws| - 1].0, ws[|ws| - 1].1), ws[|ws| - 1].1, ws[|ws| - 1].0)
  {
  }

  lemma AppendKeys(g: Relations, a: Component, b: Component)
    requires Valid(g)
    ensures Append(g, a, b).keys == if a in g.keys then g.keys else g.keys + [a]
  {
  }

  lemma DedupSnoc(s: seq<Component>, x: Component)
    ensures Dedup(s + [x]) == if x in Dedup(s) then Dedup(s) else Dedup(s) + [x]
  {
    assert (s + [x])[..|s|] == s;
  }

  /** The keys are the wires' ends at their first appearance: line by line, the component before the colon ahead of those after it. */
  lemma {:induction false} BuildKeys(ws: seq<Wire>)
    ensures Build(ws).keys == Dedup(Ends(ws))
    decreases |ws|
  {
    if |ws| > 0 {
      var init, w := ws[..|ws| - 1], ws[|ws| - 1];
      BuildKeys(init);
      var e0 := Ends(init);
      var e1 := e0 + [w.0];
      EndsSnoc(ws);
      DedupSnoc(e0, w.0);
      DedupSnoc(e1, w.1);
      var g0 := Build(init);
      var g1 := Append(g0, w.0, w.1);
      AppendKeys(g0, w.0, w.1);
      AppendValid(g0, w.0, w.1);
      AppendKeys(g1, w.1, w.0);
      BuildSnoc(ws);
    }
  }

  lemma {:induction false} EndsFirst(ws: seq<Wire>)
    requires |ws| > 0
    ensures Ends(ws)[0] == ws[0].0
    decreases |ws|
  {
    if |ws| > 1 {
      EndsFirst(ws[..|ws| - 1]);
    }
  }

  /** `array_key_first`: with at least one wire, the start is the component before the colon on the first line. */
  lemma StartIsFirst(ws: seq<Wire>)
    requires |ws| > 0
    ensures |Build(ws).keys| > 0 && Build(ws).keys[0] == ws[0].0
  {
    BuildKeys(ws);
    EndsFirst(ws);
  }

  // ---------------------------------------------------------------------
  // processConnectedComponents
  // ---------------------------------------------------------------------

  /** A queued search state: the component reached and the path to it, from the start's neighbour on. */
  type Entry = (Component, seq<Component>)

  /** One dequeued component's neighbours scanned: the target among them, or the grown queue and `$processedComponents`. */
  datatype Scan = Reached | Grown(queue: seq<Entry>, processed: seq<Component>)

  /** The `elseif` test of line 42: not the target, not yet queued, not on this path, not on a path already found. */
  predicate Admits(target: Component, visited: seq<Component>, path: seq<Component>, processed: seq<Component>, a: Component)
  {
    a != target && a !in processed && a !in path && a !in visited
  }

  /**
   * The inner `foreach` (lines 36-46) from index `j` of the neighbour list:
   * it reaches the target exactly when the target is among the rest of the
   * list; otherwise each component it adds passed the line-42 test and is
   * queued with the path extended by it.
   */
  function ScanFrom(target: Component, visited: seq<Component>, path: seq<Component>, ns: seq<Component>, j: int,
                    queue: seq<Entry>, processed: seq<Component>): (r: Scan)
    requires 0 <= j <= |ns|
    ensures r.Reached? <==> target in ns[j..]
    ensures r.Grown? ==> |queue| <= |r.queue| && r.queue[..|queue|] == queue
    ensures r.Grown? ==> |processed| <= |r.processed| && r.processed[..|processed|] == processed
    ensures r.Grown? ==> |r.processed| - |processed| == |r.queue| - |queue|
    ensures r.Grown? ==> forall k :: |processed| <= k < |r.processed| ==>
      r.processed[k] in ns && Admits(target, visited, path, processed, r.processed[k]) &&
      r.queue[|queue| + (k - |processed|)] == (r.processed[k], path + [r.processed[k]])
    decreases |ns| - j
  {
    if j == |ns| then Grown(queue, processed)
    else
      var a := ns[j];
      assert ns[j..] == [a] + ns[j + 1..];
      if target == a then Reached
      else if a !in processed && a !in path && a !in visited then
        var q, p := queue + [(a, path + [a])], processed + [a];
        var r := ScanFrom(target, visited, path, ns, j + 1, q, p);
        assert r.Grown? ==> r.processed[|processed|] == a && r.queue[|queue|] == (a, path + [a]) by {
          if r.Grown? {
            assert r.processed[..|p|][|processed|] == a;
            assert r.queue[..|q|][|queue|] == (a, path + [a]);
          }
        }
        assert r.Grown? ==> r.processed[..|processed|] == processed by {
          if r.Grown? {
            assert r.processed[..|processed|] == r.processed[..|p|][..|processed|];
          }
        }
        assert r.Grown? ==> r.queue[..|queue|] == queue by {
          if r.Grown? {
            assert r.queue[..|queue|] == r.queue[..|q|][..|queue|];
          }
        }
        r
      else
        ScanFrom(target, visited, path, ns, j + 1, queue, processed)
  }

  /** Every component some list names. */
  ghost function Universe(g: Relations): set<Component>
  {
    set k, c | k in g.adj && c in g.adj[k] :: c
  }

  ghost function Members(s: seq<Component>): set<Component>
  {
    set c | c in s
  }

  lemma Shrinks(u: set<Component>, p: set<Component>, p2: set<Component>, a: Component)
    requires p + {a} <= p2 && a in u && a !in p
    ensures |u - p2| < |u - p|
  {
    var small, big := u - p2, u - p;
    assert big == small + (big - small);
    assert a in big - small;
  }

  /**
   * A path the search may hold: it starts at `head`, each component is a
   * neighbour of the one before, no component appears twice or is the
   * target, and nothing after the head is on a path already found.
   */
  predicate Clear(g: Relations, target: Component, visited: seq<Component>, head: Component, path: seq<Component>)
  {
    && |path| > 0 && path[0] == head && Distinct(path) && target !in path
    && (forall k :: 0 < k < |path| ==> path[k] in Neighbours(g, path[k - 1]))
    && (forall k :: 0 < k < |path| ==> path[k] !in visited)
  }

  /** Every queued path is clear and ends at its entry's component. */
  predicate QueueClear(g: Relations, target: Component, visited: seq<Component>, head: Component, queue: seq<Entry>)
  {
    forall i :: 0 <= i < |queue| ==> Clear(g, target, visited, head, queue[i].1) && queue[i].1[|queue[i].1| - 1] == queue[i].0
  }

  /** A clear path extended by an admitted neighbour of its end is clear. */
  lemma ClearExtend(g: Relations, target: Component, visited: seq<Component>, head: Component, path: seq<Component>,
                    processed: seq<Component>, a: Component)
    requires Clear(g, target, visited, head, path)
    requires a in Neighbours(g, path[|path| - 1]) && Admits(target, visited, path, processed, a)
    ensures Clear(g, target, visited, head, path + [a])
  {
    var p := path + [a];
    forall k | 0 < k < |p|
      ensures p[k] in Neighbours(g, p[k - 1])
    {
      if k < |path| {
        assert p[k] == path[k] && p[k - 1] == path[k - 1];
      }
    }
  }

  /** The queue after a scan that did not reach the target is still clear. */
  lemma ScanClear(g: Relations, target: Component, visited: seq<Component>, head: Component, queue: seq<Entry>,
                  processed: seq<Component>, s: Scan)
    requires |queue| > 0 && QueueClear(g, target, visited, head, queue)
    requires s == ScanFrom(target, visited, queue[0].1, Neighbours(g, queue[0].0), 0, queue[1..], processed)
    requires s.Grown?
    ensures QueueClear(g, target, visited, head, s.queue)
  {
    var path := queue[0].1;
    assert Clear(g, target, visited, head, path) && path[|path| - 1] == queue[0].0;
    var n := |queue| - 1;
    forall i | 0 <= i < |s.queue|
      ensures Clear(g, target, visited, head, s.queue[i].1) && s.queue[i].1[|s.queue[i].1| - 1] == s.queue[i].0
    {
      if i < n {
        assert s.queue[i] == s.queue[..n][i] == queue[i + 1];
      } else {
        var k := |processed| + (i - n);
        var a := s.processed[k];
        assert s.queue[i] == (a, path + [a]);
        ClearExtend(g, target, visited, head, path, processed, a);
      }
    }
  }

  /**
   * The `while` loop of lines 33-47 with the count below the cap: breadth
   * first from the queue, it returns the first path whose end has the target
   * for a neighbour, or nothing once the queue runs dry. With every queued
   * path clear, the path it returns is clear and ends next to the target.
   */
  function Search(g: Relations, target: Component, visited: seq<Component>, queue: seq<Entry>, processed: seq<Component>,
                  ghost head: Component): (r: Option<seq<Component>>)
    ensures QueueClear(g, target, visited, head, queue) && r.Some? ==>
      Clear(g, target, visited, head, r.value) && target in Neighbours(g, r.value[|r.value| - 1])
    decreases |Universe(g) - Members(processed)|, |queue|
  {
    if |queue| == 0 then None
    else
      var s := ScanFrom(target, visited, queue[0].1, Neighbours(g, queue[0].0), 0, queue[1..], processed);
      if s.Reached? then
        assert Neighbours(g, queue[0].0)[0..] == Neighbours(g, queue[0].0);
        Some(queue[0].1)
      else
        assert QueueClear(g, target, visited, head, queue) ==> QueueClear(g, target, visited, head, s.queue) by {
          if QueueClear(g, target, visited, head, queue) {
            ScanClear(g, target, visited, head, queue, processed, s);
          }
        }
        assert |s.processed| == |processed| ==> s.processed == processed && |s.queue| < |queue|;
        assert |s.processed| > |processed| ==> |Universe(g) - Members(s.processed)| < |Universe(g) - Members(processed)| by {
          if |s.processed| > |processed| {
            var a := s.processed[|processed|];
            var q := queue[0].0;
            assert a in Neighbours(g, q) && a !in processed;
            assert a in Universe(g);
            forall c | c in processed
              ensures c in s.processed
            {
              var k :| 0 <= k < |processed| && processed[k] == c;
              assert s.processed[..|processed|][k] == c;
            }
            Shrinks(Universe(g), Members(processed), Members(s.processed), a);
          }
        }
        Search(g, target, visited, s.queue, s.processed, head)
  }

  /** The paths one after another. */
  function Flatten(ps: seq<seq<Component>>): seq<Component>
  {
    if |ps| == 0 then [] else Flatten(ps[..|ps| - 1]) + ps[|ps| - 1]
  }

  /** What the `foreach` over the start's neighbours has gathered: the count, `$visitedComponents`, and the paths found. */
  datatype Tally = Tally(count: nat, visited: seq<Component>, paths: seq<seq<Component>>)

  /**
   * The paths found so far: no more than the count nor the cap; the visited
   * list is the start then the paths; each path starts at a neighbour of the
   * start, ends next to the target, and after its head avoids the start and
   * every path found before it.
   */
  predicate Sound(g: Relations, start: Component, target: Component, t: Tally)
  {
    && |t.paths| <= t.count && |t.paths| <= MaxConnectionCount
    && t.visited == [start] + Flatten(t.paths)
    && forall i :: 0 <= i < |t.paths| ==> PathOk(g, start, target, t.paths, i)
  }

  predicate PathOk(g: Relations, start: Component, target: Component, ps: seq<seq<Component>>, i: int)
    requires 0 <= i < |ps|
  {
    var p := ps[i];
    && |p| > 0 && p[0] in Neighbours(g, start)
    && Clear(g, target, [start] + Flatten(ps[..i]), p[0], p)
    && target in Neighbours(g, p[|p| - 1])
  }

  /** One more path keeps the gathered paths sound. */
  lemma SoundStep(g: Relations, start: Component, target: Component, t: Tally, p: seq<Component>)
    requires Sound(g, start, target, t) && t.count < MaxConnectionCount
    requires |p| > 0 && p[0] in Neighbours(g, start)
    requires Clear(g, target, t.visited, p[0], p) && target in Neighbours(g, p[|p| - 1])
    ensures Sound(g, start, target, Tally(t.count + 1, t.visited + p, t.paths + [p]))
  {
    var ps := t.paths + [p];
    assert ps[..|ps| - 1] == t.paths;
    forall i | 0 <= i < |ps|
      ensures PathOk(g, start, target, ps, i)
    {
      if i < |t.paths| {
        assert ps[i] == t.paths[i] && ps[..i] == t.paths[..i];
        assert PathOk(g, start, target, t.paths, i);
      }
    }
  }

  /** The number of times `c` occurs in `s`. */
  function Occurrences(s: seq<Component>, c: Component): nat
  {
    multiset(s)[c]
  }

  /**
   * The outer `foreach` (lines 22-48) from index `j` of the start's list:
   * each entry equal to the target adds one; each other entry adds one when
   * its search finds a path, which it tries only below the cap. The count is
   * what it came in with plus the direct wires plus the paths found.
   */
  function Trace(g: Relations, start: Component, target: Component, j: int, t: Tally): (r: Tally)
    requires 0 <= j <= |Neighbours(g, start)|
    ensures |t.paths| <= |r.paths| && r.paths[..|t.paths|] == t.paths
    ensures r.count == t.count + Occurrences(Neighbours(g, start)[j..], target) + (|r.paths| - |t.paths|)
    ensures r.count <= t.count + (|Neighbours(g, start)| - j)
    ensures t.count >= MaxConnectionCount ==> r.paths == t.paths
    decreases |Neighbours(g, start)| - j
  {
    var ns := Neighbours(g, start);
    if j == |ns| then t
    else
      var c := ns[j];
      assert ns[j..] == [c] + ns[j + 1..];
      assert Occurrences(ns[j..], target) == Occurrences(ns[j + 1..], target) + if c == target then 1 else 0;
      if c == target then Trace(g, start, target, j + 1, t.(count := t.count + 1))
      else
        match Attempt(g, target, t, c)
        case Some(p) =>
          var u := Tally(t.count + 1, t.visited + p, t.paths + [p]);
          var r := Trace(g, start, target, j + 1, u);
          assert r.paths[..|t.paths|] == r.paths[..|u.paths|][..|t.paths|];
          r
        case None => Trace(g, start, target, j + 1, t)
  }

  /** Lines 28-47 for neighbour `c`: a search from it, run only below the cap. */
  function Attempt(g: Relations, target: Component, t: Tally, c: Component): Option<seq<Component>>
  {
    if t.count < MaxConnectionCount then Search(g, target, t.visited, [(c, [c])], [], c) else None
  }

  /** A path a search from `c` finds is clear, starts at `c`, and ends next to the target; none is tried at the cap. */
  lemma AttemptClear(g: Relations, target: Component, t: Tally, c: Component)
    requires c != target
    ensures Attempt(g, target, t, c).Some? ==> t.count < MaxConnectionCount
    ensures Attempt(g, target, t, c).Some? ==> var p := Attempt(g, target, t, c).value;
      Clear(g, target, t.visited, c, p) && target in Neighbours(g, p[|p| - 1])
  {
    assert QueueClear(g, target, t.visited, c, [(c, [c])]);
  }

  /** The outer `foreach` keeps the gathered paths sound. */
  lemma {:induction false} TraceSound(g: Relations, start: Component, target: Component, j: int, t: Tally)
    requires 0 <= j <= |Neighbours(g, start)| && Sound(g, start, target, t)
    ensures Sound(g, start, target, Trace(g, start, target, j, t))
    decreases |Neighbours(g, start)| - j
  {
    var ns := Neighbours(g, start);
    if j < |ns| {
      var c := ns[j];
      if c == target {
        var u := t.(count := t.count + 1);
        assert Trace(g, start, target, j, t) == Trace(g, start, target, j + 1, u);
        assert Sound(g, start, target, u) by {
          assert u.paths == t.paths && u.visited == t.visited;
        }
        TraceSound(g, start, target, j + 1, u);
      } else {
        match Attempt(g, target, t, c)
        case Some(p) =>
          var u := Tally(t.count + 1, t.visited + p, t.paths + [p]);
          assert Trace(g, start, target, j, t) == Trace(g, start, target, j + 1, u);
          AttemptClear(g, target, t, c);
          SoundStep(g, start, target, t, p);
          TraceSound(g, start, target, j + 1, u);
        case None =>
          assert Trace(g, start, target, j, t) == Trace(g, start, target, j + 1, t);
          TraceSound(g, start, target, j + 1, t);
      }
    }
  }

  /** The paths the searches find for `target`, in order. */
  function Paths(g: Relations, start: Component, target: Component): seq<seq<Component>>
  {
    Trace(g, start, target, 0, Tally(0, [start], [])).paths
  }

  /**
   * `processConnectedComponents`: the wires from the start straight to the
   * target plus the paths found, at most one per neighbour of the start, and
   * never more than four paths.
   */
  function ProcessConnectedComponents(g: Relations, start: Component, target: Component): (r: nat)
    ensures r == Occurrences(Neighbours(g, start), target) + |Paths(g, start, target)|
    ensures r <= |Neighbours(g, start)|
    ensures |Paths(g, start, target)| <= MaxConnectionCount
  {
    var t := Trace(g, start, target, 0, Tally(0, [start], []));
    assert Neighbours(g, start)[0..] == Neighbours(g, start);
    assert Sound(g, start, target, Tally(0, [start], []));
    TraceSound(g, start, target, 0, Tally(0, [start], []));
    t.count
  }

  /**
   * Lines 39 and 42: each path found starts at a neighbour of the start,
   * ends next to the target, repeats no component, and after its head avoids
   * the start and every component of the paths found before it.
   */
  lemma PathsDisjoint(g: Relations, start: Component, target: Component)
    ensures forall i :: 0 <= i < |Paths(g, start, target)| ==> PathOk(g, start, target, Paths(g, start, target), i)
  {
    assert Sound(g, start, target, Tally(0, [start], []));
    TraceSound(g, start, target, 0, Tally(0, [start], []));
  }

  // ---------------------------------------------------------------------
  // multipleSizesOfGroups
  // ---------------------------------------------------------------------

  /** At least four connections: the component joins the start's group. */
  predicate Joined(g: Relations, start: Component, c: Component)
  {
    ProcessConnectedComponents(g, start, c) >= MaxConnectionCount
  }

  /** The key positions from `i` on whose component joins the start's group. */
  ghost function JoinedFrom(g: Relations, start: Component, i: int): set<int>
  {
    set k | 0 <= k < |g.keys| && i <= k && Joined(g, start, g.keys[k])
  }

  lemma JoinedSplit(g: Relations, start: Component, i: int)
    requires 0 <= i < |g.keys|
    ensures i !in JoinedFrom(g, start, i + 1)
    ensures JoinedFrom(g, start, i) == JoinedFrom(g, start, i + 1) + if Joined(g, start, g.keys[i]) then {i} else {}
  {
  }

  /** The `foreach` of lines 81-89 from key `i` on: how many join the start's group and how many do not. */
  function Groups(g: Relations, start: Component, i: int): (r: (nat, nat))
    requires 0 <= i <= |g.keys|
    ensures r.0 + r.1 == |g.keys| - i
    ensures r.0 == |JoinedFrom(g, start, i)|
    decreases |g.keys| - i
  {
    if i == |g.keys| then
      assert JoinedFrom(g, start, i) == {};
      (0, 0)
    else
      var r := Groups(g, start, i + 1);
      JoinedSplit(g, start, i);
      if Joined(g, start, g.keys[i]) then (r.0 + 1, r.1) else (r.0, r.1 + 1)
  }

  /** The product of the two group sizes, with `joined` components besides the start in its group out of `keys`. */
  function Sizes(joined: int, keys: int): (r: int)
    ensures 0 <= joined <= keys - 1 ==> r >= 0
  {
    assert 0 <= joined <= keys - 1 ==> (1 + joined) * (keys - 1 - joined) >= 0 by {
      if 0 <= joined <= keys - 1 {
        MulNonNegative(1 + joined, keys - 1 - joined);
      }
    }
    (1 + joined) * (keys - 1 - joined)
  }

  lemma MulNonNegative(a: int, b: int)
    requires a >= 0 && b >= 0
    ensures a * b >= 0
  {
  }

  /** `multipleSizesOfGroups` on the built map: no keys give 0; otherwise the start's group is the start and the other keys that join it, and the second group the remaining keys. */
  function MultipleSizesOfGroups(g: Relations): (r: nat)
    ensures |g.keys| == 0 ==> r == 0
    ensures |g.keys| > 0 ==> |JoinedFrom(g, g.keys[0], 1)| <= |g.keys| - 1 && r == Sizes(|JoinedFrom(g, g.keys[0], 1)|, |g.keys|)
  {
    if |g.keys| == 0 then 0
    else
      var r := Groups(g, g.keys[0], 1);
      Sizes(r.0, |g.keys|)
  }

  /** The script on the parsed lines: no wires give 0; otherwise the start is the first wire's first end. */
  function Answer(lines: seq<(Component, seq<Component>)>): (r: nat)
    ensures |Wires(lines)| == 0 ==> r == 0
    ensures |Wires(lines)| > 0 ==>
      (var g := Build(Wires(lines)); r == Sizes(|JoinedFrom(g, Wires(lines)[0].0, 1)|, |g.keys|))
  {
    var ws := Wires(lines);
    assert |ws| > 0 ==> Build(ws).keys[0] == ws[0].0 by {
      if |ws| > 0 {
        StartIsFirst(ws);
      }
    }
    MultipleSizesOfGroups(Build(ws))
  }
}
