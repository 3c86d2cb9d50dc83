/**
 * The search both crucible puzzles (day 17) run: a best-first search over
 * states with a priority queue ordered by accumulated heat loss, a set of
 * states already expanded, and an early return at the first goal state taken
 * off the queue.
 *
 * The search is stated once over any state type `S`. `seeds` are the entries
 * queued first (a state and its heat loss), `succ(s)` lists the states the
 * script enqueues when it expands `s`, each with the heat lost on the way,
 * and `goal` tests the destination. The queue is a sequence of (state, heat
 * loss) entries and extraction may take ANY entry of least heat loss, so the
 * results hold for every tie-break the library queue may make.
 */
module Day17Search {
  import opened Common

  /** A walk: a seed, then each entry a successor of the state before it. */
  ghost predicate IsWalk<S(!new)>(seeds: seq<(S, nat)>, succ: S -> seq<(S, nat)>, w: seq<(S, nat)>)
  {
    && |w| > 0
    && w[0] in seeds
    && forall i, j :: 0 <= i < j < |w| && j == i + 1 ==> w[j] in succ(w[i].0)
  }

  /** The heat lost along a walk. */
  function Cost<S(!new)>(w: seq<(S, nat)>): nat
  {
    if |w| == 0 then 0 else Cost(w[..|w| - 1]) + w[|w| - 1].1
  }

  /** A walk ending in state `s` with heat loss `c`. */
  ghost predicate WalkTo<S(!new)>(seeds: seq<(S, nat)>, succ: S -> seq<(S, nat)>, w: seq<(S, nat)>, s: S, c: nat)
  {
    IsWalk(seeds, succ, w) && w[|w| - 1].0 == s && Cost(w) == c
  }

  /** A walk that ends in a goal state. */
  ghost predicate GoalWalk<S(!new)>(seeds: seq<(S, nat)>, succ: S -> seq<(S, nat)>, goal: S -> bool, w: seq<(S, nat)>)
  {
    IsWalk(seeds, succ, w) && goal(w[|w| - 1].0)
  }

  /** A prefix of a walk loses no more heat than the walk. */
  lemma {:induction false} CostPrefix<S(!new)>(w: seq<(S, nat)>, k: nat)
    requires k <= |w|
    ensures Cost(w[..k]) <= Cost(w)
    decreases |w|
  {
    if k < |w| {
      assert w[..|w| - 1][..k] == w[..k];
      CostPrefix(w[..|w| - 1], k);
    } else {
      assert w[..k] == w;
    }
  }

  /** The entries queued when a state of heat loss `c` is expanded: each successor with the heat loss so far added. */
  function Push<S(!new)>(es: seq<(S, nat)>, c: nat): (m: seq<(S, nat)>)
    ensures |m| == |es|
    ensures forall i :: 0 <= i < |es| ==> m[i] == (es[i].0, c + es[i].1)
  {
    seq(|es|, i requires 0 <= i < |es| => (es[i].0, c + es[i].1))
  }

  /** Every state along a walk lies in a universe that holds the seeds and is closed under `succ`. */
  lemma {:induction false} WalkStaysIn<S(!new)>(seeds: seq<(S, nat)>, succ: S -> seq<(S, nat)>, universe: set<S>,
                                              w: seq<(S, nat)>, i: nat)
    requires forall j :: 0 <= j < |seeds| ==> seeds[j].0 in universe
    requires forall s, t :: s in universe && t in succ(s) ==> t.0 in universe
    requires IsWalk(seeds, succ, w) && i < |w|
    ensures w[i].0 in universe
  {
    if i == 0 {
      var j :| 0 <= j < |seeds| && seeds[j] == w[0];
    } else {
      WalkStaysIn(seeds, succ, universe, w, i - 1);
      assert w[i] in succ(w[i - 1].0);
    }
  }

  /** Every successor is queued with the heat loss so far plus the heat lost on the way. */
  lemma PushHas<S(!new)>(es: seq<(S, nat)>, c: nat)
    ensures forall t :: t in es ==> (t.0, c + t.1) in Push(es, c)
  {
    var m := Push(es, c);
    forall t | t in es
      ensures (t.0, c + t.1) in m
    {
      var i :| 0 <= i < |es| && es[i] == t;
      assert m[i] == (t.0, c + t.1);
    }
  }

  /** Nothing but the successors is queued. */
  lemma PushOnly<S(!new)>(es: seq<(S, nat)>, c: nat)
    ensures forall q :: q in Push(es, c) ==> exists t :: t in es && q == (t.0, c + t.1)
  {
    var m := Push(es, c);
    forall q | q in m
      ensures exists t :: t in es && q == (t.0, c + t.1)
    {
      var i :| 0 <= i < |m| && m[i] == q;
      assert es[i] in es;
    }
  }

  /** The queue with its entry at position `k` taken off. */
  function Remove<S(!new)>(frontier: seq<(S, nat)>, k: nat): (f: seq<(S, nat)>)
    requires k < |frontier|
    ensures |f| == |frontier| - 1
    ensures forall x :: x in f ==> x in frontier
    ensures forall x :: x in frontier && x != frontier[k] ==> x in f
  {
    var f := frontier[..k] + frontier[k + 1..];
    assert forall x :: x in frontier && x != frontier[k] ==> x in f by {
      forall x | x in frontier && x != frontier[k]
        ensures x in f
      {
        var i :| 0 <= i < |frontier| && frontier[i] == x;
        if i < k {
          assert f[i] == x;
        } else {
          assert f[i - 1] == x;
        }
      }
    }
    f
  }

  /** Position `k` holds an entry of least heat loss. */
  predicate Least<S(!new)>(frontier: seq<(S, nat)>, k: int)
  {
    0 <= k < |frontier| && forall i :: 0 <= i < |frontier| ==> frontier[k].1 <= frontier[i].1
  }

  /** A queued entry for `s` with heat loss at most `bound`. */
  ghost predicate Pending<S(!new)>(frontier: seq<(S, nat)>, s: S, bound: nat)
  {
    exists c :: (s, c) in frontier && c <= bound
  }

  /** `s` is queued, or was expanded, with heat loss at most `bound`. */
  ghost predicate Reached<S(!new)>(frontier: seq<(S, nat)>, e: map<S, nat>, s: S, bound: nat)
  {
    Pending(frontier, s, bound) || (s in e && e[s] <= bound)
  }

  /** Every entry queued is the end of a walk with that heat loss, and no cheaper than the last extraction. */
  ghost predicate Sound<S(!new)>(seeds: seq<(S, nat)>, succ: S -> seq<(S, nat)>, frontier: seq<(S, nat)>, last: nat)
  {
    forall q :: q in frontier ==>
      && last <= q.1
      && exists w :: WalkTo(seeds, succ, w, q.0, q.1)
  }

  /** Every successor of expanded state `v` is reached within `v`'s heat loss plus the step. */
  ghost predicate SuccReached<S(!new)>(succ: S -> seq<(S, nat)>, frontier: seq<(S, nat)>, e: map<S, nat>, v: S)
    requires v in e
  {
    forall t :: t in succ(v) ==> Reached(frontier, e, t.0, e[v] + t.1)
  }

  /**
   * What the search knows between two extractions: `e` maps each expanded
   * state to the heat loss it was expanded with, and `last` is the heat loss
   * of the latest extraction.
   */
  ghost predicate Inv<S(!new)>(seeds: seq<(S, nat)>, succ: S -> seq<(S, nat)>, goal: S -> bool, universe: set<S>,
                         frontier: seq<(S, nat)>, e: map<S, nat>, last: nat)
  {
    && Sound(seeds, succ, frontier, last)
    && (forall i :: 0 <= i < |seeds| ==> Reached(frontier, e, seeds[i].0, seeds[i].1))
    && (forall v :: v in e ==> e[v] <= last && !goal(v) && v in universe && SuccReached(succ, frontier, e, v))
    && (forall q :: q in frontier ==> q.0 in universe)
  }

  /** The queue holding exactly the seeds satisfies the invariant. */
  lemma InitInv<S(!new)>(seeds: seq<(S, nat)>, succ: S -> seq<(S, nat)>, goal: S -> bool, universe: set<S>)
    requires forall i :: 0 <= i < |seeds| ==> seeds[i].0 in universe
    ensures Inv(seeds, succ, goal, universe, seeds, map[], 0)
  {
    forall q | q in seeds
      ensures exists w :: WalkTo(seeds, succ, w, q.0, q.1)
    {
      var w := [q];
      assert Cost(w) == Cost(w[..0]) + q.1;
      assert WalkTo(seeds, succ, w, q.0, q.1);
    }
    forall i | 0 <= i < |seeds|
      ensures Reached(seeds, map[], seeds[i].0, seeds[i].1)
    {
      assert (seeds[i].0, seeds[i].1) in seeds;
    }
  }

  /** A larger bound is no harder to reach. */
  lemma ReachedMono<S(!new)>(frontier: seq<(S, nat)>, e: map<S, nat>, s: S, b: nat, b': nat)
    requires Reached(frontier, e, s, b) && b <= b'
    ensures Reached(frontier, e, s, b')
  {
  }

  /**
   * Following a goal walk from step `i` on, where step `i` is already
   * reached within the walk's heat loss so far, leads to a queued entry no
   * dearer than the whole walk.
   */
  lemma {:induction false} Chase<S(!new)>(seeds: seq<(S, nat)>, succ: S -> seq<(S, nat)>, goal: S -> bool, universe: set<S>,
                                    frontier: seq<(S, nat)>, e: map<S, nat>, last: nat, w: seq<(S, nat)>, i: nat)
    requires Inv(seeds, succ, goal, universe, frontier, e, last)
    requires GoalWalk(seeds, succ, goal, w) && i < |w|
    requires Reached(frontier, e, w[i].0, Cost(w[..i + 1]))
    ensures exists q :: q in frontier && q.1 <= Cost(w)
    decreases |w| - i
  {
    CostPrefix(w, i + 1);
    if Pending(frontier, w[i].0, Cost(w[..i + 1])) {
      var c :| (w[i].0, c) in frontier && c <= Cost(w[..i + 1]);
      assert (w[i].0, c) in frontier && c <= Cost(w);
    } else {
      var v := w[i].0;
      assert v in e && !goal(v);
      assert i < |w| - 1;
      assert SuccReached(succ, frontier, e, v);
      assert w[i + 1] in succ(w[i].0);
      assert w[..i + 2][..i + 1] == w[..i + 1];
      ReachedMono(frontier, e, w[i + 1].0, e[v] + w[i + 1].1, Cost(w[..i + 2]));
      Chase(seeds, succ, goal, universe, frontier, e, last, w, i + 1);
    }
  }

  /** Every goal walk has a queued entry no dearer than it. */
  lemma Covered<S(!new)>(seeds: seq<(S, nat)>, succ: S -> seq<(S, nat)>, goal: S -> bool, universe: set<S>,
                   frontier: seq<(S, nat)>, e: map<S, nat>, last: nat, w: seq<(S, nat)>)
    requires Inv(seeds, succ, goal, universe, frontier, e, last)
    requires GoalWalk(seeds, succ, goal, w)
    ensures exists q :: q in frontier && q.1 <= Cost(w)
  {
    var i :| 0 <= i < |seeds| && seeds[i] == w[0];
    assert Cost(w[..1]) == Cost(w[..1][..0]) + w[0].1;
    Chase(seeds, succ, goal, universe, frontier, e, last, w, 0);
  }

  /** `v` is the least heat loss over the goal walks, and one of them loses exactly that. */
  ghost predicate Answer<S(!new)>(seeds: seq<(S, nat)>, succ: S -> seq<(S, nat)>, goal: S -> bool, v: nat)
  {
    && (exists w :: GoalWalk(seeds, succ, goal, w) && Cost(w) == v)
    && (forall w :: GoalWalk(seeds, succ, goal, w) ==> v <= Cost(w))
  }

  /** An empty queue means no goal walk exists. */
  lemma EmptyDone<S(!new)>(seeds: seq<(S, nat)>, succ: S -> seq<(S, nat)>, goal: S -> bool, universe: set<S>,
                           e: map<S, nat>, last: nat)
    requires Inv(seeds, succ, goal, universe, [], e, last)
    ensures forall w :: !GoalWalk(seeds, succ, goal, w)
  {
    forall w | GoalWalk(seeds, succ, goal, w)
      ensures false
    {
      Covered(seeds, succ, goal, universe, [], e, last, w);
    }
  }

  /** A least entry taken off the queue at a goal state is the least heat loss over all goal walks. */
  lemma FoundGoal<S(!new)>(seeds: seq<(S, nat)>, succ: S -> seq<(S, nat)>, goal: S -> bool, universe: set<S>,
                           frontier: seq<(S, nat)>, e: map<S, nat>, last: nat, k: nat)
    requires Inv(seeds, succ, goal, universe, frontier, e, last)
    requires Least(frontier, k) && goal(frontier[k].0)
    ensures Answer(seeds, succ, goal, frontier[k].1)
  {
    var q := frontier[k];
    assert q in frontier;
    var w :| WalkTo(seeds, succ, w, q.0, q.1);
    assert GoalWalk(seeds, succ, goal, w);
    forall w' | GoalWalk(seeds, succ, goal, w')
      ensures q.1 <= Cost(w')
    {
      Covered(seeds, succ, goal, universe, frontier, e, last, w');
    }
  }

  /** A non-empty queue has an entry of least heat loss. */
  lemma {:induction false} MinExists<S(!new)>(frontier: seq<(S, nat)>)
    requires |frontier| > 0
    ensures exists k :: Least(frontier, k)
  {
    if |frontier| > 1 {
      var init := frontier[..|frontier| - 1];
      MinExists(init);
      var k :| Least(init, k);
      if frontier[|frontier| - 1].1 < frontier[k].1 {
        assert Least(frontier, |frontier| - 1);
      } else {
        assert Least(frontier, k);
      }
    } else {
      assert Least(frontier, 0);
    }
  }

  /** Dropping a least entry whose state was already expanded keeps the invariant. */
  lemma SkipStep<S(!new)>(seeds: seq<(S, nat)>, succ: S -> seq<(S, nat)>, goal: S -> bool, universe: set<S>,
                          frontier: seq<(S, nat)>, e: map<S, nat>, last: nat, k: nat)
    requires Inv(seeds, succ, goal, universe, frontier, e, last)
    requires Least(frontier, k) && frontier[k].0 in e
    ensures Inv(seeds, succ, goal, universe, Remove(frontier, k), e, frontier[k].1)
  {
    var q := frontier[k];
    var f' := Remove(frontier, k);
    forall x, b: nat | Reached(frontier, e, x, b)
      ensures Reached(f', e, x, b)
    {
      RemoveReached(frontier, k, e, x, b);
    }
    forall v | v in e
      ensures SuccReached(succ, f', e, v)
    {
      assert SuccReached(succ, frontier, e, v);
    }
    forall p | p in f'
      ensures q.1 <= p.1
    {
      var i :| 0 <= i < |frontier| && frontier[i] == p;
    }
  }

  /** Taking off the entry at `k` loses nothing reached, provided that entry's state was expanded within its heat loss. */
  lemma RemoveReached<S(!new)>(frontier: seq<(S, nat)>, k: nat, e: map<S, nat>, x: S, b: nat)
    requires k < |frontier| && frontier[k].0 in e && e[frontier[k].0] <= frontier[k].1
    requires Reached(frontier, e, x, b)
    ensures Reached(Remove(frontier, k), e, x, b)
  {
    if !(x in e && e[x] <= b) {
      var c :| (x, c) in frontier && c <= b;
      if (x, c) != frontier[k] {
        assert (x, c) in Remove(frontier, k);
      }
    }
  }

  /** The queued successors of an expanded state end walks of their heat loss and are dearer than it. */
  lemma PushSound<S(!new)>(seeds: seq<(S, nat)>, succ: S -> seq<(S, nat)>, s: S, c: nat)
    requires exists w :: WalkTo(seeds, succ, w, s, c)
    ensures forall p :: p in Push(succ(s), c) ==> c <= p.1 && exists w :: WalkTo(seeds, succ, w, p.0, p.1)
  {
    PushOnly(succ(s), c);
    var ws :| WalkTo(seeds, succ, ws, s, c);
    forall p | p in Push(succ(s), c)
      ensures c <= p.1 && exists w :: WalkTo(seeds, succ, w, p.0, p.1)
    {
      var t :| t in succ(s) && p == (t.0, c + t.1);
      WalkExtend(seeds, succ, ws, s, c, t);
      assert p.0 == t.0 && p.1 == c + t.1;
      assert WalkTo(seeds, succ, ws + [t], p.0, p.1);
    }
  }

  /** A walk to `s` followed by a successor of `s` is a walk to that successor. */
  lemma WalkExtend<S(!new)>(seeds: seq<(S, nat)>, succ: S -> seq<(S, nat)>, ws: seq<(S, nat)>, s: S, c: nat, t: (S, nat))
    requires WalkTo(seeds, succ, ws, s, c) && t in succ(s)
    ensures WalkTo(seeds, succ, ws + [t], t.0, c + t.1)
  {
    var w := ws + [t];
    assert w[..|w| - 1] == ws;
    forall i, j | 0 <= i < j < |w| && j == i + 1
      ensures w[j] in succ(w[i].0)
    {
      if j < |ws| {
        assert w[j] == ws[j] && w[i] == ws[i];
      }
    }
  }

  /** After an expansion, every entry queued still ends a walk of its heat loss, and none is cheaper than the expanded one. */
  lemma ExpandSound<S(!new)>(seeds: seq<(S, nat)>, succ: S -> seq<(S, nat)>, frontier: seq<(S, nat)>, last: nat, k: nat)
    requires Sound(seeds, succ, frontier, last) && Least(frontier, k)
    ensures Sound(seeds, succ, Remove(frontier, k) + Push(succ(frontier[k].0), frontier[k].1), frontier[k].1)
  {
    var s := frontier[k].0;
    var c := frontier[k].1;
    var pushed := Push(succ(s), c);
    assert frontier[k] in frontier;
    PushSound(seeds, succ, s, c);
    forall p | p in Remove(frontier, k) + pushed
      ensures c <= p.1 && exists w :: WalkTo(seeds, succ, w, p.0, p.1)
    {
      if p !in pushed {
        var i :| 0 <= i < |frontier| && frontier[i] == p;
      }
    }
  }

  /** After an expansion, everything reached before is still reached. */
  lemma ExpandReached<S(!new)>(frontier: seq<(S, nat)>, e: map<S, nat>, k: nat, pushed: seq<(S, nat)>, x: S, b: nat)
    requires 0 <= k < |frontier| && frontier[k].0 !in e
    requires Reached(frontier, e, x, b)
    ensures Reached(Remove(frontier, k) + pushed, e[frontier[k].0 := frontier[k].1], x, b)
  {
    var e' := e[frontier[k].0 := frontier[k].1];
    if x in e && e[x] <= b {
      assert x in e' && e'[x] <= b;
    } else {
      var c :| (x, c) in frontier && c <= b;
      if (x, c) == frontier[k] {
        assert x in e' && e'[x] <= b;
      } else {
        assert (x, c) in Remove(frontier, k);
        assert (x, c) in Remove(frontier, k) + pushed;
      }
    }
  }

  /** Expanding a least entry whose state is new and not a goal keeps the invariant. */
  lemma ExpandStep<S(!new)>(seeds: seq<(S, nat)>, succ: S -> seq<(S, nat)>, goal: S -> bool, universe: set<S>,
                            frontier: seq<(S, nat)>, e: map<S, nat>, last: nat, k: nat)
    requires forall s, t :: s in universe && t in succ(s) ==> t.0 in universe
    requires Inv(seeds, succ, goal, universe, frontier, e, last)
    requires Least(frontier, k) && frontier[k].0 !in e && !goal(frontier[k].0)
    ensures frontier[k].0 in universe
    ensures Inv(seeds, succ, goal, universe, Remove(frontier, k) + Push(succ(frontier[k].0), frontier[k].1),
                e[frontier[k].0 := frontier[k].1], frontier[k].1)
  {
    var s := frontier[k].0;
    var c := frontier[k].1;
    var pushed := Push(succ(s), c);
    var f' := Remove(frontier, k) + pushed;
    var e' := e[s := c];
    assert frontier[k] in frontier;
    PushHas(succ(s), c);
    PushOnly(succ(s), c);
    ExpandSound(seeds, succ, frontier, last, k);
    forall i | 0 <= i < |seeds|
      ensures Reached(f', e', seeds[i].0, seeds[i].1)
    {
      ExpandReached(frontier, e, k, pushed, seeds[i].0, seeds[i].1);
    }
    forall v | v in e'
      ensures e'[v] <= c && !goal(v) && v in universe && SuccReached(succ, f', e', v)
    {
      if v == s {
        forall t | t in succ(s)
          ensures Reached(f', e', t.0, e'[s] + t.1)
        {
          assert (t.0, c + t.1) in pushed;
          assert (t.0, c + t.1) in f';
        }
      } else {
        assert SuccReached(succ, frontier, e, v);
        forall t | t in succ(v)
          ensures Reached(f', e', t.0, e'[v] + t.1)
        {
          ExpandReached(frontier, e, k, pushed, t.0, e[v] + t.1);
        }
      }
    }
    forall p | p in f'
      ensures p.0 in universe
    {
      if p in pushed {
        var t :| t in succ(s) && p == (t.0, c + t.1);
      }
    }
  }

  /** Marking one more state of the universe leaves fewer unmarked. */
  lemma Shrinks<S>(universe: set<S>, seen: set<S>, x: S)
    requires x in universe && x !in seen
    ensures |universe - (seen + {x})| < |universe - seen|
  {
    assert universe - seen == (universe - (seen + {x})) + {x};
  }

  /** Expanding the least entry at `k`: mark its state and queue its successors. */
  method Expand<S(==,!new)>(seeds: seq<(S, nat)>, succ: S -> seq<(S, nat)>, goal: S -> bool, ghost universe: set<S>,
                            frontier: seq<(S, nat)>, seen: set<S>, ghost e: map<S, nat>, ghost last: nat, k: nat)
    returns (frontier': seq<(S, nat)>, seen': set<S>, ghost e': map<S, nat>, ghost last': nat)
    requires forall s, t :: s in universe && t in succ(s) ==> t.0 in universe
    requires Inv(seeds, succ, goal, universe, frontier, e, last) && seen == e.Keys
    requires Least(frontier, k) && frontier[k].0 !in seen && !goal(frontier[k].0)
    ensures Inv(seeds, succ, goal, universe, frontier', e', last') && seen' == e'.Keys
    ensures |universe - seen'| < |universe - seen|
  {
    var q := frontier[k];
    seen' := seen + {q.0};
    frontier' := Remove(frontier, k) + Push(succ(q.0), q.1);
    e' := e[q.0 := q.1];
    last' := q.1;
    ExpandStep(seeds, succ, goal, universe, frontier, e, last, k);
    Shrinks(universe, seen, q.0);
  }

  /**
   * One pass of the search loop: take a least entry off the queue, then
   * either answer with it (a goal state), drop it (a state already
   * expanded), or expand it. Either the answer is found, or the invariant
   * holds again and the loop has made progress.
   */
  method Step<S(==,!new)>(seeds: seq<(S, nat)>, succ: S -> seq<(S, nat)>, goal: S -> bool, ghost universe: set<S>,
                          seenFirst: bool, frontier: seq<(S, nat)>, seen: set<S>, ghost e: map<S, nat>, ghost last: nat)
    returns (r: Option<nat>, frontier': seq<(S, nat)>, seen': set<S>, ghost e': map<S, nat>, ghost last': nat)
    requires forall s, t :: s in universe && t in succ(s) ==> t.0 in universe
    requires Inv(seeds, succ, goal, universe, frontier, e, last) && seen == e.Keys && |frontier| > 0
    ensures r.Some? ==> Answer(seeds, succ, goal, r.value)
    ensures r.None? ==> Inv(seeds, succ, goal, universe, frontier', e', last') && seen' == e'.Keys
    ensures r.None? ==> |universe - seen'| < |universe - seen| || (seen' == seen && |frontier'| < |frontier|)
  {
    MinExists(frontier);
    var k :| Least(frontier, k);
    var q := frontier[k];
    frontier', seen', e', last' := frontier, seen, e, last;
    if !seenFirst && goal(q.0) {
      FoundGoal(seeds, succ, goal, universe, frontier, e, last, k);
      return Some(q.1), frontier', seen', e', last';
    }
    if q.0 in seen {
      SkipStep(seeds, succ, goal, universe, frontier, e, last, k);
      frontier' := Remove(frontier, k);
      last' := q.1;
      r := None;
    } else if goal(q.0) {
      FoundGoal(seeds, succ, goal, universe, frontier, e, last, k);
      r := Some(q.1);
    } else {
      frontier', seen', e', last' := Expand(seeds, succ, goal, universe, frontier, seen, e, last, k);
      r := None;
    }
  }

  /**
   * The search loop of both scripts. With `seenFirst` false (part 1) a goal
   * state is tested before the expanded-state check; with it true (part 2)
   * the state is checked and marked first. Either way the result is the
   * least heat loss over the walks that end in a goal state, and there is a
   * result exactly when such a walk exists.
   */
  method Search<S(==,!new)>(seeds: seq<(S, nat)>, succ: S -> seq<(S, nat)>, goal: S -> bool, ghost universe: set<S>,
                            seenFirst: bool)
    returns (r: Option<nat>)
    requires forall i :: 0 <= i < |seeds| ==> seeds[i].0 in universe
    requires forall s, t :: s in universe && t in succ(s) ==> t.0 in universe
    ensures r.Some? <==> exists w :: GoalWalk(seeds, succ, goal, w)
    ensures r.Some? ==> Answer(seeds, succ, goal, r.value)
  {
    var frontier := seeds;
    var seen: set<S> := {};
    ghost var e: map<S, nat> := map[];
    ghost var last: nat := 0;
    InitInv(seeds, succ, goal, universe);
    while |frontier| > 0
      invariant Inv(seeds, succ, goal, universe, frontier, e, last)
      invariant seen == e.Keys
      decreases |universe - seen|, |frontier|
    {
      r, frontier, seen, e, last := Step(seeds, succ, goal, universe, seenFirst, frontier, seen, e, last);
      if r.Some? {
        return;
      }
    }
    EmptyDone(seeds, succ, goal, universe, e, last);
    return None;
  }
}
