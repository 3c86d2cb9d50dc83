/**
 * The cycle detection of `calculateLoadAfterCycles` (day 14, part 2), for
 * any step and any hash that tells the visited states apart.
 *
 * The script steps a state `cycles` times. It remembers the hash of every
 * state; the first repeated hash marks `start`, after which the hashes are
 * collected afresh. The next repeat therefore lands exactly one period
 * after `start + 1`, and the state after `cycles` steps is read from the
 * cache at `start + (cycles - start) % period`.
 */
module Day14Cycles {
  import opened Common

  /** `s` after `k` steps of `f`. */
  function Iterate<S>(f: S -> S, s: S, k: nat): S
  {
    if k == 0 then s else f(Iterate(f, s, k - 1))
  }

  /** A negative step count runs no step. */
  function CyclesRun(cycles: int): (n: nat)
    ensures cycles >= 0 ==> n == cycles
    ensures cycles < 0 ==> n == 0
  {
    if cycles < 0 then 0 else cycles
  }

  /** A state the step leaves alone stays forever. */
  lemma {:induction false} IterateFixed<S>(f: S -> S, s: S, n: nat)
    requires f(s) == s
    ensures Iterate(f, s, n) == s
  {
    if n > 0 {
      IterateFixed(f, s, n - 1);
    }
  }

  /** A repeat after `d` steps repeats forever after. */
  lemma {:induction false} IterateShift<S>(f: S -> S, s: S, j: nat, d: nat, m: nat)
    requires Iterate(f, s, j + d) == Iterate(f, s, j) && m >= j
    ensures Iterate(f, s, m + d) == Iterate(f, s, m)
    decreases m - j
  {
    if m > j {
      IterateShift(f, s, j, d, m - 1);
    }
  }

  /** From the repeat on, the state after `n` steps is the one after `j + (n - j) % d`. */
  lemma {:induction false} IteratePeriodic<S>(f: S -> S, s: S, j: nat, d: nat, n: nat)
    requires d >= 1 && Iterate(f, s, j + d) == Iterate(f, s, j) && n >= j
    ensures Iterate(f, s, n) == Iterate(f, s, j + (n - j) % d)
    decreases n
  {
    if n >= j + d {
      var m: nat := n - d;
      IterateShift(f, s, j, d, m);
      IteratePeriodic(f, s, j, d, m);
      ModStep(m - j, d);
      assert m + d == n && m - j + d == n - j;
    } else {
      ModSmall(n - j, d);
    }
  }

  lemma ModSmall(a: int, d: int)
    requires 0 <= a < d
    ensures a % d == a
  {
  }

  lemma MulSign(q: int, d: int)
    requires d >= 1
    ensures q <= -1 ==> q * d <= -d
    ensures q >= 1 ==> q * d >= d
  {
  }

  /** The remainder is the one `r` with `n == q * d + r` and `0 <= r < d`. */
  lemma ModUnique(n: int, d: int, q: int, r: int)
    requires d >= 1 && 0 <= r < d && n == q * d + r
    ensures n % d == r
  {
    var q0, r0 := n / d, n % d;
    assert (q - q0) * d == r0 - r;
    MulSign(q - q0, d);
  }

  lemma ModStep(a: int, d: int)
    requires a >= 0 && d >= 1
    ensures (a + d) % d == a % d
  {
    assert (a / d + 1) * d == a / d * d + d;
    ModUnique(a + d, d, a / d + 1, a % d);
  }

  /** Two numbers with the same remainder at most `d` apart are exactly `d` apart. */
  lemma ModGap(x: int, y: int, d: int)
    requires d >= 1 && x % d == y % d && 0 < y - x <= d
    ensures y - x == d
  {
    assert y - x == (y / d - x / d) * d;
    MulSign(y / d - x / d, d);
  }

  /** The states after `0 .. n - 1` steps are pairwise different. */
  ghost predicate Distinct<S>(f: S -> S, s: S, n: nat)
  {
    forall a: nat, b: nat :: a < b < n ==> Iterate(f, s, a) != Iterate(f, s, b)
  }

  lemma DistinctSame<S>(f: S -> S, s: S, n: nat, a: nat, b: nat)
    requires Distinct(f, s, n) && a < n && b < n && Iterate(f, s, a) == Iterate(f, s, b)
    ensures a == b
  {
  }

  lemma DistinctExtend<S>(f: S -> S, s: S, n: nat)
    requires Distinct(f, s, n)
    requires forall a: nat :: a < n ==> Iterate(f, s, a) != Iterate(f, s, n)
    ensures Distinct(f, s, n + 1)
  {
  }

  /** Equal hashes along the run mean equal states. */
  ghost predicate HashTells<S, H>(f: S -> S, h: S -> H, s: S)
  {
    forall a: nat, b: nat :: h(Iterate(f, s, a)) == h(Iterate(f, s, b)) ==> Iterate(f, s, a) == Iterate(f, s, b)
  }

  /** The hashes of the states after `lo .. hi - 1` steps. */
  ghost function Seen<S, H>(f: S -> S, h: S -> H, s: S, lo: nat, hi: nat): set<H>
  {
    set k: nat | lo <= k < hi :: h(Iterate(f, s, k))
  }

  lemma SeenExtend<S, H>(f: S -> S, h: S -> H, s: S, lo: nat, hi: nat)
    requires lo <= hi
    ensures Seen(f, h, s, lo, hi + 1) == Seen(f, h, s, lo, hi) + {h(Iterate(f, s, hi))}
  {
  }

  /** The step count in `j .. j + d - 1` whose state step `n` repeats. */
  lemma RepeatBase<S>(f: S -> S, s: S, j: nat, d: nat, n: nat) returns (b: nat)
    requires d >= 1 && Iterate(f, s, j + d) == Iterate(f, s, j) && n >= j
    ensures b == j + (n - j) % d && b < j + d && Iterate(f, s, n) == Iterate(f, s, b)
  {
    IteratePeriodic(f, s, j, d, n);
    b := j + (n - j) % d;
  }

  lemma RepeatGap(j: nat, start: nat, k: nat, c: nat)
    requires j < start < k < c <= start + (start - j) + 1
    requires (k - j) % (start - j) == (c - j) % (start - j)
    ensures c == start + (start - j) + 1
  {
    ModGap(k - j, c - j, start - j);
  }

  /**
   * When state `start` first repeats state `j`, a repeat inside the window
   * after `start` comes no sooner than one full period after `start + 1`.
   */
  lemma RepeatIndex<S>(f: S -> S, s: S, j: nat, start: nat, k: nat, c: nat)
    requires j < start && Iterate(f, s, j) == Iterate(f, s, start) && Distinct(f, s, start)
    requires start < k < c <= start + (start - j) + 1 && Iterate(f, s, k) == Iterate(f, s, c)
    ensures c == start + (start - j) + 1
  {
    var d := start - j;
    var bk := RepeatBase(f, s, j, d, k);
    var bc := RepeatBase(f, s, j, d, c);
    assert Iterate(f, s, bk) == Iterate(f, s, bc);
    assert bk < start && bc < start;
    DistinctSame(f, s, start, bk, bc);
    RepeatGap(j, start, k, c);
  }

  /** The cache key names the same point of the period as the step count. */
  lemma KeyBase(j: nat, start: nat, cycles: int)
    requires j < start < cycles
    ensures (start + (cycles - start) % (start - j) - j) % (start - j) == (cycles - j) % (start - j)
  {
    var d := start - j;
    var a := (cycles - start) % d;
    ModStep(cycles - start, d);
    ModStep(a, d);
    ModUnique(a, d, 0, a);
  }

  /**
   * What the loop of `calculateLoadAfterCycles` knows after `cycle` steps.
   * Before the first repeat (`start == 0`) the states so far are pairwise
   * different, `seen` holds their hashes and every one is cached. After it,
   * state `start` repeats state `j`, `seen` holds the hashes from
   * `start + 1` on, and the cache holds every state but the one at `start`,
   * unless `cacheRepeat` stored that one too.
   */
  ghost predicate Window<S, H>(f: S -> S, h: S -> H, s0: S, cacheRepeat: bool,
                               seen: set<H>, cache: map<int, S>, cycle: nat, start: nat, j: nat)
  {
    && Cached(f, s0, cacheRepeat, cache, cycle, start)
    && (if start == 0 then
          Distinct(f, s0, cycle) && seen == Seen(f, h, s0, 0, cycle)
        else
          && j < start < cycle <= start + (start - j) + 1
          && Iterate(f, s0, j) == Iterate(f, s0, start)
          && Distinct(f, s0, start)
          && seen == Seen(f, h, s0, start + 1, cycle))
    && (f(s0) == s0 ==> (start == 0 ==> cycle <= 1) && (start > 0 ==> start == 1 && j == 0))
  }

  /** The cache holds the states of the steps so far, with at most the one at `start` missing. */
  ghost predicate Cached<S>(f: S -> S, s0: S, cacheRepeat: bool, cache: map<int, S>, cycle: nat, start: nat)
  {
    && (forall k :: k in cache ==> 0 <= k < cycle && cache[k] == Iterate(f, s0, k))
    && (forall k :: 0 <= k < cycle && (start == 0 || k != start || cacheRepeat) ==> k in cache)
    && (start > 0 && !cacheRepeat ==> start !in cache)
  }

  lemma CachedStep<S>(f: S -> S, s0: S, cacheRepeat: bool, cache: map<int, S>, cycle: nat, start: nat)
    requires Cached(f, s0, cacheRepeat, cache, cycle, start) && (start == 0 || start < cycle)
    ensures Cached(f, s0, cacheRepeat, cache[cycle := Iterate(f, s0, cycle)], cycle + 1, start)
  {
  }

  /** The cycles at which the next hash is certain to have been seen. */
  lemma RepeatDue<S, H>(f: S -> S, h: S -> H, s0: S, cacheRepeat: bool,
                        seen: set<H>, cache: map<int, S>, cycle: nat, start: nat, j: nat)
    requires Window(f, h, s0, cacheRepeat, seen, cache, cycle, start, j)
    ensures start == 0 && f(s0) == s0 && cycle == 1 ==> h(Iterate(f, s0, cycle)) in seen
    ensures start > 0 && cycle == start + (start - j) + 1 ==> h(Iterate(f, s0, cycle)) in seen
  {
    if start == 0 && f(s0) == s0 && cycle == 1 {
      assert Iterate(f, s0, 1) == Iterate(f, s0, 0);
    }
    if start > 0 && cycle == start + (start - j) + 1 {
      IterateShift(f, s0, j, start - j, start + 1);
      assert Iterate(f, s0, cycle) == Iterate(f, s0, start + 1);
    }
  }

  /** A new hash is remembered and its state cached. */
  lemma FreshStep<S, H>(f: S -> S, h: S -> H, s0: S, cacheRepeat: bool,
                        seen: set<H>, cache: map<int, S>, cycle: nat, start: nat, j: nat)
    requires Window(f, h, s0, cacheRepeat, seen, cache, cycle, start, j)
    requires h(Iterate(f, s0, cycle)) !in seen
    ensures Window(f, h, s0, cacheRepeat, seen + {h(Iterate(f, s0, cycle))},
                   cache[cycle := Iterate(f, s0, cycle)], cycle + 1, start, j)
  {
    RepeatDue(f, h, s0, cacheRepeat, seen, cache, cycle, start, j);
    CachedStep(f, s0, cacheRepeat, cache, cycle, start);
    if start == 0 {
      FreshBefore(f, h, s0, seen, cycle);
    } else {
      SeenExtend(f, h, s0, start + 1, cycle);
    }
  }

  lemma FreshBefore<S, H>(f: S -> S, h: S -> H, s0: S, seen: set<H>, cycle: nat)
    requires Distinct(f, s0, cycle) && seen == Seen(f, h, s0, 0, cycle)
    requires h(Iterate(f, s0, cycle)) !in seen
    ensures Distinct(f, s0, cycle + 1)
    ensures seen + {h(Iterate(f, s0, cycle))} == Seen(f, h, s0, 0, cycle + 1)
  {
    SeenExtend(f, h, s0, 0, cycle);
    forall a: nat | a < cycle
      ensures Iterate(f, s0, a) != Iterate(f, s0, cycle)
    {
      assert h(Iterate(f, s0, a)) in seen;
    }
    DistinctExtend(f, s0, cycle);
  }

  /** The first repeated hash marks `start` and empties `seen`. */
  lemma FirstRepeat<S, H>(f: S -> S, h: S -> H, s0: S, cacheRepeat: bool,
                          seen: set<H>, cache: map<int, S>, cycle: nat, j: nat)
    returns (j': nat)
    requires HashTells(f, h, s0)
    requires Window(f, h, s0, cacheRepeat, seen, cache, cycle, 0, j)
    requires h(Iterate(f, s0, cycle)) in seen
    ensures Window(f, h, s0, cacheRepeat, {},
                   if cacheRepeat then cache[cycle := Iterate(f, s0, cycle)] else cache, cycle + 1, cycle, j')
  {
    var k: nat :| k < cycle && h(Iterate(f, s0, k)) == h(Iterate(f, s0, cycle));
    j' := k;
  }

  /** The second repeated hash comes exactly one period after `start + 1`. */
  lemma SecondRepeat<S, H>(f: S -> S, h: S -> H, s0: S, cacheRepeat: bool,
                           seen: set<H>, cache: map<int, S>, cycle: nat, start: nat, j: nat)
    requires HashTells(f, h, s0)
    requires Window(f, h, s0, cacheRepeat, seen, cache, cycle, start, j) && start > 0
    requires h(Iterate(f, s0, cycle)) in seen
    ensures cycle == start + (start - j) + 1
  {
    var k: nat :| start + 1 <= k < cycle && h(Iterate(f, s0, k)) == h(Iterate(f, s0, cycle));
    RepeatIndex(f, s0, j, start, k, cycle);
  }

  /** After the second repeat, what the cache read at `start + (cycles - start) % period` finds. */
  lemma CacheRead<S, H>(f: S -> S, h: S -> H, s0: S, cacheRepeat: bool, seen: set<H>,
                        cache: map<int, S>, cycle: nat, start: nat, j: nat, cycles: int)
    requires Window(f, h, s0, cacheRepeat, seen, cache, cycle, start, j)
    requires 0 < start && cycle == start + (start - j) + 1 && cycle < cycles
    ensures var key := start + (cycles - start) % (start - j);
      && (key in cache ==> cache[key] == Iterate(f, s0, cycles))
      && (cacheRepeat ==> key in cache)
      && (!cacheRepeat && f(s0) == s0 ==> key !in cache)
  {
    var d := start - j;
    var key := start + (cycles - start) % d;
    var bn := RepeatBase(f, s0, j, d, cycles);
    var bk := RepeatBase(f, s0, j, d, key);
    KeyBase(j, start, cycles);
    assert bn == bk;
  }

  /**
   * The loop of `calculateLoadAfterCycles` and its cache read, returning the
   * state whose load the script prints. The script stores nothing in the
   * cache on the first repeat (`cacheRepeat` false); a read of that missing
   * entry yields `null`, which `calculateLoad` refuses: `None`.
   */
  method FindState<S, H(==)>(f: S -> S, h: S -> H, s0: S, cycles: int, cacheRepeat: bool)
    returns (r: Option<S>)
    requires HashTells(f, h, s0)
    ensures r.Some? ==> r.value == Iterate(f, s0, CyclesRun(cycles))
    ensures cacheRepeat ==> r.Some?
    ensures !cacheRepeat && f(s0) == s0 && cycles >= 4 ==> r.None?
  {
    var seen: set<H> := {};
    var cache: map<int, S> := map[];
    var cycle := 0;
    var start := 0;
    var period := 0;
    var s := s0;
    ghost var j: nat := 0;
    while cycle < cycles
      invariant 0 <= cycle <= CyclesRun(cycles) && 0 <= start && period == 0
      invariant s == Iterate(f, s0, cycle)
      invariant Window(f, h, s0, cacheRepeat, seen, cache, cycle, start, j)
      decreases cycles - cycle
    {
      var hash := h(s);
      if hash in seen {
        if start == 0 {
          j := FirstRepeat(f, h, s0, cacheRepeat, seen, cache, cycle, j);
          start := cycle;
          seen := {};
          if cacheRepeat {
            cache := cache[cycle := s];
          }
        } else {
          SecondRepeat(f, h, s0, cacheRepeat, seen, cache, cycle, start, j);
          period := cycle - start - 1;
          break;
        }
      } else {
        FreshStep(f, h, s0, cacheRepeat, seen, cache, cycle, start, j);
        seen := seen + {hash};
        cache := cache[cycle := s];
      }
      s := f(s);
      cycle := cycle + 1;
    }
    if period > 0 {
      var key := start + (cycles - start) % period;
      CacheRead(f, h, s0, cacheRepeat, seen, cache, cycle, start, j, cycles);
      if key !in cache {
        return None;
      }
      return Some(cache[key]);
    }
    assert cycle == CyclesRun(cycles);
    return Some(s);
  }
}
