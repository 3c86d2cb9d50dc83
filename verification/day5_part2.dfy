/**
 * Seed almanac (day 5, part 2): seeds come as (start, length) pairs, i.e.
 * ranges, and each map converts a range into the shifted intersections with
 * its lines. The answer is the lowest endpoint after all maps.
 */
module Day5Part2 {
  import opened Common
  import opened Day5Part1

  /** A closed range [lo, hi] of numbers. */
  datatype Range = Range(lo: int, hi: int)

  predicate InRange(n: int, r: Range)
  {
    r.lo <= n <= r.hi
  }

  /** n lies in one of the ranges. */
  predicate InRanges(n: int, rs: seq<Range>)
  {
    exists i :: 0 <= i < |rs| && InRange(n, rs[i])
  }

  predicate AllNonEmpty(rs: seq<Range>)
  {
    forall i :: 0 <= i < |rs| ==> rs[i].lo <= rs[i].hi
  }

  lemma InRangesConcat(n: int, a: seq<Range>, b: seq<Range>)
    ensures InRanges(n, a + b) <==> InRanges(n, a) || InRanges(n, b)
  {
    if InRanges(n, a + b) {
      var i :| 0 <= i < |a + b| && InRange(n, (a + b)[i]);
      if i >= |a| {
        assert InRange(n, b[i - |a|]);
      }
    }
    if InRanges(n, b) {
      var i :| 0 <= i < |b| && InRange(n, b[i]);
      assert (a + b)[|a| + i] == b[i];
    }
    if InRanges(n, a) {
      var i :| 0 <= i < |a| && InRange(n, a[i]);
      assert (a + b)[i] == a[i];
    }
  }

  /** parseSeedRanges: the pair (start, length) becomes [start, start + length - 1]; a missing length reads as 0. */
  function ParseSeedRanges(nums: seq<int>): (rs: seq<Range>)
    ensures |rs| == (|nums| + 1) / 2
    ensures forall k :: 0 <= k < |rs| ==> rs[k].lo == nums[2 * k]
    ensures forall k, n :: 0 <= k < |rs| && 2 * k + 1 < |nums| ==>
      (InRange(n, rs[k]) <==> nums[2 * k] <= n < nums[2 * k] + nums[2 * k + 1])
    decreases |nums|
  {
    if |nums| == 0 then []
    else
      var len := if |nums| >= 2 then nums[1] else 0;
      var rest := if |nums| >= 2 then nums[2..] else [];
      assert forall k :: 0 <= k < |rest| ==> rest[k] == nums[k + 2];
      [Range(nums[0], nums[0] + len - 1)] + ParseSeedRanges(rest)
  }

  /** The test of convertRange: the range reaches into the line's source interval. */
  predicate Overlaps(r: Range, m: Mapping)
  {
    r.lo < m.src + m.len && r.hi >= m.src
  }

  /** The shifted intersection convertRange emits for an overlapping line. */
  function ShiftedIntersection(r: Range, m: Mapping): Range
  {
    Range(m.dst + (Max(r.lo, m.src) - m.src), m.dst + (Min(r.hi, m.src + m.len - 1) - m.src))
  }

  /** The foreach of convertRange: one shifted intersection per overlapping line, in line order. */
  function Emitted(r: Range, ms: seq<Mapping>): seq<Range>
  {
    if |ms| == 0 then []
    else Emitted(r, ms[..|ms| - 1]) + (if Overlaps(r, ms[|ms| - 1]) then [ShiftedIntersection(r, ms[|ms| - 1])] else [])
  }

  /** convertRange as written: the emitted pieces, or the range itself when no line overlaps it. */
  function ConvertRange(r: Range, ms: seq<Mapping>): (out: seq<Range>)
    ensures |out| >= 1
  {
    var e := Emitted(r, ms);
    if |e| == 0 then [r] else e
  }

  lemma {:induction false} EmittedMeaning(r: Range, ms: seq<Mapping>)
    ensures |Emitted(r, ms)| == 0 <==> forall k :: 0 <= k < |ms| ==> !Overlaps(r, ms[k])
    ensures forall i :: 0 <= i < |Emitted(r, ms)| ==>
      exists k :: 0 <= k < |ms| && Overlaps(r, ms[k]) && Emitted(r, ms)[i] == ShiftedIntersection(r, ms[k])
  {
    if |ms| > 0 {
      var init := ms[..|ms| - 1];
      EmittedMeaning(r, init);
      assert forall k :: 0 <= k < |init| ==> init[k] == ms[k];
      var e := Emitted(r, ms);
      forall i | 0 <= i < |e|
        ensures exists k :: 0 <= k < |ms| && Overlaps(r, ms[k]) && e[i] == ShiftedIntersection(r, ms[k])
      {
        if i < |Emitted(r, init)| {
          var k :| 0 <= k < |init| && Overlaps(r, init[k]) && Emitted(r, init)[i] == ShiftedIntersection(r, init[k]);
          assert ms[k] == init[k];
        } else {
          assert e[i] == ShiftedIntersection(r, ms[|ms| - 1]);
        }
      }
    }
  }

  /**
   * A range no line overlaps is returned unchanged; otherwise each output
   * range is the shifted intersection with an overlapping line, non-empty and
   * as long as that intersection when lines are non-empty, and every number
   * in it is the shift of a number of the range that the line contains.
   */
  lemma ConvertRangeMeaning(r: Range, ms: seq<Mapping>)
    requires r.lo <= r.hi
    requires forall k :: 0 <= k < |ms| ==> ms[k].len >= 1
    ensures (forall k :: 0 <= k < |ms| ==> !Overlaps(r, ms[k])) ==> ConvertRange(r, ms) == [r]
    ensures AllNonEmpty(ConvertRange(r, ms))
    ensures (exists k :: 0 <= k < |ms| && Overlaps(r, ms[k])) ==>
      forall i :: 0 <= i < |ConvertRange(r, ms)| ==> exists k :: (0 <= k < |ms| && Overlaps(r, ms[k])
        && ConvertRange(r, ms)[i].hi - ConvertRange(r, ms)[i].lo == Min(r.hi, ms[k].src + ms[k].len - 1) - Max(r.lo, ms[k].src)
        && forall y :: InRange(y, ConvertRange(r, ms)[i]) ==>
             var n := y - ms[k].dst + ms[k].src; InRange(n, r) && ms[k].Contains(n) && ms[k].Shift(n) == y)
  {
    EmittedMeaning(r, ms);
  }

  /** The value PHP uses as "no location yet". */
  const PhpIntMax: int := 0x7FFF_FFFF_FFFF_FFFF

  /** The final loop: min(PHP_INT_MAX, every range's two endpoints). */
  function LowestFold(rs: seq<Range>): (v: int)
    ensures v <= PhpIntMax
    ensures forall i :: 0 <= i < |rs| ==> v <= rs[i].lo && v <= rs[i].hi
    ensures v == PhpIntMax || exists i :: 0 <= i < |rs| && (v == rs[i].lo || v == rs[i].hi)
  {
    if |rs| == 0 then PhpIntMax
    else
      var init := rs[..|rs| - 1];
      assert forall i :: 0 <= i < |init| ==> init[i] == rs[i];
      Min(Min(LowestFold(init), rs[|rs| - 1].lo), rs[|rs| - 1].hi)
  }

  /** PHP_INT_MAX reads as "no location" and becomes null. */
  function LowestLocation(rs: seq<Range>): (r: Option<int>)
    ensures |rs| == 0 ==> r.None?
    ensures r.Some? ==> r.value < PhpIntMax && (forall i :: 0 <= i < |rs| ==> r.value <= rs[i].lo && r.value <= rs[i].hi)
    ensures r.Some? ==> exists i :: 0 <= i < |rs| && (r.value == rs[i].lo || r.value == rs[i].hi)
    ensures (exists i :: 0 <= i < |rs| && rs[i].lo < PhpIntMax) ==> r.Some?
  {
    var v := LowestFold(rs);
    if v == PhpIntMax then None else Some(v)
  }

  /** One map applied to every range, the results merged in order (array_merge). */
  function ConvertRanges(rs: seq<Range>, ms: seq<Mapping>): seq<Range>
  {
    if |rs| == 0 then [] else ConvertRanges(rs[..|rs| - 1], ms) + ConvertRange(rs[|rs| - 1], ms)
  }

  function ApplyMaps(rs: seq<Range>, maps: seq<seq<Mapping>>): seq<Range>
    decreases |maps|
  {
    if |maps| == 0 then rs else ApplyMaps(ConvertRanges(rs, maps[0]), maps[1..])
  }

  /** processRangesThroughMappings as written. */
  function ProcessRangesThroughMappings(rs: seq<Range>, maps: seq<seq<Mapping>>): Option<int>
  {
    LowestLocation(ApplyMaps(rs, maps))
  }

  // ---------------------------------------------------------------------
  // Range conversion that keeps the parts no line covers, as the
  // single-number conversion of part 1 does.
  // ---------------------------------------------------------------------

  /** The parts of `r` outside the line's source interval. */
  function Outside(r: Range, m: Mapping): seq<Range>
  {
    (if r.lo < m.src then [Range(r.lo, Min(r.hi, m.src - 1))] else [])
    + (if r.hi >= m.src + m.len then [Range(Max(r.lo, m.src + m.len), r.hi)] else [])
  }

  /** The shifted part of `r` inside the line's source interval, when there is one. */
  function Inside(r: Range, m: Mapping): seq<Range>
  {
    if Max(r.lo, m.src) <= Min(r.hi, m.src + m.len - 1) then [ShiftedIntersection(r, m)] else []
  }

  lemma OutsideMeaning(n: int, r: Range, m: Mapping)
    ensures InRanges(n, Outside(r, m)) <==> InRange(n, r) && !m.Contains(n)
  {
    var a := if r.lo < m.src then [Range(r.lo, Min(r.hi, m.src - 1))] else [];
    var b := if r.hi >= m.src + m.len then [Range(Max(r.lo, m.src + m.len), r.hi)] else [];
    InRangesConcat(n, a, b);
    if InRange(n, r) && !m.Contains(n) {
      if n < m.src {
        assert InRange(n, a[0]);
      } else {
        assert InRange(n, b[0]);
      }
    }
  }

  lemma InsideMeaning(y: int, r: Range, m: Mapping)
    ensures InRanges(y, Inside(r, m)) <==> InRange(y - m.dst + m.src, r) && m.Contains(y - m.dst + m.src)
  {
    var n := y - m.dst + m.src;
    if InRange(n, r) && m.Contains(n) {
      assert InRange(y, Inside(r, m)[0]);
    }
  }

  function InsideAll(ps: seq<Range>, m: Mapping): seq<Range>
  {
    if |ps| == 0 then [] else InsideAll(ps[..|ps| - 1], m) + Inside(ps[|ps| - 1], m)
  }

  function OutsideAll(ps: seq<Range>, m: Mapping): seq<Range>
  {
    if |ps| == 0 then [] else OutsideAll(ps[..|ps| - 1], m) + Outside(ps[|ps| - 1], m)
  }

  lemma {:induction false} OutsideAllMeaning(n: int, ps: seq<Range>, m: Mapping)
    ensures InRanges(n, OutsideAll(ps, m)) <==> InRanges(n, ps) && !m.Contains(n)
  {
    if |ps| > 0 {
      var init := ps[..|ps| - 1];
      OutsideAllMeaning(n, init, m);
      InRangesConcat(n, OutsideAll(init, m), Outside(ps[|ps| - 1], m));
      OutsideMeaning(n, ps[|ps| - 1], m);
      assert ps == init + [ps[|ps| - 1]];
      InRangesConcat(n, init, [ps[|ps| - 1]]);
      assert InRanges(n, [ps[|ps| - 1]]) <==> InRange(n, ps[|ps| - 1]);
    }
  }

  lemma {:induction false} InsideAllMeaning(y: int, ps: seq<Range>, m: Mapping)
    ensures InRanges(y, InsideAll(ps, m)) <==> InRanges(y - m.dst + m.src, ps) && m.Contains(y - m.dst + m.src)
  {
    if |ps| > 0 {
      var init := ps[..|ps| - 1];
      var n := y - m.dst + m.src;
      InsideAllMeaning(y, init, m);
      InRangesConcat(y, InsideAll(init, m), Inside(ps[|ps| - 1], m));
      InsideMeaning(y, ps[|ps| - 1], m);
      assert ps == init + [ps[|ps| - 1]];
      InRangesConcat(n, init, [ps[|ps| - 1]]);
      assert InRanges(n, [ps[|ps| - 1]]) <==> InRange(n, ps[|ps| - 1]);
    }
  }

  /** Pieces not yet covered go through the remaining lines; what no line covers passes unchanged. */
  function ConvertPieces(ps: seq<Range>, ms: seq<Mapping>): seq<Range>
    decreases |ms|
  {
    if |ms| == 0 then ps else InsideAll(ps, ms[0]) + ConvertPieces(OutsideAll(ps, ms[0]), ms[1..])
  }


  /** One step of the piece conversion for a single number: the first line either covers it or leaves it outside. */
  lemma CompleteStep(n: int, ps: seq<Range>, ms: seq<Mapping>)
    requires |ms| > 0 && InRanges(n, ps)
    requires InRanges(n, OutsideAll(ps, ms[0])) ==> InRanges(Convert(n, ms[1..]), ConvertPieces(OutsideAll(ps, ms[0]), ms[1..]))
    ensures InRanges(Convert(n, ms), ConvertPieces(ps, ms))
  {
    var m := ms[0];
    var rest := OutsideAll(ps, m);
    InRangesConcat(Convert(n, ms), InsideAll(ps, m), ConvertPieces(rest, ms[1..]));
    if m.Contains(n) {
      InsideAllMeaning(m.Shift(n), ps, m);
      assert m.Shift(n) - m.dst + m.src == n;
    } else {
      OutsideAllMeaning(n, ps, m);
    }
  }

  /** Every number of the input pieces has its part-1 conversion among the converted pieces. */
  lemma {:induction false} ConvertPiecesComplete(ps: seq<Range>, ms: seq<Mapping>)
    ensures forall n :: InRanges(n, ps) ==> InRanges(Convert(n, ms), ConvertPieces(ps, ms))
    decreases |ms|
  {
    if |ms| > 0 {
      ConvertPiecesComplete(OutsideAll(ps, ms[0]), ms[1..]);
      forall n | InRanges(n, ps)
        ensures InRanges(Convert(n, ms), ConvertPieces(ps, ms))
      {
        CompleteStep(n, ps, ms);
      }
    }
  }

  lemma SoundStep(y: int, ps: seq<Range>, ms: seq<Mapping>)
    requires |ms| > 0 && InRanges(y, ConvertPieces(ps, ms))
    requires InRanges(y, ConvertPieces(OutsideAll(ps, ms[0]), ms[1..])) ==>
      exists n :: InRanges(n, OutsideAll(ps, ms[0])) && Convert(n, ms[1..]) == y
    ensures exists n :: InRanges(n, ps) && Convert(n, ms) == y
  {
    var m := ms[0];
    var rest := OutsideAll(ps, m);
    InRangesConcat(y, InsideAll(ps, m), ConvertPieces(rest, ms[1..]));
    if InRanges(y, InsideAll(ps, m)) {
      InsideAllMeaning(y, ps, m);
      var n := y - m.dst + m.src;
      assert Convert(n, ms) == y;
    } else {
      var n :| InRanges(n, rest) && Convert(n, ms[1..]) == y;
      OutsideAllMeaning(n, ps, m);
      assert Convert(n, ms) == y;
    }
  }

  /** Every number of the converted pieces is the part-1 conversion of a number of the input pieces. */
  lemma {:induction false} ConvertPiecesSound(ps: seq<Range>, ms: seq<Mapping>)
    ensures forall y :: InRanges(y, ConvertPieces(ps, ms)) ==> exists n :: InRanges(n, ps) && Convert(n, ms) == y
    decreases |ms|
  {
    if |ms| > 0 {
      ConvertPiecesSound(OutsideAll(ps, ms[0]), ms[1..]);
      forall y | InRanges(y, ConvertPieces(ps, ms))
        ensures exists n :: InRanges(n, ps) && Convert(n, ms) == y
      {
        SoundStep(y, ps, ms);
      }
    }
  }

  /**
   * convertRange with the uncovered parts kept: the result holds exactly the
   * part-1 conversions of the range's numbers.
   */
  function ConvertRangeCorrected(r: Range, ms: seq<Mapping>): (out: seq<Range>)
    ensures forall n :: InRange(n, r) ==> InRanges(Convert(n, ms), out)
    ensures forall y :: InRanges(y, out) ==> exists n :: InRange(n, r) && Convert(n, ms) == y
  {
    ConvertPiecesComplete([r], ms);
    ConvertPiecesSound([r], ms);
    forall n | InRange(n, r)
      ensures InRanges(n, [r])
    {
      assert InRange(n, [r][0]);
    }
    ConvertPieces([r], ms)
  }

  /** Splitting and shifting keeps every piece non-empty. */
  lemma {:induction false} ConvertPiecesNonEmpty(ps: seq<Range>, ms: seq<Mapping>)
    requires AllNonEmpty(ps)
    ensures AllNonEmpty(ConvertPieces(ps, ms))
    decreases |ms|
  {
    if |ms| > 0 {
      InsideAllNonEmpty(ps, ms[0]);
      OutsideAllNonEmpty(ps, ms[0]);
      ConvertPiecesNonEmpty(OutsideAll(ps, ms[0]), ms[1..]);
    }
  }

  lemma {:induction false} InsideAllNonEmpty(ps: seq<Range>, m: Mapping)
    requires AllNonEmpty(ps)
    ensures AllNonEmpty(InsideAll(ps, m))
  {
    if |ps| > 0 {
      InsideAllNonEmpty(ps[..|ps| - 1], m);
    }
  }

  lemma {:induction false} OutsideAllNonEmpty(ps: seq<Range>, m: Mapping)
    requires AllNonEmpty(ps)
    ensures AllNonEmpty(OutsideAll(ps, m))
  {
    if |ps| > 0 {
      OutsideAllNonEmpty(ps[..|ps| - 1], m);
    }
  }

  function ApplyMapsCorrected(rs: seq<Range>, maps: seq<seq<Mapping>>): seq<Range>
    decreases |maps|
  {
    if |maps| == 0 then rs else ApplyMapsCorrected(ConvertPieces(rs, maps[0]), maps[1..])
  }

  lemma {:induction false} ApplyMapsCorrectedExact(rs: seq<Range>, maps: seq<seq<Mapping>>)
    requires AllNonEmpty(rs)
    ensures AllNonEmpty(ApplyMapsCorrected(rs, maps))
    ensures forall n :: InRanges(n, rs) ==> InRanges(ConvertAll(n, maps), ApplyMapsCorrected(rs, maps))
    ensures forall y :: InRanges(y, ApplyMapsCorrected(rs, maps)) ==> exists n :: InRanges(n, rs) && ConvertAll(n, maps) == y
    decreases |maps|
  {
    if |maps| > 0 {
      var next := ConvertPieces(rs, maps[0]);
      ConvertPiecesComplete(rs, maps[0]);
      ConvertPiecesSound(rs, maps[0]);
      ConvertPiecesNonEmpty(rs, maps[0]);
      ApplyMapsCorrectedExact(next, maps[1..]);
      forall y | InRanges(y, ApplyMapsCorrected(rs, maps))
        ensures exists n :: InRanges(n, rs) && ConvertAll(n, maps) == y
      {
        var z :| InRanges(z, next) && ConvertAll(z, maps[1..]) == y;
        var n :| InRanges(n, rs) && Convert(n, maps[0]) == z;
        assert ConvertAll(n, maps) == y;
      }
    }
  }

  /**
   * With uncovered parts kept, the lowest location is the lowest part-1
   * location over every seed number of every (non-empty) seed range.
   */
  lemma LowestLocationCorrected(rs: seq<Range>, maps: seq<seq<Mapping>>)
    requires AllNonEmpty(rs)
    ensures var r := LowestLocation(ApplyMapsCorrected(rs, maps));
      (r.Some? ==> (exists n :: InRanges(n, rs) && ConvertAll(n, maps) == r.value)
                   && forall n :: InRanges(n, rs) ==> r.value <= ConvertAll(n, maps))
      && (r.None? ==> forall n :: InRanges(n, rs) ==> ConvertAll(n, maps) >= PhpIntMax)
  {
    var out := ApplyMapsCorrected(rs, maps);
    ApplyMapsCorrectedExact(rs, maps);
    var r := LowestLocation(out);
    if r.Some? {
      var i :| 0 <= i < |out| && (r.value == out[i].lo || r.value == out[i].hi);
      assert r.value == out[i].lo;
      assert InRange(r.value, out[i]);
      assert InRanges(r.value, out);
      forall n | InRanges(n, rs)
        ensures r.value <= ConvertAll(n, maps)
      {
        var j :| 0 <= j < |out| && InRange(ConvertAll(n, maps), out[j]);
      }
    } else {
      forall n | InRanges(n, rs)
        ensures ConvertAll(n, maps) >= PhpIntMax
      {
        var j :| 0 <= j < |out| && InRange(ConvertAll(n, maps), out[j]);
      }
    }
  }

  lemma AsWrittenExample()
    ensures ProcessRangesThroughMappings([Range(0, 9)], [[Mapping(100, 5, 5)]]) == Some(100)
  {
    var ms := [Mapping(100, 5, 5)];
    var maps: seq<seq<Mapping>> := [ms];
    ExampleConverted();
    assert maps[1..] == [];
    assert ApplyMaps([Range(0, 9)], maps) == [Range(100, 104)];
    ExampleLowest();
  }

  /** The one line covers 5 .. 9 of 0 .. 9; only that part is emitted. */
  lemma ExampleConverted()
    ensures ConvertRanges([Range(0, 9)], [Mapping(100, 5, 5)]) == [Range(100, 104)]
  {
    var ms := [Mapping(100, 5, 5)];
    var r := Range(0, 9);
    assert ms[..0] == [];
    assert Emitted(r, ms) == [Range(100, 104)];
    assert [r][..0] == [];
  }

  lemma ExampleLowest()
    ensures LowestFold([Range(100, 104)]) == 100
  {
    assert [Range(100, 104)][..0] == [];
  }

  lemma CorrectedExample()
    ensures LowestLocation(ApplyMapsCorrected([Range(0, 9)], [[Mapping(100, 5, 5)]])) == Some(0)
  {
    var ms := [Mapping(100, 5, 5)];
    var maps: seq<seq<Mapping>> := [ms];
    var r := Range(0, 9);
    assert [r][..0] == [];
    assert InsideAll([r], ms[0]) == [Range(100, 104)];
    assert OutsideAll([r], ms[0]) == [Range(0, 4)];
    assert ms[1..] == [];
    assert maps[1..] == [];
    assert ConvertPieces([Range(0, 4)], ms[1..]) == [Range(0, 4)];
    assert ConvertPieces([r], ms) == [Range(100, 104), Range(0, 4)];
    assert maps[0] == ms;
    assert ApplyMapsCorrected([Range(100, 104), Range(0, 4)], maps[1..]) == [Range(100, 104), Range(0, 4)];
    var out := ApplyMapsCorrected([r], maps);
    assert out == [Range(100, 104), Range(0, 4)];
    assert out[..1] == [Range(100, 104)] && out[..1][..0] == [];
    assert LowestFold(out) == 0;
  }

  /**
   * [0, 9] through the single line "100 5 5": as written only [100, 104] is
   * kept and the lowest location is 100, although seed 0 is not covered and
   * stays at location 0; keeping the uncovered parts gives 0.
   */
  lemma DroppedRangeExample()
    ensures ProcessRangesThroughMappings([Range(0, 9)], [[Mapping(100, 5, 5)]]) == Some(100)
    ensures LowestLocation(ApplyMapsCorrected([Range(0, 9)], [[Mapping(100, 5, 5)]])) == Some(0)
    ensures ConvertAll(0, [[Mapping(100, 5, 5)]]) == 0
  {
    AsWrittenExample();
    CorrectedExample();
    var maps: seq<seq<Mapping>> := [[Mapping(100, 5, 5)]];
    assert maps[1..] == [];
  }
}
