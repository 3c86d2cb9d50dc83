/**
 * Seed almanac (day 5, part 1): each map is a list of (destination start,
 * source start, length) lines; a number is converted by the first line whose
 * source interval contains it, and kept as it is when none does. The answer is
 * the lowest number obtained from any seed after all maps.
 */
module Day5Part1 {
  import opened Common

  /** One map line: source [src, src + len) is shifted to start at dst. */
  datatype Mapping = Mapping(dst: int, src: int, len: int)
  {
    predicate Contains(n: int)
    {
      src <= n < src + len
    }

    function Shift(n: int): int
    {
      dst + (n - src)
    }
  }

  /** convert: the first mapping containing the number shifts it; otherwise the number is unchanged. */
  function Convert(n: int, ms: seq<Mapping>): (r: int)
    ensures (forall k :: 0 <= k < |ms| ==> !ms[k].Contains(n)) ==> r == n
    ensures forall k :: 0 <= k < |ms| && ms[k].Contains(n) && (forall j :: 0 <= j < k ==> !ms[j].Contains(n)) ==>
      r == ms[k].Shift(n)
  {
    if |ms| == 0 then n
    else if ms[0].Contains(n) then ms[0].Shift(n)
    else
      assert forall k :: 1 <= k < |ms| ==> ms[k] == ms[1..][k - 1];
      Convert(n, ms[1..])
  }

  /** The number after every map, in order. */
  function ConvertAll(n: int, maps: seq<seq<Mapping>>): int
    decreases |maps|
  {
    if |maps| == 0 then n else ConvertAll(Convert(n, maps[0]), maps[1..])
  }

  /** Mapping order matters: with overlapping sources the earlier line wins. */
  lemma FirstMappingWins(n: int, a: Mapping, b: Mapping)
    requires a.Contains(n) && b.Contains(n)
    ensures Convert(n, [a, b]) == a.Shift(n)
    ensures Convert(n, [b, a]) == b.Shift(n)
  {
  }

  /** getLowestLocation: the smallest location over the seeds, or null when there are no seeds. */
  function GetLowestLocation(seeds: seq<int>, maps: seq<seq<Mapping>>): (r: Option<int>)
    ensures r.None? <==> |seeds| == 0
    ensures r.Some? ==> exists k :: 0 <= k < |seeds| && r.value == ConvertAll(seeds[k], maps)
    ensures r.Some? ==> forall k :: 0 <= k < |seeds| ==> r.value <= ConvertAll(seeds[k], maps)
  {
    if |seeds| == 0 then None
    else
      var rest := GetLowestLocation(seeds[..|seeds| - 1], maps);
      var here := ConvertAll(seeds[|seeds| - 1], maps);
      assert forall k :: 0 <= k < |seeds| - 1 ==> seeds[..|seeds| - 1][k] == seeds[k];
      if rest.None? then Some(here) else Some(Min(rest.value, here))
  }
}
