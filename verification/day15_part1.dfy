/**
 * Lens library (day 15, part 1): the HASH algorithm and the sum of the
 * hashes of the comma-separated initialization steps.
 *
 * A string is modelled as its bytes, one `char` per byte, so `ord` is the
 * character's code. The input is split on commas exactly as read: a trailing
 * newline stays part of the last step and is hashed with it.
 */
module Day15Part1 {
  import opened Common

  /** The per-byte step of HASH: add the code, multiply by 17, keep the remainder modulo 256. */
  function HashStep(h: int, c: char): int
  {
    (h + c as int) * 17 % 256
  }

  /** HASH continued from the value `h` over the bytes of `s`, first to last. */
  function HashFrom(h: int, s: string): int
    decreases |s|
  {
    if |s| == 0 then h else HashFrom(HashStep(h, s[0]), s[1..])
  }

  /** `hashAlgorithm`: HASH from 0. */
  function Hash(s: string): (r: int)
    ensures 0 <= r < 256
  {
    HashRange(0, s);
    HashFrom(0, s)
  }

  /** Hashing a concatenation hashes the second part from the value of the first. */
  lemma {:induction false} HashFromConcat(h: int, a: string, b: string)
    ensures HashFrom(h, a + b) == HashFrom(HashFrom(h, a), b)
    decreases |a|
  {
    if |a| > 0 {
      assert (a + b)[1..] == a[1..] + b;
      HashFromConcat(HashStep(h, a[0]), a[1..], b);
    } else {
      assert a + b == b;
    }
  }

  /** The hash of a string with one more byte is one more step on the hash of the string. */
  lemma HashSnoc(s: string, c: char)
    ensures Hash(s + [c]) == HashStep(Hash(s), c)
  {
    HashFromConcat(0, s, [c]);
  }

  /** The empty string hashes to 0, and every hash is a byte value. */
  lemma {:induction false} HashRange(h: int, s: string)
    requires 0 <= h < 256
    ensures 0 <= HashFrom(h, s) < 256
    ensures |s| == 0 ==> HashFrom(h, s) == h
    decreases |s|
  {
    if |s| > 0 {
      HashRange(HashStep(h, s[0]), s[1..]);
    }
  }

  /** `hashAlgorithm`: the loop over the bytes of `s`. */
  method HashAlgorithm(s: string) returns (v: int)
    ensures v == Hash(s)
    ensures 0 <= v < 256
  {
    v := 0;
    var i := 0;
    while i < |s|
      invariant 0 <= i <= |s|
      invariant v == Hash(s[..i])
    {
      assert s[..i + 1] == s[..i] + [s[i]];
      HashSnoc(s[..i], s[i]);
      v := v + s[i] as int;
      v := v * 17;
      v := v % 256;
      i := i + 1;
    }
    assert s[..|s|] == s;
  }

  /** The hash of every step, in order. */
  function Hashes(steps: seq<string>): (hs: seq<int>)
    ensures |hs| == |steps|
    ensures forall i :: 0 <= i < |steps| ==> hs[i] == Hash(steps[i])
  {
    seq(|steps|, i requires 0 <= i < |steps| => Hash(steps[i]))
  }

  /** `sumHashResults`: the hashes of the comma-separated steps added up. */
  method SumHashResults(input: string) returns (sum: int)
    ensures sum == Sum(Hashes(Explode(",", input)))
    ensures 0 <= sum <= 255 * |Explode(",", input)|
  {
    var steps := Explode(",", input);
    sum := 0;
    var i := 0;
    while i < |steps|
      invariant 0 <= i <= |steps|
      invariant sum == Sum(Hashes(steps)[..i])
      invariant 0 <= sum <= 255 * i
    {
      var h := HashAlgorithm(steps[i]);
      assert Hashes(steps)[..i + 1] == Hashes(steps)[..i] + [h];
      SumAppend(Hashes(steps)[..i], h);
      sum := sum + h;
      i := i + 1;
    }
    assert Hashes(steps)[..|steps|] == Hashes(steps);
  }

  /** Two worked values: `HASH` hashes to 52, and a newline left on it is hashed too. */
  lemma HashExamples()
    ensures Hash("HASH") == 52
    ensures Hash("HASH\n") == 30
  {
    assert "HASH"[1..] == "ASH" && "ASH"[1..] == "SH" && "SH"[1..] == "H" && "H"[1..] == "";
    assert HashFrom(0, "HASH") == HashFrom(200, "ASH") == HashFrom(153, "SH") == HashFrom(172, "H") == 52;
    HashSnoc("HASH", '\n');
    assert "HASH" + ['\n'] == "HASH\n";
  }
}
