/**
 * Helpers shared by the puzzle models: an optional value, sums and products
 * of integer sequences, and decimal digits.
 */
module Common {

  /** A value that may be missing; PHP's `null` result. */
  datatype Option<T> = None | Some(value: T)

  /** Sum of a sequence, peeled from the right so that a forward loop extends it one element at a time. */
  function Sum(s: seq<int>): int
  {
    if |s| == 0 then 0 else Sum(s[..|s| - 1]) + s[|s| - 1]
  }

  /** Product of a sequence; the empty product is 1, as PHP's `array_product([])`. */
  function Product(s: seq<int>): int
  {
    if |s| == 0 then 1 else Product(s[..|s| - 1]) * s[|s| - 1]
  }

  lemma SumAppend(s: seq<int>, x: int)
    ensures Sum(s + [x]) == Sum(s) + x
  {
    assert (s + [x])[..|s|] == s;
  }

  lemma ProductAppend(s: seq<int>, x: int)
    ensures Product(s + [x]) == Product(s) * x
  {
    assert (s + [x])[..|s|] == s;
  }

  lemma {:induction false} SumConcat(a: seq<int>, b: seq<int>)
    ensures Sum(a + b) == Sum(a) + Sum(b)
    decreases |b|
  {
    if |b| == 0 {
      assert a + b == a;
    } else {
      var b' := b[..|b| - 1];
      assert a + b == (a + b') + [b[|b| - 1]];
      SumAppend(a + b', b[|b| - 1]);
      SumConcat(a, b');
      assert b == b' + [b[|b| - 1]];
      SumAppend(b', b[|b| - 1]);
    }
  }

  /** A sum of non-negative terms is non-negative, and at least each of its terms. */
  lemma {:induction false} SumNonNegative(s: seq<int>)
    requires forall i :: 0 <= i < |s| ==> s[i] >= 0
    ensures Sum(s) >= 0
    ensures forall i :: 0 <= i < |s| ==> s[i] <= Sum(s)
  {
    if |s| > 0 {
      SumNonNegative(s[..|s| - 1]);
    }
  }

  /** A product is zero exactly when one of its factors is. */
  lemma {:induction false} ProductZero(s: seq<int>)
    ensures Product(s) == 0 <==> exists i :: 0 <= i < |s| && s[i] == 0
  {
    if |s| > 0 {
      var s' := s[..|s| - 1];
      ProductZero(s');
      if Product(s) == 0 {
        if s[|s| - 1] != 0 {
          assert Product(s') == 0;
          var i :| 0 <= i < |s'| && s'[i] == 0;
          assert s[i] == 0;
        }
      } else {
        forall i | 0 <= i < |s|
          ensures s[i] != 0
        {
          if i < |s| - 1 {
            assert s[i] == s'[i];
          }
        }
      }
    }
  }

  /** A product of non-negative factors is non-negative. */
  lemma {:induction false} ProductNonNegative(s: seq<int>)
    requires forall i :: 0 <= i < |s| ==> s[i] >= 0
    ensures Product(s) >= 0
  {
    if |s| > 0 {
      ProductNonNegative(s[..|s| - 1]);
    }
  }

  predicate IsDigit(c: char)
  {
    '0' <= c <= '9'
  }

  function DigitValue(c: char): (d: nat)
    requires IsDigit(c)
    ensures d < 10
  {
    (c as int) - ('0' as int)
  }

  /** The value of a string of decimal digits, as PHP's `(int)` reads it. */
  function DecimalValue(s: string): (v: nat)
    requires forall i :: 0 <= i < |s| ==> IsDigit(s[i])
  {
    if |s| == 0 then 0 else 10 * DecimalValue(s[..|s| - 1]) + DigitValue(s[|s| - 1])
  }

  /** The string of n nines, the largest number written with n digits. */
  function Nines(n: nat): (s: string)
    ensures |s| == n && forall i :: 0 <= i < n ==> s[i] == '9'
  {
    seq(n, _ => '9')
  }

  /** 10^n: one more than the largest n-digit number. */
  function Pow10(n: nat): (p: nat)
    ensures p >= 1
    ensures p == DecimalValue(Nines(n)) + 1
  {
    if n == 0 then 1
    else
      assert Nines(n)[..n - 1] == Nines(n - 1);
      10 * Pow10(n - 1)
  }

  /** A string of k digits reads as a number below 10^k. */
  lemma {:induction false} DecimalValueBound(s: string)
    requires forall i :: 0 <= i < |s| ==> IsDigit(s[i])
    ensures DecimalValue(s) < Pow10(|s|)
    decreases |s|
  {
    if |s| > 0 {
      var init := s[..|s| - 1];
      DecimalValueBound(init);
      assert 10 * (DecimalValue(init) + 1) <= 10 * Pow10(|init|);
    }
  }

  /** Reading two digit strings written one after the other shifts the first by the second's length. */
  lemma {:induction false} DecimalValueConcat(a: string, b: string)
    requires forall i :: 0 <= i < |a| ==> IsDigit(a[i])
    requires forall i :: 0 <= i < |b| ==> IsDigit(b[i])
    ensures DecimalValue(a + b) == DecimalValue(a) * Pow10(|b|) + DecimalValue(b)
    decreases |b|
  {
    if |b| == 0 {
      assert a + b == a;
    } else {
      var b' := b[..|b| - 1];
      assert (a + b)[..|a + b| - 1] == a + b';
      DecimalValueConcat(a, b');
      assert DecimalValue(a + b) == 10 * DecimalValue(a + b') + DigitValue(b[|b| - 1]);
      assert DecimalValue(b) == 10 * DecimalValue(b') + DigitValue(b[|b| - 1]);
      assert Pow10(|b|) == 10 * Pow10(|b'|);
      ShiftDigit(DecimalValue(a), Pow10(|b'|), DecimalValue(b'));
    }
  }

  lemma ShiftDigit(x: int, p: int, z: int)
    ensures 10 * (x * p + z) == x * (10 * p) + 10 * z
  {
  }

  /** PHP's `%`: truncating division, so the remainder takes the dividend's sign. */
  function PhpMod(a: int, b: int): (r: int)
    requires b != 0
    ensures Abs(r) < Abs(b)
    ensures a >= 0 && b > 0 ==> r == a % b
  {
    var q := Abs(a) % Abs(b);
    if a >= 0 then q else -q
  }

  // ---------------------------------------------------------------------
  // `explode` and `implode`
  // ---------------------------------------------------------------------

  /** PHP's `explode(sep, s)`: the pieces between the occurrences of a non-empty separator. */
  function Explode(sep: string, s: string): (parts: seq<string>)
    requires |sep| > 0
    ensures |parts| >= 1
    decreases |s|
  {
    if |s| < |sep| then [s]
    else if s[..|sep|] == sep then [""] + Explode(sep, s[|sep|..])
    else
      var rest := Explode(sep, s[1..]);
      [[s[0]] + rest[0]] + rest[1..]
  }

  /** PHP's `implode(sep, parts)`. */
  function Implode(sep: string, parts: seq<string>): string
    requires |parts| >= 1
  {
    if |parts| == 1 then parts[0] else parts[0] + sep + Implode(sep, parts[1..])
  }

  /** A piece that never holds the separator's first character runs on into whatever follows it. */
  lemma {:induction false} ExplodePrefix(sep: string, a: string, t: string)
    requires |sep| > 0 && sep[0] !in a
    ensures Explode(sep, a + t) == [a + Explode(sep, t)[0]] + Explode(sep, t)[1..]
    decreases |a|
  {
    if |a| > 0 {
      var s := a + t;
      ExplodePrefix(sep, a[1..], t);
      assert s[1..] == a[1..] + t;
      if |s| < |sep| {
        assert |t| < |sep|;
      } else {
        assert s[..|sep|][0] == a[0];
        var e := Explode(sep, t);
        var rest := Explode(sep, s[1..]);
        assert rest[0] == a[1..] + e[0];
        assert [s[0]] + rest[0] == a + e[0];
        assert rest[1..] == e[1..];
      }
    } else {
      var e := Explode(sep, t);
      assert a + t == t;
      assert a + e[0] == e[0];
      assert e == [e[0]] + e[1..];
    }
  }

  lemma ExplodeAtSeparator(sep: string, t: string)
    requires |sep| > 0
    ensures Explode(sep, sep + t) == [""] + Explode(sep, t)
  {
    assert (sep + t)[..|sep|] == sep;
    assert (sep + t)[|sep|..] == t;
  }

  /** Exploding what was imploded gives the pieces back, when no piece holds the separator's first character. */
  lemma {:induction false} ExplodeImplode(sep: string, parts: seq<string>)
    requires |sep| > 0 && |parts| >= 1
    requires forall i :: 0 <= i < |parts| ==> sep[0] !in parts[i]
    ensures Explode(sep, Implode(sep, parts)) == parts
    decreases |parts|
  {
    if |parts| == 1 {
      ExplodePrefix(sep, parts[0], "");
      assert parts[0] + "" == parts[0];
    } else {
      var rest := Implode(sep, parts[1..]);
      ExplodeImplode(sep, parts[1..]);
      assert parts[0] + sep + rest == parts[0] + (sep + rest);
      ExplodePrefix(sep, parts[0], sep + rest);
      ExplodeAtSeparator(sep, rest);
      assert parts[0] + "" == parts[0];
      assert parts == [parts[0]] + parts[1..];
    }
  }

  function Min(a: int, b: int): int
  {
    if a <= b then a else b
  }

  function Max(a: int, b: int): int
  {
    if a >= b then a else b
  }

  function Abs(a: int): nat
  {
    if a >= 0 then a else -a
  }

  /** 2 to the power `e`. */
  function Pow2(e: nat): (p: nat)
    ensures p >= 1
  {
    if e == 0 then 1 else 2 * Pow2(e - 1)
  }

  /** The first index of `c` in `row` (`array_search`, `strpos`), or `None` when it does not occur. */
  function IndexOf(row: seq<char>, c: char): (i: Option<nat>)
    ensures i.Some? ==> i.value < |row| && row[i.value] == c && c !in row[..i.value]
    ensures i.None? <==> c !in row
  {
    if |row| == 0 then None
    else if row[0] == c then Some(0)
    else
      match IndexOf(row[1..], c)
      case None => None
      case Some(k) =>
        assert row[1..][..k] == row[1..k + 1];
        Some(k + 1)
  }
}
