/**
 * Lavaduct lagoon (day 18, part 2): each dig instruction is decoded from
 * its colour code, the trench is followed from (0, 0), and the lagoon's
 * volume is obtained from the shoelace formula and Pick's theorem.
 *
 * The colour code `(#xxxxxd)` holds the distance as five hex digits and the
 * direction as the digit before the closing parenthesis; the direction and
 * distance written before the code are parsed by the script and never used,
 * so the model takes the codes only. The script's halvings produce floats;
 * the model keeps twice the area and twice the volume so that every value is
 * an integer.
 */
module Day18Part2 {
  import opened Common

  /** The four trench directions: x grows to the right, y grows downwards. */
  datatype Dir = R | D | L | U

  /** One decoded dig instruction. */
  datatype Move = Move(dir: Dir, dist: nat)

  /** The value of a hex digit, either case; nothing for any other character. */
  function HexDigit(c: char): Option<nat>
  {
    if '0' <= c <= '9' then Some(c as int - '0' as int)
    else if 'a' <= c <= 'f' then Some(c as int - 'a' as int + 10)
    else if 'A' <= c <= 'F' then Some(c as int - 'A' as int + 10)
    else None
  }

  /** PHP's `hexdec`: the value of the hex digits of `s`, every other character ignored. */
  function HexDec(s: string): nat
  {
    if |s| == 0 then 0
    else
      match HexDigit(s[|s| - 1])
      case None => HexDec(s[..|s| - 1])
      case Some(d) => 16 * HexDec(s[..|s| - 1]) + d
  }

  /** PHP's `substr(s, start, len)` for a non-negative start and length. */
  function Substr(s: string, start: nat, len: nat): string
  {
    s[Min(start, |s|)..Min(start + len, |s|)]
  }

  /**
   * `substr(hex, -2, 1)`: the character before the last one; PHP clamps a
   * start before the beginning to 0, so a one-character code gives that
   * character and an empty code gives nothing.
   */
  function DirectionChar(hex: string): Option<char>
  {
    if |hex| >= 2 then Some(hex[|hex| - 2]) else if |hex| == 1 then Some(hex[0]) else None
  }

  /**
   * `['R', 'D', 'L', 'U'][digit]`. Any other character finds no entry, the
   * direction is `null`, and passing it to the `string $direction`
   * parameter of `getNextPosition` throws a TypeError.
   */
  function DirectionOf(c: char): Option<Dir>
  {
    if c == '0' then Some(R) else if c == '1' then Some(D) else if c == '2' then Some(L) else if c == '3' then Some(U) else None
  }

  /** The decoded instruction of one colour code, or nothing when its direction digit is not 0 to 3. */
  function Decode(hex: string): Option<Move>
  {
    match DirectionChar(hex)
    case None => None
    case Some(c) =>
      match DirectionOf(c)
      case None => None
      case Some(d) => Some(Move(d, HexDec(Substr(hex, 2, 5))))
  }

  /** The decoded instructions of all codes, or nothing when one of them has no direction. */
  function DecodeAll(hexes: seq<string>): (r: Option<seq<Move>>)
    ensures r.Some? <==> forall i :: 0 <= i < |hexes| ==> Decode(hexes[i]).Some?
    ensures r.Some? ==> |r.value| == |hexes| && forall i :: 0 <= i < |hexes| ==> Some(r.value[i]) == Decode(hexes[i])
  {
    if |hexes| == 0 then Some([])
    else
      match DecodeAll(hexes[..|hexes| - 1])
      case None => None
      case Some(ms) =>
        match Decode(hexes[|hexes| - 1])
        case None => None
        case Some(m) => Some(ms + [m])
  }

  // ---------------------------------------------------------------------
  // Hex encoding, the inverse of the decoding
  // ---------------------------------------------------------------------

  /** 16 to the power `k`. */
  function Pow16(k: nat): (p: nat)
    ensures p >= 1
  {
    if k == 0 then 1 else 16 * Pow16(k - 1)
  }

  /** The lower-case hex digit of `d`. */
  function HexChar(d: nat): char
    requires d < 16
  {
    "0123456789abcdef"[d]
  }

  /** The last `k` hex digits of `n`, most significant first. */
  function Hex(n: nat, k: nat): (s: string)
    ensures |s| == k
  {
    if k == 0 then "" else Hex(n / 16, k - 1) + [HexChar(n % 16)]
  }

  /** A remainder is determined by any quotient-remainder split. */
  lemma ModUnique(n: int, m: int, a: int, x: int)
    requires m > 0 && n == m * a + x && 0 <= x < m
    ensures n % m == x && n / m == a
  {
    var q, r := n / m, n % m;
    assert n == m * q + r;
    var t := a - q;
    assert m * t == r - x by {
      assert m * a - m * q == m * (a - q);
    }
  }

  /** Dropping the last hex digit and keeping `k - 1` of the rest, then putting the digit back, keeps `k` digits. */
  lemma HexStepArith(n: nat, p: nat)
    requires p >= 1
    ensures 16 * ((n / 16) % p) + n % 16 == n % (16 * p)
  {
    var q, r := n / 16, n % 16;
    var a, b := q / p, q % p;
    assert q == p * a + b;
    assert n == 16 * q + r;
    assert n == (16 * p) * a + (16 * b + r) by {
      assert 16 * (p * a) == (16 * p) * a;
    }
    assert 16 * b + r < 16 * p by {
      assert b <= p - 1;
      assert 16 * b <= 16 * (p - 1);
    }
    ModUnique(n, 16 * p, a, 16 * b + r);
  }

  /** Reading back `k` written hex digits gives the number modulo 16 to the `k`. */
  lemma {:induction false} HexRoundTrip(n: nat, k: nat)
    ensures HexDec(Hex(n, k)) == n % Pow16(k)
  {
    if k > 0 {
      var s := Hex(n, k);
      assert s[..|s| - 1] == Hex(n / 16, k - 1);
      assert HexDigit(s[|s| - 1]) == Some(n % 16);
      HexRoundTrip(n / 16, k - 1);
      HexStepArith(n, Pow16(k - 1));
    }
  }

  /** The code digit of a direction. */
  function DirDigit(d: Dir): char
  {
    match d
    case R => '0'
    case D => '1'
    case L => '2'
    case U => '3'
  }

  /** The colour code of an instruction whose distance fits in five hex digits. */
  function Encode(m: Move): string
    requires m.dist < Pow16(5)
  {
    "(#" + Hex(m.dist, 5) + [DirDigit(m.dir)] + ")"
  }

  /** The code's direction character is the direction's digit, and its five characters after `(#` are the distance digits. */
  lemma EncodeShape(m: Move)
    requires m.dist < Pow16(5)
    ensures DirectionChar(Encode(m)) == Some(DirDigit(m.dir))
    ensures Substr(Encode(m), 2, 5) == Hex(m.dist, 5)
  {
    var h := Encode(m);
    assert |h| == 9 && h[7] == DirDigit(m.dir);
    assert h[2..7] == Hex(m.dist, 5);
  }

  /** A distance below 16 to the 5th reads back from its five hex digits. */
  lemma HexFive(n: nat)
    requires n < Pow16(5)
    ensures HexDec(Hex(n, 5)) == n
  {
    HexRoundTrip(n, 5);
    var p := Pow16(5);
    ModUnique(n, p, 0, n);
  }

  /** Decoding the code of an instruction gives the instruction back. */
  lemma DecodeEncode(m: Move)
    requires m.dist < Pow16(5)
    ensures Decode(Encode(m)) == Some(m)
  {
    EncodeShape(m);
    HexFive(m.dist);
    assert DirectionOf(DirDigit(m.dir)) == Some(m.dir);
  }

  /** The sample's first code decodes to 461937 blocks to the right. */
  lemma DecodeExample()
    ensures Decode("(#70c710)") == Some(Move(R, 461937))
  {
    assert Substr("(#70c710)", 2, 5) == "70c71";
    assert "70c71"[..4] == "70c7" && "70c7"[..3] == "70c" && "70c"[..2] == "70" && "70"[..1] == "7" && "7"[..0] == "";
  }

  // ---------------------------------------------------------------------
  // The trench and its area
  // ---------------------------------------------------------------------

  /** `getNextPosition`: move `dist` along one axis. */
  function Next(p: (int, int), m: Move): (int, int)
  {
    match m.dir
    case R => (p.0 + m.dist, p.1)
    case D => (p.0, p.1 + m.dist)
    case L => (p.0 - m.dist, p.1)
    case U => (p.0, p.1 - m.dist)
  }

  /** A move changes one coordinate only, by exactly its distance, and the opposite move undoes it. */
  lemma NextSpec(p: (int, int), m: Move)
    ensures Abs(Next(p, m).0 - p.0) + Abs(Next(p, m).1 - p.1) == m.dist
    ensures Next(p, m).0 == p.0 || Next(p, m).1 == p.1
    ensures Next(Next(p, m), Move(Opposite(m.dir), m.dist)) == p
  {
  }

  /** The reverse direction. */
  function Opposite(d: Dir): Dir
  {
    match d
    case R => L
    case L => R
    case D => U
    case U => D
  }

  /** The position after all of `moves`, from (0, 0). */
  function End(moves: seq<Move>): (int, int)
  {
    if |moves| == 0 then (0, 0) else Next(End(moves[..|moves| - 1]), moves[|moves| - 1])
  }

  /** The shoelace term of the edge from `p` to `q`. */
  function Cross(p: (int, int), q: (int, int)): int
  {
    p.0 * q.1 - q.0 * p.1
  }

  /** The shoelace sum over the trench's edges, in order. */
  function Shoelace(moves: seq<Move>): int
  {
    if |moves| == 0 then 0 else Shoelace(moves[..|moves| - 1]) + Cross(End(moves[..|moves| - 1]), End(moves))
  }

  /** The total length dug. */
  function Border(moves: seq<Move>): nat
  {
    if |moves| == 0 then 0 else Border(moves[..|moves| - 1]) + moves[|moves| - 1].dist
  }

  /** The shoelace term of an axis-parallel edge: the distance times the coordinate that stays fixed, signed by direction. */
  lemma CrossStep(p: (int, int), m: Move)
    ensures Cross(p, Next(p, m)) == match m.dir
      case R => -(m.dist * p.1)
      case D => m.dist * p.0
      case L => m.dist * p.1
      case U => -(m.dist * p.0)
  {
  }

  /**
   * `calculateAreaAndBorderLength`, with the area doubled: the absolute
   * shoelace sum over the trench, and the total length dug.
   */
  method AreaAndBorder(moves: seq<Move>) returns (twiceArea: nat, border: nat)
    ensures twiceArea == Abs(Shoelace(moves))
    ensures border == Border(moves)
  {
    var sum := 0;
    border := 0;
    var pos := (0, 0);
    var i := 0;
    while i < |moves|
      invariant 0 <= i <= |moves|
      invariant pos == End(moves[..i])
      invariant sum == Shoelace(moves[..i])
      invariant border == Border(moves[..i])
    {
      assert moves[..i + 1][..i] == moves[..i];
      border := border + moves[i].dist;
      var next := Next(pos, moves[i]);
      sum := sum + (pos.0 * next.1 - next.0 * pos.1);
      pos := next;
      i := i + 1;
    }
    assert moves[..|moves|] == moves;
    twiceArea := Abs(sum);
  }

  /**
   * `calculateVolume`, doubled: area + border / 2 + 1. The `int` parameter
   * drops the half of an odd doubled area.
   */
  function DoubledVolume(twiceArea: nat, border: nat): nat
  {
    2 * (twiceArea / 2) + border + 2
  }

  /** A rectangle dug `a` right and `b` down holds (a + 1) * (b + 1) cubic metres: the volume formula counts trench and interior. */
  lemma Rectangle(a: nat, b: nat)
    ensures var moves := [Move(R, a), Move(D, b), Move(L, a), Move(U, b)];
      && Shoelace(moves) == 2 * a * b
      && Border(moves) == 2 * a + 2 * b
      && End(moves) == (0, 0)
      && DoubledVolume(Abs(Shoelace(moves)), Border(moves)) == 2 * (a + 1) * (b + 1)
  {
    var s1 := [Move(R, a)];
    var s2 := s1 + [Move(D, b)];
    var s3 := s2 + [Move(L, a)];
    var moves := s3 + [Move(U, b)];
    assert s1[..0] == [] && s2[..1] == s1 && s3[..2] == s2 && moves[..3] == s3;
    assert End(s1) == (a, 0) && Shoelace(s1) == 0 && Border(s1) == a;
    assert End(s2) == (a, b) && Shoelace(s2) == a * b && Border(s2) == a + b;
    assert End(s3) == (0, b) && Shoelace(s3) == 2 * a * b && Border(s3) == 2 * a + b;
    assert End(moves) == (0, 0) && Shoelace(moves) == 2 * a * b && Border(moves) == 2 * a + 2 * b;
    assert (2 * a * b) / 2 == a * b;
    assert moves == [Move(R, a), Move(D, b), Move(L, a), Move(U, b)];
  }

  /**
   * The script's answer, doubled: the volume of the lagoon dug by the
   * decoded instructions, or nothing when a code has no valid direction.
   */
  method LavaVolume(hexes: seq<string>) returns (r: Option<nat>)
    ensures r.Some? <==> DecodeAll(hexes).Some?
    ensures r.Some? ==> r.value == DoubledVolume(Abs(Shoelace(DecodeAll(hexes).value)), Border(DecodeAll(hexes).value))
  {
    var decoded := DecodeAll(hexes);
    if decoded.None? {
      return None;
    }
    var twiceArea, border := AreaAndBorder(decoded.value);
    r := Some(DoubledVolume(twiceArea, border));
  }
}
