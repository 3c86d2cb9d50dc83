/**
 * Haunted wasteland (day 8, part 1): a network maps each node to its left and
 * right successor; starting at AAA, the instructions are followed cyclically
 * ('R' takes the right successor, anything else the left) until ZZZ.
 */
module Day8Part1 {
  import opened Common

  // ---------------------------------------------------------------------
  // Parsing
  // ---------------------------------------------------------------------

  /** Node names in first-insertion order (PHP arrays keep it) and their successor lists. */
  datatype Network = Network(order: seq<string>, succ: map<string, seq<string>>)
  {
    /** The order lists every node exactly once. */
    ghost predicate Valid()
    {
      (forall i, j :: 0 <= i < j < |order| ==> order[i] != order[j])
      && (forall n :: n in succ <==> n in order)
    }
  }

  /** `trim(s, chars)`: drops the leading and trailing characters that belong to `chars`. */
  function TrimLeft(s: string, chars: set<char>): (r: string)
    ensures |r| <= |s| && (|r| == 0 || r[0] !in chars)
    ensures r == s[|s| - |r|..]
  {
    if |s| > 0 && s[0] in chars then TrimLeft(s[1..], chars) else s
  }

  function TrimRight(s: string, chars: set<char>): (r: string)
    ensures |r| <= |s| && (|r| == 0 || r[|r| - 1] !in chars)
    ensures r == s[..|r|]
  {
    if |s| > 0 && s[|s| - 1] in chars then TrimRight(s[..|s| - 1], chars) else s
  }

  function Trim(s: string, chars: set<char>): string
  {
    TrimRight(TrimLeft(s, chars), chars)
  }

  /** Whether `sep` starts at position i of `s`. */
  ghost predicate MatchAt(sep: string, s: string, i: int)
  {
    0 <= i && i + |sep| <= |s| && s[i..i + |sep|] == sep
  }

  ghost predicate Occurs(sep: string, s: string)
  {
    exists i :: MatchAt(sep, s, i)
  }

  /** Without any occurrence of the separator, `explode` returns the whole string. */
  lemma {:induction false} ExplodeWithoutSeparator(sep: string, s: string)
    requires |sep| > 0 && !Occurs(sep, s)
    ensures Explode(sep, s) == [s]
    decreases |s|
  {
    if |s| >= |sep| {
      assert !MatchAt(sep, s, 0);
      assert s[0..|sep|] == s[..|sep|];
      forall i | MatchAt(sep, s[1..], i)
        ensures MatchAt(sep, s, i + 1)
      {
        assert s[1..][i..i + |sep|] == s[i + 1..i + 1 + |sep|];
      }
      ExplodeWithoutSeparator(sep, s[1..]);
      assert [s[0]] + s[1..] == s;
    }
  }

  /** One "N = (L, R)" line: the node before " = " and the successors inside the parentheses. */
  function ParseLine(line: string): (string, seq<string>)
  {
    var parts := Explode(" = ", line);
    // A line without " = " leaves the connections null, which trims to "".
    var connections := if |parts| >= 2 then parts[1] else "";
    (parts[0], Explode(", ", Trim(connections, {'(', ')'})))
  }

  /** A name that `explode` and `trim` leave intact. */
  predicate PlainName(n: string)
  {
    forall i :: 0 <= i < |n| ==> n[i] != ' ' && n[i] != '=' && n[i] != ',' && n[i] != '(' && n[i] != ')'
  }

  /** A string without the separator's first character has no occurrence of it. */
  lemma FirstCharAbsent(s: string, sep: string)
    requires |sep| > 0 && sep[0] !in s
    ensures !Occurs(sep, s)
  {
    forall i | 0 <= i && i + |sep| <= |s|
      ensures !MatchAt(sep, s, i)
    {
      assert s[i..i + |sep|][0] == s[i];
    }
  }

  /** A string without '=' holds no " = ". */
  lemma NoEqualsNoOccurrence(s: string)
    requires '=' !in s
    ensures !Occurs(" = ", s)
  {
    forall i | 0 <= i && i + 3 <= |s|
      ensures !MatchAt(" = ", s, i)
    {
      assert s[i..i + 3][1] == s[i + 1];
    }
  }

  /** The node part of a formatted line. */
  lemma ParseNode(n: string, conn: string)
    requires ' ' !in n && '=' !in conn
    ensures Explode(" = ", n + " = " + conn) == [n, conn]
  {
    assert n + " = " + conn == n + (" = " + conn);
    ExplodePrefix(" = ", n, " = " + conn);
    ExplodeAtSeparator(" = ", conn);
    NoEqualsNoOccurrence(conn);
    ExplodeWithoutSeparator(" = ", conn);
    assert n + "" == n;
  }

  /** The successor part of a formatted line. */
  lemma ParseSuccessors(l: string, r: string)
    requires ',' !in l && ',' !in r
    ensures Explode(", ", l + ", " + r) == [l, r]
  {
    assert l + ", " + r == l + (", " + r);
    ExplodePrefix(", ", l, ", " + r);
    ExplodeAtSeparator(", ", r);
    FirstCharAbsent(r, ", ");
    ExplodeWithoutSeparator(", ", r);
    assert l + "" == l;
  }

  lemma TrimParentheses(inner: string)
    requires |inner| > 0 && inner[0] !in {'(', ')'} && inner[|inner| - 1] !in {'(', ')'}
    ensures Trim("(" + inner + ")", {'(', ')'}) == inner
  {
    var parens := {'(', ')'};
    assert "(" + inner + ")" == ['('] + (inner + [')']);
    TrimLeftOne('(', inner + [')'], parens);
    TrimRightOne(inner, ')', parens);
  }

  /** One trimmed character in front of a string that does not start with one. */
  lemma TrimLeftOne(c: char, s: string, chars: set<char>)
    requires c in chars && |s| > 0 && s[0] !in chars
    ensures TrimLeft([c] + s, chars) == s
  {
    assert ([c] + s)[1..] == s;
  }

  /** One trimmed character after a string that does not end with one. */
  lemma TrimRightOne(s: string, c: char, chars: set<char>)
    requires c in chars && |s| > 0 && s[|s| - 1] !in chars
    ensures TrimRight(s + [c], chars) == s
  {
    assert (s + [c])[..|s|] == s;
  }

  /** Parsing a formatted line gives its node and its two successors back. */
  lemma ParseLineRoundTrip(n: string, l: string, r: string)
    requires PlainName(n) && PlainName(l) && PlainName(r) && |l| > 0 && |r| > 0
    ensures ParseLine(n + " = (" + l + ", " + r + ")") == (n, [l, r])
  {
    var inner := l + ", " + r;
    var conn := "(" + inner + ")";
    assert n + " = (" + l + ", " + r + ")" == n + " = " + conn;
    assert ' ' !in n by {
      assert forall i :: 0 <= i < |n| ==> n[i] != ' ';
    }
    assert '=' !in conn by {
      assert forall i :: 0 <= i < |l| ==> l[i] != '=';
      assert forall i :: 0 <= i < |r| ==> r[i] != '=';
    }
    ParseNode(n, conn);
    assert inner[0] == l[0] && inner[|inner| - 1] == r[|r| - 1];
    TrimParentheses(inner);
    assert ',' !in l && ',' !in r by {
      assert forall i :: 0 <= i < |l| ==> l[i] != ',';
      assert forall i :: 0 <= i < |r| ==> r[i] != ',';
    }
    ParseSuccessors(l, r);
  }

  /** PHP's `if ($line)`: the empty string and "0" are false. */
  predicate Falsy(line: string)
  {
    line == "" || line == "0"
  }

  /** `$network[$node] = ...`: a new node is appended to the order, a known one keeps its place. */
  function AddNode(net: Network, node: string, succ: seq<string>): (r: Network)
    ensures r.succ == net.succ[node := succ]
    ensures net.Valid() ==> r.Valid()
  {
    if node in net.succ then Network(net.order, net.succ[node := succ])
    else Network(net.order + [node], net.succ[node := succ])
  }

  /** The nodes named by the non-falsy lines, in order. */
  function LineNodes(lines: seq<string>): (nodes: seq<string>)
    ensures |nodes| <= |lines|
  {
    if |lines| == 0 then []
    else
      var line := lines[|lines| - 1];
      LineNodes(lines[..|lines| - 1]) + (if Falsy(line) then [] else [ParseLine(line).0])
  }

  function ParseNetwork(lines: seq<string>): (net: Network)
    ensures net.Valid()
  {
    if |lines| == 0 then Network([], map[])
    else
      var net := ParseNetwork(lines[..|lines| - 1]);
      var line := lines[|lines| - 1];
      if Falsy(line) then net
      else AddNode(net, ParseLine(line).0, ParseLine(line).1)
  }

  /** The network's nodes are exactly the nodes named by non-falsy lines, listed in first-appearance order. */
  lemma {:induction false} ParseNetworkNodes(lines: seq<string>)
    ensures forall n :: n in ParseNetwork(lines).succ <==> n in LineNodes(lines)
    ensures forall n :: n in ParseNetwork(lines).order <==> n in LineNodes(lines)
  {
    if |lines| > 0 {
      ParseNetworkNodes(lines[..|lines| - 1]);
    }
  }

  /** The later of two lines naming the same node wins. */
  lemma ParseNetworkLastWins(lines: seq<string>, line: string)
    requires !Falsy(line)
    ensures ParseNetwork(lines + [line]).succ[ParseLine(line).0] == ParseLine(line).1
  {
    assert (lines + [line])[..|lines|] == lines;
  }

  /** The instruction line, then the network; an empty file gives nothing. */
  function ParseInput(lines: seq<string>): (r: Option<(string, Network)>)
    ensures r.None? <==> |lines| == 0
  {
    if |lines| == 0 then None else Some((lines[0], ParseNetwork(lines[1..])))
  }

  // ---------------------------------------------------------------------
  // The walk
  // ---------------------------------------------------------------------

  /** Step k uses instruction k mod length; 'R' picks successor 1, anything else successor 0. */
  function Direction(instructions: string, k: nat): (d: nat)
    requires |instructions| > 0
    ensures d <= 1
    ensures d == 1 <==> instructions[k % |instructions|] == 'R'
  {
    if instructions[k % |instructions|] == 'R' then 1 else 0
  }

  /**
   * `$network[$node][$d]` at step k. A missing node or successor reads as
   * PHP's `null`, which, used again as a key or compared with a name,
   * behaves as the empty name "".
   */
  function Next(net: map<string, seq<string>>, instructions: string, node: string, k: nat): (next: string)
    requires |instructions| > 0
    ensures node in net && Direction(instructions, k) < |net[node]| ==> next == net[node][Direction(instructions, k)]
    ensures node !in net || Direction(instructions, k) >= |net[node]| ==> next == ""
  {
    var d := Direction(instructions, k);
    if node in net && d < |net[node]| then net[node][d] else ""
  }

  /** One step of part 1's walk from `node` at step k; None when the node is missing, which throws. */
  function Step(net: map<string, seq<string>>, instructions: string, node: string, k: nat): Option<string>
    requires |instructions| > 0
  {
    if node !in net then None else Some(Next(net, instructions, node, k))
  }

  /** The node reached after k steps from `start`, if every step is defined. */
  function Walk(net: map<string, seq<string>>, instructions: string, start: string, k: nat): Option<string>
    requires |instructions| > 0
  {
    if k == 0 then Some(start)
    else
      match Walk(net, instructions, start, k - 1)
      case None => None
      case Some(n) => Step(net, instructions, n, k - 1)
  }

  datatype Outcome =
    | Reached(steps: nat)
    | NodeMissing(node: string)    // the Exception thrown for a node absent from the network
    | ModuloByZero                 // `% strlen('')`
    | OutOfFuel                    // the walk has not ended within the step bound

  /** navigateNetwork's loop, from `node` at step `steps`, for at most `fuel` more steps. */
  function NavigateFrom(net: map<string, seq<string>>, instructions: string, node: string, steps: nat, fuel: nat): (o: Outcome)
    ensures o.Reached? ==> o.steps >= steps
    decreases fuel
  {
    if node == "ZZZ" then Reached(steps)
    else if node !in net then NodeMissing(node)
    else if |instructions| == 0 then ModuloByZero
    else if fuel == 0 then OutOfFuel
    else NavigateFrom(net, instructions, Next(net, instructions, node, steps), steps + 1, fuel - 1)
  }

  function NavigateNetwork(net: map<string, seq<string>>, instructions: string, fuel: nat): (o: Outcome)
    ensures o.Reached? ==> o.steps >= 1
  {
    NavigateFrom(net, instructions, "AAA", 0, fuel)
  }

  /** The reported count is the first step at which the walk stands on ZZZ. */
  lemma {:induction false} NavigateFromSound(net: map<string, seq<string>>, instructions: string, start: string,
                                             node: string, steps: nat, fuel: nat)
    requires |instructions| > 0
    requires Walk(net, instructions, start, steps) == Some(node)
    requires forall k :: 0 <= k < steps ==> Walk(net, instructions, start, k) != Some("ZZZ")
    requires NavigateFrom(net, instructions, node, steps, fuel).Reached?
    ensures var n := NavigateFrom(net, instructions, node, steps, fuel).steps;
      Walk(net, instructions, start, n) == Some("ZZZ")
      && forall k :: 0 <= k < n ==> Walk(net, instructions, start, k) != Some("ZZZ")
    decreases fuel
  {
    if node != "ZZZ" {
      var next := Next(net, instructions, node, steps);
      assert Walk(net, instructions, start, steps + 1) == Some(next);
      NavigateFromSound(net, instructions, start, next, steps + 1, fuel - 1);
    }
  }

  /** Given enough fuel, a walk that reaches ZZZ after n steps is reported as n. */
  lemma {:induction false} NavigateFromComplete(net: map<string, seq<string>>, instructions: string, start: string,
                                                node: string, steps: nat, fuel: nat, n: nat)
    requires |instructions| > 0
    requires steps <= n && fuel >= n - steps
    requires Walk(net, instructions, start, steps) == Some(node)
    requires Walk(net, instructions, start, n) == Some("ZZZ")
    requires forall k :: steps <= k < n ==> Walk(net, instructions, start, k) != Some("ZZZ")
    ensures NavigateFrom(net, instructions, node, steps, fuel) == Reached(n)
    decreases n - steps
  {
    if steps < n {
      assert node != "ZZZ";
      WalkPrefixDefined(net, instructions, start, steps + 1, n);
      var next :| Walk(net, instructions, start, steps + 1) == Some(next);
      NavigateFromComplete(net, instructions, start, next, steps + 1, fuel - 1, n);
    }
  }

  /** A walk defined at step n is defined at every earlier step. */
  lemma {:induction false} WalkPrefixDefined(net: map<string, seq<string>>, instructions: string, start: string, k: nat, n: nat)
    requires |instructions| > 0 && k <= n
    requires Walk(net, instructions, start, n).Some?
    ensures Walk(net, instructions, start, k).Some?
    decreases n - k
  {
    if k < n {
      WalkPrefixDefined(net, instructions, start, k, n - 1);
    }
  }

  /** The first arrival at ZZZ within the fuel, for the walk from AAA. */
  ghost predicate FirstArrival(net: map<string, seq<string>>, instructions: string, fuel: nat, n: nat)
    requires |instructions| > 0
  {
    n <= fuel && Walk(net, instructions, "AAA", n) == Some("ZZZ")
    && forall k :: 0 <= k < n ==> Walk(net, instructions, "AAA", k) != Some("ZZZ")
  }

  lemma NavigateNetworkSound(net: map<string, seq<string>>, instructions: string, fuel: nat)
    requires |instructions| > 0 && NavigateNetwork(net, instructions, fuel).Reached?
    ensures FirstArrival(net, instructions, fuel, NavigateNetwork(net, instructions, fuel).steps)
  {
    assert Walk(net, instructions, "AAA", 0) == Some("AAA");
    NavigateFromSound(net, instructions, "AAA", "AAA", 0, fuel);
    NavigateFromFuel(net, instructions, "AAA", 0, fuel);
  }

  lemma NavigateNetworkComplete(net: map<string, seq<string>>, instructions: string, fuel: nat, n: nat)
    requires |instructions| > 0 && FirstArrival(net, instructions, fuel, n)
    ensures NavigateNetwork(net, instructions, fuel) == Reached(n)
  {
    assert Walk(net, instructions, "AAA", 0) == Some("AAA");
    NavigateFromComplete(net, instructions, "AAA", "AAA", 0, fuel, n);
  }

  /** navigateNetwork returns n exactly when the walk from AAA first reaches ZZZ at step n (within the fuel). */
  lemma NavigateNetworkMeaning(net: map<string, seq<string>>, instructions: string, fuel: nat, n: nat)
    requires |instructions| > 0
    ensures NavigateNetwork(net, instructions, fuel) == Reached(n) <==> FirstArrival(net, instructions, fuel, n)
  {
    if NavigateNetwork(net, instructions, fuel) == Reached(n) {
      NavigateNetworkSound(net, instructions, fuel);
    }
    if FirstArrival(net, instructions, fuel, n) {
      NavigateNetworkComplete(net, instructions, fuel, n);
    }
  }

  /** The loop takes at most `fuel` steps. */
  lemma {:induction false} NavigateFromFuel(net: map<string, seq<string>>, instructions: string, node: string, steps: nat, fuel: nat)
    requires NavigateFrom(net, instructions, node, steps, fuel).Reached?
    ensures NavigateFrom(net, instructions, node, steps, fuel).steps <= steps + fuel
    decreases fuel
  {
    if node != "ZZZ" {
      NavigateFromFuel(net, instructions, Next(net, instructions, node, steps), steps + 1, fuel - 1);
    }
  }
}
