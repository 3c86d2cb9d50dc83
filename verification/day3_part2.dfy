/**
 * Engine schematic (day 3, part 2): every character except digits and '*' is
 * blanked, each number is attached to the first gear found around it, and
 * gears with exactly two numbers contribute the product of the two.
 */
module Day3Part2 {
  import opened Common
  import opened Day3Part1

  /** Cleaning keeps digits and '*' and turns everything else into '.'. */
  function CleanChar(c: char): char
  {
    if IsDigit(c) || c == '*' then c else '.'
  }

  function CleanRow(line: string): (r: string)
    ensures |r| == |line|
    ensures forall k :: 0 <= k < |line| ==> r[k] == CleanChar(line[k])
  {
    seq(|line|, k requires 0 <= k < |line| => CleanChar(line[k]))
  }

  function Clean(g: Schematic): (c: Schematic)
    ensures |c| == |g|
    ensures forall i :: 0 <= i < |g| ==> c[i] == CleanRow(g[i])
  {
    seq(|g|, i requires 0 <= i < |g| => CleanRow(g[i]))
  }

  /**
   * After cleaning, the only symbol left is '*', digits stay where they were,
   * and cleaning twice is cleaning once.
   */
  lemma CleanMeaning(g: Schematic, r: int, c: int)
    requires InGrid(g, r, c)
    ensures InGrid(Clean(g), r, c)
    ensures IsSymbol(Clean(g)[r][c]) <==> g[r][c] == '*'
    ensures IsDigit(Clean(g)[r][c]) <==> IsDigit(g[r][c])
    ensures Clean(Clean(g))[r][c] == Clean(g)[r][c]
  {
  }

  /** A gear's position, "row-col" in the source. */
  type Key = (int, int)

  /**
   * `isset($schematic[r][c])` in PHP 7.1 and later: the row must exist, and a
   * string offset is set from -strlen up to strlen - 1 (negative offsets count
   * from the end of the string).
   */
  predicate PhpIsset(g: Schematic, r: int, c: int)
  {
    0 <= r < |g| && -|g[r]| <= c < |g[r]|
  }

  function PhpCharAt(g: Schematic, r: int, c: int): char
    requires PhpIsset(g, r, c)
  {
    if c >= 0 then g[r][c] else g[r][|g[r]| + c]
  }

  /**
   * Whether the neighbour (r, c) is taken as a gear: `asWritten` follows the
   * source's `isset` test, otherwise the cell must lie inside the row.
   */
  predicate GearCandidate(g: Schematic, r: int, c: int, asWritten: bool)
  {
    if asWritten then PhpIsset(g, r, c) && IsSymbol(PhpCharAt(g, r, c)) else SymbolAt(g, r, c)
  }

  /** The offset loop of checkForAdjacentGear from offset `k`: the first neighbour taken as a gear. */
  function CheckFrom(g: Schematic, r: int, c: int, k: nat, asWritten: bool): Option<Key>
    requires k <= |Offsets|
    decreases |Offsets| - k
  {
    if k == |Offsets| then None
    else if GearCandidate(g, r + Offsets[k].0, c + Offsets[k].1, asWritten) then Some((r + Offsets[k].0, c + Offsets[k].1))
    else CheckFrom(g, r, c, k + 1, asWritten)
  }

  lemma {:induction false} CheckFromNone(g: Schematic, r: int, c: int, k: nat, asWritten: bool)
    requires k <= |Offsets|
    ensures CheckFrom(g, r, c, k, asWritten).None? <==>
      forall m :: k <= m < |Offsets| ==> !GearCandidate(g, r + Offsets[m].0, c + Offsets[m].1, asWritten)
    decreases |Offsets| - k
  {
    if k < |Offsets| && !GearCandidate(g, r + Offsets[k].0, c + Offsets[k].1, asWritten) {
      CheckFromNone(g, r, c, k + 1, asWritten);
    }
  }

  /** The first offset from `k` whose neighbour is taken as a gear. */
  predicate FirstCandidate(g: Schematic, r: int, c: int, k: nat, m: int, asWritten: bool)
  {
    k <= m < |Offsets| && GearCandidate(g, r + Offsets[m].0, c + Offsets[m].1, asWritten)
    && forall m' :: k <= m' < m ==> !GearCandidate(g, r + Offsets[m'].0, c + Offsets[m'].1, asWritten)
  }

  lemma FirstCandidateStep(g: Schematic, r: int, c: int, k: nat, m: int, asWritten: bool)
    requires k < |Offsets| && !GearCandidate(g, r + Offsets[k].0, c + Offsets[k].1, asWritten)
    requires FirstCandidate(g, r, c, k + 1, m, asWritten)
    ensures FirstCandidate(g, r, c, k, m, asWritten)
  {
  }

  lemma {:induction false} CheckFromFirst(g: Schematic, r: int, c: int, k: nat, asWritten: bool)
    requires k <= |Offsets|
    ensures CheckFrom(g, r, c, k, asWritten).Some? ==>
      exists m :: FirstCandidate(g, r, c, k, m, asWritten) && CheckFrom(g, r, c, k, asWritten).value == (r + Offsets[m].0, c + Offsets[m].1)
    decreases |Offsets| - k
  {
    if k < |Offsets| {
      var o := Offsets[k];
      if GearCandidate(g, r + o.0, c + o.1, asWritten) {
        assert CheckFrom(g, r, c, k, asWritten) == Some((r + o.0, c + o.1));
        assert FirstCandidate(g, r, c, k, k, asWritten);
      } else {
        assert CheckFrom(g, r, c, k, asWritten) == CheckFrom(g, r, c, k + 1, asWritten);
        CheckFromFirst(g, r, c, k + 1, asWritten);
        var res := CheckFrom(g, r, c, k + 1, asWritten);
        if res.Some? {
          var m :| FirstCandidate(g, r, c, k + 1, m, asWritten) && res.value == (r + Offsets[m].0, c + Offsets[m].1);
          FirstCandidateStep(g, r, c, k, m, asWritten);
        }
      }
    }
  }

  /**
   * The scan finds nothing iff no remaining offset qualifies, and otherwise
   * returns the first qualifying neighbour in offset order.
   */
  lemma CheckFromMeaning(g: Schematic, r: int, c: int, k: nat, asWritten: bool)
    requires k <= |Offsets|
    ensures CheckFrom(g, r, c, k, asWritten).None? <==>
      forall m :: k <= m < |Offsets| ==> !GearCandidate(g, r + Offsets[m].0, c + Offsets[m].1, asWritten)
    ensures CheckFrom(g, r, c, k, asWritten).Some? ==>
      exists m :: (k <= m < |Offsets| && CheckFrom(g, r, c, k, asWritten).value == (r + Offsets[m].0, c + Offsets[m].1)
        && GearCandidate(g, r + Offsets[m].0, c + Offsets[m].1, asWritten)
        && forall m' :: k <= m' < m ==> !GearCandidate(g, r + Offsets[m'].0, c + Offsets[m'].1, asWritten))
  {
    CheckFromNone(g, r, c, k, asWritten);
    CheckFromFirst(g, r, c, k, asWritten);
  }

  /** checkForAdjacentGear as the source writes it, with PHP's negative string offsets. */
  function CheckForAdjacentGearAsWritten(g: Schematic, r: int, c: int): (res: Option<Key>)
    ensures res.Some? ==> PhpIsset(g, res.value.0, res.value.1) && IsSymbol(PhpCharAt(g, res.value.0, res.value.1))
  {
    CheckFromMeaning(g, r, c, 0, true);
    CheckFrom(g, r, c, 0, true)
  }

  /**
   * checkForAdjacentGear with the bounds the design intends: the first
   * in-bounds neighbour holding a symbol, in offset order, or None when no
   * neighbour holds one.
   */
  function CheckForAdjacentGear(g: Schematic, r: int, c: int): (res: Option<Key>)
    ensures res.Some? ==> SymbolAt(g, res.value.0, res.value.1) && Adjacent(r, c, res.value.0, res.value.1)
    ensures res.None? <==> !exists r', c' :: SymbolAt(g, r', c') && Adjacent(r, c, r', c')
  {
    InBoundsCheckMeaning(g, r, c);
    CheckFrom(g, r, c, 0, false)
  }

  lemma InBoundsCheckMeaning(g: Schematic, r: int, c: int)
    ensures var res := CheckFrom(g, r, c, 0, false);
      (res.Some? ==> SymbolAt(g, res.value.0, res.value.1) && Adjacent(r, c, res.value.0, res.value.1))
      && (res.None? <==> !exists r', c' :: SymbolAt(g, r', c') && Adjacent(r, c, r', c'))
  {
    var res := CheckFrom(g, r, c, 0, false);
    CheckFromMeaning(g, r, c, 0, false);
    if res.Some? {
      var m :| 0 <= m < |Offsets| && res.value == (r + Offsets[m].0, c + Offsets[m].1);
      OffsetsAreNeighbours(r, c, res.value.0, res.value.1);
    }
    if exists r', c' :: SymbolAt(g, r', c') && Adjacent(r, c, r', c') {
      var r', c' :| SymbolAt(g, r', c') && Adjacent(r, c, r', c');
      OffsetsAreNeighbours(r, c, r', c');
    }
  }

  /** findAdjacentGear: the gear of the first column in [col, endCol] that has one. */
  function FindAdjacentGear(g: Schematic, row: int, col: int, endCol: int, asWritten: bool): Option<Key>
    decreases endCol - col + 1
  {
    if col > endCol then None
    else
      var here := CheckFrom(g, row, col, 0, asWritten);
      if here.Some? then here else FindAdjacentGear(g, row, col + 1, endCol, asWritten)
  }

  lemma {:induction false} FindAdjacentGearNone(g: Schematic, row: int, col: int, endCol: int, asWritten: bool)
    ensures FindAdjacentGear(g, row, col, endCol, asWritten).None? <==>
      forall c :: col <= c <= endCol ==> CheckFrom(g, row, c, 0, asWritten).None?
    decreases endCol - col + 1
  {
    if col <= endCol {
      var here := CheckFrom(g, row, col, 0, asWritten);
      if here.None? {
        assert FindAdjacentGear(g, row, col, endCol, asWritten) == FindAdjacentGear(g, row, col + 1, endCol, asWritten);
        FindAdjacentGearNone(g, row, col + 1, endCol, asWritten);
      } else {
        assert FindAdjacentGear(g, row, col, endCol, asWritten) == here;
        assert col <= col <= endCol && !CheckFrom(g, row, col, 0, asWritten).None?;
      }
    }
  }

  lemma {:induction false} FindAdjacentGearSome(g: Schematic, row: int, col: int, endCol: int, asWritten: bool)
    ensures FindAdjacentGear(g, row, col, endCol, asWritten).Some? ==>
      exists c :: col <= c <= endCol && CheckFrom(g, row, c, 0, asWritten) == FindAdjacentGear(g, row, col, endCol, asWritten)
    decreases endCol - col + 1
  {
    if col <= endCol {
      if CheckFrom(g, row, col, 0, asWritten).None? {
        FindAdjacentGearSome(g, row, col + 1, endCol, asWritten);
      } else {
        assert CheckFrom(g, row, col, 0, asWritten) == FindAdjacentGear(g, row, col, endCol, asWritten);
      }
    }
  }

  /** The number has no gear iff none of its columns has one; otherwise the gear is some column's first gear. */
  lemma FindAdjacentGearMeaning(g: Schematic, row: int, col: int, endCol: int, asWritten: bool)
    ensures FindAdjacentGear(g, row, col, endCol, asWritten).None? <==>
      forall c :: col <= c <= endCol ==> CheckFrom(g, row, c, 0, asWritten).None?
    ensures FindAdjacentGear(g, row, col, endCol, asWritten).Some? ==>
      exists c :: col <= c <= endCol && CheckFrom(g, row, c, 0, asWritten) == FindAdjacentGear(g, row, col, endCol, asWritten)
  {
    FindAdjacentGearNone(g, row, col, endCol, asWritten);
    FindAdjacentGearSome(g, row, col, endCol, asWritten);
  }

  /** One number attached to a gear. */
  type Attachment = (Key, int)

  /** The column loop of the scan from column `j`: one attachment per number that has a gear. */
  function AttachRow(g: Schematic, i: nat, j: nat, asWritten: bool): seq<Attachment>
    requires i < |g| && j <= |g[i]|
    decreases |g[i]| - j
  {
    if j == |g[i]| then []
    else if !IsDigit(g[i][j]) then AttachRow(g, i, j + 1, asWritten)
    else
      var k := RunEnd(g[i], j + 1);
      var gear := FindAdjacentGear(g, i, j, k - 1, asWritten);
      (if gear.Some? then [(gear.value, RunValue(g[i], j))] else []) + AttachRow(g, i, k, asWritten)
  }

  /** The attachments of rows [0, n), in scan order. */
  function Attachments(g: Schematic, n: nat, asWritten: bool): seq<Attachment>
    requires n <= |g|
  {
    if n == 0 then [] else Attachments(g, n - 1, asWritten) + AttachRow(g, n - 1, 0, asWritten)
  }

  /** The gears in order of their first attachment: the keys of `$gearRelatedNumbers`. */
  function Keys(atts: seq<Attachment>): seq<Key>
  {
    if |atts| == 0 then []
    else
      var ks := Keys(atts[..|atts| - 1]);
      if atts[|atts| - 1].0 in ks then ks else ks + [atts[|atts| - 1].0]
  }

  /** The numbers attached to gear `key`, in scan order. */
  function Group(atts: seq<Attachment>, key: Key): seq<int>
  {
    if |atts| == 0 then []
    else
      var rest := Group(atts[..|atts| - 1], key);
      if atts[|atts| - 1].0 == key then rest + [atts[|atts| - 1].1] else rest
  }

  /** The final loop: gears with exactly two numbers add their product. */
  function RatioSum(atts: seq<Attachment>, ks: seq<Key>): int
  {
    if |ks| == 0 then 0
    else
      var grp := Group(atts, ks[|ks| - 1]);
      RatioSum(atts, ks[..|ks| - 1]) + (if |grp| == 2 then grp[0] * grp[1] else 0)
  }

  /** sumOfGearNumberProducts on a schematic, as written or with in-bounds gear lookups. */
  function SumOfGearNumberProducts(schematic: Schematic, asWritten: bool): int
  {
    var g := Clean(schematic);
    var atts := Attachments(g, |g|, asWritten);
    RatioSum(atts, Keys(atts))
  }

  /** The number of attachments held by the groups of `ks`. */
  function GroupSizes(atts: seq<Attachment>, ks: seq<Key>): nat
  {
    if |ks| == 0 then 0 else GroupSizes(atts, ks[..|ks| - 1]) + |Group(atts, ks[|ks| - 1])|
  }

  lemma {:induction false} GroupSizesAppend(atts: seq<Attachment>, a: Attachment, ks: seq<Key>)
    requires forall x, y :: 0 <= x < y < |ks| ==> ks[x] != ks[y]
    ensures GroupSizes(atts + [a], ks) == GroupSizes(atts, ks) + (if a.0 in ks then 1 else 0)
  {
    assert (atts + [a])[..|atts|] == atts;
    if |ks| > 0 {
      var init := ks[..|ks| - 1];
      GroupSizesAppend(atts, a, init);
      assert a.0 in ks <==> a.0 in init || a.0 == ks[|ks| - 1];
      if a.0 == ks[|ks| - 1] {
        assert a.0 !in init by {
          forall x | 0 <= x < |init| ensures init[x] != a.0 {
            assert ks[x] != ks[|ks| - 1];
          }
        }
      }
    }
  }

  lemma {:induction false} KeysDistinct(atts: seq<Attachment>)
    ensures forall x, y :: 0 <= x < y < |Keys(atts)| ==> Keys(atts)[x] != Keys(atts)[y]
  {
    if |atts| > 0 {
      KeysDistinct(atts[..|atts| - 1]);
    }
  }

  lemma {:induction false} KeysMembers(atts: seq<Attachment>)
    ensures forall key :: key in Keys(atts) <==> exists n :: 0 <= n < |atts| && atts[n].0 == key
  {
    if |atts| > 0 {
      var init := atts[..|atts| - 1];
      KeysMembers(init);
      var ks := Keys(init);
      forall key
        ensures key in Keys(atts) <==> exists n :: 0 <= n < |atts| && atts[n].0 == key
      {
        if exists n :: 0 <= n < |atts| && atts[n].0 == key {
          var n :| 0 <= n < |atts| && atts[n].0 == key;
          if n < |init| {
            assert init[n].0 == key;
          }
        }
        if key in ks {
          var n :| 0 <= n < |init| && init[n].0 == key;
          assert atts[n].0 == key;
        }
      }
    }
  }

  lemma {:induction false} KeysGroupSizes(atts: seq<Attachment>)
    ensures GroupSizes(atts, Keys(atts)) == |atts|
  {
    if |atts| > 0 {
      var init := atts[..|atts| - 1];
      var a := atts[|atts| - 1];
      KeysGroupSizes(init);
      KeysDistinct(init);
      KeysMembers(init);
      assert atts == init + [a];
      var ks := Keys(init);
      GroupSizesAppend(init, a, ks);
      if a.0 !in ks {
        GroupOfNewKey(init, a, ks);
      }
    }
  }

  /**
   * The gears are listed once each, exactly the gears some number is attached
   * to, and every attached number sits in exactly one gear's group.
   */
  lemma KeysPartitionAttachments(atts: seq<Attachment>)
    ensures forall x, y :: 0 <= x < y < |Keys(atts)| ==> Keys(atts)[x] != Keys(atts)[y]
    ensures forall key :: key in Keys(atts) <==> exists n :: 0 <= n < |atts| && atts[n].0 == key
    ensures GroupSizes(atts, Keys(atts)) == |atts|
  {
    KeysDistinct(atts);
    KeysMembers(atts);
    KeysGroupSizes(atts);
  }

  lemma GroupOfNewKey(init: seq<Attachment>, a: Attachment, ks: seq<Key>)
    requires a.0 !in ks
    requires forall key :: key in ks <==> exists n :: 0 <= n < |init| && init[n].0 == key
    ensures GroupSizes(init + [a], ks + [a.0]) == GroupSizes(init + [a], ks) + 1
  {
    assert (ks + [a.0])[..|ks|] == ks;
    assert (init + [a])[..|init|] == init;
    GroupEmptyWhenAbsent(init, a.0);
  }

  lemma {:induction false} GroupEmptyWhenAbsent(atts: seq<Attachment>, key: Key)
    requires forall n :: 0 <= n < |atts| ==> atts[n].0 != key
    ensures Group(atts, key) == []
  {
    if |atts| > 0 {
      GroupEmptyWhenAbsent(atts[..|atts| - 1], key);
    }
  }

  /** Every attachment names a '*' of the schematic. */
  predicate GearsAreStars(schematic: Schematic, atts: seq<Attachment>)
  {
    forall n :: 0 <= n < |atts| ==> InGrid(schematic, atts[n].0.0, atts[n].0.1) && schematic[atts[n].0.0][atts[n].0.1] == '*'
  }

  lemma GearsAreStarsConcat(schematic: Schematic, a: seq<Attachment>, b: seq<Attachment>)
    requires GearsAreStars(schematic, a) && GearsAreStars(schematic, b)
    ensures GearsAreStars(schematic, a + b)
  {
    forall n | 0 <= n < |a + b|
      ensures InGrid(schematic, (a + b)[n].0.0, (a + b)[n].0.1) && schematic[(a + b)[n].0.0][(a + b)[n].0.1] == '*'
    {
      if n >= |a| {
        assert (a + b)[n] == b[n - |a|];
      }
    }
  }

  /**
   * With in-bounds lookups every attached gear is a '*' of the original
   * schematic.
   */
  lemma {:induction false} AttachRowGearsAreStars(schematic: Schematic, i: nat, j: nat)
    requires i < |schematic| && j <= |schematic[i]|
    ensures GearsAreStars(schematic, AttachRow(Clean(schematic), i, j, false))
    decreases |schematic[i]| - j
  {
    var g := Clean(schematic);
    if j < |g[i]| {
      if !IsDigit(g[i][j]) {
        AttachRowGearsAreStars(schematic, i, j + 1);
      } else {
        var k := RunEnd(g[i], j + 1);
        AttachRowGearsAreStars(schematic, i, k);
        var gear := FindAdjacentGear(g, i, j, k - 1, false);
        var head := if gear.Some? then [(gear.value, RunValue(g[i], j))] else [];
        assert AttachRow(g, i, j, false) == head + AttachRow(g, i, k, false);
        if gear.Some? {
          FoundGearIsStar(schematic, i, j, k - 1);
        }
        assert GearsAreStars(schematic, head);
        GearsAreStarsConcat(schematic, head, AttachRow(g, i, k, false));
      }
    }
  }

  lemma FoundGearIsStar(schematic: Schematic, row: int, col: int, endCol: int)
    requires FindAdjacentGear(Clean(schematic), row, col, endCol, false).Some?
    ensures var key := FindAdjacentGear(Clean(schematic), row, col, endCol, false).value;
      InGrid(schematic, key.0, key.1) && schematic[key.0][key.1] == '*'
  {
    var g := Clean(schematic);
    var gear := FindAdjacentGear(g, row, col, endCol, false);
    FindAdjacentGearMeaning(g, row, col, endCol, false);
    var c :| col <= c <= endCol && CheckFrom(g, row, c, 0, false) == gear;
    InBoundsCheckMeaning(g, row, c);
    CleanMeaning(schematic, gear.value.0, gear.value.1);
  }

  lemma {:induction false} AttachmentsGearsAreStars(schematic: Schematic, n: nat)
    requires n <= |schematic|
    ensures GearsAreStars(schematic, Attachments(Clean(schematic), n, false))
  {
    if n > 0 {
      AttachmentsGearsAreStars(schematic, n - 1);
      AttachRowGearsAreStars(schematic, n - 1, 0);
    }
  }

  /** A schematic whose only '*' ends the first row. */
  const PhantomExample: Schematic := ["5..*", "6..."]

  lemma ExampleIsClean()
    ensures Clean(PhantomExample) == PhantomExample
  {
    assert CleanRow(PhantomExample[0]) == PhantomExample[0];
    assert CleanRow(PhantomExample[1]) == PhantomExample[1];
  }

  lemma ExampleRunValues()
    ensures RunEnd(PhantomExample[0], 1) == 1 && RunEnd(PhantomExample[1], 1) == 1
    ensures RunValue(PhantomExample[0], 0) == 5 && RunValue(PhantomExample[1], 0) == 6
  {
    assert PhantomExample[0][0..1] == "5" && PhantomExample[1][0..1] == "6";
    assert DecimalValue("5") == 5;
    assert DecimalValue("6") == 6;
  }

  lemma ExampleTailsAttachNothing(asWritten: bool)
    ensures AttachRow(PhantomExample, 0, 1, asWritten) == []
    ensures AttachRow(PhantomExample, 1, 1, asWritten) == []
  {
    var g := PhantomExample;
    assert AttachRow(g, 0, 4, asWritten) == [];
    assert AttachRow(g, 0, 3, asWritten) == [];
    assert AttachRow(g, 0, 2, asWritten) == [];
    assert AttachRow(g, 1, 4, asWritten) == [];
    assert AttachRow(g, 1, 3, asWritten) == [];
    assert AttachRow(g, 1, 2, asWritten) == [];
  }

  lemma ExampleAsWrittenGears()
    ensures CheckFrom(PhantomExample, 0, 0, 0, true) == Some((0, -1))
    ensures CheckFrom(PhantomExample, 1, 0, 0, true) == Some((0, -1))
  {
    var g := PhantomExample;
    assert PhpIsset(g, 0, -1) && PhpCharAt(g, 0, -1) == '*';
    assert !PhpIsset(g, -1, -1) && !PhpIsset(g, -1, 0) && !PhpIsset(g, -1, 1);
    assert CheckFrom(g, 0, 0, 3, true) == Some((0, -1));
    assert CheckFrom(g, 0, 0, 0, true) == Some((0, -1));
    assert CheckFrom(g, 1, 0, 0, true) == Some((0, -1));
  }

  lemma ExampleInBoundsGears()
    ensures CheckFrom(PhantomExample, 0, 0, 0, false) == None
    ensures CheckFrom(PhantomExample, 1, 0, 0, false) == None
  {
    InBoundsCheckMeaning(PhantomExample, 0, 0);
    InBoundsCheckMeaning(PhantomExample, 1, 0);
    assert forall r, c :: SymbolAt(PhantomExample, r, c) ==> r == 0 && c == 3;
  }

  /**
   * PHP reads `$s[0][-1]` as the last character of row 0, so in the example
   * both numbers are attached to the phantom gear "0--1" and the as-written
   * sum is 5 * 6 = 30, while no number touches a real gear.
   */
  lemma PhantomGearExample()
    ensures SumOfGearNumberProducts(PhantomExample, true) == 30
    ensures SumOfGearNumberProducts(PhantomExample, false) == 0
  {
    ExampleIsClean();
    PhantomAsWritten();
    PhantomInBounds();
  }

  lemma PhantomAsWritten()
    requires Clean(PhantomExample) == PhantomExample
    ensures SumOfGearNumberProducts(PhantomExample, true) == 30
  {
    PhantomAttachments();
    PhantomRatio();
  }

  lemma PhantomAttachments()
    ensures Attachments(PhantomExample, 2, true) == [((0, -1), 5), ((0, -1), 6)]
  {
    var g := PhantomExample;
    ExampleRunValues();
    ExampleTailsAttachNothing(true);
    ExampleAsWrittenGears();
    assert FindAdjacentGear(g, 0, 0, 0, true) == Some((0, -1));
    assert FindAdjacentGear(g, 1, 0, 0, true) == Some((0, -1));
    assert AttachRow(g, 0, 0, true) == [((0, -1), 5)];
    assert AttachRow(g, 1, 0, true) == [((0, -1), 6)];
    assert Attachments(g, 1, true) == [((0, -1), 5)];
  }

  lemma PhantomRatio()
    ensures var atts: seq<Attachment> := [((0, -1), 5), ((0, -1), 6)]; RatioSum(atts, Keys(atts)) == 30
  {
    var atts: seq<Attachment> := [((0, -1), 5), ((0, -1), 6)];
    var first := atts[..1];
    assert first == [((0, -1), 5)];
    assert first[..0] == [];
    assert Keys(first) == [(0, -1)];
    assert Keys(atts) == [(0, -1)];
    assert Group(first, (0, -1)) == [5];
    assert Group(atts, (0, -1)) == [5, 6];
    assert [(0, -1)][..0] == [];
  }

  lemma PhantomInBounds()
    requires Clean(PhantomExample) == PhantomExample
    ensures SumOfGearNumberProducts(PhantomExample, false) == 0
  {
    var g := PhantomExample;
    ExampleRunValues();
    ExampleTailsAttachNothing(false);
    ExampleInBoundsGears();
    assert FindAdjacentGear(g, 0, 0, 0, false) == None;
    assert FindAdjacentGear(g, 1, 0, 0, false) == None;
    assert AttachRow(g, 0, 0, false) == [];
    assert AttachRow(g, 1, 0, false) == [];
    assert Attachments(g, 2, false) == [];
  }

}
