/**
 * Lens library (day 15, part 2): the HASHMAP procedure. 256 boxes hold
 * lenses in insertion order, each box an associative array from label to
 * focal length. A step `label-` removes the label's lens from box
 * `Hash(label)`; a step `label=f` replaces the focal length of the label's
 * lens in place, or puts a new lens at the back of the box.
 *
 * Steps are modelled as already split by the regular expression: a label
 * and either a removal or a focal length (the `(int)` of the text after `=`).
 */
module Day15Part2 {
  import opened Common
  import opened Day15Part1

  datatype Step = Remove(name: string) | Put(name: string, focal: int)

  datatype Lens = Lens(name: string, focal: int)

  /** A box: its lenses in slot order. */
  type Box = seq<Lens>

  /** `array_fill(0, 256, [])`. */
  const BoxCount: nat := 256

  /** `getHash`: the loop over `str_split($string)`, the same recurrence as part 1. */
  method GetHash(s: string) returns (r: int)
    ensures r == Hash(s)
    ensures 0 <= r < 256
  {
    r := 0;
    var i := 0;
    while i < |s|
      invariant 0 <= i <= |s|
      invariant HashFrom(r, s[i..]) == Hash(s)
      invariant 0 <= r < 256
    {
      assert s[i..][1..] == s[i + 1..];
      r := r + s[i] as int;
      r := r * 17;
      r := r % 256;
      i := i + 1;
    }
  }

  /** The labels of an associative array are its keys: no two slots share one. */
  predicate DistinctLabels(box: Box)
  {
    forall i, j :: 0 <= i < j < |box| ==> box[i].name != box[j].name
  }

  /** The slot holding `name`, if any. */
  function Find(box: Box, name: string): (r: Option<nat>)
    ensures r.Some? ==> r.value < |box| && box[r.value].name == name
    ensures r.Some? ==> forall i :: 0 <= i < r.value ==> box[i].name != name
    ensures r.None? ==> forall i :: 0 <= i < |box| ==> box[i].name != name
  {
    if |box| == 0 then None
    else if box[0].name == name then Some(0)
    else match Find(box[1..], name)
      case None => None
      case Some(i) => Some(i + 1)
  }

  /** `$box[$name]`: the focal length stored under `name`, if any. */
  function Focal(box: Box, name: string): Option<int>
  {
    match Find(box, name)
    case None => None
    case Some(i) => Some(box[i].focal)
  }

  /** `unset($box[$name])`. */
  function RemoveLens(box: Box, name: string): Box
  {
    match Find(box, name)
    case None => box
    case Some(i) => box[..i] + box[i + 1..]
  }

  /** `$box[$name] = $focal`. */
  function PutLens(box: Box, name: string, focal: int): Box
  {
    match Find(box, name)
    case None => box + [Lens(name, focal)]
    case Some(i) => box[i := Lens(name, focal)]
  }

  /** In a box of distinct labels, a lens's slot is where `Find` looks it up. */
  lemma FindDistinct(box: Box, name: string, k: nat)
    requires DistinctLabels(box) && k < |box| && box[k].name == name
    ensures Find(box, name) == Some(k)
  {
  }

  /** The lenses of `box` not labelled `name`, in their order. */
  function Without(box: Box, name: string): Box
  {
    if |box| == 0 then []
    else (if box[0].name == name then [] else [box[0]]) + Without(box[1..], name)
  }

  lemma {:induction false} WithoutAbsent(box: Box, name: string)
    requires forall k :: 0 <= k < |box| ==> box[k].name != name
    ensures Without(box, name) == box
    decreases |box|
  {
    if |box| > 0 {
      WithoutAbsent(box[1..], name);
      assert box == [box[0]] + box[1..];
    }
  }

  lemma {:induction false} WithoutAt(box: Box, name: string, i: nat)
    requires i < |box| && box[i].name == name
    requires forall k :: 0 <= k < |box| && k != i ==> box[k].name != name
    ensures Without(box, name) == box[..i] + box[i + 1..]
    decreases |box|
  {
    if i == 0 {
      WithoutAbsent(box[1..], name);
    } else {
      WithoutAt(box[1..], name, i - 1);
      assert box[..i] == [box[0]] + box[1..][..i - 1];
      assert box[i + 1..] == box[1..][i..];
    }
  }

  /**
   * Removal takes the name out and nothing else: the other lenses keep
   * their focal lengths and their order, and the labels stay distinct.
   */
  lemma RemoveLensSpec(box: Box, name: string)
    requires DistinctLabels(box)
    ensures DistinctLabels(RemoveLens(box, name))
    ensures Focal(RemoveLens(box, name), name) == None
    ensures forall l :: l != name ==> Focal(RemoveLens(box, name), l) == Focal(box, l)
    ensures |RemoveLens(box, name)| == if Focal(box, name).Some? then |box| - 1 else |box|
    ensures RemoveLens(box, name) == Without(box, name)
    ensures forall k :: 0 <= k < |box| && box[k].name == name ==> RemoveLens(box, name) == box[..k] + box[k + 1..]
  {
    match Find(box, name)
    case None =>
      WithoutAbsent(box, name);
    case Some(i) =>
      RemoveAtKeeps(box, name, i);
      WithoutAt(box, name, i);
      forall k | 0 <= k < |box| && box[k].name == name
        ensures k == i
      {
        FindDistinct(box, name, k);
      }
  }

  /** Taking out slot `i` keeps every other label's focal length. */
  lemma RemoveAtKeeps(box: Box, name: string, i: nat)
    requires DistinctLabels(box) && i < |box| && box[i].name == name
    ensures DistinctLabels(box[..i] + box[i + 1..])
    ensures forall l :: l != name ==> Focal(box[..i] + box[i + 1..], l) == Focal(box, l)
  {
    RemoveAtShape(box, i);
    forall l | l != name
      ensures Focal(box[..i] + box[i + 1..], l) == Focal(box, l)
    {
      RemoveAtFocal(box, name, i, l);
    }
  }

  /** Taking out slot `i` shifts the later slots down by one. */
  lemma RemoveAtShape(box: Box, i: nat)
    requires i < |box|
    ensures |box[..i] + box[i + 1..]| == |box| - 1
    ensures forall k :: 0 <= k < |box| - 1 ==> (box[..i] + box[i + 1..])[k] == if k < i then box[k] else box[k + 1]
  {
  }

  lemma RemoveAtFocal(box: Box, name: string, i: nat, l: string)
    requires DistinctLabels(box) && i < |box| && box[i].name == name && l != name
    ensures Focal(box[..i] + box[i + 1..], l) == Focal(box, l)
  {
    var r := box[..i] + box[i + 1..];
    RemoveAtShape(box, i);
    match Find(box, l)
    case None =>
    case Some(k) =>
      FindDistinct(r, l, if k < i then k else k - 1);
  }

  /**
   * Putting a lens stores its focal length under its name. A name already
   * present keeps its slot; a new one goes to the back. Every other lens
   * stays where it was, and the labels stay distinct.
   */
  lemma PutLensSpec(box: Box, name: string, focal: int)
    requires DistinctLabels(box)
    ensures DistinctLabels(PutLens(box, name, focal))
    ensures Focal(PutLens(box, name, focal), name) == Some(focal)
    ensures forall l :: l != name ==> Focal(PutLens(box, name, focal), l) == Focal(box, l)
    ensures Focal(box, name).Some? ==> |PutLens(box, name, focal)| == |box|
    ensures Focal(box, name).None? ==> PutLens(box, name, focal) == box + [Lens(name, focal)]
    ensures forall k :: 0 <= k < |box| && box[k].name != name ==> PutLens(box, name, focal)[k] == box[k]
  {
    var r := PutLens(box, name, focal);
    FindDistinct(r, name, match Find(box, name) case None => |box| case Some(i) => i);
    forall l | l != name
      ensures Focal(r, l) == Focal(box, l)
    {
      match Find(box, l)
      case None =>
      case Some(k) =>
        FindDistinct(r, l, k);
    }
  }

  /** Every lens sits in the box its name hashes to, and no box holds a name twice. */
  predicate WellFiled(boxes: seq<Box>)
  {
    && |boxes| == BoxCount
    && (forall b :: 0 <= b < |boxes| ==> DistinctLabels(boxes[b]))
    && (forall b, i :: 0 <= b < |boxes| && 0 <= i < |boxes[b]| ==> Hash(boxes[b][i].name) == b)
  }

  /** One step of `initializeBoxes`: only box `Hash(name)` changes. */
  function Apply(boxes: seq<Box>, step: Step): (r: seq<Box>)
    requires |boxes| == BoxCount
    ensures |r| == BoxCount
  {
    var h := Hash(step.name);
    match step
    case Remove(name) => boxes[h := RemoveLens(boxes[h], name)]
    case Put(name, focal) => boxes[h := PutLens(boxes[h], name, focal)]
  }

  /**
   * A step keeps the boxes well filed and changes no box but the name's:
   * afterwards the name is absent (`-`) or holds the new focal length (`=`),
   * and every other name keeps its focal length.
   */
  lemma ApplySpec(boxes: seq<Box>, step: Step)
    requires WellFiled(boxes)
    ensures WellFiled(Apply(boxes, step))
    ensures forall b :: 0 <= b < BoxCount && b != Hash(step.name) ==> Apply(boxes, step)[b] == boxes[b]
    ensures var h := Hash(step.name);
      Focal(Apply(boxes, step)[h], step.name) == if step.Remove? then None else Some(step.focal)
    ensures var h := Hash(step.name);
      forall l :: l != step.name ==> Focal(Apply(boxes, step)[h], l) == Focal(boxes[h], l)
  {
    var h := Hash(step.name);
    var r: seq<Box> := Apply(boxes, step);
    match step
    case Remove(name) =>
      RemoveLensSpec(boxes[h], name);
      forall i: int | 0 <= i < |r[h]|
        ensures Hash(r[h][i].name) == h
      {
        assert r[h][i] in boxes[h];
      }
    case Put(name, focal) =>
      PutLensSpec(boxes[h], name, focal);
      forall i: int | 0 <= i < |r[h]|
        ensures Hash(r[h][i].name) == h
      {
        if r[h][i].name != name {
          assert r[h][i] == boxes[h][i];
        }
      }
  }

  /** The boxes after the first `n` steps. */
  function Initialize(steps: seq<Step>, n: nat): (r: seq<Box>)
    requires n <= |steps|
    ensures |r| == BoxCount
  {
    if n == 0 then seq(BoxCount, _ => []) else Apply(Initialize(steps, n - 1), steps[n - 1])
  }

  lemma InitializeStep(steps: seq<Step>, i: nat)
    requires i < |steps|
    ensures Initialize(steps, i + 1) == Apply(Initialize(steps, i), steps[i])
  {
  }

  lemma {:induction false} InitializeWellFiled(steps: seq<Step>, n: nat)
    requires n <= |steps|
    ensures WellFiled(Initialize(steps, n))
  {
    if n > 0 {
      InitializeWellFiled(steps, n - 1);
      ApplySpec(Initialize(steps, n - 1), steps[n - 1]);
    }
  }

  /** `initializeBoxes`: the steps applied in order to 256 empty boxes. */
  method InitializeBoxes(steps: seq<Step>) returns (boxes: seq<Box>)
    ensures boxes == Initialize(steps, |steps|)
    ensures WellFiled(boxes)
  {
    boxes := seq(BoxCount, _ => []);
    var i := 0;
    while i < |steps|
      invariant 0 <= i <= |steps|
      invariant boxes == Initialize(steps, i)
    {
      var h := GetHash(steps[i].name);
      InitializeStep(steps, i);
      match steps[i] {
        case Remove(name) =>
          boxes := boxes[h := RemoveLens(boxes[h], name)];
        case Put(name, focal) =>
          boxes := boxes[h := PutLens(boxes[h], name, focal)];
      }
      i := i + 1;
    }
    InitializeWellFiled(steps, |steps|);
  }

  /** The power of the first `n` slots of box `b`: box number times slot number times focal length, both 1-based. */
  function BoxPower(b: int, box: Box, n: nat): int
    requires n <= |box|
  {
    if n == 0 then 0 else BoxPower(b, box, n - 1) + (b + 1) * n * box[n - 1].focal
  }

  /** The slot-weighted focal lengths of the first `n` slots. */
  function SlotSum(box: Box, n: nat): int
    requires n <= |box|
  {
    if n == 0 then 0 else SlotSum(box, n - 1) + n * box[n - 1].focal
  }

  /** A box's power is its box number times its slot-weighted focal lengths. */
  lemma {:induction false} BoxPowerFactor(b: int, box: Box, n: nat)
    requires n <= |box|
    ensures BoxPower(b, box, n) == (b + 1) * SlotSum(box, n)
  {
    if n > 0 {
      BoxPowerFactor(b, box, n - 1);
      assert (b + 1) * SlotSum(box, n) == (b + 1) * SlotSum(box, n - 1) + (b + 1) * (n * box[n - 1].focal);
    }
  }

  /** Changing the focal length in slot `k` changes the slot sum by the slot number times the change. */
  lemma {:induction false} SlotSumUpdate(box: Box, k: nat, focal: int, n: nat)
    requires k < |box| && n <= |box|
    ensures SlotSum(box[k := Lens(box[k].name, focal)], n)
         == SlotSum(box, n) + (if k < n then (k + 1) * (focal - box[k].focal) else 0)
  {
    if n > 0 {
      SlotSumUpdate(box, k, focal, n - 1);
    }
  }

  /** The power of the first `n` boxes. */
  function Power(boxes: seq<Box>, n: nat): int
    requires n <= |boxes|
  {
    if n == 0 then 0 else Power(boxes, n - 1) + BoxPower(n - 1, boxes[n - 1], |boxes[n - 1]|)
  }

  /** Boxes that agree except box `b` differ in power only by that box's power. */
  lemma {:induction false} PowerUpdate(boxes: seq<Box>, b: nat, box: Box, n: nat)
    requires b < |boxes| && n <= |boxes|
    ensures Power(boxes[b := box], n)
         == Power(boxes, n) + (if b < n then BoxPower(b, box, |box|) - BoxPower(b, boxes[b], |boxes[b]|) else 0)
  {
    if n > 0 {
      PowerUpdate(boxes, b, box, n - 1);
    }
  }

  /** Re-focusing slot `k` of box `b` changes its power by box number times slot number times the change. */
  lemma BoxRefocus(b: int, box: Box, k: nat, focal: int)
    requires k < |box|
    ensures BoxPower(b, box[k := Lens(box[k].name, focal)], |box|)
         == BoxPower(b, box, |box|) + (b + 1) * (k + 1) * (focal - box[k].focal)
  {
    var box' := box[k := Lens(box[k].name, focal)];
    BoxPowerFactor(b, box', |box'|);
    BoxPowerFactor(b, box, |box|);
    SlotSumUpdate(box, k, focal, |box|);
    Distribute(b + 1, SlotSum(box, |box|), k + 1, focal - box[k].focal);
  }

  lemma Distribute(a: int, s: int, c: int, d: int)
    ensures a * (s + c * d) == a * s + a * c * d
  {
  }

  /**
   * Re-focusing a lens already in place changes the total power by its box
   * number times its slot number times the change of focal length.
   */
  lemma RefocusPower(boxes: seq<Box>, step: Step)
    requires WellFiled(boxes) && step.Put? && Focal(boxes[Hash(step.name)], step.name).Some?
    ensures var h := Hash(step.name);
      var k := Find(boxes[h], step.name).value;
      Power(Apply(boxes, step), BoxCount)
        == Power(boxes, BoxCount) + (h + 1) * (k + 1) * (step.focal - boxes[h][k].focal)
  {
    var h := Hash(step.name);
    var box := boxes[h];
    var k := Find(box, step.name).value;
    var box' := PutLens(box, step.name, step.focal);
    assert box' == box[k := Lens(box[k].name, step.focal)];
    assert Apply(boxes, step) == boxes[h := box'];
    PowerUpdate(boxes, h, box', BoxCount);
    BoxRefocus(h, box, k, step.focal);
  }

  /** `calculateFocusingPower`: every lens's box number times slot number times focal length, added up. */
  method CalculateFocusingPower(boxes: seq<Box>) returns (total: int)
    ensures total == Power(boxes, |boxes|)
  {
    total := 0;
    var b := 0;
    while b < |boxes|
      invariant 0 <= b <= |boxes|
      invariant total == Power(boxes, b)
    {
      var box := boxes[b];
      if |box| != 0 {
        var slot := 0;
        while slot < |box|
          invariant 0 <= slot <= |box|
          invariant total == Power(boxes, b) + BoxPower(b, box, slot)
        {
          slot := slot + 1;
          total := total + (b + 1) * slot * box[slot - 1].focal;
        }
      }
      b := b + 1;
    }
  }

  /** The part 2 answer: the focusing power after all steps. */
  method FocusingPower(steps: seq<Step>) returns (power: int)
    ensures power == Power(Initialize(steps, |steps|), BoxCount)
  {
    var boxes := InitializeBoxes(steps);
    power := CalculateFocusingPower(boxes);
  }
}
