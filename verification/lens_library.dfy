/** The lens library (`y2023/src/d15/mod.rs`): a hash of a label's bytes
    picks one of 256 boxes; `-` takes the lens with that label out of its
    box, `=` sets its focal length or puts a new lens at the back; the
    focusing power weighs each focal length by box and slot number. */
module LensLibrary {
  import opened Wrappers

  /** A byte of a label. */
  type Byte = b: int | 0 <= b < 256

  /** `do_hash`: for each byte, add it, multiply by 17, keep the remainder
      modulo 256. */
  function Hash(s: seq<Byte>): (h: nat)
    ensures h < 256
    decreases |s|
  {
    if |s| == 0 then 0 else ((Hash(s[..|s| - 1]) + s[|s| - 1]) * 17) % 256
  }

  /** Hashing goes on from a running value. */
  function HashFrom(h: nat, s: seq<Byte>): nat
    decreases |s|
  {
    if |s| == 0 then h else HashFrom(((h + s[0]) * 17) % 256, s[1..])
  }

  /** The hash is a left fold: a string's hash continues from the hash of
      any prefix of it. */
  lemma {:induction false} HashAppend(a: seq<Byte>, b: seq<Byte>)
    ensures Hash(a + b) == HashFrom(Hash(a), b)
    decreases |b|
  {
    if |b| > 0 {
      var a' := a + [b[0]];
      assert a + b == a' + b[1..];
      assert a'[..|a'| - 1] == a;
      HashAppend(a', b[1..]);
    } else {
      assert a + b == a;
    }
  }

  /** The worked example: `HASH` hashes to 52. */
  lemma HashExample()
    ensures Hash([72, 65, 83, 72]) == 52
  {
    var s: seq<Byte> := [72, 65, 83, 72];
    assert s[..3] == [72, 65, 83];
    assert s[..3][..2] == [72, 65];
    assert s[..3][..2][..1] == [72];
    assert Hash([72]) == 200;
    assert Hash([72, 65]) == 153;
    assert Hash([72, 65, 83]) == 172;
  }

  datatype Lens = Lens(name: seq<Byte>, focus: nat)

  /** `label_position`: the first slot holding a lens with the label. */
  function LabelPosition(lenses: seq<Lens>, name: seq<Byte>): (r: Option<nat>)
    ensures r.None? <==> forall i :: 0 <= i < |lenses| ==> lenses[i].name != name
    ensures r.Some? ==> r.value < |lenses| && lenses[r.value].name == name
    ensures r.Some? ==> forall i :: 0 <= i < r.value ==> lenses[i].name != name
    decreases |lenses|
  {
    if |lenses| == 0 then None
    else if lenses[0].name == name then Some(0)
    else
      match LabelPosition(lenses[1..], name)
      case None => None
      case Some(i) => Some(i + 1)
  }

  /** `-`: the first lens with the label leaves the box; the others keep
      their order. */
  function Remove(lenses: seq<Lens>, name: seq<Byte>): seq<Lens> {
    match LabelPosition(lenses, name)
    case None => lenses
    case Some(i) => lenses[..i] + lenses[i + 1..]
  }

  /** `=`: the lens with the label takes the new focal length in its slot,
      or a new lens goes at the back. */
  function Put(lenses: seq<Lens>, name: seq<Byte>, focus: nat): seq<Lens> {
    match LabelPosition(lenses, name)
    case None => lenses + [Lens(name, focus)]
    case Some(i) => lenses[i := Lens(name, focus)]
  }

  /** No label occurs twice in a box. */
  predicate UniqueLabels(lenses: seq<Lens>) {
    forall i, j :: 0 <= i < j < |lenses| ==> lenses[i].name != lenses[j].name
  }

  /** Removing from a box with unique labels leaves no lens with the label,
      and keeps the labels unique. */
  lemma RemoveClears(lenses: seq<Lens>, name: seq<Byte>)
    requires UniqueLabels(lenses)
    ensures UniqueLabels(Remove(lenses, name))
    ensures forall i :: 0 <= i < |Remove(lenses, name)| ==> Remove(lenses, name)[i].name != name
  {
    var r := Remove(lenses, name);
    if LabelPosition(lenses, name).Some? {
      var p := LabelPosition(lenses, name).value;
      forall i | 0 <= i < |r| ensures r[i] == lenses[if i < p then i else i + 1] {
      }
    }
  }

  /** Putting keeps labels unique, and afterwards exactly one lens has the
      label, with the new focal length. */
  lemma PutSets(lenses: seq<Lens>, name: seq<Byte>, focus: nat)
    requires UniqueLabels(lenses)
    ensures UniqueLabels(Put(lenses, name, focus))
    ensures LabelPosition(Put(lenses, name, focus), name).Some?
    ensures Put(lenses, name, focus)[LabelPosition(Put(lenses, name, focus), name).value].focus == focus
  {
    var r := Put(lenses, name, focus);
    var q := LabelPosition(r, name);
    assert q.Some? by {
      if LabelPosition(lenses, name).None? {
        assert r[|lenses|].name == name;
      } else {
        assert r[LabelPosition(lenses, name).value].name == name;
      }
    }
  }

  /** Every lens without the label, in box order. */
  function Without(lenses: seq<Lens>, name: seq<Byte>): seq<Lens>
    decreases |lenses|
  {
    if |lenses| == 0 then []
    else (if lenses[0].name == name then [] else [lenses[0]]) + Without(lenses[1..], name)
  }

  /** In a box with unique labels, `-` keeps every other lens in its
      order. */
  lemma {:induction false} RemoveIsWithout(lenses: seq<Lens>, name: seq<Byte>)
    requires UniqueLabels(lenses)
    ensures Remove(lenses, name) == Without(lenses, name)
    decreases |lenses|
  {
    if |lenses| > 0 {
      var tail := lenses[1..];
      if lenses[0].name == name {
        assert forall i :: 0 <= i < |tail| ==> tail[i].name != name by {
          forall i | 0 <= i < |tail| ensures tail[i].name != name {
            assert tail[i] == lenses[i + 1];
          }
        }
        WithoutAbsent(tail, name);
      } else {
        RemoveIsWithout(tail, name);
        match LabelPosition(tail, name)
        case None =>
        case Some(i) =>
          assert lenses[..i + 1] == [lenses[0]] + tail[..i];
          assert lenses[i + 2..] == tail[i + 1..];
      }
    }
  }

  lemma {:induction false} WithoutAbsent(lenses: seq<Lens>, name: seq<Byte>)
    requires forall i :: 0 <= i < |lenses| ==> lenses[i].name != name
    ensures Without(lenses, name) == lenses
    decreases |lenses|
  {
    if |lenses| > 0 {
      WithoutAbsent(lenses[1..], name);
    }
  }

  /** `=` touches no lens but the one with the label: taking that label
      out afterwards leaves what taking it out before leaves. */
  lemma PutThenRemove(lenses: seq<Lens>, name: seq<Byte>, focus: nat)
    ensures Remove(Put(lenses, name, focus), name) == Remove(lenses, name)
  {
    var r := Put(lenses, name, focus);
    match LabelPosition(lenses, name)
    case None =>
      assert LabelPosition(r, name) == Some(|lenses|) by {
        FirstAt(r, name, |lenses|);
      }
      assert r[..|lenses|] == lenses;
    case Some(i) =>
      assert LabelPosition(r, name) == Some(i) by {
        FirstAt(r, name, i);
      }
  }

  /** A slot holding the label, after slots that do not, is the label's
      position. */
  lemma FirstAt(lenses: seq<Lens>, name: seq<Byte>, i: nat)
    requires i < |lenses| && lenses[i].name == name
    requires forall k :: 0 <= k < i ==> lenses[k].name != name
    ensures LabelPosition(lenses, name) == Some(i)
  {
  }

  /** The 256 boxes. */
  type Boxes = b: seq<seq<Lens>> | |b| == 256 witness seq(256, _ => [])

  datatype Step = Dash(name: seq<Byte>) | Equals(name: seq<Byte>, focus: nat)

  /** One step of the initialisation sequence, applied to the box the
      label hashes to. */
  function Apply(boxes: Boxes, step: Step): (r: Boxes)
    ensures forall b :: 0 <= b < 256 && b != Hash(step.name) ==> r[b] == boxes[b]
  {
    var b := Hash(step.name);
    match step
    case Dash(name) => boxes[b := Remove(boxes[b], name)]
    case Equals(name, focus) => boxes[b := Put(boxes[b], name, focus)]
  }

  /** Every lens sits in the box its label hashes to, and no box holds a
      label twice. */
  predicate Sorted(boxes: Boxes) {
    forall b :: 0 <= b < 256 ==> UniqueLabels(boxes[b]) && InBox(boxes[b], b)
  }

  predicate InBox(lenses: seq<Lens>, b: nat) {
    forall i :: 0 <= i < |lenses| ==> Hash(lenses[i].name) == b
  }

  /** Every step keeps the boxes sorted. */
  lemma ApplyKeepsSorted(boxes: Boxes, step: Step)
    requires Sorted(boxes)
    ensures Sorted(Apply(boxes, step))
  {
    var b := Hash(step.name);
    var r := Apply(boxes, step);
    match step
    case Dash(name) =>
      RemoveClears(boxes[b], name);
      RemoveInBox(boxes[b], name, b);
    case Equals(name, focus) =>
      PutSets(boxes[b], name, focus);
      PutInBox(boxes[b], name, focus, b);
  }

  lemma RemoveInBox(lenses: seq<Lens>, name: seq<Byte>, b: nat)
    requires InBox(lenses, b)
    ensures InBox(Remove(lenses, name), b)
  {
    var r := Remove(lenses, name);
    if LabelPosition(lenses, name).Some? {
      var p := LabelPosition(lenses, name).value;
      forall i | 0 <= i < |r| ensures r[i] == lenses[if i < p then i else i + 1] {
      }
    }
  }

  lemma PutInBox(lenses: seq<Lens>, name: seq<Byte>, focus: nat, b: nat)
    requires InBox(lenses, b) && Hash(name) == b
    ensures InBox(Put(lenses, name, focus), b)
  {
  }

  /** `calc_scores`: box number plus one, times slot number plus one, times
      focal length, summed over the box. */
  function BoxPower(lenses: seq<Lens>, box: nat): nat
    decreases |lenses|
  {
    if |lenses| == 0 then 0
    else BoxPower(lenses[..|lenses| - 1], box) + (box + 1) * |lenses| * lenses[|lenses| - 1].focus
  }

  /** The weighted sum of focal lengths, each lens counted by its slot
      number. */
  function SlotSum(lenses: seq<Lens>): nat
    decreases |lenses|
  {
    if |lenses| == 0 then 0 else SlotSum(lenses[..|lenses| - 1]) + |lenses| * lenses[|lenses| - 1].focus
  }

  /** A box's power is its number plus one times the slot-weighted sum. */
  lemma {:induction false} BoxPowerFactors(lenses: seq<Lens>, box: nat)
    ensures BoxPower(lenses, box) == (box + 1) * SlotSum(lenses)
    decreases |lenses|
  {
    if |lenses| > 0 {
      var last := lenses[|lenses| - 1];
      BoxPowerFactors(lenses[..|lenses| - 1], box);
      Factor(box + 1, SlotSum(lenses[..|lenses| - 1]), |lenses|, last.focus);
    }
  }

  lemma Factor(w: int, s: int, n: int, f: int)
    ensures w * s + w * n * f == w * (s + n * f)
  {
  }

  lemma Distribute(a: int, b: int, c: int)
    ensures a * (b + c) == a * b + a * c
  {
  }

  /** Setting the focal length of the lens in slot `i` changes the slot
      sum by that slot's weight times the change. */
  lemma {:induction false} SlotSumUpdate(lenses: seq<Lens>, i: nat, focus: nat)
    requires i < |lenses|
    ensures SlotSum(lenses[i := lenses[i].(focus := focus)]) + (i + 1) * lenses[i].focus
         == SlotSum(lenses) + (i + 1) * focus
    decreases |lenses|
  {
    var n := |lenses|;
    var r := lenses[i := lenses[i].(focus := focus)];
    if i < n - 1 {
      assert r[..n - 1] == lenses[..n - 1][i := lenses[i].(focus := focus)];
      SlotSumUpdate(lenses[..n - 1], i, focus);
    } else {
      assert r[..n - 1] == lenses[..n - 1];
      Distribute(n, lenses[i].focus, 0);
    }
  }

  /** Changing the focal length of the lens in slot `i` of box `box`
      changes the box's power by that slot's weight times the change. */
  lemma PutExistingPower(lenses: seq<Lens>, name: seq<Byte>, focus: nat, box: nat, i: nat)
    requires LabelPosition(lenses, name) == Some(i)
    ensures BoxPower(Put(lenses, name, focus), box) + (box + 1) * ((i + 1) * lenses[i].focus)
         == BoxPower(lenses, box) + (box + 1) * ((i + 1) * focus)
  {
    var r := Put(lenses, name, focus);
    assert r == lenses[i := lenses[i].(focus := focus)];
    BoxPowerFactors(lenses, box);
    BoxPowerFactors(r, box);
    SlotSumUpdate(lenses, i, focus);
    Scale(box + 1, SlotSum(r), (i + 1) * lenses[i].focus, SlotSum(lenses), (i + 1) * focus);
  }

  /** A new lens at the back adds its slot's weight times its focal
      length. */
  lemma PutNewPower(lenses: seq<Lens>, name: seq<Byte>, focus: nat, box: nat)
    requires LabelPosition(lenses, name).None?
    ensures BoxPower(Put(lenses, name, focus), box) == BoxPower(lenses, box) + (box + 1) * (|lenses| + 1) * focus
  {
    var r := Put(lenses, name, focus);
    assert r[..|r| - 1] == lenses;
  }

  lemma Scale(w: int, a: int, x: int, b: int, y: int)
    requires a + x == b + y
    ensures w * a + w * x == w * b + w * y
  {
    Distribute(w, a, x);
    Distribute(w, b, y);
  }
}
