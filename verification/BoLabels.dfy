/** Buffer objects and the per-label statistics kept about them. */
module BoLabels {
  import opened Options
  import opened Widths
  import opened MadvState

  /** `vaddr` tells whether the object has its memory; `tag` is its label's index, -1 for none. */
  datatype Bo = Bo(size: nat, tag: int, madv: Madv, usecnt: nat, vaddr: bool, imported: bool,
                   publicName: bool, freeTime: int)

  /** The objects by identity; None once destroyed. */
  type Table = seq<Option<Bo>>

  datatype Label = Label(name: Option<string>, num: nat, bytes: nat)

  // The enum vc4_kernel_bo_type, with the names it starts with.
  const KERNEL_NAMES: seq<string> := ["kernel", "V3D", "V3D shader", "dumb", "binner", "RCL", "BCL", "kernel BO cache"]
  const TYPE_KERNEL: int := 0
  const TYPE_KERNEL_CACHE: int := 7
  const TYPE_COUNT: int := 8

  // ---- What the statistics must say ----

  /** How many objects carry the label. */
  function Count(bos: Table, l: int): nat {
    if bos == [] then 0 else Count(bos[..|bos| - 1], l) + One(bos[|bos| - 1], l)
  }

  /** Their sizes added up. */
  function Bytes(bos: Table, l: int): nat {
    if bos == [] then 0 else Bytes(bos[..|bos| - 1], l) + Size(bos[|bos| - 1], l)
  }

  function One(b: Option<Bo>, l: int): nat {
    if b.Some? && b.value.tag == l then 1 else 0
  }

  function Size(b: Option<Bo>, l: int): nat {
    if b.Some? && b.value.tag == l then b.value.size else 0
  }

  // What a label counts: the objects that carry it, and for the kernel label also the lost objects, those
  // whose structure was freed while the label still counted them. `lost` has their sizes.

  function Counted(bos: Table, lost: seq<nat>, l: int): nat {
    Count(bos, l) + if l == TYPE_KERNEL then |lost| else 0
  }

  function CountedBytes(bos: Table, lost: seq<nat>, l: int): nat {
    Bytes(bos, l) + if l == TYPE_KERNEL then Sum(lost) else 0
  }

  function Sum(sizes: seq<nat>): nat {
    if sizes == [] then 0 else Sum(sizes[..|sizes| - 1]) + sizes[|sizes| - 1]
  }

  predicate Entry(tag: Label, bos: Table, lost: seq<nat>, l: int) {
    tag.num == Counted(bos, lost, l) && tag.bytes == CountedBytes(bos, lost, l) % U32
  }

  /** Each label counts the objects that carry it and nothing else. */
  ghost predicate Exact(labels: seq<Label>, bos: Table) {
    forall l :: 0 <= l < |labels| ==> Entry(labels[l], bos, [], l)
  }

  ghost predicate UniqueNames(labels: seq<Label>) {
    forall l, m :: 0 <= l < m < |labels| && labels[l].name.Some? && labels[m].name.Some? ==>
      labels[l].name != labels[m].name
  }

  ghost predicate Labelled(labels: seq<Label>, bos: Table) {
    forall i :: 0 <= i < |bos| && bos[i].Some? ==> 0 <= bos[i].value.tag < |labels|
  }

  /** The statistics are exact up to the lost objects, names are unique, and a user slot has a name
      exactly when it is in use; `slot` may have its name already. */
  ghost predicate LabelsOk(labels: seq<Label>, bos: Table, lost: seq<nat>, slot: int) {
    && |labels| >= TYPE_COUNT
    && Labelled(labels, bos)
    && (forall l :: 0 <= l < |labels| ==> Entry(labels[l], bos, lost, l))
    && (forall l :: 0 <= l < TYPE_COUNT ==> labels[l].name == Some(KERNEL_NAMES[l]))
    && (forall l :: TYPE_COUNT <= l < |labels| ==>
          (labels[l].num > 0 ==> labels[l].name.Some?) && (labels[l].name.Some? ==> labels[l].num > 0 || l == slot))
    && UniqueNames(labels)
  }

  // ---- Moving one object between labels ----

  /** vc4_bo_set_label, on the array: -1 is no label. */
  function Moved(labels: seq<Label>, from: int, to: int, size: nat): (r: seq<Label>)
    requires 0 <= from < |labels| && -1 <= to < |labels|
    requires labels[from].num > 0
    ensures |r| == |labels|
  {
    var up := if to == -1 then labels else labels[to := Grown(labels[to], size)];
    var down := up[from := Shrunk(up[from], size)];
    if down[from].num == 0 && from >= TYPE_COUNT then down[from := down[from].(name := None)] else down
  }

  function Grown(l: Label, size: nat): Label {
    l.(num := l.num + 1, bytes := (l.bytes + size) % U32)
  }

  function Shrunk(l: Label, size: nat): Label
    requires l.num > 0
  {
    l.(num := l.num - 1, bytes := (l.bytes - size) % U32)
  }

  lemma {:induction false} CountSet(bos: Table, i: nat, b: Option<Bo>, l: int)
    requires i < |bos|
    ensures Count(bos[i := b], l) == Count(bos, l) - One(bos[i], l) + One(b, l)
    ensures Bytes(bos[i := b], l) == Bytes(bos, l) - Size(bos[i], l) + Size(b, l)
    decreases |bos|
  {
    var n := |bos| - 1;
    if i < n {
      CountSet(bos[..n], i, b, l);
      assert bos[i := b][..n] == bos[..n][i := b];
    } else {
      assert bos[i := b][..n] == bos[..n];
    }
  }

  lemma CountedSet(bos: Table, lost: seq<nat>, i: nat, b: Option<Bo>, l: int)
    requires i < |bos|
    ensures Counted(bos[i := b], lost, l) == Counted(bos, lost, l) - One(bos[i], l) + One(b, l)
    ensures CountedBytes(bos[i := b], lost, l) == CountedBytes(bos, lost, l) - Size(bos[i], l) + Size(b, l)
    ensures bos[i].Some? && bos[i].value.tag == l ==>
      Counted(bos, lost, l) > 0 && CountedBytes(bos, lost, l) >= bos[i].value.size
  {
    CountSet(bos, i, b, l);
    if bos[i].Some? && bos[i].value.tag == l {
      CountCovers(bos, i, l);
    }
  }

  lemma CountAppend(bos: Table, b: Option<Bo>, l: int)
    ensures Count(bos + [b], l) == Count(bos, l) + One(b, l)
    ensures Bytes(bos + [b], l) == Bytes(bos, l) + Size(b, l)
  {
    assert (bos + [b])[..|bos|] == bos;
  }

  lemma {:induction false} CountCovers(bos: Table, i: nat, l: int)
    requires i < |bos| && bos[i].Some? && bos[i].value.tag == l
    ensures Count(bos, l) > 0 && Bytes(bos, l) >= bos[i].value.size
    decreases |bos|
  {
    var n := |bos| - 1;
    if i < n {
      CountCovers(bos[..n], i, l);
    }
  }

  lemma GrowEntry(tag: Label, count: nat, bytes: nat, size: nat)
    requires tag.num == count && tag.bytes == bytes % U32
    ensures Grown(tag, size).num == count + 1 && Grown(tag, size).bytes == (bytes + size) % U32
  {
    ModSum(bytes, size);
  }

  lemma ShrinkEntry(tag: Label, count: nat, bytes: nat, size: nat)
    requires tag.num == count > 0 && tag.bytes == bytes % U32 && bytes >= size
    ensures Shrunk(tag, size).num == count - 1 && Shrunk(tag, size).bytes == (bytes - size) % U32
  {
    var less: int := 0 - size;
    ModSum(bytes, less);
  }

  lemma ModSum(a: int, b: int)
    ensures (a % U32 + b) % U32 == (a + b) % U32
  {
    var q := a / U32;
    var x := a % U32 + b;
    assert a + b == x + q * U32;
    ModShift(x, q);
  }

  lemma ModShift(x: int, q: int)
    ensures (x + q * U32) % U32 == x % U32
  {
    assert (x + q * U32) / U32 == x / U32 + q by {
      assert x + q * U32 == (x / U32 + q) * U32 + x % U32;
    }
  }

  /** The object as vc4_bo_set_label leaves it. */
  function Retagged(b: Option<Bo>, to: int): Option<Bo>
    requires b.Some?
  {
    if to == -1 then None else Some(b.value.(tag := to))
  }

  lemma MovedEntry(labels: seq<Label>, bos: Table, lost: seq<nat>, id: nat, to: int, l: nat)
    requires id < |bos| && bos[id].Some? && 0 <= bos[id].value.tag < |labels| && -1 <= to < |labels| && l < |labels|
    requires Entry(labels[l], bos, lost, l) && labels[bos[id].value.tag].num > 0
    ensures var from, size := bos[id].value.tag, bos[id].value.size;
      Entry(Moved(labels, from, to, size)[l], bos[id := Retagged(bos[id], to)], lost, l)
  {
    hide Grown, Shrunk, Counted, CountedBytes;
    var from, size := bos[id].value.tag, bos[id].value.size;
    CountedSet(bos, lost, id, Retagged(bos[id], to), l);
    var x, n, m := labels[l], Counted(bos, lost, l), CountedBytes(bos, lost, l);
    if l == to {
      GrowEntry(x, n, m, size);
      if l == from {
        ShrinkEntry(Grown(x, size), n + 1, m + size, size);
      }
    } else if l == from {
      ShrinkEntry(x, n, m, size);
    }
  }

  /** Whatever label an object moves to, the one it has included, or to none when it is destroyed: the
      statistics stay exact and a user slot loses its name with its last object. */
  lemma MovedOk(labels: seq<Label>, bos: Table, lost: seq<nat>, id: nat, to: int, slot: int)
    requires LabelsOk(labels, bos, lost, slot) && (slot == -1 || slot == to)
    requires id < |bos| && bos[id].Some? && -1 <= to < |labels|
    requires to >= TYPE_COUNT ==> labels[to].name.Some?
    ensures labels[bos[id].value.tag].num > 0
    ensures var r := Moved(labels, bos[id].value.tag, to, bos[id].value.size);
      LabelsOk(r, bos[id := Retagged(bos[id], to)], lost, -1)
  {
    hide UniqueNames;
    var from, size := bos[id].value.tag, bos[id].value.size;
    CountCovers(bos, id, from);
    assert Entry(labels[from], bos, lost, from);
    var r := Moved(labels, from, to, size);
    forall l | 0 <= l < |r| ensures Entry(r[l], bos[id := Retagged(bos[id], to)], lost, l) {
      MovedEntry(labels, bos, lost, id, to, l);
    }
    MovedNames(labels, from, to, size);
  }

  lemma MovedNames(labels: seq<Label>, from: int, to: int, size: nat)
    requires 0 <= from < |labels| && -1 <= to < |labels| && labels[from].num > 0 && UniqueNames(labels)
    ensures var r := Moved(labels, from, to, size);
      && UniqueNames(r)
      && (forall l :: 0 <= l < |r| ==> r[l].name == labels[l].name || r[l].name == None)
      && (forall l :: 0 <= l < |r| && l != from ==> r[l].name == labels[l].name)
      && (r[from].name == if r[from].num == 0 && from >= TYPE_COUNT then None else labels[from].name)
      && (forall l :: 0 <= l < |r| && l != from && l != to ==> r[l].num == labels[l].num)
      && (to != -1 && to != from ==> r[to].num == labels[to].num + 1)
      && (r[from].num == if to == from then labels[from].num else labels[from].num - 1)
  {
  }

  /** One more object, of the given size, for the kernel label to count. */
  lemma KernelGrown(labels: seq<Label>, bos: Table, lost: seq<nat>, all: Table, gone: seq<nat>, size: nat)
    requires LabelsOk(labels, bos, lost, -1) && Labelled(labels, all)
    requires forall l :: 0 <= l < |labels| ==>
      && Counted(all, gone, l) == Counted(bos, lost, l) + (if l == TYPE_KERNEL then 1 else 0)
      && CountedBytes(all, gone, l) == CountedBytes(bos, lost, l) + (if l == TYPE_KERNEL then size else 0)
    ensures LabelsOk(labels[TYPE_KERNEL := Grown(labels[TYPE_KERNEL], size)], all, gone, -1)
  {
    hide Counted, CountedBytes;
    var r, k := labels[TYPE_KERNEL := Grown(labels[TYPE_KERNEL], size)], labels[TYPE_KERNEL];
    GrowEntry(k, Counted(bos, lost, TYPE_KERNEL), CountedBytes(bos, lost, TYPE_KERNEL), size);
    forall l | 0 <= l < |r| ensures Entry(r[l], all, gone, l) {
      assert Entry(labels[l], bos, lost, l);
    }
  }

  /** A new object under the kernel label. */
  lemma CreatedOk(labels: seq<Label>, bos: Table, lost: seq<nat>, b: Bo)
    requires LabelsOk(labels, bos, lost, -1) && b.tag == TYPE_KERNEL
    ensures LabelsOk(labels[TYPE_KERNEL := Grown(labels[TYPE_KERNEL], b.size)], bos + [Some(b)], lost, -1)
  {
    hide Entry, UniqueNames, Count, Bytes;
    forall l {
      CountAppend(bos, Some(b), l);
    }
    KernelGrown(labels, bos, lost, bos + [Some(b)], lost, b.size);
  }

  /** An object accounted under the kernel label and then freed without leaving it: the label counts
      one more than there is, for ever. */
  lemma LostOk(labels: seq<Label>, bos: Table, lost: seq<nat>, size: nat)
    requires LabelsOk(labels, bos, lost, -1)
    ensures LabelsOk(labels[TYPE_KERNEL := Grown(labels[TYPE_KERNEL], size)], bos + [None], lost + [size], -1)
  {
    hide Entry, UniqueNames, Count, Bytes;
    assert (lost + [size])[..|lost|] == lost;
    forall l {
      CountAppend(bos, None, l);
    }
    KernelGrown(labels, bos, lost, bos + [None], lost + [size], size);
  }

  /** The statistics are exact if and only if no object was ever lost. */
  lemma ExactIff(labels: seq<Label>, bos: Table, lost: seq<nat>)
    requires LabelsOk(labels, bos, lost, -1)
    ensures Exact(labels, bos) <==> lost == []
    ensures labels[TYPE_KERNEL].num == Count(bos, TYPE_KERNEL) + |lost|
    ensures labels[TYPE_KERNEL].bytes == (Bytes(bos, TYPE_KERNEL) + Sum(lost)) % U32
  {
    hide UniqueNames, Labelled, Exact, Entry, Count, Bytes, Sum;
    ExactWhen(labels, bos, lost);
  }

  lemma ExactWhen(labels: seq<Label>, bos: Table, lost: seq<nat>)
    requires TYPE_KERNEL < |labels| && forall l :: 0 <= l < |labels| ==> Entry(labels[l], bos, lost, l)
    ensures Exact(labels, bos) <==> lost == []
    ensures labels[TYPE_KERNEL].num == Count(bos, TYPE_KERNEL) + |lost|
    ensures labels[TYPE_KERNEL].bytes == (Bytes(bos, TYPE_KERNEL) + Sum(lost)) % U32
  {
    hide Count, Bytes, Sum;
    assert Entry(labels[TYPE_KERNEL], bos, lost, TYPE_KERNEL);
    if lost != [] {
      assert !Entry(labels[TYPE_KERNEL], bos, [], TYPE_KERNEL);
    }
  }

  // ---- User labels ----

  /** A name may be put in an unused user slot, or in a new one at the end. */
  lemma NamedOk(labels: seq<Label>, bos: Table, lost: seq<nat>, slot: nat, name: string)
    requires LabelsOk(labels, bos, lost, -1) && slot < |labels| && labels[slot].name == None
    requires forall l :: 0 <= l < |labels| ==> labels[l].name != Some(name)
    ensures LabelsOk(labels[slot := labels[slot].(name := Some(name))], bos, lost, slot) && labels[slot].num == 0
  {
    var r := labels[slot := labels[slot].(name := Some(name))];
    forall l | 0 <= l < |r| ensures Entry(r[l], bos, lost, l) {
      assert Entry(labels[l], bos, lost, l);
    }
  }

  lemma ExtendedOk(labels: seq<Label>, bos: Table, lost: seq<nat>, name: string)
    requires LabelsOk(labels, bos, lost, -1)
    requires forall l :: 0 <= l < |labels| ==> labels[l].name != Some(name)
    ensures LabelsOk(labels + [Label(Some(name), 0, 0)], bos, lost, |labels|)
  {
    var r := labels + [Label(Some(name), 0, 0)];
    CountNone(bos, |labels|);
    forall l | 0 <= l < |r| ensures Entry(r[l], bos, lost, l) {
      assert l < |labels| ==> Entry(labels[l], bos, lost, l);
    }
  }

  lemma {:induction false} CountNone(bos: Table, l: int)
    requires forall i :: 0 <= i < |bos| && bos[i].Some? ==> bos[i].value.tag < l
    ensures Count(bos, l) == 0 && Bytes(bos, l) == 0
    decreases |bos|
  {
    if bos != [] {
      CountNone(bos[..|bos| - 1], l);
    }
  }

  /** Changing anything but label and size leaves the statistics as they are. */
  lemma KeptOk(labels: seq<Label>, bos: Table, lost: seq<nat>, id: nat, b: Bo)
    requires LabelsOk(labels, bos, lost, -1) && id < |bos| && bos[id].Some?
    requires b.tag == bos[id].value.tag && b.size == bos[id].value.size
    ensures LabelsOk(labels, bos[id := Some(b)], lost, -1)
  {
    var r := bos[id := Some(b)];
    forall l | 0 <= l < |labels| ensures Entry(labels[l], r, lost, l) {
      CountSet(bos, id, Some(b), l);
      assert Entry(labels[l], bos, lost, l);
    }
  }
}
