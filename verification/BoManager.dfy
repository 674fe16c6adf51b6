/** The life of vc4 buffer objects, one operation at a time: created or taken from the cache, labelled,
    used, marked purgeable, purged, cached again or destroyed. */
module BoManager {
  import opened Options
  import opened Lists
  import opened Widths
  import opened MadvState
  import opened BoLabels
  import opened BoCache
  import opened BoPool

  const MAX_DMA: nat := 0x400_0000_0000  // no contiguous allocation is larger than 4 TiB
  const SECOND: int := 1000             // in jiffies
  const MADV_WILLNEED: nat := 0
  const MADV_DONTNEED: nat := 1

  datatype Status = Ok | EInval | ENoEnt | ENoMem

  /** How an allocation from DMA memory ends: no memory for the object; the object, already accounted,
      cannot be initialized; no memory for its buffer; or well. */
  datatype Dma = NoObject | NoInit | NoBuffer | Allocated

  /** How many of the attempts made, those up to the first that goes well, fail to initialize. */
  function Failures(outcomes: seq<Dma>): nat {
    if outcomes == [] || outcomes[0] == Allocated then 0
    else Failure(outcomes[0]) + Failures(outcomes[1..])
  }

  function Failure(outcome: Dma): nat {
    if outcome == NoInit then 1 else 0
  }

  /** None of the attempts made fails to initialize exactly when no failing one comes before all that
      go well. */
  lemma {:induction false} NoFailures(outcomes: seq<Dma>)
    ensures Failures(outcomes) == 0 <==>
      forall i :: 0 <= i < |outcomes| && outcomes[i] == NoInit ==> Allocated in outcomes[..i]
  {
    if outcomes != [] && outcomes[0] != Allocated {
      NoFailures(outcomes[1..]);
      assert forall i :: 0 < i <= |outcomes| ==> outcomes[..i] == [outcomes[0]] + outcomes[1..][..i - 1];
      assert forall i :: 0 <= i < |outcomes| - 1 ==> outcomes[1..][i] == outcomes[i + 1];
      assert outcomes[..0] == [];
    } else if outcomes != [] {
      assert forall i :: 0 < i <= |outcomes| ==> outcomes[0] in outcomes[..i];
    }
  }

  /** n objects of one size. */
  function Repeated(size: nat, n: nat): (sizes: seq<nat>)
    ensures |sizes| == n
  {
    seq(n, _ => size)
  }

  lemma RepeatedNone(s: seq<nat>, size: nat)
    ensures s + Repeated(size, 0) == s
  {}

  lemma RepeatedSum(s: seq<nat>, size: nat, a: nat, b: nat)
    ensures s + Repeated(size, a) + Repeated(size, b) == s + Repeated(size, a + b)
  {}

  ghost predicate Sound(bos: Table, timeList: seq<nat>, buckets: nat, clock: int) {
    && buckets <= 0x8000_0000
    && (forall k :: 0 <= k < |timeList| ==> TimeOf(bos, timeList[k]) <= clock)
    && (forall id :: 0 <= id < |bos| && bos[id].Some? ==> SoundBo(bos[id].value))
  }

  predicate SoundBo(b: Bo) {
    && (!b.imported ==> b.size > 0 && b.size % PAGE_SIZE == 0)
    && (!b.imported && b.vaddr ==> b.size <= MAX_DMA)
    && (b.madv == DontNeed ==> !b.imported)
    && (b.madv == Purged ==> !b.vaddr && b.usecnt == 0)
  }

  ghost predicate ListsOk(bos: Table, sizeLists: seq<seq<nat>>, timeList: seq<nat>, pool: seq<nat>, num: int,
      bytes: int, clock: int) {
    CacheOk(bos, sizeLists, timeList) && PoolOk(bos, pool, num, bytes) && Sound(bos, timeList, |sizeLists|, clock)
  }

  /** The pool after an object changed from a to b. */
  function PoolAfter(pool: seq<nat>, id: nat, a: Option<Bo>, b: Option<Bo>): seq<nat> {
    if Purgeable(a) && !Purgeable(b) then Without(pool, id)
    else if !Purgeable(a) && Purgeable(b) then pool + [id]
    else pool
  }

  /** An object that is not cached may change, as long as the pool follows. */
  lemma ObjectChanges(bos: Table, sizeLists: seq<seq<nat>>, timeList: seq<nat>, pool: seq<nat>, num: int,
      bytes: int, clock: int, id: nat, b: Option<Bo>)
    requires ListsOk(bos, sizeLists, timeList, pool, num, bytes, clock)
    requires id < |bos| && bos[id].Some? && id !in timeList
    requires b.Some? ==> b.value.size == bos[id].value.size && SoundBo(b.value)
    ensures var joins := (if Purgeable(b) then 1 else 0) - (if Purgeable(bos[id]) then 1 else 0);
      ListsOk(bos[id := b], sizeLists, timeList, PoolAfter(pool, id, bos[id], b), num + joins,
              bytes + joins * bos[id].value.size, clock)
  {
    hide PoolOk, Without;
    assert forall k :: 0 <= k < |timeList| ==> Cacheable(bos, timeList[k], |sizeLists|);
    FrameOk(bos, bos[id := b], sizeLists, timeList);
    PoolChange(bos, pool, num, bytes, id, b);
  }

  lemma NothingAppears(bos: Table, sizeLists: seq<seq<nat>>, timeList: seq<nat>, pool: seq<nat>, num: int,
      bytes: int, clock: int)
    requires ListsOk(bos, sizeLists, timeList, pool, num, bytes, clock)
    ensures ListsOk(bos + [None], sizeLists, timeList, pool, num, bytes, clock)
  {
    hide PoolOk;
    assert forall k :: 0 <= k < |timeList| ==> Cacheable(bos, timeList[k], |sizeLists|);
    FrameOk(bos, bos + [None], sizeLists, timeList);
    PoolNew(bos, pool, num, bytes, None);
  }

  lemma ObjectAppears(bos: Table, sizeLists: seq<seq<nat>>, timeList: seq<nat>, pool: seq<nat>, num: int,
      bytes: int, clock: int, b: Bo)
    requires ListsOk(bos, sizeLists, timeList, pool, num, bytes, clock) && SoundBo(b) && !Purgeable(Some(b))
    ensures ListsOk(bos + [Some(b)], sizeLists, timeList, pool, num, bytes, clock)
    ensures |bos| !in timeList
  {
    hide PoolOk;
    assert forall k :: 0 <= k < |timeList| ==> Cacheable(bos, timeList[k], |sizeLists|);
    FrameOk(bos, bos + [Some(b)], sizeLists, timeList);
    PoolNew(bos, pool, num, bytes, Some(b));
  }

  /** A purgeable object without its memory. */
  function PurgedOf(b: Option<Bo>): Option<Bo>
    requires Purgeable(b)
  {
    Some(b.value.(madv := Purged, vaddr := false))
  }

  /** The part of the list that the age sweep leaves: from the end, objects expire until one has not. */
  function Kept(bos: Table, list: seq<nat>, expire: int): seq<nat> {
    if list == [] || expire < TimeOf(bos, list[|list| - 1]) then list else Kept(bos, list[..|list| - 1], expire)
  }

  /** Because the list is sorted by age, the sweep removes exactly the expired objects. */
  lemma {:induction false} SweepExact(bos: Table, list: seq<nat>, expire: int, id: nat)
    requires ByAge(bos, list)
    ensures Kept(bos, list, expire) <= list
    ensures id in Kept(bos, list, expire) <==> id in list && expire < TimeOf(bos, id)
    decreases |list|
  {
    if list != [] {
      var n := |list| - 1;
      if expire < TimeOf(bos, list[n]) {
        if id in list {
          var k :| 0 <= k < |list| && list[k] == id;
        }
      } else {
        SweepExact(bos, list[..n], expire, id);
        if id in list && id !in list[..n] {
          assert id == list[n];
        }
      }
    }
  }

  /** The table once the objects that left the list are destroyed. */
  function Dropped(bos: Table, before: seq<nat>, after: seq<nat>): Table {
    seq(|bos|, x requires 0 <= x < |bos| => if x in before && x !in after then None else bos[x])
  }

  /** Objects that were not in the list are as they were, or have been purged, and `made` is the only
      object there may be beside them. */
  ghost predicate Spares(before: Table, after: Table, list: seq<nat>, made: Option<nat>) {
    && |before| <= |after|
    && (forall x :: 0 <= x < |before| && x !in list ==>
          after[x] == before[x] || (Purgeable(before[x]) && after[x] == PurgedOf(before[x])))
    && (forall x :: |before| <= x < |after| ==> after[x] == None || made == Some(x))
  }

  lemma SparesTaken(bos: Table, list: seq<nat>, id: nat, b: Bo)
    requires id < |bos| && id in list
    ensures Spares(bos, bos[id := Some(b)], list, Some(id))
  {}

  lemma SparesNothing(bos: Table, list: seq<nat>)
    ensures Spares(bos, bos, list, None)
  {}

  /** The table after one attempt to allocate. */
  function Tried(bos: Table, outcome: Dma, size: nat): Table {
    match outcome
    case NoObject => bos
    case NoInit => bos + [None]
    case NoBuffer => bos + [None]
    case Allocated => bos + [Some(Bo(size, TYPE_KERNEL, WillNeed, 0, true, false, false, 0))]
  }

  /** The table with every purgeable object purged. */
  function Purges(bos: Table): Table {
    seq(|bos|, x requires 0 <= x < |bos| => if Purgeable(bos[x]) then PurgedOf(bos[x]) else bos[x])
  }

  /** The table after up to three attempts: the cache, in `list`, is given up after the first failure and
      the userspace cache after the second. */
  function Attempts(bos: Table, list: seq<nat>, outcomes: seq<Dma>, size: nat): Table
    requires |outcomes| == 3
  {
    var first := Tried(bos, outcomes[0], size);
    if outcomes[0] == Allocated then first
    else
      var second := Tried(Dropped(first, list, []), outcomes[1], size);
      if outcomes[1] == Allocated then second else Tried(Purges(second), outcomes[2], size)
  }

  lemma PurgesAre(before: Table, after: Table)
    requires |after| == |before|
    requires forall x :: 0 <= x < |after| ==>
      after[x] == if Purgeable(before[x]) then PurgedOf(before[x]) else before[x]
    ensures after == Purges(before)
  {}

  lemma AttemptsAre(bos: Table, list: seq<nat>, outcomes: seq<Dma>, size: nat)
    requires |outcomes| == 3
    ensures var late := Tried(Dropped(Tried(bos, outcomes[0], size), list, []), outcomes[1], size);
      Attempts(bos, list, outcomes, size) ==
        if outcomes[0] == Allocated then Tried(bos, outcomes[0], size)
        else if outcomes[1] == Allocated then late else Tried(Purges(late), outcomes[2], size)
  {}

  /** What became of the objects that were there: those cached are destroyed once an attempt has failed,
      those purgeable are purged once two have, and the others are as they were. */
  ghost predicate GaveUp(before: Table, list: seq<nat>, after: Table, outcomes: seq<Dma>)
    requires |outcomes| == 3
  {
    && |before| <= |after|
    && forall x :: 0 <= x < |before| ==>
         after[x] ==
           if outcomes[0] != Allocated && x in list then None
           else if outcomes[0] != Allocated && outcomes[1] != Allocated && Purgeable(before[x]) then PurgedOf(before[x])
           else before[x]
  }

  lemma AttemptsGiveUp(bos: Table, list: seq<nat>, outcomes: seq<Dma>, size: nat)
    requires |outcomes| == 3 && forall x :: x in list ==> x < |bos|
    ensures var after := Attempts(bos, list, outcomes, size);
      && GaveUp(bos, list, after, outcomes)
      && (Allocated in outcomes ==>
            && |after| > |bos| && after[|after| - 1] == Some(Bo(size, TYPE_KERNEL, WillNeed, 0, true, false, false, 0))
            && forall x :: |bos| <= x < |after| - 1 ==> after[x] == None)
      && (Allocated !in outcomes ==> forall x :: |bos| <= x < |after| ==> after[x] == None)
  {
    hide Purgeable;
    var first := Tried(bos, outcomes[0], size);
    if outcomes[0] != Allocated {
      var second := Tried(Dropped(first, list, []), outcomes[1], size);
      assert forall x :: 0 <= x < |bos| ==> second[x] == if x in list then None else bos[x];
      assert forall x :: |bos| <= x < |first| ==> second[x] == None;
      NotPurgeable();
    }
  }

  lemma NotPurgeable()
    ensures !Purgeable(None)
  {}

  /** An object that was not there before may change. */
  lemma GaveUpAside(before: Table, list: seq<nat>, after: Table, outcomes: seq<Dma>, id: nat, b: Option<Bo>)
    requires |outcomes| == 3 && GaveUp(before, list, after, outcomes) && |before| <= id < |after|
    ensures GaveUp(before, list, after[id := b], outcomes)
  {}

  lemma GaveUpSpares(before: Table, list: seq<nat>, after: Table, outcomes: seq<Dma>, made: Option<nat>)
    requires |outcomes| == 3 && GaveUp(before, list, after, outcomes)
    requires forall x :: |before| <= x < |after| ==> after[x] == None || made == Some(x)
    ensures Spares(before, after, list, made)
  {}

  /** max of twice the number of lists and page + 1, in 32 bits. */
  function NewSize(lists: nat, page: nat): nat {
    var twice, next := lists * 2 % U32, (page + 1) % U32;
    if twice > next then twice else next
  }

  lemma NewSizeFits(lists: nat, page: nat)
    requires lists <= page < MAX_DMA / PAGE_SIZE
    ensures page < NewSize(lists, page) <= 0x8000_0000
    ensures NewSize(lists, page) == if 2 * lists > page + 1 then 2 * lists else page + 1
  {}

  lemma PageFits(pages: nat)
    requires 0 < pages <= MAX_DMA / PAGE_SIZE
    ensures (pages - 1) % U32 == pages - 1
  {}

  /** No slot has the name, and none is unused. */
  ghost predicate NoSlot(labels: seq<Label>, name: string) {
    forall l :: 0 <= l < |labels| ==> labels[l].name.Some? && labels[l].name.value != name
  }

  class Manager {
    var bos: Table
    var labels: seq<Label>
    var sizeLists: seq<seq<nat>>
    var timeList: seq<nat>
    var pool: seq<nat>
    var poolNum: int
    var poolBytes: int
    var purgedNum: int
    var purgedBytes: int
    var clock: int
    /** The sizes of the objects that vc4_create_object accounted and that were freed with a bare kfree. */
    ghost var lost: seq<nat>

    ghost predicate Valid()
      reads this
    {
      && LabelsOk(labels, bos, lost, -1)
      && ListsOk(bos, sizeLists, timeList, pool, poolNum, poolBytes, clock)
    }

    /** Somebody holds a reference to the object. */
    predicate Live(id: nat)
      reads this
    {
      id < |bos| && bos[id].Some? && id !in timeList
    }

    // vc4_bo_cache_init
    constructor ()
      ensures Valid() && bos == [] && timeList == [] && lost == [] && purgedNum == purgedBytes == clock == 0
    {
      bos, sizeLists, timeList, pool, clock, lost := [], [], [], [], 0, [];
      poolNum, poolBytes, purgedNum, purgedBytes := 0, 0, 0, 0;
      labels := seq(|KERNEL_NAMES|, i requires 0 <= i < |KERNEL_NAMES| => Label(Some(KERNEL_NAMES[i]), 0, 0));
      new;
      assert UniqueNames(labels) by { KernelNamesDiffer(); }
    }

    // vc4_bo_set_label
    method SetLabel(id: nat, to: int)
      requires id < |bos| && bos[id].Some? && 0 <= bos[id].value.tag < |labels| && -1 <= to < |labels|
      requires labels[bos[id].value.tag].num > 0
      modifies this`labels, this`bos
      ensures labels == Moved(old(labels), old(bos)[id].value.tag, to, old(bos)[id].value.size)
      ensures bos == old(bos)[id := Some(old(bos)[id].value.(tag := to))]
    {
      var from, size := bos[id].value.tag, bos[id].value.size;
      if to != -1 {
        labels := labels[to := labels[to].(num := labels[to].num + 1)];
        labels := labels[to := labels[to].(bytes := (labels[to].bytes + size) % U32)];
      }
      labels := labels[from := labels[from].(num := labels[from].num - 1)];
      labels := labels[from := labels[from].(bytes := (labels[from].bytes - size) % U32)];
      if labels[from].num == 0 && from >= TYPE_COUNT {
        labels := labels[from := labels[from].(name := None)];
      }
      bos := bos[id := Some(bos[id].value.(tag := to))];
    }

    // vc4_get_user_label
    method GetUserLabel(name: string, memory: bool) returns (slot: int)
      requires LabelsOk(labels, bos, lost, -1)
      modifies this`labels
      ensures slot == -1 <==> !memory && NoSlot(old(labels), name)
      ensures slot == -1 ==> labels == old(labels)
      ensures slot != -1 && NoSlot(old(labels), name) ==> labels == old(labels) + [Label(Some(name), 0, 0)]
      ensures slot != -1 && !NoSlot(old(labels), name) ==>
        0 <= slot < |old(labels)| && labels == old(labels)[slot := old(labels)[slot].(name := Some(name))]
      ensures slot != -1 ==>
        0 <= slot < |labels| && labels[slot].name == Some(name) && LabelsOk(labels, bos, lost, slot)
      ensures |labels| <= |old(labels)| + 1
    {
      hide LabelsOk;
      var i, free := 0, -1;
      while i < |labels|
        invariant 0 <= i <= |labels| && -1 <= free < i && (free != -1 ==> labels[free].name == None)
        invariant free == -1 ==> forall l :: 0 <= l < i ==> labels[l].name.Some?
        invariant forall l :: 0 <= l < i ==> labels[l].name != Some(name)
      {
        if labels[i].name == None {
          free := i;
        } else if labels[i].name.value == name {
          NamedAlready(labels, bos, lost, i);
          assert labels == labels[i := labels[i].(name := Some(name))];
          return i;
        }
        i := i + 1;
      }
      if free != -1 {
        NamedOk(labels, bos, lost, free, name);
        labels := labels[free := labels[free].(name := Some(name))];
        return free;
      }
      if !memory {
        return -1;
      }
      ExtendedOk(labels, bos, lost, name);
      slot := |labels|;
      labels := labels + [Label(Some(name), 0, 0)];
    }

    // Relabelling through vc4_bo_set_label, for an object somebody holds.
    method MoveLabel(id: nat, to: int, ghost slot: int)
      requires LabelsOk(labels, bos, lost, slot) && (slot == -1 || slot == to)
      requires ListsOk(bos, sizeLists, timeList, pool, poolNum, poolBytes, clock) && Live(id)
      requires 0 <= to < |labels| && (to >= TYPE_COUNT ==> labels[to].name.Some?)
      modifies this`labels, this`bos
      ensures Valid() && bos == old(bos)[id := Some(old(bos)[id].value.(tag := to))]
      ensures |labels| == |old(labels)| && labels[to].name == old(labels)[to].name
    {
      hide ListsOk, LabelsOk;
      LabelInRange(labels, bos, lost, id, slot);
      LiveSound(bos, sizeLists, timeList, pool, poolNum, poolBytes, clock, id);
      MovedOk(labels, bos, lost, id, to, slot);
      MovedKeepsName(labels, bos, id, to);
      ObjectChanges(bos, sizeLists, timeList, pool, poolNum, poolBytes, clock, id, Some(bos[id].value.(tag := to)));
      SetLabel(id, to);
    }

    /** vc4_label_bo_ioctl, past the lookup of the object: it carries the name afterwards, or nothing
        has changed. */
    method Relabel(id: nat, name: string, memory: bool) returns (r: Status)
      requires Valid() && Live(id)
      modifies this`labels, this`bos
      ensures Valid() && (r == Ok || r == ENoMem) && (r == ENoMem <==> !memory && NoSlot(old(labels), name))
      ensures r == Ok ==>
        && |bos| == |old(bos)| && Live(id) && 0 <= bos[id].value.tag < |labels|
        && labels[bos[id].value.tag].name == Some(name)
      ensures r == Ok ==> bos == old(bos)[id := Some(old(bos)[id].value.(tag := bos[id].value.tag))]
      ensures r == ENoMem ==> bos == old(bos) && labels == old(labels)
    {
      hide ListsOk, LabelsOk, NoSlot;
      var slot := GetUserLabel(name, memory);
      if slot == -1 {
        return ENoMem;
      }
      MoveLabel(id, slot, slot);
      return Ok;
    }

    // vc4_create_object: the object exists, without memory, under the kernel label.
    method CreateObject(size: nat, imported: bool) returns (id: nat)
      requires Valid() && (!imported ==> size > 0 && size % PAGE_SIZE == 0)
      modifies this`bos, this`labels
      ensures Valid() && id == |old(bos)| && Live(id)
      ensures bos == old(bos) + [Some(Bo(size, TYPE_KERNEL, WillNeed, 0, false, imported, false, 0))]
    {
      hide ListsOk, LabelsOk;
      var bo := Bo(size, TYPE_KERNEL, WillNeed, 0, false, imported, false, 0);
      ObjectAppears(bos, sizeLists, timeList, pool, poolNum, poolBytes, clock, bo);
      CreatedOk(labels, bos, lost, bo);
      LabelsExist(labels, bos, lost);
      id := |bos|;
      labels := labels[TYPE_KERNEL := Grown(labels[TYPE_KERNEL], size)];
      bos := bos + [Some(bo)];
    }

    // vc4_bo_destroy: for an object on no list.
    method Destroy(id: nat)
      requires LabelsOk(labels, bos, lost, -1) && id < |bos| && bos[id].Some?
      modifies this`bos, this`labels
      ensures LabelsOk(labels, bos, lost, -1) && bos == old(bos)[id := None]
    {
      hide LabelsOk;
      LabelInRange(labels, bos, lost, id, -1);
      MovedOk(labels, bos, lost, id, -1, -1);
      SetLabel(id, -1);
      bos := bos[id := None];
      assert bos == old(bos)[id := None];
    }

    // vc4_bo_remove_from_cache
    method RemoveFromCache(id: nat)
      requires ListsOk(bos, sizeLists, timeList, pool, poolNum, poolBytes, clock) && id in timeList
      modifies this`sizeLists, this`timeList
      ensures ListsOk(bos, sizeLists, timeList, pool, poolNum, poolBytes, clock)
        && timeList == Without(old(timeList), id)
      ensures Live(id) && id !in pool && bos[id].value.tag == TYPE_KERNEL_CACHE && bos[id].value.usecnt == 0
      ensures forall x :: x in timeList <==> x in old(timeList) && x != id
      ensures |timeList| == |old(timeList)| - 1 && |sizeLists| == |old(sizeLists)|
    {
      hide ListsOk, Without;
      CachedSound(bos, sizeLists, timeList, pool, poolNum, poolBytes, clock, id);
      Uncached(bos, sizeLists, timeList, pool, poolNum, poolBytes, clock, id);
      var i := Pages(bos, id) - 1;
      timeList := Without(timeList, id);
      sizeLists := sizeLists[i := Without(sizeLists[i], id)];
    }

    // What both vc4_bo_cache_purge and the age sweep do with the oldest cached object.
    method DropOldest()
      requires Valid() && timeList != []
      modifies this`sizeLists, this`timeList, this`bos, this`labels
      ensures Valid()
      ensures var n := |old(timeList)| - 1;
        timeList == old(timeList)[..n] && bos == old(bos)[old(timeList)[n] := None]
    {
      hide ListsOk, LabelsOk;
      var id := timeList[|timeList| - 1];
      DistinctTimes(bos, sizeLists, timeList, pool, poolNum, poolBytes, clock);
      WithoutLast(timeList);
      RemoveFromCache(id);
      ObjectChanges(bos, sizeLists, timeList, pool, poolNum, poolBytes, clock, id, None);
      LiveSound(bos, sizeLists, timeList, pool, poolNum, poolBytes, clock, id);
      Destroy(id);
    }

    // vc4_bo_cache_free_old: the age sweep.
    method FreeOld(now: int)
      requires Valid()
      modifies this`sizeLists, this`timeList, this`bos, this`labels
      ensures Valid() && timeList == Kept(old(bos), old(timeList), now - SECOND)
      ensures bos == Dropped(old(bos), old(timeList), timeList)
    {
      hide ListsOk, LabelsOk;
      var expire := now - SECOND;
      DistinctTimes(bos, sizeLists, timeList, pool, poolNum, poolBytes, clock);
      while timeList != []
        invariant Valid() && timeList <= old(timeList)
        invariant bos == Dropped(old(bos), old(timeList), timeList)
        invariant Kept(old(bos), timeList, expire) == Kept(old(bos), old(timeList), expire)
        decreases |timeList|
      {
        ghost var n := |timeList| - 1;
        assert timeList[n] == old(timeList)[n];
        if expire < TimeOf(bos, timeList[|timeList| - 1]) {
          return;
        }
        ghost var list := timeList;
        DropOldest();
        assert old(timeList)[n] !in timeList;
        assert forall x :: x in list <==> x in timeList || x == old(timeList)[n];
      }
    }

    // vc4_bo_cache_purge: the whole cache is destroyed.
    method CachePurge()
      requires Valid()
      modifies this`sizeLists, this`timeList, this`bos, this`labels
      ensures Valid() && timeList == [] && bos == Dropped(old(bos), old(timeList), [])
    {
      hide ListsOk, LabelsOk;
      DistinctTimes(bos, sizeLists, timeList, pool, poolNum, poolBytes, clock);
      while timeList != []
        invariant Valid() && timeList <= old(timeList)
        invariant bos == Dropped(old(bos), old(timeList), timeList)
        decreases |timeList|
      {
        ghost var n := |timeList| - 1;
        ghost var list := timeList;
        assert timeList[n] == old(timeList)[n];
        DropOldest();
        assert old(timeList)[n] !in timeList;
        assert forall x :: x in list <==> x in timeList || x == old(timeList)[n];
      }
    }

    // vc4_get_cache_list_for_size: the index of the list, with the array grown to hold it.
    method CacheListForSize(size: nat, memory: bool) returns (r: Option<nat>)
      requires 0 < size / PAGE_SIZE <= MAX_DMA / PAGE_SIZE && |sizeLists| <= 0x8000_0000
      modifies this`sizeLists
      ensures r == None <==> |old(sizeLists)| < size / PAGE_SIZE && !memory
      ensures r == None ==> sizeLists == old(sizeLists)
      ensures r.Some? ==> r.value == size / PAGE_SIZE - 1 < |sizeLists|
      // It grows only when it must, and then at least to twice its size.
      ensures r.Some? ==>
        var n, pages := |old(sizeLists)|, size / PAGE_SIZE;
        |sizeLists| == if pages <= n then n else if 2 * n > pages then 2 * n else pages
      ensures |old(sizeLists)| <= |sizeLists| <= 0x8000_0000
      ensures forall i :: 0 <= i < |sizeLists| ==>
        sizeLists[i] == if i < |old(sizeLists)| then old(sizeLists)[i] else []
    {
      hide NewSize;
      var page := (size / PAGE_SIZE - 1) % U32;
      PageFits(size / PAGE_SIZE);
      if |sizeLists| <= page {
        var newSize := NewSize(|sizeLists|, page);
        NewSizeFits(|sizeLists|, page);
        if !memory {
          return None;
        }
        var lists: seq<seq<nat>> := [];
        var i := 0;
        while i < |sizeLists|
          invariant i <= |sizeLists| == |old(sizeLists)| && lists == sizeLists[..i]
        {
          lists := lists + [sizeLists[i]];
          i := i + 1;
        }
        while i < newSize
          invariant |old(sizeLists)| <= i <= newSize && |lists| == i
          invariant forall j :: 0 <= j < i ==> lists[j] == if j < |old(sizeLists)| then old(sizeLists)[j] else []
        {
          lists := lists + [[]];
          i := i + 1;
        }
        sizeLists := lists;
      }
      return Some(page);
    }

    // vc4_bo_add_to_purgeable_pool
    method AddToPool(id: nat)
      requires id < |bos| && bos[id].Some?
      modifies this`pool, this`poolNum, this`poolBytes
      ensures pool == old(pool) + [id] && poolNum == old(poolNum) + 1
        && poolBytes == old(poolBytes) + bos[id].value.size
    {
      pool, poolNum, poolBytes := pool + [id], poolNum + 1, poolBytes + bos[id].value.size;
    }

    // vc4_bo_remove_from_purgeable_pool
    method RemoveFromPool(id: nat)
      requires id < |bos| && bos[id].Some?
      modifies this`pool, this`poolNum, this`poolBytes
      ensures pool == Without(old(pool), id) && poolNum == old(poolNum) - 1
        && poolBytes == old(poolBytes) - bos[id].value.size
    {
      pool, poolNum, poolBytes := Without(pool, id), poolNum - 1, poolBytes - bos[id].value.size;
    }

    /** vc4_bo_inc_usecnt: an object out of use can be used only while userspace needs it. */
    method IncUsecnt(id: nat) returns (r: Status)
      requires Valid() && Live(id)
      modifies this`bos
      ensures Valid() && (r == Ok || r == EInval)
      ensures var b := old(bos)[id].value;
        && (r == Ok <==> Usable(b.madv, b.usecnt))
        && bos == if r == Ok then old(bos)[id := Some(b.(usecnt := b.usecnt + 1))] else old(bos)
    {
      hide ListsOk, LabelsOk;
      var b := bos[id].value;
      LiveSound(bos, sizeLists, timeList, pool, poolNum, poolBytes, clock, id);
      if b.usecnt > 0 || b.madv == WillNeed {
        ObjectChanges(bos, sizeLists, timeList, pool, poolNum, poolBytes, clock, id, Some(b.(usecnt := b.usecnt + 1)));
      }
      KeptOk(labels, bos, lost, id, b.(usecnt := b.usecnt + 1));
      if b.usecnt != 0 {
        bos := bos[id := Some(b.(usecnt := b.usecnt + 1))];
        return Ok;
      }
      match b.madv
      case WillNeed =>
        bos := bos[id := Some(b.(usecnt := 1))];
        return Ok;
      case _ =>
        return EInval;
    }

    /** vc4_bo_dec_usecnt: the last user of an object marked DONTNEED leaves it purgeable. */
    method DecUsecnt(id: nat)
      requires Valid() && Live(id) && bos[id].value.usecnt > 0
      modifies this`bos, this`pool, this`poolNum, this`poolBytes
      ensures Valid() && bos == old(bos)[id := Some(old(bos)[id].value.(usecnt := old(bos)[id].value.usecnt - 1))]
    {
      hide ListsOk, LabelsOk;
      var b := bos[id].value;
      LiveSound(bos, sizeLists, timeList, pool, poolNum, poolBytes, clock, id);
      ObjectChanges(bos, sizeLists, timeList, pool, poolNum, poolBytes, clock, id, Some(b.(usecnt := b.usecnt - 1)));
      KeptOk(labels, bos, lost, id, b.(usecnt := b.usecnt - 1));
      bos := bos[id := Some(b.(usecnt := b.usecnt - 1))];
      if bos[id].value.usecnt == 0 && b.madv == DontNeed {
        AddToPool(id);
      }
    }

    /** vc4_gem_madvise_ioctl. `id` is the object the handle stands for. A purged object stays purged
        and is reported as not retained. */
    method Madvise(id: Option<nat>, advice: nat, pad: nat) returns (r: Status, retained: bool)
      requires Valid() && (id.Some? ==> Live(id.value))
      modifies this`bos, this`pool, this`poolNum, this`poolBytes
      ensures Valid()
      ensures r == (if (advice != MADV_WILLNEED && advice != MADV_DONTNEED) || pad != 0 then EInval
                    else if id == None then ENoEnt
                    else if old(bos)[id.value].value.madv == NotSupp || old(bos)[id.value].value.imported then EInval
                    else Ok)
      ensures r != Ok ==> bos == old(bos)
      ensures r == Ok ==>
        var b := old(bos)[id.value].value;
        && (retained <==> b.madv != Purged)
        && bos == old(bos)[id.value := Some(b.(madv :=
             Advised(b.madv, if advice == MADV_WILLNEED then WillNeed else DontNeed)))]
    {
      hide ListsOk, LabelsOk;
      retained := false;
      if (advice != MADV_WILLNEED && advice != MADV_DONTNEED) || pad != 0 {
        return EInval, false;
      }
      if id == None {
        return ENoEnt, false;
      }
      var b := bos[id.value].value;
      if b.madv == NotSupp || b.imported {
        return EInval, false;
      }
      var madv := if advice == MADV_WILLNEED then WillNeed else DontNeed;
      LiveSound(bos, sizeLists, timeList, pool, poolNum, poolBytes, clock, id.value);
      ObjectChanges(bos, sizeLists, timeList, pool, poolNum, poolBytes, clock, id.value,
                    Some(b.(madv := if b.madv == Purged then Purged else madv)));
      KeptOk(labels, bos, lost, id.value, b.(madv := if b.madv == Purged then Purged else madv));
      if advice == MADV_DONTNEED && b.madv == WillNeed && b.usecnt == 0 {
        AddToPool(id.value);
      } else if advice == MADV_WILLNEED && b.madv == DontNeed && b.usecnt == 0 {
        RemoveFromPool(id.value);
      }
      retained := b.madv != Purged;
      if b.madv != Purged {
        bos := bos[id.value := Some(b.(madv := madv))];
      } else {
        assert bos[id.value := Some(b)] == bos;
      }
      r := Ok;
    }

    // One turn of the purge loop: the first object of the pool loses its memory.
    method PurgeFirst()
      requires Valid() && pool != []
      modifies this`bos, this`pool, this`poolNum, this`poolBytes, this`purgedNum, this`purgedBytes
      ensures Valid() && pool == old(pool)[1..]
      ensures var id := old(pool)[0];
        && id < |old(bos)| && old(bos)[id].Some?
        && bos == old(bos)[id := Some(old(bos)[id].value.(madv := Purged, vaddr := false))]
        && purgedBytes == old(purgedBytes) + old(bos)[id].value.size
      ensures purgedNum == old(purgedNum) + 1 && poolBytes + purgedBytes == old(poolBytes + purgedBytes)
    {
      hide ListsOk, LabelsOk;
      var id := pool[0];
      PoolSound(bos, sizeLists, timeList, pool, poolNum, poolBytes, clock, id);
      var b := bos[id].value;
      ObjectChanges(bos, sizeLists, timeList, pool, poolNum, poolBytes, clock, id, Some(b.(madv := Purged,
          vaddr := false)));
      KeptOk(labels, bos, lost, id, b.(madv := Purged, vaddr := false));
      RemoveFromPool(id);
      var size := 0;
      if b.madv == DontNeed && id !in pool && b.usecnt == 0 {
        size := b.size;
        bos := bos[id := Some(b.(madv := Purged, vaddr := false))];
      }
      if size != 0 {
        purgedBytes := purgedBytes + size;
        purgedNum := purgedNum + 1;
      }
    }

    /** vc4_bo_userspace_cache_purge: every purgeable object is purged, and nothing else changes. */
    method UserspaceCachePurge()
      requires Valid()
      modifies this`bos, this`pool, this`poolNum, this`poolBytes, this`purgedNum, this`purgedBytes
      ensures Valid() && pool == [] && |bos| == |old(bos)|
      ensures forall x :: 0 <= x < |bos| ==>
        bos[x] == if Purgeable(old(bos)[x]) then PurgedOf(old(bos)[x]) else old(bos)[x]
      ensures purgedNum == old(purgedNum) + |old(pool)| && purgedBytes == old(purgedBytes) + old(poolBytes)
    {
      hide ListsOk, LabelsOk;
      PoolMembers(bos, sizeLists, timeList, pool, poolNum, poolBytes, clock);
      while pool != []
        invariant Valid() && |bos| == |old(bos)|
        invariant forall x :: 0 <= x < |bos| ==>
          bos[x] == if Purgeable(old(bos)[x]) && x !in pool then PurgedOf(old(bos)[x]) else old(bos)[x]
        invariant forall x :: x in pool ==> x < |bos| && Purgeable(old(bos)[x])
        invariant Distinct(pool)
        invariant purgedNum == old(purgedNum) + |old(pool)| - |pool|
        invariant poolBytes + purgedBytes == old(poolBytes + purgedBytes)
        decreases |pool|
      {
        ghost var p := pool;
        PurgeFirst();
        assert forall x :: x in p <==> x in pool || x == p[0];
      }
      PoolMembers(bos, sizeLists, timeList, pool, poolNum, poolBytes, clock);
    }

    /** vc4_bo_get_from_cache: the most recently cached object with that many pages, if there is one. */
    method GetFromCache(size: nat, kind: int) returns (r: Option<nat>)
      requires Valid() && size < U32 && 0 <= kind < TYPE_COUNT
      modifies this`sizeLists, this`timeList, this`bos, this`labels
      ensures Valid() && |bos| == |old(bos)|
      ensures var hits := OfPages(old(bos), old(timeList), size / PAGE_SIZE);
        if hits == [] then r == None && bos == old(bos) && timeList == old(timeList)
        else r == Some(hits[0]) && timeList == Without(old(timeList), hits[0]) && Live(hits[0])
             && old(bos)[hits[0]].Some? && bos == old(bos)[hits[0] := Some(old(bos)[hits[0]].value.(tag := kind))]
             && bos[hits[0]].value.size / PAGE_SIZE == size / PAGE_SIZE && bos[hits[0]].value.size % PAGE_SIZE == 0
    {
      hide ListsOk, LabelsOk, OfPages, Without;
      var page := (size / PAGE_SIZE - 1) % U32;
      Bucket(bos, sizeLists, timeList, pool, poolNum, poolBytes, clock, size / PAGE_SIZE);
      if page >= |sizeLists| || sizeLists[page] == [] {
        return None;
      }
      var id := sizeLists[page][0];
      CachedSound(bos, sizeLists, timeList, pool, poolNum, poolBytes, clock, id);
      RemoveFromCache(id);
      LabelsExist(labels, bos, lost);
      MoveLabel(id, kind, -1);
      return Some(id);
    }

    // The end of vc4_free_object: an object on no list enters list i of the cache.
    method CacheObject(id: nat, now: int, i: nat)
      requires LabelsOk(labels, bos, lost, -1) && id < |bos| && bos[id].Some?
      requires ListsOk(bos[id := None], sizeLists, timeList, pool, poolNum, poolBytes, clock)
      requires SoundBo(bos[id].value) && !bos[id].value.imported && !bos[id].value.publicName && bos[id].value.vaddr
      requires i == bos[id].value.size / PAGE_SIZE - 1 < |sizeLists| && clock <= now
      modifies this`bos, this`labels, this`sizeLists, this`timeList, this`clock
      ensures Valid() && clock == now && timeList == [id] + old(timeList)
      ensures bos == old(bos)[id := Some(
        old(bos)[id].value.(madv := NotSupp, usecnt := 0, freeTime := now, tag := TYPE_KERNEL_CACHE))]
    {
      hide ListsOk, LabelsOk;
      var b := bos[id].value.(madv := NotSupp, usecnt := 0, freeTime := now);
      assert bos[id := None][id := Some(b.(tag := TYPE_KERNEL_CACHE))] == bos[id := Some(b.(tag := TYPE_KERNEL_CACHE))];
      Caching(bos[id := None], sizeLists, timeList, pool, poolNum, poolBytes, clock, id, b.(tag := TYPE_KERNEL_CACHE));
      KeptOk(labels, bos, lost, id, b);
      bos := bos[id := Some(b)];
      sizeLists := sizeLists[i := [id] + sizeLists[i]];
      timeList := [id] + timeList;
      clock := now;
      LabelInRange(labels, bos, lost, id, -1);
      MovedOk(labels, bos, lost, id, TYPE_KERNEL_CACHE, -1);
      SetLabel(id, TYPE_KERNEL_CACHE);
      assert bos == old(bos)[id := Some(b.(tag := TYPE_KERNEL_CACHE))];
    }

    /** vc4_free_object, the last reference to an object having been dropped. It goes to the head of
        the cache, with the expired objects swept from its end, when its memory is its own and still
        there, nobody can name it, and the list for its size exists or can be made; otherwise it is
        destroyed. */
    method FreeObject(id: nat, now: int, memory: bool)
      requires Valid() && Live(id) && clock <= now
      modifies this
      ensures Valid() && clock <= now && purgedNum == old(purgedNum) && purgedBytes == old(purgedBytes)
        && lost == old(lost)
      ensures var b := old(bos)[id].value;
        var cached := !b.imported && !b.publicName && b.vaddr && (memory || b.size / PAGE_SIZE <= |old(sizeLists)|);
        if cached then
          var all := [id] + old(timeList);
          var mid := old(bos)[id := Some(b.(madv := NotSupp, usecnt := 0, freeTime := now, tag := TYPE_KERNEL_CACHE))];
          timeList == Kept(mid, all, now - SECOND) && bos == Dropped(mid, all, timeList)
        else timeList == old(timeList) && bos == old(bos)[id := None]
    {
      hide ListsOk, LabelsOk, Without, Kept;
      var b := bos[id].value;
      LiveSound(bos, sizeLists, timeList, pool, poolNum, poolBytes, clock, id);
      ObjectChanges(bos, sizeLists, timeList, pool, poolNum, poolBytes, clock, id, None);
      if b.madv == DontNeed && b.usecnt == 0 {
        RemoveFromPool(id);
      }
      if b.imported || b.publicName || !b.vaddr {
        Destroy(id);
        return;
      }
      Bucket(bos[id := None], sizeLists, timeList, pool, poolNum, poolBytes, clock, 0);
      ghost var lists := sizeLists;
      var i := CacheListForSize(b.size, memory);
      if i == None {
        Destroy(id);
        return;
      }
      Growing(bos[id := None], lists, timeList, pool, poolNum, poolBytes, clock, sizeLists);
      CacheObject(id, now, i.value);
      FreeOld(now);
    }

    // The failure exit of __drm_gem_dma_create: the object that vc4_create_object accounted is freed
    // without being taken off its label.
    method LoseObject(size: nat)
      requires Valid()
      modifies this`bos, this`labels, this`lost
      ensures Valid() && bos == old(bos) + [None] && lost == old(lost) + [size]
    {
      hide ListsOk, LabelsOk;
      NothingAppears(bos, sizeLists, timeList, pool, poolNum, poolBytes, clock);
      LostOk(labels, bos, lost, size);
      LabelsExist(labels, bos, lost);
      labels := labels[TYPE_KERNEL := Grown(labels[TYPE_KERNEL], size)];
      bos := bos + [None];
      lost := lost + [size];
    }

    /** drm_gem_dma_create: an object that cannot get its memory is freed at once, through
        vc4_free_object; one that cannot be initialized is lost to the statistics. */
    method DmaCreate(size: nat, outcome: Dma, now: int) returns (r: Option<nat>)
      requires Valid() && size > 0 && size % PAGE_SIZE == 0 && (outcome == Allocated ==> size <= MAX_DMA)
        && clock <= now
      modifies this
      ensures Valid() && purgedNum == old(purgedNum) && purgedBytes == old(purgedBytes) && timeList == old(timeList)
      ensures clock <= now
      ensures outcome == Allocated <==> r.Some?
      ensures lost == old(lost) + Repeated(size, Failure(outcome)) && bos == Tried(old(bos), outcome, size)
      ensures r.Some? ==> r.value == |old(bos)| == |bos| - 1 && Live(r.value)
    {
      hide ListsOk, LabelsOk, Kept;
      if outcome == NoObject {
        return None;
      }
      if outcome == NoInit {
        LoseObject(size);
        return None;
      }
      var id := CreateObject(size, false);
      if outcome == NoBuffer {
        FreeObject(id, now, true);
        return None;
      }
      var b := bos[id].value.(vaddr := true);
      LiveSound(bos, sizeLists, timeList, pool, poolNum, poolBytes, clock, id);
      ObjectChanges(bos, sizeLists, timeList, pool, poolNum, poolBytes, clock, id, Some(b));
      KeptOk(labels, bos, lost, id, b);
      bos := bos[id := Some(b)];
      r := Some(id);
    }

    /** vc4_bo_create: from the cache, else from DMA memory, with the kernel's cache and then the
        userspace cache given up for it. `outcomes` are those of the three attempts. An object from
        the cache has the requested size modulo 2^32, one from DMA memory the requested size; an
        object others hold is changed only by being purged; a failing attempt leaves no object. Exact
        label statistics stay exact if and only if no attempt made failed to initialize its object. */
    method BoCreate(unaligned: nat, kind: int, outcomes: seq<Dma>, now: int) returns (r: Status, id: nat, hit: bool)
      requires Valid() && unaligned < U64 && 0 <= kind < TYPE_COUNT && |outcomes| == 3 && clock <= now
      requires RoundUp(unaligned) > MAX_DMA ==> Allocated !in outcomes
      modifies this
      ensures Valid() && (r == Ok || r == EInval || r == ENoMem)
      ensures r == EInval <==> RoundUp(unaligned) == 0
      ensures hit <==> r != EInval && OfPages(old(bos), old(timeList), RoundUp(unaligned) % U32 / PAGE_SIZE) != []
      ensures !hit ==> (r == Ok <==> r != EInval && Allocated in outcomes)
      ensures r == Ok ==>
        Live(id) && bos[id].value.tag == kind && bos[id].value.madv == NotSupp && bos[id].value.usecnt == 0
      ensures r == Ok ==> bos[id].value.vaddr && !bos[id].value.imported && !bos[id].value.publicName
      ensures forall x :: x in timeList ==> x in old(timeList)
      ensures r == Ok ==> bos[id].value.size == if hit then RoundUp(unaligned) % U32 else RoundUp(unaligned)
      ensures hit ==> r == Ok && (bos[id].value.size == RoundUp(unaligned) <==> RoundUp(unaligned) < U32)
      ensures clock <= now
      ensures Spares(old(bos), bos, old(timeList), if r == Ok then Some(id) else None)
      // A hit takes that object and nothing else; otherwise the caches go, one for each of the first failures.
      ensures hit ==>
        id < |bos| == |old(bos)| && timeList == Without(old(timeList), id) && bos == old(bos)[id := bos[id]]
      ensures r == EInval ==> timeList == old(timeList) && bos == old(bos)
      ensures !hit && r != EInval ==>
        && timeList == (if outcomes[0] == Allocated then old(timeList) else [])
        && GaveUp(old(bos), old(timeList), bos, outcomes)
      ensures lost == old(lost) + Repeated(RoundUp(unaligned), if hit || r == EInval then 0 else Failures(outcomes))
      ensures Exact(labels, bos) <==> Exact(old(labels), old(bos)) && (hit || r == EInval || Failures(outcomes) == 0)
    {
      hide ListsOk, LabelsOk, OfPages, Without, Failures, Exact, Spares, Repeated, RoundUp, GaveUp;
      ExactIff(labels, bos, lost);
      SparesNothing(bos, timeList);
      RepeatedNone(lost, RoundUp(unaligned));
      var size := RoundUp(unaligned);
      RoundUpPages(unaligned);
      if size == 0 {
        return EInval, 0, false;
      }
      var cached := GetFromCache(size % U32, kind);
      if cached.Some? {
        ExactIff(labels, bos, lost);
        CachedIsUnused(old(bos), old(sizeLists), old(timeList), old(pool), old(poolNum), old(poolBytes), old(clock),
                       size % U32 / PAGE_SIZE);
        WithoutMembers(old(timeList), cached.value);
        SparesTaken(old(bos), old(timeList), cached.value, bos[cached.value].value);
        HitSize(bos[cached.value].value.size, size);
        return Ok, cached.value, true;
      }
      var got := CreateFresh(size, kind, outcomes, now);
      ExactIff(labels, bos, lost);
      match got
      case None => return ENoMem, 0, false;
      case Some(x) => return Ok, x, false;
    }

    // Its part after the lookup in the cache.
    method CreateFresh(size: nat, kind: int, outcomes: seq<Dma>, now: int) returns (got: Option<nat>)
      requires Valid() && size > 0 && size % PAGE_SIZE == 0 && |outcomes| == 3 && clock <= now
      requires size > MAX_DMA ==> Allocated !in outcomes
      requires 0 <= kind < TYPE_COUNT
      modifies this
      ensures Valid() && (got.Some? <==> Allocated in outcomes) && clock <= now
      ensures forall x :: x in timeList ==> x in old(timeList)
      ensures got.Some? ==> Live(got.value) && |old(bos)| <= got.value
      ensures got.Some? ==> bos[got.value] == Some(Bo(size, kind, NotSupp, 0, true, false, false, 0))
      ensures timeList == (if outcomes[0] == Allocated then old(timeList) else [])
      ensures GaveUp(old(bos), old(timeList), bos, outcomes) && Spares(old(bos), bos, old(timeList), got)
      ensures lost == old(lost) + Repeated(size, Failures(outcomes))
    {
      hide ListsOk, LabelsOk, Failures, Repeated, Attempts, GaveUp, Spares;
      DistinctTimes(bos, sizeLists, timeList, pool, poolNum, poolBytes, clock);
      AttemptsGiveUp(bos, timeList, outcomes, size);
      got := AllocateDma(size, outcomes, now);
      ghost var made := bos;
      if got.Some? {
        SetMadv(got.value, NotSupp);
        LabelsExist(labels, bos, lost);
        MoveLabel(got.value, kind, -1);
        GaveUpAside(old(bos), old(timeList), made, outcomes, got.value, bos[got.value]);
        assert bos == made[got.value := bos[got.value]];
      }
      GaveUpSpares(old(bos), old(timeList), bos, outcomes, got);
    }

    // The three attempts of vc4_bo_create.
    method AllocateDma(size: nat, outcomes: seq<Dma>, now: int) returns (got: Option<nat>)
      requires Valid() && size > 0 && size % PAGE_SIZE == 0 && |outcomes| == 3 && clock <= now
      requires size > MAX_DMA ==> Allocated !in outcomes
      modifies this
      ensures Valid() && (got.Some? <==> Allocated in outcomes) && clock <= now
      ensures bos == Attempts(old(bos), old(timeList), outcomes, size)
      ensures timeList == (if outcomes[0] == Allocated then old(timeList) else [])
      ensures got.Some? ==> got.value == |bos| - 1 && Live(got.value)
      ensures lost == old(lost) + Repeated(size, Failures(outcomes))
    {
      hide ListsOk, LabelsOk, Kept, Failures, Repeated, Dropped, PurgedOf, Purges, Tried, Attempts;
      AttemptsAre(bos, timeList, outcomes, size);
      ThreeFailures(outcomes);
      got := DmaCreate(size, outcomes[0], now);
      if got == None {
        CachePurge();
        RepeatedSum(old(lost), size, Failure(outcomes[0]), Failure(outcomes[1]));
        got := DmaCreate(size, outcomes[1], now);
      }
      if got == None {
        ghost var second := bos;
        UserspaceCachePurge();
        PurgesAre(second, bos);
        RepeatedSum(old(lost), size, Failure(outcomes[0]) + Failure(outcomes[1]), Failure(outcomes[2]));
        got := DmaCreate(size, outcomes[2], now);
      }
    }

    // An assignment to bo->madv outside the ioctl, of an object that is not marked purgeable.
    method SetMadv(id: nat, madv: Madv)
      requires Valid() && Live(id) && bos[id].value.madv in {WillNeed, NotSupp} && madv in {WillNeed, NotSupp}
      modifies this`bos
      ensures Valid() && bos == old(bos)[id := Some(old(bos)[id].value.(madv := madv))]
    {
      hide ListsOk, LabelsOk;
      var b := bos[id].value.(madv := madv);
      LiveSound(bos, sizeLists, timeList, pool, poolNum, poolBytes, clock, id);
      ObjectChanges(bos, sizeLists, timeList, pool, poolNum, poolBytes, clock, id, Some(b));
      KeptOk(labels, bos, lost, id, b);
      bos := bos[id := Some(b)];
    }

    /** vc4_create_bo_ioctl and vc4_bo_dumb_create: an object userspace may mark purgeable, or, when it
        gets no handle, the object is given up again. */
    method CreateForUser(unaligned: nat, kind: int, outcomes: seq<Dma>, now: int, handle: bool, memory: bool)
      returns (r: Status, id: nat)
      requires Valid() && unaligned < U64 && 0 <= kind < TYPE_COUNT && |outcomes| == 3 && clock <= now
      requires RoundUp(unaligned) > MAX_DMA ==> Allocated !in outcomes
      modifies this
      ensures Valid() && old(lost) <= lost
      ensures r == Ok ==> handle && Live(id) && bos[id].value.tag == kind && bos[id].value.madv == WillNeed
      ensures r == Ok ==> bos[id].value.vaddr && !bos[id].value.imported && bos[id].value.usecnt == 0
      ensures var size := RoundUp(unaligned);
        var found := OfPages(old(bos), old(timeList), size % U32 / PAGE_SIZE) != [] || Allocated in outcomes;
        r == if size == 0 then EInval else if found && handle then Ok else ENoMem
      ensures forall x :: |old(bos)| <= x < |bos| && Live(x) ==> r == Ok && x == id
    {
      hide ListsOk, LabelsOk, Kept, OfPages, Failures, Exact;
      var hit;
      r, id, hit := BoCreate(unaligned, kind, outcomes, now);
      if r != Ok {
        return;
      }
      SetMadv(id, WillNeed);
      if !handle {
        FreeObject(id, now, memory);
        r := ENoMem;
      }
    }

    // The object gets a name by which others can open it.
    method GiveName(id: nat)
      requires Valid() && Live(id)
      modifies this`bos
      ensures Valid() && bos == old(bos)[id := Some(old(bos)[id].value.(publicName := true))]
    {
      hide ListsOk, LabelsOk;
      var b := bos[id].value.(publicName := true);
      LiveSound(bos, sizeLists, timeList, pool, poolNum, poolBytes, clock, id);
      ObjectChanges(bos, sizeLists, timeList, pool, poolNum, poolBytes, clock, id, Some(b));
      KeptOk(labels, bos, lost, id, b);
      bos := bos[id := Some(b)];
    }

    /** vc4_prime_import_sg_table, past its checks of the table: an object over foreign memory, accounted
        under the kernel label; it too is lost when it cannot be initialized. */
    method PrimeImport(size: nat, memory: bool, init: bool) returns (r: Option<nat>)
      requires Valid()
      modifies this`bos, this`labels, this`lost
      ensures Valid() && (r.Some? <==> memory && init)
      ensures lost == if memory && !init then old(lost) + [size] else old(lost)
      ensures r.Some? ==>
        r.value == |old(bos)| && Live(r.value)
        && bos == old(bos) + [Some(Bo(size, TYPE_KERNEL, WillNeed, 0, false, true, false, 0))]
      ensures r == None ==> bos == old(bos) || bos == old(bos) + [None]
    {
      hide ListsOk, LabelsOk;
      if !memory {
        return None;
      }
      if !init {
        LoseObject(size);
        return None;
      }
      var id := CreateObject(size, true);
      return Some(id);
    }
  }

  /** roundup(size, PAGE_SIZE) on a 64-bit size_t. */
  function RoundUp(size: nat): nat {
    (size + PAGE_SIZE - 1) % U64 / PAGE_SIZE * PAGE_SIZE
  }

  // A manager whose cache holds one object of one page.
  method OnePageCached() returns (m: Manager, id: nat)
    ensures fresh(m) && m.Valid() && m.clock <= 0 && m.timeList == [id]
    ensures id < |m.bos| && m.bos[id].Some? && m.bos[id].value.size == PAGE_SIZE
  {
    hide ListsOk, LabelsOk, OfPages, Kept, RoundUp, GaveUp, Spares, Exact, Failures, Repeated;
    OnePage();
    m := new Manager();
    var r, hit;
    NoPages(m.bos, 1);
    r, id, hit := m.BoCreate(PAGE_SIZE, 1, [Allocated, Allocated, Allocated], 0);
    NoMembers(m.timeList);
    ghost var b := m.bos[id].value;
    ghost var mid := m.bos[id := Some(b.(madv := NotSupp, usecnt := 0, freeTime := 0, tag := TYPE_KERNEL_CACHE))];
    KeptFresh(mid, id);
    m.FreeObject(id, 0, true);
  }

  lemma NoMembers(list: seq<nat>)
    ensures list == [] || exists x :: x in list
  {
    if list != [] {
      assert list[0] in list;
    }
  }

  lemma NoPages(bos: Table, n: nat)
    ensures OfPages(bos, [], n) == []
  {}

  lemma KeptFresh(bos: Table, id: nat)
    requires TimeOf(bos, id) == 0
    ensures Kept(bos, [id] + [], 0 - SECOND) == [id]
  {}

  lemma OneOfPages(bos: Table, id: nat)
    requires id < |bos| && bos[id].Some? && bos[id].value.size == PAGE_SIZE
    ensures OfPages(bos, [id], 1) == [id]
  {
    assert Pages(bos, id) == 1;
  }

  lemma WantedPages()
    ensures RoundUp(0x1_0000_1000) == 0x1_0000_1000 && 0x1_0000_1000 % U32 == PAGE_SIZE && PAGE_SIZE / PAGE_SIZE == 1
  {}

  /** A hit that is too small: with a one-page object in the cache, 4 GiB and a page is answered with
      that page. */
  method TruncatedHit() returns (wanted: nat, got: nat)
    ensures wanted == 0x1_0000_1000 && got == PAGE_SIZE
  {
    hide ListsOk, LabelsOk, OfPages, RoundUp, GaveUp, Spares, Exact, Failures, Repeated, Without;
    WantedPages();
    var m, id := OnePageCached();
    wanted := 0x1_0000_1000;
    OneOfPages(m.bos, id);
    var r, hit;
    r, id, hit := m.BoCreate(wanted, 1, [NoObject, NoObject, NoObject], 0);
    got := m.bos[id].value.size;
  }

  /** A create that fails for good and leaves the statistics wrong: no object is alive, and the kernel
      label counts one of a page. */
  method LostObject() returns (m: Manager, r: Status)
    ensures fresh(m) && m.Valid() && r == ENoMem && (forall x :: 0 <= x < |m.bos| ==> m.bos[x] == None)
    ensures m.labels[TYPE_KERNEL].num == 1 && m.labels[TYPE_KERNEL].bytes == PAGE_SIZE && !Exact(m.labels, m.bos)
  {
    hide ListsOk, LabelsOk, OfPages, Exact, Spares, RoundUp, Failures, Repeated;
    m := new Manager();
    OnePage();
    NoPages(m.bos, 1);
    var id, hit;
    var outcomes := [NoInit, NoObject, NoObject];
    ThreeFailures(outcomes);
    r, id, hit := m.BoCreate(PAGE_SIZE, 1, outcomes, 0);
    OneLost(m.labels, m.bos, m.lost);
  }

  lemma OnePage()
    ensures RoundUp(PAGE_SIZE) == PAGE_SIZE && PAGE_SIZE % U32 / PAGE_SIZE == 1
  {}

  lemma OneLost(labels: seq<Label>, bos: Table, lost: seq<nat>)
    requires LabelsOk(labels, bos, lost, -1) && lost == [] + Repeated(PAGE_SIZE, 1) && Spares([], bos, [], None)
    ensures TYPE_KERNEL < |labels| && !Exact(labels, bos) && (forall x :: 0 <= x < |bos| ==> bos[x] == None)
    ensures labels[TYPE_KERNEL].num == 1 && labels[TYPE_KERNEL].bytes == PAGE_SIZE
  {
    hide LabelsOk, Exact, Count, Bytes;
    LabelsExist(labels, bos, lost);
    assert lost == [PAGE_SIZE] && lost[..0] == [];
    ExactIff(labels, bos, lost);
    CountNone(bos, TYPE_KERNEL);
  }

  lemma ThreeFailures(outcomes: seq<Dma>)
    requires |outcomes| == 3
    ensures Failures(outcomes) ==
      if outcomes[0] == Allocated then 0
      else if outcomes[1] == Allocated then Failure(outcomes[0])
      else Failure(outcomes[0]) + Failure(outcomes[1]) + Failure(outcomes[2])
  {
    var rest := outcomes[1..];
    assert rest[1..][1..] == [];
    assert Failures(rest[1..]) == Failure(rest[1..][0]);
    assert Failures(rest) == if rest[0] == Allocated then 0 else Failure(rest[0]) + Failures(rest[1..]);
  }

  lemma RoundUpPages(size: nat)
    ensures RoundUp(size) % PAGE_SIZE == 0
  {}

  lemma HitSize(got: nat, size: nat)
    requires got / PAGE_SIZE == size % U32 / PAGE_SIZE && got % PAGE_SIZE == 0 && size % PAGE_SIZE == 0
    ensures got == size % U32 && (got == size <==> size < U32)
  {
    var q, p := size / U32, size / PAGE_SIZE;
    assert size == p * PAGE_SIZE && size % U32 == size - q * U32;
    assert size % U32 == (p - q * (U32 / PAGE_SIZE)) * PAGE_SIZE;
    PageMultiple(size % U32, p - q * (U32 / PAGE_SIZE));
  }

  lemma PageMultiple(n: nat, pages: int)
    requires n == pages * PAGE_SIZE
    ensures n / PAGE_SIZE == pages
  {}

  lemma CachedIsUnused(bos: Table, sizeLists: seq<seq<nat>>, timeList: seq<nat>, pool: seq<nat>, num: int,
      bytes: int, clock: int, n: nat)
    requires ListsOk(bos, sizeLists, timeList, pool, num, bytes, clock) && OfPages(bos, timeList, n) != []
    ensures var id := OfPages(bos, timeList, n)[0];
      id in timeList && Cacheable(bos, id, |sizeLists|)
  {
    OfPagesExact(bos, timeList, n);
    CachedSound(bos, sizeLists, timeList, pool, num, bytes, clock, OfPages(bos, timeList, n)[0]);
  }

  /** An object that was on no list enters the cache. */
  lemma Caching(bos: Table, sizeLists: seq<seq<nat>>, timeList: seq<nat>, pool: seq<nat>, num: int, bytes: int,
      clock: int, id: nat, b: Bo)
    requires ListsOk(bos, sizeLists, timeList, pool, num, bytes, clock) && id < |bos| && bos[id] == None
    requires Cacheable(bos[id := Some(b)], id, |sizeLists|) && SoundBo(b) && clock <= b.freeTime
    ensures var i := b.size / PAGE_SIZE - 1;
      ListsOk(bos[id := Some(b)], sizeLists[i := [id] + sizeLists[i]], [id] + timeList, pool, num, bytes, b.freeTime)
  {
    hide PoolOk, OfPages;
    var r := bos[id := Some(b)];
    assert forall k :: 0 <= k < |timeList| ==> Cacheable(bos, timeList[k], |sizeLists|);
    FrameOk(bos, r, sizeLists, timeList);
    PoolFilled(bos, pool, num, bytes, id, Some(b));
    AddOk(r, sizeLists, timeList, id);
  }

  lemma Growing(bos: Table, sizeLists: seq<seq<nat>>, timeList: seq<nat>, pool: seq<nat>, num: int, bytes: int,
      clock: int, lists: seq<seq<nat>>)
    requires ListsOk(bos, sizeLists, timeList, pool, num, bytes, clock) && |sizeLists| <= |lists| <= 0x8000_0000
    requires forall i :: 0 <= i < |lists| ==> lists[i] == if i < |sizeLists| then sizeLists[i] else []
    ensures ListsOk(bos, lists, timeList, pool, num, bytes, clock)
  {
    GrowOk(bos, sizeLists, timeList, lists);
  }

  /** What the size list of n pages holds. */
  lemma Bucket(bos: Table, sizeLists: seq<seq<nat>>, timeList: seq<nat>, pool: seq<nat>, num: int, bytes: int,
      clock: int, n: nat)
    requires ListsOk(bos, sizeLists, timeList, pool, num, bytes, clock)
    ensures |sizeLists| <= 0x8000_0000
    ensures var o := OfPages(bos, timeList, n);
      && (0 < n <= |sizeLists| ==> sizeLists[n - 1] == o)
      && (n == 0 || n > |sizeLists| ==> o == [])
      && (o != [] ==> o[0] in timeList && Pages(bos, o[0]) == n)
  {
    assert forall k :: 0 <= k < |timeList| ==> Cacheable(bos, timeList[k], |sizeLists|);
    OfPagesExact(bos, timeList, n);
    if n == 0 || n > |sizeLists| {
      NoneOfPages(bos, timeList, n);
    }
  }

  lemma PoolSound(bos: Table, sizeLists: seq<seq<nat>>, timeList: seq<nat>, pool: seq<nat>, num: int, bytes: int,
      clock: int, id: nat)
    requires ListsOk(bos, sizeLists, timeList, pool, num, bytes, clock) && pool != [] && id == pool[0]
    ensures id < |bos| && Purgeable(bos[id]) && id !in timeList && id !in Without(pool, id)
      && Without(pool, id) == pool[1..]
    ensures SoundBo(bos[id].value) && bos[id].value.size > 0
  {
    WithoutHead(pool);
    if id in timeList {
      CachedSound(bos, sizeLists, timeList, pool, num, bytes, clock, id);
    }
  }

  lemma PoolMembers(bos: Table, sizeLists: seq<seq<nat>>, timeList: seq<nat>, pool: seq<nat>, num: int, bytes: int,
      clock: int)
    requires ListsOk(bos, sizeLists, timeList, pool, num, bytes, clock)
    ensures Distinct(pool) && forall x: nat :: x in pool <==> x < |bos| && Purgeable(bos[x])
    ensures pool == [] ==> bytes == 0
  {}

  lemma Uncached(bos: Table, sizeLists: seq<seq<nat>>, timeList: seq<nat>, pool: seq<nat>, num: int, bytes: int,
      clock: int, id: nat)
    requires ListsOk(bos, sizeLists, timeList, pool, num, bytes, clock) && id in timeList
    ensures 0 < Pages(bos, id) <= |sizeLists|
    ensures var i := Pages(bos, id) - 1;
      ListsOk(bos, sizeLists[i := Without(sizeLists[i], id)], Without(timeList, id), pool, num, bytes, clock)
    ensures forall x :: x in Without(timeList, id) <==> x in timeList && x != id
    ensures |Without(timeList, id)| == |timeList| - 1
  {
    hide CacheOk, PoolOk, Without;
    RemoveOk(bos, sizeLists, timeList, id);
    var t := Without(timeList, id);
    forall k | 0 <= k < |t| ensures TimeOf(bos, t[k]) <= clock {
      assert t[k] in timeList;
    }
  }

  lemma LabelsExist(labels: seq<Label>, bos: Table, lost: seq<nat>)
    requires LabelsOk(labels, bos, lost, -1)
    ensures |labels| >= TYPE_COUNT
  {}

  lemma DistinctTimes(bos: Table, sizeLists: seq<seq<nat>>, timeList: seq<nat>, pool: seq<nat>, num: int,
      bytes: int, clock: int)
    requires ListsOk(bos, sizeLists, timeList, pool, num, bytes, clock)
    ensures Distinct(timeList) && ByAge(bos, timeList)
    ensures forall k :: 0 <= k < |timeList| ==> timeList[k] < |bos| && bos[timeList[k]].Some?
  {
    assert forall k :: 0 <= k < |timeList| ==> Cacheable(bos, timeList[k], |sizeLists|);
  }

  lemma CachedSound(bos: Table, sizeLists: seq<seq<nat>>, timeList: seq<nat>, pool: seq<nat>, num: int, bytes: int,
      clock: int, id: nat)
    requires ListsOk(bos, sizeLists, timeList, pool, num, bytes, clock) && id in timeList
    ensures Cacheable(bos, id, |sizeLists|) && id !in pool
  {
    var k :| 0 <= k < |timeList| && timeList[k] == id;
    assert Cacheable(bos, timeList[k], |sizeLists|);
  }

  lemma LabelInRange(labels: seq<Label>, bos: Table, lost: seq<nat>, id: nat, slot: int)
    requires LabelsOk(labels, bos, lost, slot) && id < |bos| && bos[id].Some?
    ensures 0 <= bos[id].value.tag < |labels| && labels[bos[id].value.tag].num > 0 && |labels| >= TYPE_COUNT
  {
    CountCovers(bos, id, bos[id].value.tag);
    assert Entry(labels[bos[id].value.tag], bos, lost, bos[id].value.tag);
  }

  /** The label an object moves to keeps its name. */
  lemma MovedKeepsName(labels: seq<Label>, bos: Table, id: nat, to: int)
    requires id < |bos| && bos[id].Some? && 0 <= bos[id].value.tag < |labels| && 0 <= to < |labels|
    requires labels[bos[id].value.tag].num > 0
    ensures var r := Moved(labels, bos[id].value.tag, to, bos[id].value.size);
      |r| == |labels| && r[to].name == labels[to].name
  {}

  lemma LiveSound(bos: Table, sizeLists: seq<seq<nat>>, timeList: seq<nat>, pool: seq<nat>, num: int, bytes: int,
      clock: int, id: nat)
    requires ListsOk(bos, sizeLists, timeList, pool, num, bytes, clock) && id < |bos| && bos[id].Some?
    ensures SoundBo(bos[id].value) && (id in pool <==> Purgeable(bos[id]))
    ensures !Purgeable(bos[id]) ==> id !in pool
  {}

  lemma NamedAlready(labels: seq<Label>, bos: Table, lost: seq<nat>, i: int)
    requires LabelsOk(labels, bos, lost, -1)
    ensures LabelsOk(labels, bos, lost, i)
  {}

  lemma KernelNamesDiffer()
    ensures |KERNEL_NAMES| == TYPE_COUNT
    ensures forall l, m :: 0 <= l < m < |KERNEL_NAMES| ==> KERNEL_NAMES[l] != KERNEL_NAMES[m]
  {
    var n := KERNEL_NAMES;
    assert n[0][0] == 'k' && |n[0]| == 6;
    assert |n[1]| == 3 && n[1][0] == 'V';
    assert |n[2]| == 10;
    assert |n[3]| == 4 && n[3][0] == 'd';
    assert |n[4]| == 6 && n[4][0] == 'b';
    assert |n[5]| == 3 && n[5][0] == 'R';
    assert |n[6]| == 3 && n[6][0] == 'B';
    assert |n[7]| == 15;
  }
}
