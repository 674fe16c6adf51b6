/** The purgeable pool as a list: which objects are on it, and its counters. */
module BoPool {
  import opened Options
  import opened Lists
  import opened MadvState
  import opened BoLabels
  import opened BoCache

  predicate Purgeable(b: Option<Bo>) {
    b.Some? && b.value.madv == DontNeed && b.value.usecnt == 0
  }

  function SizeOf(bos: Table, id: nat): nat {
    if id < |bos| && bos[id].Some? then bos[id].value.size else 0
  }

  function Total(bos: Table, list: seq<nat>): nat {
    if list == [] then 0 else SizeOf(bos, list[0]) + Total(bos, list[1..])
  }

  /** The pool holds exactly the unused objects marked DONTNEED, each once, and its counters match. */
  ghost predicate PoolOk(bos: Table, pool: seq<nat>, num: int, bytes: int) {
    && Distinct(pool)
    && num == |pool| && bytes == Total(bos, pool)
    && (forall k :: 0 <= k < |pool| ==> pool[k] < |bos|)
    && (forall id :: 0 <= id < |bos| ==> (id in pool <==> Purgeable(bos[id])))
  }

  lemma {:induction false} TotalSame(bos: Table, bos': Table, list: seq<nat>)
    requires forall k :: 0 <= k < |list| ==> SizeOf(bos, list[k]) == SizeOf(bos', list[k])
    ensures Total(bos, list) == Total(bos', list)
  {
    if list != [] {
      assert forall k :: 0 <= k < |list[1..]| ==> list[1..][k] == list[k + 1];
      TotalSame(bos, bos', list[1..]);
    }
  }

  lemma {:induction false} TotalAppend(bos: Table, list: seq<nat>, id: nat)
    ensures Total(bos, list + [id]) == Total(bos, list) + SizeOf(bos, id)
  {
    if list != [] {
      assert (list + [id])[1..] == list[1..] + [id];
      TotalAppend(bos, list[1..], id);
    }
  }

  lemma {:induction false} TotalWithout(bos: Table, list: seq<nat>, id: nat)
    requires id in list && Distinct(list)
    ensures Total(bos, Without(list, id)) == Total(bos, list) - SizeOf(bos, id)
  {
    WithoutHead(list);
    if list[0] != id {
      assert Without(list, id)[1..] == Without(list[1..], id);
      TotalWithout(bos, list[1..], id);
    }
  }

  /** An object that becomes purgeable joins at the tail, one that stops being so leaves, any other
      change leaves the pool alone. */
  lemma PoolChange(bos: Table, pool: seq<nat>, num: int, bytes: int, id: nat, b: Option<Bo>)
    requires PoolOk(bos, pool, num, bytes) && id < |bos| && bos[id].Some?
    requires b.Some? ==> b.value.size == bos[id].value.size
    ensures Purgeable(b) && !Purgeable(bos[id]) ==>
      PoolOk(bos[id := b], pool + [id], num + 1, bytes + bos[id].value.size)
    ensures !Purgeable(b) && Purgeable(bos[id]) ==>
      PoolOk(bos[id := b], Without(pool, id), num - 1, bytes - bos[id].value.size)
    ensures Purgeable(b) == Purgeable(bos[id]) ==> PoolOk(bos[id := b], pool, num, bytes)
  {
    hide Without, Total;
    var r := bos[id := b];
    if Purgeable(b) {
      TotalSame(bos, r, pool);
      TotalAppend(r, pool, id);
    } else if Purgeable(bos[id]) {
      WithoutExact(pool, id);
      TotalWithout(bos, pool, id);
      TotalSame(bos, r, Without(pool, id));
      forall k | 0 <= k < |Without(pool, id)| ensures Without(pool, id)[k] < |r| {
        assert Without(pool, id)[k] in pool;
      }
    } else {
      TotalSame(bos, r, pool);
    }
  }

  lemma PoolNew(bos: Table, pool: seq<nat>, num: int, bytes: int, b: Option<Bo>)
    requires PoolOk(bos, pool, num, bytes) && !Purgeable(b)
    ensures PoolOk(bos + [b], pool, num, bytes)
  {
    hide Total;
    TotalSame(bos, bos + [b], pool);
  }

  lemma PoolFilled(bos: Table, pool: seq<nat>, num: int, bytes: int, id: nat, b: Option<Bo>)
    requires PoolOk(bos, pool, num, bytes) && id < |bos| && bos[id] == None && !Purgeable(b)
    ensures PoolOk(bos[id := b], pool, num, bytes)
  {
    hide Total;
    TotalSame(bos, bos[id := b], pool);
  }

  /** The list node shared by the pool and the size lists is never on both. */
  lemma NeverOnBoth(bos: Table, sizeLists: seq<seq<nat>>, timeList: seq<nat>, pool: seq<nat>, num: int, bytes: int,
      id: nat, i: nat)
    requires CacheOk(bos, sizeLists, timeList) && PoolOk(bos, pool, num, bytes) && i < |sizeLists|
    ensures !(id in pool && id in sizeLists[i])
  {
    IndexesAgree(bos, sizeLists, timeList, id, i);
    if id in timeList {
      var k :| 0 <= k < |timeList| && timeList[k] == id;
      assert Cacheable(bos, timeList[k], |sizeLists|);
    }
  }
}
