/** The two indexes of the buffer-object cache: one list per size, and one list of all cached objects
    by age. */
module BoCache {
  import opened Options
  import opened BoLabels
  import opened Lists
  import opened MadvState

  const PAGE_SIZE: nat := 4096

  function Pages(bos: Table, id: nat): nat {
    if id < |bos| && bos[id].Some? then bos[id].value.size / PAGE_SIZE else 0
  }

  /** The objects of n pages in a list, in its order. */
  function OfPages(bos: Table, list: seq<nat>, n: nat): seq<nat> {
    if list == [] then []
    else (if Pages(bos, list[0]) == n then [list[0]] else []) + OfPages(bos, list[1..], n)
  }

  /** A cached object: in one piece, unused, and out of madvise's reach. */
  predicate Cacheable(bos: Table, id: nat, buckets: nat) {
    && id < |bos| && bos[id].Some?
    && bos[id].value.size % PAGE_SIZE == 0 && 0 < bos[id].value.size / PAGE_SIZE <= buckets
    && bos[id].value.madv == NotSupp && bos[id].value.usecnt == 0
    && bos[id].value.tag == TYPE_KERNEL_CACHE && bos[id].value.vaddr
    && !bos[id].value.imported && !bos[id].value.publicName
  }

  function TimeOf(bos: Table, id: nat): int {
    if id < |bos| && bos[id].Some? then bos[id].value.freeTime else 0
  }

  /** Newest first. */
  ghost predicate ByAge(bos: Table, list: seq<nat>) {
    forall i, j :: 0 <= i < j < |list| ==> TimeOf(bos, list[i]) >= TimeOf(bos, list[j])
  }

  /** The indexes agree: the list of every size is the time list restricted to that size, in the same
      order, and the time list is sorted by age. */
  ghost predicate CacheOk(bos: Table, sizeLists: seq<seq<nat>>, timeList: seq<nat>) {
    && Distinct(timeList) && ByAge(bos, timeList)
    && (forall k :: 0 <= k < |timeList| ==> Cacheable(bos, timeList[k], |sizeLists|))
    && (forall i :: 0 <= i < |sizeLists| ==> sizeLists[i] == OfPages(bos, timeList, i + 1))
  }

  // ---- What agreement means ----

  lemma {:induction false} OfPagesExact(bos: Table, list: seq<nat>, n: nat)
    ensures forall k :: 0 <= k < |OfPages(bos, list, n)| ==>
      OfPages(bos, list, n)[k] in list && Pages(bos, OfPages(bos, list, n)[k]) == n
    ensures forall k :: 0 <= k < |list| && Pages(bos, list[k]) == n ==> list[k] in OfPages(bos, list, n)
    ensures Distinct(list) ==> Distinct(OfPages(bos, list, n))
  {
    if list != [] {
      var rest := list[1..];
      OfPagesExact(bos, rest, n);
      var all, tail := OfPages(bos, list, n), OfPages(bos, rest, n);
      var off := |all| - |tail|;
      assert forall k :: off <= k < |all| ==> all[k] == tail[k - off];
      assert forall k :: 0 < k < |list| ==> list[k] == rest[k - 1];
    }
  }

  /** The time list is the disjoint union of the size lists: each cached object is on exactly one of
      them, the one of its size, and there once. */
  lemma IndexesAgree(bos: Table, sizeLists: seq<seq<nat>>, timeList: seq<nat>, id: nat, i: nat)
    requires CacheOk(bos, sizeLists, timeList) && i < |sizeLists|
    ensures id in sizeLists[i] <==> id in timeList && bos[id].value.size == (i + 1) * PAGE_SIZE
    ensures Distinct(sizeLists[i])
  {
    OfPagesExact(bos, timeList, i + 1);
    if id in timeList {
      var k :| 0 <= k < |timeList| && timeList[k] == id;
      assert Cacheable(bos, timeList[k], |sizeLists|);
    }
    if id in sizeLists[i] {
      var k :| 0 <= k < |sizeLists[i]| && sizeLists[i][k] == id;
      assert id in timeList && Pages(bos, id) == i + 1;
    }
  }

  // ---- List operations ----

  lemma {:induction false} WithoutByAge(bos: Table, list: seq<nat>, id: nat)
    requires ByAge(bos, list) && Distinct(list)
    ensures ByAge(bos, Without(list, id))
  {
    if list != [] {
      WithoutHead(list);
    }
    if list != [] && list[0] != id {
      var rest := list[1..];
      assert forall k :: 0 < k < |list| ==> list[k] == rest[k - 1];
      WithoutByAge(bos, rest, id);
      WithoutExact(rest, id);
      var w := Without(rest, id);
      forall j | 0 <= j < |w| ensures TimeOf(bos, list[0]) >= TimeOf(bos, w[j]) {
        assert w[j] in rest;
        var k :| 0 <= k < |rest| && rest[k] == w[j];
        assert list[k + 1] == w[j];
      }
    }
  }

  lemma OfPagesCons(bos: Table, x: nat, rest: seq<nat>, n: nat)
    ensures OfPages(bos, [x] + rest, n) ==
            if Pages(bos, x) == n then [x] + OfPages(bos, rest, n) else OfPages(bos, rest, n)
  {
    assert ([x] + rest)[1..] == rest;
    assert [] + OfPages(bos, rest, n) == OfPages(bos, rest, n);
  }

  lemma {:induction false} OfPagesWithout(bos: Table, list: seq<nat>, id: nat, n: nat)
    ensures OfPages(bos, Without(list, id), n) ==
            if Pages(bos, id) == n then Without(OfPages(bos, list, n), id) else OfPages(bos, list, n)
  {
    if list != [] {
      hide OfPages, Without, Pages;
      var x, rest := list[0], list[1..];
      assert list == [x] + rest;
      OfPagesWithout(bos, rest, id, n);
      WithoutCons(x, rest, id);
      OfPagesCons(bos, x, rest, n);
      OfPagesCons(bos, x, Without(rest, id), n);
      WithoutCons(x, OfPages(bos, rest, n), id);
    }
  }

  lemma {:induction false} NoneOfPages(bos: Table, list: seq<nat>, n: nat)
    requires forall k :: 0 <= k < |list| ==> Pages(bos, list[k]) != n
    ensures OfPages(bos, list, n) == []
  {
    if list != [] {
      assert forall k :: 0 <= k < |list[1..]| ==> list[1..][k] == list[k + 1];
      NoneOfPages(bos, list[1..], n);
    }
  }

  lemma {:induction false} OfPagesSame(bos: Table, bos': Table, list: seq<nat>, n: nat)
    requires forall k :: 0 <= k < |list| ==> Pages(bos, list[k]) == Pages(bos', list[k])
    ensures OfPages(bos, list, n) == OfPages(bos', list, n)
  {
    if list != [] {
      assert forall k :: 0 <= k < |list[1..]| ==> list[1..][k] == list[k + 1];
      OfPagesSame(bos, bos', list[1..], n);
    }
  }

  // ---- What each change keeps ----

  /** Changes elsewhere in the table do not matter. */
  lemma FrameOk(bos: Table, bos': Table, sizeLists: seq<seq<nat>>, timeList: seq<nat>)
    requires CacheOk(bos, sizeLists, timeList)
    requires forall k :: 0 <= k < |timeList| ==> timeList[k] < |bos'| && bos'[timeList[k]] == bos[timeList[k]]
    ensures CacheOk(bos', sizeLists, timeList)
  {
    assert forall k :: 0 <= k < |timeList| ==> Cacheable(bos, timeList[k], |sizeLists|);
    forall i | 0 <= i < |sizeLists| ensures sizeLists[i] == OfPages(bos', timeList, i + 1) {
      OfPagesSame(bos, bos', timeList, i + 1);
    }
    assert forall k :: 0 <= k < |timeList| ==> TimeOf(bos', timeList[k]) == TimeOf(bos, timeList[k]);
  }

  /** vc4_bo_remove_from_cache */
  lemma RemoveOk(bos: Table, sizeLists: seq<seq<nat>>, timeList: seq<nat>, id: nat)
    requires CacheOk(bos, sizeLists, timeList) && id in timeList
    ensures 0 < Pages(bos, id) <= |sizeLists|
    ensures var i := Pages(bos, id) - 1;
      CacheOk(bos, sizeLists[i := Without(sizeLists[i], id)], Without(timeList, id))
    ensures forall x :: x in Without(timeList, id) <==> x in timeList && x != id
    ensures |Without(timeList, id)| == |timeList| - 1
  {
    hide OfPages, Without;
    var k :| 0 <= k < |timeList| && timeList[k] == id;
    assert Cacheable(bos, timeList[k], |sizeLists|);
    WithoutExact(timeList, id);
    WithoutByAge(bos, timeList, id);
    var i, t := Pages(bos, id) - 1, Without(timeList, id);
    var lists := sizeLists[i := Without(sizeLists[i], id)];
    forall j | 0 <= j < |lists| ensures lists[j] == OfPages(bos, t, j + 1) {
      OfPagesWithout(bos, timeList, id, j + 1);
    }
    forall j | 0 <= j < |t| ensures Cacheable(bos, t[j], |lists|) {
      assert t[j] in timeList;
    }
  }

  /** Caching an object: both lists get it first. */
  lemma AddOk(bos: Table, sizeLists: seq<seq<nat>>, timeList: seq<nat>, id: nat)
    requires CacheOk(bos, sizeLists, timeList) && id !in timeList && Cacheable(bos, id, |sizeLists|)
    requires forall k :: 0 <= k < |timeList| ==> TimeOf(bos, timeList[k]) <= TimeOf(bos, id)
    ensures var i := Pages(bos, id) - 1;
      CacheOk(bos, sizeLists[i := [id] + sizeLists[i]], [id] + timeList)
  {
    var i, t := Pages(bos, id) - 1, [id] + timeList;
    assert t[1..] == timeList;
    assert forall k :: 0 < k < |t| ==> t[k] == timeList[k - 1];
  }

  /** Growing the array of size lists. */
  lemma GrowOk(bos: Table, sizeLists: seq<seq<nat>>, timeList: seq<nat>, lists: seq<seq<nat>>)
    requires CacheOk(bos, sizeLists, timeList) && |sizeLists| <= |lists|
    requires forall i :: 0 <= i < |lists| ==> lists[i] == if i < |sizeLists| then sizeLists[i] else []
    ensures CacheOk(bos, lists, timeList)
  {
    forall k | 0 <= k < |timeList| ensures Cacheable(bos, timeList[k], |lists|) {
      assert Cacheable(bos, timeList[k], |sizeLists|);
    }
    forall i | 0 <= i < |lists| ensures lists[i] == OfPages(bos, timeList, i + 1) {
      if i >= |sizeLists| {
        assert forall k :: 0 <= k < |timeList| ==> Cacheable(bos, timeList[k], |sizeLists|);
        NoneOfPages(bos, timeList, i + 1);
      }
    }
  }

  /** The first object of a size list is the most recently cached one of its size. */
  lemma {:induction false} FirstIsNewest(bos: Table, list: seq<nat>, n: nat)
    requires Distinct(list) && OfPages(bos, list, n) != []
    ensures var id := OfPages(bos, list, n)[0];
      exists k :: 0 <= k < |list| && list[k] == id && forall j :: 0 <= j < k ==> Pages(bos, list[j]) != n
  {
    if Pages(bos, list[0]) != n {
      FirstIsNewest(bos, list[1..], n);
      var id := OfPages(bos, list, n)[0];
      var k :| 0 <= k < |list[1..]| && list[1..][k] == id && forall j :: 0 <= j < k ==> Pages(bos, list[1..][j]) != n;
      assert list[k + 1] == id;
      forall j | 0 <= j < k + 1 ensures Pages(bos, list[j]) != n {
        assert j > 0 ==> list[j] == list[1..][j - 1];
      }
    } else {
      assert list[0] == OfPages(bos, list, n)[0];
    }
  }
}
