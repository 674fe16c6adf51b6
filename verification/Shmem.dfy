/** Shared-memory GEM objects: independent holders (pins, mappings into user processes, the kernel
    mapping, the scatter/gather table) share one count on the object's backing pages. */
module Shmem {
  import opened Options

  datatype Status = Ok | EInval | EIntr | ENoMem

  /** How taking the backing pages can go wrong: no room for the array, or page `at` cannot be read. */
  datatype Fetch = Fine | NoArray | Unreadable(at: nat)

  /** An object as its holders see it. */
  datatype View = View(uses: nat, vmaps: nat, present: bool, mapped: bool, table: bool, madv: int, refs: seq<nat>,
      pins: nat, vmas: nat)

  function PagesBelow(n: nat): set<nat> {
    if n == 0 then {} else PagesBelow(n - 1) + {n - 1}
  }

  class Object {
    const npages: nat
    const hasFile: bool            // false for an object without backing store of its own
    var pagesUseCount: nat
    var vmapUseCount: nat
    var pages: array?<Option<nat>>
    var vaddr: bool                // the kernel mapping exists
    var sgt: bool                  // the scatter/gather table exists
    var madv: int
    var markDirtyOnPut: bool
    var refs: seq<nat>             // references held on each backing page
    var dirty: set<nat>            // backing pages marked dirty
    ghost var pins: nat            // calls of pin not yet matched by unpin
    ghost var vmas: nat            // live mappings into user processes

    ghost function Holders(): nat
      reads this
    {
      pins + vmas + (if vmapUseCount > 0 then 1 else 0) + (if sgt then 1 else 0)
    }

    /** The count on the pages is the number of their holders; the pages are there, one reference
        each, exactly while it is positive. */
    ghost predicate Valid()
      reads this, pages
    {
      && pagesUseCount == Holders()
      && (pages != null <==> pagesUseCount > 0)
      && (vaddr <==> vmapUseCount > 0)
      && PagesOk()
    }

    ghost predicate PagesOk()
      reads this, pages
    {
      && |refs| == npages
      && (forall i :: 0 <= i < npages ==> refs[i] == if pages != null then 1 else 0)
      && (pages != null ==> pages.Length == npages && forall i :: 0 <= i < npages ==> pages[i] == Some(i))
    }

    ghost function Seen(): View
      reads this
    {
      View(pagesUseCount, vmapUseCount, pages != null, vaddr, sgt, madv, refs, pins, vmas)
    }

    /** How taking the backing pages ends. */
    function Fetched(fetch: Fetch): Status {
      if !hasFile then EInval
      else if fetch == Fine || (fetch.Unreadable? && fetch.at >= npages) then Ok
      else ENoMem
    }

    /** How a new holder's call for the pages ends: they need taking only for the first. */
    function Gets(uses: nat, fetch: Fetch): Status {
      if uses > 0 then Ok else Fetched(fetch)
    }

    /** The dirty pages after a holder left: with the last one the pages go, marked if asked for. */
    function Dirtied(dirty: set<nat>, uses: nat, mark: bool): set<nat> {
      if uses == 1 && mark then dirty + PagesBelow(npages) else dirty
    }

    // __drm_gem_shmem_create
    constructor (npages: nat, hasFile: bool, markDirtyOnPut: bool)
      ensures Valid() && this.npages == npages && this.hasFile == hasFile
      ensures Seen() == View(0, 0, false, false, false, 0, seq(npages, i => 0), 0, 0)
    {
      this.npages, this.hasFile, this.markDirtyOnPut := npages, hasFile, markDirtyOnPut;
      pagesUseCount, vmapUseCount, pages, vaddr, sgt, madv := 0, 0, null, false, false, 0;
      refs, dirty, pins, vmas := seq(npages, i => 0), {}, 0, 0;
    }

    // put_page
    method PutPage(i: nat)
      requires i < |refs| && refs[i] > 0
      modifies this`refs
      ensures refs == old(refs)[i := old(refs)[i] - 1]
    {
      refs := refs[i := refs[i] - 1];
    }

    // drm_gem_get_pages: one reference on every backing page, or none.
    method FetchPages(fetch: Fetch) returns (r: Status, a: array?<Option<nat>>)
      requires |refs| == npages && forall i :: 0 <= i < npages ==> refs[i] == 0
      modifies this`refs
      ensures |refs| == npages
      ensures r == Fetched(fetch)
      ensures r == Ok ==> a != null && fresh(a) && a.Length == npages
      ensures r == Ok ==> forall i :: 0 <= i < npages ==> a[i] == Some(i) && refs[i] == 1
      ensures r != Ok ==> a == null && refs == old(refs)
    {
      if !hasFile {
        return EInval, null;
      }
      if fetch == NoArray {
        return ENoMem, null;
      }
      a := new Option<nat>[npages](_ => None);
      var i := 0;
      while i < npages
        invariant 0 <= i <= npages == |refs| && (fetch.Unreadable? ==> i <= fetch.at || npages <= fetch.at)
        invariant forall j :: 0 <= j < npages ==> refs[j] == if j < i then 1 else 0
        invariant forall j :: 0 <= j < i ==> a[j] == Some(j)
      {
        if fetch.Unreadable? && fetch.at == i {
          while i > 0
            invariant 0 <= i < npages == |refs|
            invariant forall j :: 0 <= j < npages ==> refs[j] == if j < i then 1 else 0
          {
            i := i - 1;
            PutPage(i);
          }
          assert refs == old(refs);
          return ENoMem, null;
        }
        refs := refs[i := refs[i] + 1];
        a[i] := Some(i);
        i := i + 1;
      }
      r := Ok;
    }

    // drm_gem_put_pages: drops every reference once, marking the pages dirty first if asked to.
    method DropPages(a: array<Option<nat>>, mark: bool)
      requires a.Length == npages == |refs|
      requires forall i :: 0 <= i < npages ==> a[i] == Some(i) && refs[i] == 1
      modifies this`refs, this`dirty
      ensures |refs| == npages && forall i :: 0 <= i < npages ==> refs[i] == 0
      ensures dirty == Dirtied(old(dirty), 1, mark)
    {
      var i := 0;
      while i < npages
        invariant i <= npages == |refs|
        invariant forall j :: 0 <= j < npages ==> refs[j] == if j < i then 0 else 1
        invariant dirty == if mark then old(dirty) + PagesBelow(i) else old(dirty)
      {
        if a[i].Some? {
          if mark {
            dirty := dirty + {a[i].value};
          }
          PutPage(a[i].value);
        }
        i := i + 1;
      }
    }

    // drm_gem_shmem_get_pages: the count goes up by one and the pages are there, or nothing changes.
    method GetPages(fetch: Fetch) returns (r: Status)
      requires PagesOk() && (pages != null <==> pagesUseCount > 0)
      modifies this`pagesUseCount, this`pages, this`refs
      ensures PagesOk() && (pages != null <==> pagesUseCount > 0)
      ensures r == Gets(old(pagesUseCount), fetch)
      ensures pagesUseCount == old(pagesUseCount) + if r == Ok then 1 else 0
      ensures old(pagesUseCount) > 0 ==> r == Ok && pages == old(pages) && refs == old(refs)
      ensures r != Ok ==> pages == old(pages) && refs == old(refs)
      ensures r == Ok ==> pages != null
    {
      pagesUseCount := pagesUseCount + 1;
      if pagesUseCount > 1 {
        return Ok;
      }
      var a;
      r, a := FetchPages(fetch);
      if r != Ok {
        pagesUseCount := 0;
        return;
      }
      pages := a;
    }

    // drm_gem_shmem_put_pages: it only warns when there is nothing to put.
    method PutPages() returns (warned: bool)
      requires PagesOk() && (pages != null <==> pagesUseCount > 0)
      modifies this`pagesUseCount, this`pages, this`refs, this`dirty
      ensures PagesOk() && (pages != null <==> pagesUseCount > 0)
      ensures warned <==> old(pagesUseCount) == 0
      ensures pagesUseCount == if warned then 0 else old(pagesUseCount) - 1
      ensures pagesUseCount > 0 || warned ==> pages == old(pages) && refs == old(refs)
      ensures dirty == Dirtied(old(dirty), old(pagesUseCount), markDirtyOnPut)
    {
      if pagesUseCount == 0 {
        return true;
      }
      warned := false;
      pagesUseCount := pagesUseCount - 1;
      if pagesUseCount > 0 {
        return;
      }
      DropPages(pages, markDirtyOnPut);
      pages := null;
    }

    /** drm_gem_shmem_pin */
    method Pin(interrupted: bool, fetch: Fetch) returns (r: Status)
      requires Valid()
      modifies this
      ensures Valid() && markDirtyOnPut == old(markDirtyOnPut)
      ensures r != Ok ==> Seen() == old(Seen())
      ensures r == Ok ==>
        Seen() == old(Seen()).(uses := pagesUseCount, present := true, refs := refs, pins := old(pins) + 1)
      ensures r == if interrupted then EIntr else Gets(old(pagesUseCount), fetch)
      ensures dirty == old(dirty)
    {
      if interrupted {
        return EIntr;
      }
      r := GetPages(fetch);
      if r == Ok {
        pins := pins + 1;
      }
    }

    /** drm_gem_shmem_unpin */
    method Unpin()
      requires Valid() && pins > 0
      modifies this
      ensures Valid() && markDirtyOnPut == old(markDirtyOnPut)
      ensures Seen() ==
        old(Seen()).(uses := pagesUseCount, present := pages != null, refs := refs, pins := old(pins) - 1)
      ensures dirty == Dirtied(old(dirty), old(pagesUseCount), markDirtyOnPut)
    {
      var warned := PutPages();
      pins := pins - 1;
    }

    /** drm_gem_shmem_vmap of an object with pages of its own. */
    method Vmap(fetch: Fetch, mappable: bool) returns (r: Status)
      requires Valid()
      modifies this
      ensures Valid() && markDirtyOnPut == old(markDirtyOnPut)
      ensures r != Ok ==> Seen() == old(Seen())
      ensures r == Ok ==>
        Seen() == old(Seen()).(uses := pagesUseCount, vmaps := old(vmapUseCount) + 1, present := true, mapped := true,
                               refs := refs)
      ensures var got := Gets(old(pagesUseCount), fetch);
        r == if old(vmapUseCount) > 0 then Ok else if got != Ok then got else if mappable then Ok else ENoMem
    {
      vmapUseCount := vmapUseCount + 1;
      if vmapUseCount > 1 {
        return Ok;
      }
      r := GetPages(fetch);
      if r != Ok {
        vmapUseCount := 0;
        return;
      }
      if !mappable {
        r := ENoMem;
        var warned := PutPages();
        vmapUseCount := 0;
        AllZero(old(refs), refs);
        return;
      }
      vaddr := true;
    }

    /** drm_gem_shmem_vunmap: it only warns when there is no mapping. */
    method Vunmap() returns (warned: bool)
      requires Valid()
      modifies this
      ensures Valid() && markDirtyOnPut == old(markDirtyOnPut)
      ensures warned <==> old(vmapUseCount) == 0
      ensures Seen() == if warned then old(Seen()) else
        old(Seen()).(uses := pagesUseCount, vmaps := old(vmapUseCount) - 1, present := pages != null,
                     mapped := old(vmapUseCount) > 1, refs := refs)
      ensures dirty ==
        if old(vmapUseCount) == 1 then Dirtied(old(dirty), old(pagesUseCount), markDirtyOnPut) else old(dirty)
    {
      if vmapUseCount == 0 {
        return true;
      }
      warned := false;
      vmapUseCount := vmapUseCount - 1;
      if vmapUseCount > 0 {
        return;
      }
      var none := PutPages();
      vaddr := false;
    }

    /** drm_gem_shmem_mmap: private copy-on-write mappings are refused. */
    method Mmap(cow: bool, fetch: Fetch) returns (r: Status)
      requires Valid()
      modifies this
      ensures Valid() && markDirtyOnPut == old(markDirtyOnPut) && dirty == old(dirty)
      ensures r == if cow then EInval else Gets(old(pagesUseCount), fetch)
      ensures r != Ok ==> Seen() == old(Seen())
      ensures r == Ok ==>
        Seen() == old(Seen()).(uses := pagesUseCount, present := true, refs := refs, vmas := old(vmas) + 1)
    {
      if cow {
        return EInval;
      }
      r := GetPages(fetch);
      if r == Ok {
        vmas := vmas + 1;
      }
    }

    /** drm_gem_shmem_vm_open: a live mapping is copied; the count it copies is never zero. */
    method VmOpen() returns (warned: bool)
      requires Valid() && vmas > 0
      modifies this
      ensures Valid() && !warned && markDirtyOnPut == old(markDirtyOnPut)
      ensures Seen() == old(Seen()).(uses := old(pagesUseCount) + 1, vmas := old(vmas) + 1)
    {
      warned := pagesUseCount == 0;
      if !warned {
        pagesUseCount := pagesUseCount + 1;
      }
      vmas := vmas + 1;
    }

    /** drm_gem_shmem_vm_close */
    method VmClose()
      requires Valid() && vmas > 0
      modifies this
      ensures Valid() && markDirtyOnPut == old(markDirtyOnPut)
      ensures Seen() ==
        old(Seen()).(uses := pagesUseCount, present := pages != null, refs := refs, vmas := old(vmas) - 1)
      ensures dirty == Dirtied(old(dirty), old(pagesUseCount), markDirtyOnPut)
    {
      var warned := PutPages();
      vmas := vmas - 1;
    }

    /** drm_gem_shmem_fault in a live mapping: the page of the offset, unless it is out of range or the
        object was purged. */
    method Fault(offset: nat) returns (page: Option<nat>)
      requires Valid() && vmas > 0
      ensures page == if offset < npages && madv >= 0 then Some(offset) else None
    {
      if offset >= npages || pages == null || madv < 0 {
        return None;
      }
      return pages[offset];
    }

    /** drm_gem_shmem_get_pages_sgt_locked */
    method GetPagesSgt(fetch: Fetch, tableMade: bool, dmaMapped: bool) returns (r: Status)
      requires Valid()
      modifies this
      ensures Valid() && markDirtyOnPut == old(markDirtyOnPut)
      ensures r != Ok ==> Seen() == old(Seen())
      ensures r == Ok ==> Seen() == old(Seen()).(uses := pagesUseCount, present := true, table := true, refs := refs)
      ensures old(sgt) ==> pagesUseCount == old(pagesUseCount)
      ensures var got := Gets(old(pagesUseCount), fetch);
        r == if old(sgt) then Ok else if got != Ok then got else if tableMade && dmaMapped then Ok else ENoMem
    {
      if sgt {
        return Ok;
      }
      r := GetPages(fetch);
      if r != Ok {
        return;
      }
      if !tableMade || !dmaMapped {
        var warned := PutPages();
        AllZero(old(refs), refs);
        return ENoMem;
      }
      sgt := true;
    }

    /** drm_gem_shmem_madvise: a purged object stays purged. */
    method Madvise(advice: int) returns (retained: bool)
      requires Valid()
      modifies this
      ensures Valid() && markDirtyOnPut == old(markDirtyOnPut)
      ensures Seen() == old(Seen()).(madv := if old(madv) < 0 then old(madv) else advice)
      ensures retained <==> madv >= 0
    {
      if madv >= 0 {
        madv := advice;
      }
      return madv >= 0;
    }

    // drm_gem_shmem_is_purgeable
    predicate IsPurgeable()
      reads this
    {
      madv > 0 && vmapUseCount == 0 && sgt
    }

    /** drm_gem_shmem_purge: gives up the table and its hold on the pages; other holders keep theirs. */
    method Purge()
      requires Valid() && IsPurgeable()
      modifies this
      ensures Valid() && markDirtyOnPut == old(markDirtyOnPut)
      ensures Seen() == old(Seen()).(uses := old(pagesUseCount) - 1, present := pages != null, table := false,
                                     madv := -1, refs := refs)
      ensures dirty == Dirtied(old(dirty), old(pagesUseCount), markDirtyOnPut)
    {
      sgt := false;
      var warned := PutPages();
      madv := -1;
    }

    /** drm_gem_shmem_free. It puts the pages once, whoever holds them: the warnings tell exactly of a
        kernel mapping and of more than one holder, and no backing page keeps a reference exactly when
        there was at most one. With nobody left but the table, none of this can go wrong. */
    method Free() returns (warnedVmap: bool, warnedPages: bool, warnedPut: bool)
      requires Valid()
      modifies this
      ensures warnedVmap <==> old(vmapUseCount) > 0
      ensures warnedPages <==> old(Holders()) > 1
      ensures |refs| == npages && forall i :: 0 <= i < npages ==> refs[i] == if warnedPages then 1 else 0
      ensures (pages != null <==> warnedPages) && !sgt && !warnedPut
    {
      warnedPut := false;
      warnedVmap := vmapUseCount > 0;
      if sgt {
        sgt := false;
      }
      if pages != null {
        warnedPut := PutPages();
      }
      warnedPages := pagesUseCount > 0;
    }
  }

  lemma AllZero(a: seq<nat>, b: seq<nat>)
    ensures |a| == |b| && (forall i :: 0 <= i < |a| ==> a[i] == b[i]) ==> a == b
  {}
}
