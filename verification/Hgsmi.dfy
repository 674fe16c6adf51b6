/** The VirtualBox HGSMI heap, a client of the pool that keeps an allocation's size in memory the
    device can see and recomputes it when freeing. */
module Hgsmi {
  import opened Words
  import opened Widths
  import Pool
  import opened Arithmetic
  import Search

  const HEADER_SIZE: nat := 16
  const TAIL_SIZE: nat := 8

  /** What a buffer with this much data takes from the pool: a size_t. */
  function TotalSize(size: nat): nat {
    (size + HEADER_SIZE + TAIL_SIZE) % U64
  }

  /** It is room for header, data and tail exactly when the sum does not wrap, and else for less than the
      header and the tail alone. */
  lemma TotalSizeHolds(size: nat)
    requires size < U64
    ensures TotalSize(size) >= size + HEADER_SIZE + TAIL_SIZE <==> size + HEADER_SIZE + TAIL_SIZE < U64
    ensures TotalSize(size) < HEADER_SIZE + TAIL_SIZE <==> size + HEADER_SIZE + TAIL_SIZE >= U64
  {
    if size + HEADER_SIZE + TAIL_SIZE >= U64 {
      assert TotalSize(size) == size + HEADER_SIZE + TAIL_SIZE - U64;
    }
  }

  class Heap {
    const pool: Pool.GenPool
    var dataSize: map<nat, nat>  // the data_size field of the header at each address

    ghost predicate Valid()
      reads this, pool, pool.Repr()
    {
      && pool.Valid() && (this as object) !in pool.Repr() && (pool as object) !in pool.Repr()
    }

    constructor (pool: Pool.GenPool)
      requires pool.Valid() && (pool as object) !in pool.Repr()
      ensures Valid() && this.pool == pool
    {
      this.pool := pool;
      this.dataSize := map[];
    }

    // hgsmi_buffer_alloc: data_size is a 32-bit field. Granted carries the address of the data. See
    // TotalSizeHolds for when what is taken from the pool holds header, data and tail.
    method BufferAlloc(size: nat, patience: nat) returns (r: Pool.Grant, ghost ci: nat, ghost bit: nat)
      requires Valid() && size < U64
      modifies this, pool.Repr()
      ensures pool.chunks == old(pool.chunks) && (r != Pool.LeftBitmap ==> Valid())
      ensures Pool.BitsFor(TotalSize(size), pool.granule) < U32 ==> r == Pool.Failed || r.Granted?
      ensures r.Granted? ==>
        r.addr > HEADER_SIZE && r.addr - HEADER_SIZE in dataSize && dataSize[r.addr - HEADER_SIZE] == size % U32
      ensures r == Pool.Failed || r == Pool.StillRetrying ==>
        forall j :: 0 <= j < |pool.chunks| ==> pool.Same(pool.chunks[j])
      ensures r.Granted? ==> ci < |pool.chunks|
      ensures r.Granted? ==>
        var c, n := pool.chunks[ci], Pool.BitsFor(TotalSize(size), pool.granule);
        && pool.Holds(r.addr - HEADER_SIZE, TotalSize(size), ci, bit)
        && Range(bit, n) !! old(Bits(c.bits[..]))
        && Bits(c.bits[..]) == old(Bits(c.bits[..])) + Range(bit, n)
        && c.avail == old(c.avail) - pool.granule * n
      ensures r.Granted? ==> forall j :: 0 <= j < |pool.chunks| && j != ci ==> pool.Same(pool.chunks[j])
      // It fails only when no chunk has room for header, data and tail together.
      ensures TotalSize(size) > 0 && Pool.BitsFor(TotalSize(size), pool.granule) < U32 && r == Pool.Failed ==>
        forall j :: 0 <= j < |pool.chunks| ==> old(pool.chunks[j].Seen()).NoPlace(
          Pool.FirstFit, pool.granule, Pool.BitsFor(TotalSize(size), pool.granule))
    {
      hide TotalSize, Bits, Range, BitAt, Pool.BitsFor, Search.Fits, Pool.Chosen, Pool.DecidedBy, Pool.NoneAcceptable,
        Pool.AttemptAt, Pool.Earliest, Pool.GenPool.Apart, Pool.View.NoPlace, Pool.View.Tempts;
      r, ci, bit := pool.Alloc(TotalSize(size), Pool.FirstFit, patience);
      if !r.Granted? {
        return;
      }
      ghost var c, n := pool.chunks[ci], Pool.BitsFor(TotalSize(size), pool.granule);
      Pool.FitsFree(old(c.bits[..]), c.endBit, bit, n);
      dataSize := dataSize[r.addr := size % U32];
      r := Pool.Granted(r.addr + HEADER_SIZE);
    }

    // hgsmi_buffer_free
    method BufferFree(buf: nat, ghost ci: nat, ghost bit: nat)
      requires Valid() && buf > HEADER_SIZE && buf - HEADER_SIZE in dataSize
      requires pool.Holds(buf - HEADER_SIZE, dataSize[buf - HEADER_SIZE] + HEADER_SIZE + TAIL_SIZE, ci, bit)
      modifies pool.Repr()
      ensures Valid() && pool.chunks == old(pool.chunks)
      ensures
        var c, n := pool.chunks[ci], Pool.BitsFor(dataSize[buf - HEADER_SIZE] + HEADER_SIZE + TAIL_SIZE, pool.granule);
        && Bits(c.bits[..]) == old(Bits(c.bits[..])) - Range(bit, n)
        && c.avail == old(c.avail) + pool.granule * n
      ensures forall j :: 0 <= j < |pool.chunks| && j != ci ==> pool.Same(pool.chunks[j])
    {
      hide Bits, Range, BitAt, Pool.BitsFor;
      var h := buf - HEADER_SIZE;
      pool.Free(h, dataSize[h] + HEADER_SIZE + TAIL_SIZE, ci, bit);
    }

    /** A buffer that was granted and freed leaves the pool as it was exactly when its data size fits the
        header's 32-bit field: the size recomputed from a truncated header gives back too little. Whether
        it is granted at all is decided below 2^32 bits (see BufferAlloc); from there on the allocation
        may never return (Pool.WideRequestSticks). */
    method RoundTrip(size: nat, patience: nat) returns (r: Pool.Grant, ghost ci: nat)
      requires Valid() && pool.granule <= U32 && size + HEADER_SIZE + TAIL_SIZE < U64
      modifies this, pool.Repr()
      ensures pool.chunks == old(pool.chunks) && (r != Pool.LeftBitmap ==> Valid())
      ensures Pool.BitsFor(size + HEADER_SIZE + TAIL_SIZE, pool.granule) < U32 ==> r == Pool.Failed || r.Granted?
      ensures r.Granted? ==> ci < |pool.chunks|
      ensures r.Granted? ==> (size < U32 <==> pool.chunks[ci].avail == old(pool.chunks[ci].avail))
      ensures r.Granted? ==> (size < U32 <==> pool.chunks[ci].bits[..] == old(pool.chunks[ci].bits[..]))
      ensures r.Granted? && size >= U32 ==> pool.chunks[ci].avail < old(pool.chunks[ci].avail)
      ensures r != Pool.LeftBitmap ==>
        forall j :: 0 <= j < |pool.chunks| && (r.Granted? ==> j != ci) ==> pool.Same(pool.chunks[j])
      ensures Pool.BitsFor(size + HEADER_SIZE + TAIL_SIZE, pool.granule) < U32 && r == Pool.Failed ==>
        forall j :: 0 <= j < |pool.chunks| ==> old(pool.chunks[j].Seen()).NoPlace(
          Pool.FirstFit, pool.granule, Pool.BitsFor(size + HEADER_SIZE + TAIL_SIZE, pool.granule))
    {
      hide Bits, Range, BitAt, Pool.BitsFor, Pool.NoneAcceptable, Pool.Chunk.Valid;
      ghost var bit;
      r, ci, bit := BufferAlloc(size, patience);
      if r.Granted? {
        ghost var g := pool.granule;
        ghost var n := Pool.BitsFor(size + HEADER_SIZE + TAIL_SIZE, g);
        ghost var m := Pool.BitsFor(size % U32 + HEADER_SIZE + TAIL_SIZE, g);
        ghost var c := pool.chunks[ci];
        TruncatedSize(size, g);
        RangeSplit(bit, n, m);
        BufferFree(r.addr, ci, bit);
        Pool.Scaled(g, n, m);
        GivenBack(old(c.bits[..]), c.bits[..], bit, n, m);
      }
    }
  }

  /** The round trip at a size it fails for: on a fresh heap of 8 GiB a buffer of 4 GiB is granted, and
      freeing it does not give its bytes back. */
  method LostBuffer() returns (before: int, after: int)
    ensures after < before
  {
    hide Bits, Range, BitAt, Search.Fits, Pool.BitsFor;
    var pool := new Pool.GenPool(4096);
    var ok := pool.AddChunk(4096, 0, 2 * U32, true);
    var heap := new Heap(pool);
    ghost var c, n := pool.chunks[0], Pool.BitsFor(U32 + HEADER_SIZE + TAIL_SIZE, 4096);
    BitsAt4K();
    Pool.ShapeOf(pool);
    before := pool.chunks[0].avail;
    Pool.FitsFree(c.bits[..], c.endBit, 0, n);
    assert Pool.Acceptable(Pool.FirstFit, c.bits[..], c.endBit, c.startAddr, 4096, 0, n);
    var r;
    ghost var ci;
    r, ci := heap.RoundTrip(U32, 0);
    assert r.Granted?;
    after := pool.chunks[0].avail;
  }

  lemma BitsAt4K()
    ensures Pool.BitsFor(U32 + HEADER_SIZE + TAIL_SIZE, 4096) == 0x10_0001
  {}

  /** The bit count recomputed from the header is the real one exactly when nothing was cut off. */
  lemma TruncatedSize(size: nat, granule: nat)
    requires 0 < granule <= U32
    ensures
      var n := Pool.BitsFor(size + HEADER_SIZE + TAIL_SIZE, granule);
      var m := Pool.BitsFor(size % U32 + HEADER_SIZE + TAIL_SIZE, granule);
      m <= n && (m == n <==> size < U32) && (m < n ==> granule * (n - m) > 0)
  {
    hide Pool.BitsFor;
    var x, y := size + HEADER_SIZE + TAIL_SIZE, size % U32 + HEADER_SIZE + TAIL_SIZE;
    Pool.BitsForBounds(x, granule);
    Pool.BitsForBounds(y, granule);
    if size >= U32 {
      var n, m := Pool.BitsFor(x, granule), Pool.BitsFor(y, granule);
      assert granule * m < granule * n;
      Pool.Scaled(granule, n, m);
      MulBounds(granule, n - m);
    }
  }

  /** Taking n bits and giving back the first m restores the bitmap exactly when m is n. */
  lemma GivenBack(before: seq<Word>, after: seq<Word>, bit: nat, n: nat, m: nat)
    requires m <= n && |before| == |after| && Range(bit, n) !! Bits(before)
    requires Bits(after) == Bits(before) + Range(bit, n) - Range(bit, m)
    ensures after == before <==> m == n
  {
    hide Bits, Range;
    if m == n {
      BitsInjective(after, before);
    } else {
      LeftOver(bit, n, m);
      assert bit + m in Bits(after) && bit + m !in Bits(before);
    }
  }

  lemma LeftOver(bit: nat, n: nat, m: nat)
    requires m < n
    ensures bit + m in Range(bit, n) && bit + m !in Range(bit, m)
  {}
}
