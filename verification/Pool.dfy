/** The genalloc pool as one caller sees it: a list of chunks, each with its bitmap and byte counter. */
module Pool {
  import opened Words
  import opened Widths
  import opened Arithmetic
  import Bitmap
  import Search

  /** Bits needed for `size` bytes: (size + (1UL << order) - 1) >> order. */
  function BitsFor(size: nat, granule: nat): (n: nat)
    requires granule > 0
  {
    (size + granule - 1) / granule
  }

  lemma BitsForBounds(size: nat, granule: nat)
    requires granule > 0
    ensures size <= granule * BitsFor(size, granule) < size + granule
    ensures size > 0 ==> BitsFor(size, granule) > 0
  {
    var n := BitsFor(size, granule);
    assert size + granule - 1 == granule * n + (size + granule - 1) % granule;
  }

  lemma BitsForZero(granule: nat)
    requires granule > 0
    ensures BitsFor(0, granule) == 0
  {
    DivUnique(granule - 1, granule, 0, granule - 1);
  }

  lemma Scaled(g: int, a: int, b: int)
    ensures g * (a + b) == g * a + g * b && g * (a - b) == g * a - g * b
  {}

  lemma Covers(g: nat, a: nat, n: nat, end: nat, size: nat)
    requires a + n <= end && g * end <= size
    ensures 0 <= g * n <= size - g * a
  {
    Scaled(g, a, n);
    assert g * (end - (a + n)) >= 0;
    Scaled(g, end, a + n);
  }

  lemma {:induction false} BitsBelow(bits: set<nat>, end: nat)
    requires forall k :: k in bits ==> k < end
    ensures |bits| <= end
  {
    if end > 0 {
      BitsBelow(bits - {end - 1}, end - 1);
    } else {
      assert bits == {};
    }
  }

  lemma FitsFree(words: seq<Word>, size: nat, i: nat, n: nat)
    requires size <= BITS_PER_LONG * |words|
    ensures Search.Fits(words, size, i, n) <==> i + n <= size && Range(i, n) !! Bits(words)
  {
    hide BitAt;
    if i + n <= size && Range(i, n) !! Bits(words) {
      forall k | i <= k < i + n ensures !BitAt(words, k) {
        assert k in Range(i, n);
      }
    }
  }

  /** What a search sees of a chunk. */
  datatype View = View(words: seq<Word>, endBit: nat, startAddr: nat, avail: int)
  {
    predicate Shape() {
      endBit <= BITS_PER_LONG * |words|
    }

    /** The chunk has no place the policy could use. */
    ghost predicate NoPlace(policy: Policy, granule: nat, n: nat)
      requires PolicyOk(policy, granule)
    {
      Shape() && NoneAcceptable(policy, words, endBit, startAddr, granule, n)
    }

    /** The pre-check admits the chunk, and first fit for the narrowed bit count finds a place. */
    ghost predicate Tempts(size: nat, n: nat) {
      Shape() && size <= avail && exists b :: 0 <= b < endBit && Earliest(words, endBit, Search.Need(n % U32), b)
    }
  }

  // struct gen_pool_chunk
  class Chunk {
    const phys: nat
    const startAddr: nat
    const size: nat
    const endBit: nat
    const bits: array<Word>
    var avail: int

    ghost predicate Valid(granule: nat)
      reads this, bits
    {
      && granule > 0 && startAddr > 0 && size > 0
      && granule * endBit <= size && endBit <= BITS_PER_LONG * bits.Length
      && (forall k :: k in Bits(bits[..]) ==> k < endBit)
      && avail == size - granule * |Bits(bits[..])|
    }

    ghost function Seen(): View
      reads this, bits
    {
      View(bits[..], endBit, startAddr, avail)
    }

    // gen_pool_add_owner, once the chunk structure has been allocated
    constructor (virt: nat, phys: nat, size: nat, granule: nat)
      requires granule > 0 && virt > 0 && size > 0
      ensures Valid(granule) && fresh(bits)
      ensures this.startAddr == virt && this.phys == phys && this.size == size && avail == size
      ensures endBit == size / granule
      ensures Bits(bits[..]) == {}
    {
      var nbits := size / granule;
      var words := new Word[(nbits + BITS_PER_LONG - 1) / BITS_PER_LONG](_ => ZERO);
      this.startAddr, this.phys, this.size := virt, phys, size;
      this.endBit := nbits;
      this.bits := words;
      this.avail := size;
      new;
      assert Bits(bits[..]) == {};
    }

    /** The counter is never negative, and a free run of n bits means at least n granules available:
        the `avail` test cannot skip a chunk that could satisfy the request. */
    lemma AvailCovers(granule: nat, i: nat, n: nat)
      requires Valid(granule)
      requires Search.Fits(bits[..], endBit, i, n)
      ensures 0 <= granule * n <= avail
    {
      FitsFree(bits[..], endBit, i, n);
      hide Bits, Search.Fits, BitAt;
      var b := Bits(bits[..]);
      RangeSize(i, n);
      BitsBelow(b + Range(i, n), endBit);
      assert |b + Range(i, n)| == |b| + n;
      Covers(granule, |b|, n, endBit, size);
    }

    // A set that undoes itself when it meets a conflict.
    method SetOrUndo(start: nat, n: nat) returns (full: bool)
      requires start + n <= endBit <= BITS_PER_LONG * bits.Length
      modifies bits
      ensures full <==> Range(start, n) !! old(Bits(bits[..]))
      ensures full ==> Bits(bits[..]) == old(Bits(bits[..])) + Range(start, n)
      ensures !full ==> bits[..] == old(bits[..])
    {
      hide Bits, Bitmap.SetFrom, Bitmap.ClearFrom;
      ghost var before := bits[..];
      Bitmap.SetFromBits(before, start, start + n);
      Bitmap.ClearUndoesSet(before, start, n);
      var remain := Bitmap.SetRange(bits, start, n);
      if remain > 0 {
        var left := Bitmap.ClearRange(bits, start, n - remain);
      }
      full := remain == 0;
    }

    // What the allocation loop does once a policy has returned a place: set n bits there, undo and retry
    // on a conflict. A range that leaves the bitmap is set up to its end; what lies past it is not
    // modelled.
    method Place(granule: nat, start: nat, n: nat) returns (r: Attempt)
      requires Valid(granule) && start < endBit
      modifies this, bits
      ensures r == AttemptAt(old(bits[..]), endBit, start, n)
      ensures r == Retrying ==> Valid(granule) && bits[..] == old(bits[..]) && avail == old(avail)
      ensures r.Got? ==>
        && Valid(granule) && Search.Fits(old(bits[..]), endBit, start, n)
        && Bits(bits[..]) == old(Bits(bits[..])) + Range(start, n) && avail == old(avail) - granule * n
    {
      hide Bits, Search.Fits, BitAt, Range;
      ghost var before := bits[..];
      var room := if start + n <= endBit then n else endBit - start;
      RangeWithin(Bits(before), endBit, start, n);
      FitsFree(before, endBit, start, n);
      var full := SetOrUndo(start, room);
      if !full {
        return Retrying;
      }
      if room < n {
        return Overran;
      }
      avail := avail - granule * n;
      r := Got(start);
      TakenIsValid(granule, before, start, n);
    }

    /** Setting n clear bits and charging them keeps the chunk in order. */
    lemma TakenIsValid(granule: nat, before: seq<Word>, start: nat, n: nat)
      requires granule > 0 && startAddr > 0 && size > 0
      requires granule * endBit <= size && endBit <= BITS_PER_LONG * bits.Length
      requires start + n <= endBit && Range(start, n) !! Bits(before) && forall k :: k in Bits(before) ==> k < endBit
      requires Bits(bits[..]) == Bits(before) + Range(start, n)
      requires avail == size - granule * |Bits(before)| - granule * n
      ensures Valid(granule)
    {
      hide Bits;
      RangeSize(start, n);
      assert |Bits(before) + Range(start, n)| == |Bits(before)| + n;
      Scaled(granule, |Bits(before)|, n);
    }

    // One round of the loop: the search, with the bit count narrowed to 32 bits, then the attempt.
    method Round(granule: nat, n: nat, policy: Policy, from: nat) returns (r: Attempt, start: nat)
      requires Valid(granule) && PolicyOk(policy, granule)
      requires policy.FirstFitAlign? ==> startAddr % granule == 0
      modifies this, bits
      ensures Searched(policy, old(bits[..]), endBit, startAddr, granule, from, n % U32, start)
      ensures r == if start < endBit then AttemptAt(old(bits[..]), endBit, start, n) else NoPlace
      ensures r == NoPlace || r == Retrying ==> Valid(granule) && bits[..] == old(bits[..]) && avail == old(avail)
      ensures r.Got? ==>
        && r.bit == start && Valid(granule) && Search.Fits(old(bits[..]), endBit, start, n)
        && Bits(bits[..]) == old(Bits(bits[..])) + Range(start, n) && avail == old(avail) - granule * n
    {
      hide Bits, Search.Fits, BitAt, Range, PolicyOk, Searched;
      start := Find(policy, bits[..], endBit, startAddr, granule, from, n % U32);
      if start >= endBit {
        return NoPlace, start;
      }
      r := Place(granule, start, n);
    }

    // The loop of gen_pool_alloc_algo_owner on one chunk, observed for at most `patience` retries.
    method Try(granule: nat, n: nat, policy: Policy, patience: nat) returns (r: Attempt)
      requires Valid(granule) && n > 0 && PolicyOk(policy, granule)
      requires policy.FirstFitAlign? ==> startAddr % granule == 0
      modifies this, bits
      ensures Tried(policy, old(bits[..]), endBit, startAddr, granule, n, r)
      ensures r == NoPlace || r == Retrying ==> Valid(granule) && bits[..] == old(bits[..]) && avail == old(avail)
      ensures r.Got? ==>
        && Valid(granule) && Search.Fits(old(bits[..]), endBit, r.bit, n)
        && Bits(bits[..]) == old(Bits(bits[..])) + Range(r.bit, n) && avail == old(avail) - granule * n
    {
      hide Bits, Search.Fits, BitAt, Range, PolicyOk, Searched, Tried, AttemptAt, Earliest;
      ghost var words := bits[..];
      var start: nat;
      r, start := Round(granule, n, policy, 0);
      FirstRound(policy, words, endBit, startAddr, granule, n, start, r);
      var rounds := 0;
      while r == Retrying && rounds < patience
        invariant Tried(policy, words, endBit, startAddr, granule, n, r)
        invariant r == NoPlace || r == Retrying ==> Valid(granule) && bits[..] == words && avail == old(avail)
        invariant r.Got? ==>
          && Valid(granule) && Search.Fits(words, endBit, r.bit, n)
          && Bits(bits[..]) == Bits(words) + Range(r.bit, n) && avail == old(avail) - granule * n
        invariant r == Retrying ==>
          n >= U32 && (policy == FirstFit ==>
            && start < endBit && Earliest(words, endBit, Search.Need(n % U32), start)
            && AttemptAt(words, endBit, start, n) == Retrying)
        decreases patience - rounds
      {
        ghost var from := start;
        r, start := Round(granule, n, policy, start);
        LaterRound(policy, words, endBit, startAddr, granule, n, from, start, r);
        rounds := rounds + 1;
      }
    }

    // The body of gen_pool_free_owner for the chunk that contains the address.
    method Release(granule: nat, start: nat, n: nat)
      requires Valid(granule) && Range(start, n) <= Bits(bits[..]) && start + n <= endBit
      modifies this, bits
      ensures Valid(granule)
      ensures Bits(bits[..]) == old(Bits(bits[..])) - Range(start, n)
      ensures avail == old(avail) + granule * n
    {
      hide Bits, Bitmap.ClearFrom;
      ghost var before := bits[..];
      Bitmap.ClearFromBits(before, start, start + n);
      var remain := Bitmap.ClearRange(bits, start, n);
      assert remain == 0;
      avail := avail + granule * n;
      GivenIsValid(granule, before, start, n);
    }

    /** Clearing n set bits and crediting them keeps the chunk in order. */
    lemma GivenIsValid(granule: nat, before: seq<Word>, start: nat, n: nat)
      requires granule > 0 && startAddr > 0 && size > 0
      requires granule * endBit <= size && endBit <= BITS_PER_LONG * bits.Length
      requires Range(start, n) <= Bits(before) && forall k :: k in Bits(before) ==> k < endBit
      requires Bits(bits[..]) == Bits(before) - Range(start, n)
      requires avail == size - granule * |Bits(before)| + granule * n
      ensures Valid(granule)
    {
      hide Bits;
      RangeSize(start, n);
      assert |Bits(before) - Range(start, n)| == |Bits(before)| - n;
      Scaled(granule, |Bits(before)| - n, n);
    }
  }

  /** How an attempt on one chunk ends: the policy finds no place; n bits were set; the range it
      returned is in use, so that the loop searches again; or the range leaves the bitmap. */
  datatype Attempt = NoPlace | Got(bit: nat) | Retrying | Overran

  /** What setting n bits from b comes to. */
  ghost function AttemptAt(words: seq<Word>, endBit: nat, b: nat, n: nat): Attempt {
    if !(Range(b, n) !! Bits(words)) then Retrying else if b + n <= endBit then Got(b) else Overran
  }

  lemma AttemptWhereFits(words: seq<Word>, endBit: nat, b: nat, n: nat)
    requires endBit <= BITS_PER_LONG * |words| && Search.Fits(words, endBit, b, n)
    ensures AttemptAt(words, endBit, b, n) == Got(b)
  {
    FitsFree(words, endBit, b, n);
  }

  /** Only the part of a range below the end of the bitmap can be in use. */
  lemma RangeWithin(bits: set<nat>, endBit: nat, start: nat, n: nat)
    requires (forall k :: k in bits ==> k < endBit) && start <= endBit
    ensures var room := if start + n <= endBit then n else endBit - start;
      Range(start, n) !! bits <==> Range(start, room) !! bits
  {
    var room := if start + n <= endBit then n else endBit - start;
    forall k | k in bits ensures k in Range(start, n) <==> k in Range(start, room) {}
  }

  /** The search policies a pool may be given. */
  datatype Policy = FirstFit | BestFit | FirstFitAlign(align: nat)

  ghost predicate PolicyOk(p: Policy, granule: nat) {
    p.FirstFitAlign? ==> p.align > 0 && granule > 0 && Search.PowerOfTwo(p.align) && Search.PowerOfTwo(granule)
  }

  /** A place the policy is allowed to return: free, and for the aligned policy a multiple of `align`. */
  ghost predicate Acceptable(p: Policy, words: seq<Word>, endBit: nat, startAddr: nat, granule: nat, i: nat, n: nat)
    requires endBit <= BITS_PER_LONG * |words| && PolicyOk(p, granule)
  {
    && Search.Fits(words, endBit, i, n)
    && (p.FirstFitAlign? ==> (startAddr + i * granule) % p.align == 0)
  }

  ghost predicate NoneAcceptable(p: Policy, words: seq<Word>, endBit: nat, startAddr: nat, granule: nat, n: nat)
    requires endBit <= BITS_PER_LONG * |words| && PolicyOk(p, granule)
  {
    forall i :: 0 <= i < endBit ==> !Acceptable(p, words, endBit, startAddr, granule, i, n)
  }

  ghost predicate Earliest(words: seq<Word>, endBit: nat, n: nat, b: nat)
    requires endBit <= BITS_PER_LONG * |words|
  {
    Search.Fits(words, endBit, b, n) && forall i: nat :: i < b ==> !Search.Fits(words, endBit, i, n)
  }

  /** The place the policy promises: the earliest acceptable one, or for best fit the earliest of the
      shortest runs that are long enough. */
  ghost predicate Chosen(p: Policy, words: seq<Word>, endBit: nat, startAddr: nat, granule: nat, n: nat, b: nat)
    requires endBit <= BITS_PER_LONG * |words| && PolicyOk(p, granule) && b < endBit
  {
    match p
    case FirstFit => Earliest(words, endBit, n, b)
    case BestFit =>
      && Search.LongRun(words, endBit, 0, n, b)
      && forall j :: 0 <= j < endBit && Search.LongRun(words, endBit, 0, n, j) ==> Search.Better(words, endBit, b, j)
    case FirstFitAlign(_) =>
      && Acceptable(p, words, endBit, startAddr, granule, b, n)
      && forall i: nat :: i < b ==> !Acceptable(p, words, endBit, startAddr, granule, i, n)
  }

  lemma ChosenFits(p: Policy, words: seq<Word>, endBit: nat, startAddr: nat, granule: nat, n: nat, b: nat)
    requires endBit <= BITS_PER_LONG * |words| && PolicyOk(p, granule) && b < endBit
    requires Chosen(p, words, endBit, startAddr, granule, n, b)
    ensures Acceptable(p, words, endBit, startAddr, granule, b, n) && Search.Fits(words, endBit, b, n)
  {
    hide Search.Fits, BitAt;
    if p == BestFit {
      LongRunFits(words, endBit, n, b);
    }
  }

  /** What a search promises. From the beginning and for a positive count it finds exactly the place the
      policy promises, and fails exactly when there is none; a first-fit search does so from anywhere. */
  ghost predicate Searched(p: Policy, words: seq<Word>, endBit: nat, startAddr: nat, granule: nat, from: nat,
      nr: nat, bit: nat)
    requires endBit <= BITS_PER_LONG * |words| && PolicyOk(p, granule)
  {
    && (from == 0 && nr > 0 ==>
          if bit < endBit then Chosen(p, words, endBit, startAddr, granule, nr, bit)
          else NoneAcceptable(p, words, endBit, startAddr, granule, nr))
    && (p == FirstFit ==> FirstFrom(words, endBit, from, Search.Need(nr), bit))
  }

  ghost predicate FirstFrom(words: seq<Word>, endBit: nat, from: nat, n: nat, bit: nat)
    requires endBit <= BITS_PER_LONG * |words|
  {
    && (bit < endBit ==> from <= bit && Search.Fits(words, endBit, bit, n))
    && forall i: nat :: from <= i < endBit && i < bit ==> !Search.Fits(words, endBit, i, n)
  }

  /** What an attempt on one chunk promises. Below 2^32 bits it never retries: it takes the place the
      policy promises, or there is none. First fit decides every case by the earliest place for the
      narrowed bit count. */
  ghost predicate Tried(p: Policy, words: seq<Word>, endBit: nat, startAddr: nat, granule: nat, n: nat, r: Attempt)
    requires endBit <= BITS_PER_LONG * |words| && PolicyOk(p, granule)
  {
    && (n < U32 ==>
          if r.Got? then r.bit < endBit && Chosen(p, words, endBit, startAddr, granule, n, r.bit)
          else r == NoPlace && NoneAcceptable(p, words, endBit, startAddr, granule, n))
    && (p == FirstFit ==> FirstFitTried(words, endBit, n, r))
  }

  ghost predicate FirstFitTried(words: seq<Word>, endBit: nat, n: nat, r: Attempt)
    requires endBit <= BITS_PER_LONG * |words|
  {
    if exists b :: 0 <= b < endBit && Earliest(words, endBit, Search.Need(n % U32), b) then
      forall b :: 0 <= b < endBit && Earliest(words, endBit, Search.Need(n % U32), b) ==>
        r == AttemptAt(words, endBit, b, n)
    else r == NoPlace
  }

  /** A first-fit search from the start, or from the earliest place on, finds the earliest place. */
  lemma FirstFromEarliest(words: seq<Word>, endBit: nat, n: nat, from: nat, bit: nat)
    requires endBit <= BITS_PER_LONG * |words| && FirstFrom(words, endBit, from, n, bit)
    requires from == 0 || Earliest(words, endBit, n, from)
    ensures bit < endBit ==> Earliest(words, endBit, n, bit)
    ensures forall b :: 0 <= b < endBit && Earliest(words, endBit, n, b) ==> b == bit
  {
    hide Search.Fits;
  }

  lemma FirstRound(p: Policy, words: seq<Word>, endBit: nat, startAddr: nat, granule: nat, n: nat, bit: nat, r: Attempt)
    requires endBit <= BITS_PER_LONG * |words| && PolicyOk(p, granule) && n > 0
    requires Searched(p, words, endBit, startAddr, granule, 0, n % U32, bit)
    requires r == if bit < endBit then AttemptAt(words, endBit, bit, n) else NoPlace
    ensures Tried(p, words, endBit, startAddr, granule, n, r)
    ensures r == Retrying ==> n >= U32
    ensures p == FirstFit && bit < endBit ==> Earliest(words, endBit, Search.Need(n % U32), bit)
  {
    hide Chosen, NoneAcceptable, FirstFrom, Earliest, PolicyOk, Search.Fits, Bits, Range;
    if p == FirstFit {
      FirstFromEarliest(words, endBit, Search.Need(n % U32), 0, bit);
    }
    if n < U32 && bit < endBit {
      ChosenFits(p, words, endBit, startAddr, granule, n, bit);
      AttemptWhereFits(words, endBit, bit, n);
    }
  }

  lemma LaterRound(p: Policy, words: seq<Word>, endBit: nat, startAddr: nat, granule: nat, n: nat, from: nat,
      bit: nat, r: Attempt)
    requires endBit <= BITS_PER_LONG * |words| && PolicyOk(p, granule) && n >= U32
    requires Searched(p, words, endBit, startAddr, granule, from, n % U32, bit)
    requires r == if bit < endBit then AttemptAt(words, endBit, bit, n) else NoPlace
    requires p == FirstFit ==> from < endBit && Earliest(words, endBit, Search.Need(n % U32), from)
    ensures Tried(p, words, endBit, startAddr, granule, n, r)
    ensures p == FirstFit ==> bit == from
  {
    hide Chosen, NoneAcceptable, FirstFrom, Earliest, PolicyOk, AttemptAt;
    if p == FirstFit {
      FirstFromEarliest(words, endBit, Search.Need(n % U32), from, bit);
    }
  }

  /** The search a policy makes. */
  method Find(p: Policy, words: seq<Word>, endBit: nat, startAddr: nat, granule: nat, from: nat,
      nr: nat) returns (bit: nat)
    requires endBit <= BITS_PER_LONG * |words| && granule > 0 && PolicyOk(p, granule)
    requires p.FirstFitAlign? ==> startAddr % granule == 0
    ensures Searched(p, words, endBit, startAddr, granule, from, nr, bit)
  {
    hide Search.Fits, BitAt, Search.PowerOfTwo, Search.LongRun, Search.Better;
    assert nr > 0 ==> Search.Need(nr) == nr;
    match p
    case FirstFit =>
      bit := Search.FirstFit(words, endBit, from, nr);
    case FirstFitAlign(align) =>
      bit := Search.FirstFitAlign(words, endBit, from, nr, align, granule, startAddr);
    case BestFit =>
      bit := Search.BestFit(words, endBit, from, nr);
      if from == 0 && nr > 0 && bit == endBit {
        NoLongRun(words, endBit, nr);
      }
  }

  lemma NoLongRun(words: seq<Word>, size: nat, n: nat)
    requires size <= BITS_PER_LONG * |words| && n > 0
    requires forall j :: 0 <= j < size ==> !Search.LongRun(words, size, 0, n, j)
    ensures forall i: nat :: i < size ==> !Search.Fits(words, size, i, n)
  {
    hide Search.Fits, Search.LongRun;
    forall i: nat | i < size ensures !Search.Fits(words, size, i, n) {
      if Search.Fits(words, size, i, n) {
        FitsLongRun(words, size, n, i);
      }
    }
  }

  lemma LongRunFits(words: seq<Word>, size: nat, n: nat, i: nat)
    requires i < size <= BITS_PER_LONG * |words| && Search.LongRun(words, size, 0, n, i)
    ensures Search.Fits(words, size, i, n)
  {
    Search.RunEndClear(words, size, i);
  }

  /** A free stretch lies inside a maximal run at least as long. */
  lemma {:induction false} FitsLongRun(words: seq<Word>, size: nat, n: nat, i: nat)
    requires i < size <= BITS_PER_LONG * |words| && n > 0 && Search.Fits(words, size, i, n)
    ensures exists j :: 0 <= j < size && Search.LongRun(words, size, 0, n, j)
  {
    hide BitAt;
    if i == 0 || BitAt(words, i - 1) {
      Search.RunEndClear(words, size, i);
      assert Search.LongRun(words, size, 0, n, i);
    } else {
      FitsLongRun(words, size, n, i - 1);
    }
  }

  // struct gen_pool
  class GenPool {
    const granule: nat  // 1 << min_alloc_order
    var chunks: seq<Chunk>

    ghost function Repr(): set<object>
      reads this
    {
      (set c | c in chunks :: c as object) + (set c | c in chunks :: c.bits as object)
    }

    ghost predicate Valid()
      reads this, Repr()
    {
      && granule > 0
      && (forall j :: 0 <= j < |chunks| ==> chunks[j] as object in Repr() && chunks[j].bits as object in Repr())
      && (forall j :: 0 <= j < |chunks| ==> chunks[j].Valid(granule))
      && (forall i, j :: 0 <= i < j < |chunks| ==> Apart(chunks[i], chunks[j]))
    }

    ghost predicate Apart(c: Chunk, d: Chunk) {
      && c != d && c.bits != d.bits
      && (c.startAddr + c.size <= d.startAddr || d.startAddr + d.size <= c.startAddr)
    }

    lemma ApartHead(c: Chunk, list: seq<Chunk>)
      requires forall i, j :: 0 <= i < j < |list| ==> Apart(list[i], list[j])
      requires forall j :: 0 <= j < |list| ==> Apart(c, list[j])
      ensures forall i, j :: 0 <= i < j < |list| + 1 ==> Apart(([c] + list)[i], ([c] + list)[j])
    {
      hide Apart;
      forall i, j | 0 <= i < j < |list| + 1 ensures Apart(([c] + list)[i], ([c] + list)[j]) {
        assert ([c] + list)[j] == list[j - 1];
        assert i > 0 ==> ([c] + list)[i] == list[i - 1];
      }
    }

    lemma ReprHas()
      ensures forall j :: 0 <= j < |chunks| ==> chunks[j] as object in Repr() && chunks[j].bits as object in Repr()
    {
      forall j | 0 <= j < |chunks| ensures chunks[j] as object in Repr() && chunks[j].bits as object in Repr() {
        assert chunks[j] in chunks;
      }
    }

    constructor (granule: nat)
      requires granule > 0
      ensures Valid() && chunks == [] && this.granule == granule
    {
      this.granule := granule;
      this.chunks := [];
    }

    // gen_pool_add_owner. The caller keeps chunks apart and off address 0, which stands for failure.
    method AddChunk(virt: nat, phys: nat, size: nat, memory: bool) returns (ok: bool)
      requires Valid() && virt > 0 && size > 0
      requires forall j :: 0 <= j < |chunks| ==>
        chunks[j].startAddr + chunks[j].size <= virt || virt + size <= chunks[j].startAddr
      modifies this
      ensures Valid() && ok == memory
      ensures !ok ==> chunks == old(chunks)
      ensures ok ==> |chunks| == |old(chunks)| + 1 && chunks == [chunks[0]] + old(chunks)
      ensures ok ==>
        var c := chunks[0];
        && fresh(c) && fresh(c.bits) && c.startAddr == virt && c.phys == phys && c.size == size
        && c.endBit == size / granule && c.avail == size && Bits(c.bits[..]) == {}
    {
      if !memory {
        return false;
      }
      hide Bits, Chunk.Valid, Repr;
      var c := new Chunk(virt, phys, size, granule);
      Link(c);
      return true;
    }

    // list_add_rcu: the chunk becomes the first of the list.
    method Link(c: Chunk)
      requires Valid() && c.Valid(granule) && forall j :: 0 <= j < |chunks| ==> Apart(c, chunks[j])
      modifies this
      ensures Valid() && chunks == [c] + old(chunks)
    {
      hide Bits, Chunk.Valid, Repr, Apart;
      assert forall j :: 0 <= j < |chunks| ==> chunks[j].Valid(granule);
      ApartHead(c, chunks);
      chunks := [c] + chunks;
      ReprHas();
    }

    // One chunk's turn in gen_pool_alloc_algo_owner.
    method TryChunk(k: nat, size: nat, policy: Policy, patience: nat) returns (r: Attempt)
      requires Valid() && PolicyOk(policy, granule) && k < |chunks| && size > 0
      requires policy.FirstFitAlign? ==> chunks[k].startAddr % granule == 0
      modifies chunks[k], chunks[k].bits
      ensures r != Overran ==> Valid()
      ensures forall j :: 0 <= j < |chunks| && j != k ==> Same(chunks[j])
      ensures r == NoPlace || r == Retrying ==> Same(chunks[k])
      ensures r.Got? ==> Took(chunks[k], r.bit, BitsFor(size, granule))
      ensures Turned(old(chunks[k].Seen()), size, policy, granule, r)
    {
      hide Bits, BitAt, Search.Fits, Acceptable, PolicyOk, Range, BitsFor, Chosen, NoneAcceptable, Earliest;
      var c, n := chunks[k], BitsFor(size, granule);
      BitsForBounds(size, granule);
      if size > c.avail {
        SkipIsRight(c, policy, size);
        return NoPlace;
      }
      r := c.Try(granule, n, policy, patience);
      if r != Overran {
        Reassemble(k);
      }
    }

    lemma GranulePositive()
      requires Valid()
      ensures granule > 0
    {}

    lemma InRepr(k: nat)
      requires k < |chunks|
      ensures chunks[k] as object in Repr() && chunks[k].bits as object in Repr()
    {
      assert chunks[k] in chunks;
    }

    // The loop over the chunks, up to the first one where the attempt finds a place.
    method Scan(size: nat, policy: Policy, patience: nat) returns (k: nat, t: Attempt)
      requires Valid() && PolicyOk(policy, granule) && size > 0
      requires policy.FirstFitAlign? ==> forall c :: c in chunks ==> c.startAddr % granule == 0
      modifies Repr()
      ensures chunks == old(chunks) && k <= |chunks| && (t == NoPlace <==> k == |chunks|)
      ensures t != Overran ==> Valid()
      ensures forall j :: 0 <= j < |chunks| && (j != k || t == Retrying) ==> Same(chunks[j])
      ensures t.Got? ==> Took(chunks[k], t.bit, BitsFor(size, granule))
      ensures forall j :: 0 <= j < k ==> Turned(old(chunks[j].Seen()), size, policy, granule, NoPlace)
      ensures k < |chunks| ==> Turned(old(chunks[k].Seen()), size, policy, granule, t)
    {
      hide Bits, BitAt, Search.Fits, PolicyOk, Range, BitsFor, Turned, Chunk.Valid, GenPool.Valid;
      GranulePositive();
      k := 0;
      while k < |chunks|
        invariant k <= |chunks| && Valid()
        invariant forall j :: 0 <= j < |chunks| ==> Same(chunks[j])
        invariant forall j :: 0 <= j < k ==> Turned(old(chunks[j].Seen()), size, policy, granule, NoPlace)
      {
        InRepr(k);
        t := TryChunk(k, size, policy, patience);
        if t != NoPlace {
          return;
        }
        k := k + 1;
      }
      t := NoPlace;
    }

    // gen_pool_alloc_algo_owner, observed for at most `patience` retries. `ci` and `bit` say where the
    // allocation came from.
    method Alloc(size: nat, policy: Policy, patience: nat) returns (r: Grant, ghost ci: nat, ghost bit: nat)
      requires Valid() && PolicyOk(policy, granule)
      requires policy.FirstFitAlign? ==> forall c :: c in chunks ==> c.startAddr % granule == 0
      modifies Repr()
      ensures chunks == old(chunks) && (r != LeftBitmap ==> Valid()) && (size == 0 ==> r == Failed)
      ensures r == Failed || r == StillRetrying ==> forall j :: 0 <= j < |chunks| ==> Same(chunks[j])
      // What is handed out is right for every size: BitsFor(size) clear bits of one chunk, charged.
      ensures r != Failed ==> size > 0 && ci < |chunks|
      ensures r.Granted? ==> forall j :: 0 <= j < |chunks| && j != ci ==> Same(chunks[j])
      ensures r.Granted? ==>
        r.addr == chunks[ci].startAddr + bit * granule && Took(chunks[ci], bit, BitsFor(size, granule))
      // Below 2^32 bits it ends, fails only when no chunk has a place, and else takes exactly the place
      // the policy promises in the first chunk that has one.
      ensures BitsFor(size, granule) < U32 ==> r == Failed || r.Granted?
      ensures BitsFor(size, granule) < U32 && size > 0 ==>
        forall j :: 0 <= j < (if r == Failed then |chunks| else ci) ==>
          old(chunks[j].Seen()).NoPlace(policy, granule, BitsFor(size, granule))
      ensures BitsFor(size, granule) < U32 && r.Granted? ==>
        var v := old(chunks[ci].Seen());
        && v.Shape() && bit < v.endBit
        && Chosen(policy, v.words, v.endBit, v.startAddr, granule, BitsFor(size, granule), bit)
      // First fit, for every size: the first chunk that tempts it decides, by its earliest place for the
      // narrowed bit count.
      ensures policy == FirstFit && size > 0 ==>
        forall j :: 0 <= j < (if r == Failed then |chunks| else ci) ==>
          !old(chunks[j].Seen()).Tempts(size, BitsFor(size, granule))
      ensures policy == FirstFit && r != Failed ==>
        var v := old(chunks[ci].Seen());
        v.Tempts(size, BitsFor(size, granule)) && DecidedBy(v, BitsFor(size, granule), granule, r)
    {
      hide Bits, BitAt, Search.Fits, PolicyOk, Range, BitsFor, Turned, Took, DecidedBy;
      ci, bit := 0, 0;
      if size == 0 {
        BitsForZero(granule);
        return Failed, ci, bit;
      }
      var k, t := Scan(size, policy, patience);
      forall j | 0 <= j < k
        ensures BitsFor(size, granule) < U32 ==> old(chunks[j].Seen()).NoPlace(policy, granule, BitsFor(size, granule))
        ensures policy == FirstFit ==> !old(chunks[j].Seen()).Tempts(size, BitsFor(size, granule))
      {
        TurnedAway(old(chunks[j].Seen()), size, policy, granule);
      }
      if t == NoPlace {
        return Failed, ci, bit;
      }
      TurnedUp(old(chunks[k].Seen()), size, policy, granule, t);
      ci, bit := k, if t.Got? then t.bit else 0;
      return ToGrant(t, chunks[k].startAddr, granule), ci, bit;
    }

    /** The chunk's bitmap and counter are as they were. */
    twostate predicate Same(c: Chunk)
      reads c, c.bits
    {
      c.Seen() == old(c.Seen())
    }

    /** Exactly n clear bits from `bit` on were taken and charged. */
    twostate predicate Took(c: Chunk, bit: nat, n: nat)
      reads c, c.bits
    {
      && c.endBit <= BITS_PER_LONG * c.bits.Length
      && Search.Fits(old(c.bits[..]), c.endBit, bit, n)
      && Bits(c.bits[..]) == old(Bits(c.bits[..])) + Range(bit, n)
      && c.avail == old(c.avail) - granule * n
    }

    /** The pool is valid again when its one changed chunk is. */
    twostate lemma Reassemble(k: nat)
      requires old(Valid()) && chunks == old(chunks) && k < |chunks| && chunks[k].Valid(granule)
      requires forall j | 0 <= j < |chunks| && j != k :: Same(chunks[j])
      ensures Valid()
    {
      hide Bits;
      forall j | 0 <= j < |chunks| ensures chunks[j].Valid(granule) {
        if j != k {
          assert old(chunks[j].Valid(granule));
        }
      }
    }

    lemma SkipIsRight(c: Chunk, policy: Policy, size: nat)
      requires granule > 0 && c.Valid(granule) && size > c.avail && PolicyOk(policy, granule)
      ensures NoneAcceptable(policy, c.bits[..], c.endBit, c.startAddr, granule, BitsFor(size, granule))
    {
      hide Search.Fits, PolicyOk, Bits, BitAt, BitsFor;
      BitsForBounds(size, granule);
      forall i | 0 <= i < c.endBit
        ensures !Acceptable(policy, c.bits[..], c.endBit, c.startAddr, granule, i, BitsFor(size, granule))
      {
        if Search.Fits(c.bits[..], c.endBit, i, BitsFor(size, granule)) {
          c.AvailCovers(granule, i, BitsFor(size, granule));
        }
      }
    }

    /** Somebody holds [addr, addr + size): it is BitsFor(size) set bits of the ci-th chunk. */
    ghost predicate Holds(addr: nat, size: nat, ci: nat, bit: nat)
      requires Valid()
      reads this, Repr()
    {
      && size > 0 && ci < |chunks|
      && var c, n := chunks[ci], BitsFor(size, granule);
      && addr == c.startAddr + bit * granule && bit + n <= c.endBit
      && Range(bit, n) <= Bits(c.bits[..])
    }

    /** Every byte of a held region lies inside its chunk, so BUG_ON(addr + size - 1 > end_addr) holds off. */
    lemma HeldInside(addr: nat, size: nat, ci: nat, bit: nat)
      requires Valid() && Holds(addr, size, ci, bit)
      ensures chunks[ci].startAddr <= addr && addr + size <= chunks[ci].startAddr + chunks[ci].size
      ensures (addr - chunks[ci].startAddr) / granule == bit
    {
      hide Bits, Range, BitsFor;
      BitsForBounds(size, granule);
      var c, n := chunks[ci], BitsFor(size, granule);
      Scaled(granule, bit, n);
      Covers(granule, bit, n, c.endBit, c.size);
      DivUnique(bit * granule, granule, bit, 0);
    }

    // gen_pool_free_owner
    method Free(addr: nat, size: nat, ghost ci: nat, ghost bit: nat)
      requires Valid() && Holds(addr, size, ci, bit)
      modifies Repr()
      ensures Valid() && chunks == old(chunks)
      ensures Bits(chunks[ci].bits[..]) == old(Bits(chunks[ci].bits[..])) - Range(bit, BitsFor(size, granule))
      ensures chunks[ci].avail == old(chunks[ci].avail) + granule * BitsFor(size, granule)
      ensures forall j | 0 <= j < |chunks| && j != ci :: Same(chunks[j])
    {
      hide Bits, Range, BitsFor;
      HeldInside(addr, size, ci, bit);
      var n := BitsFor(size, granule);
      var k := 0;
      while !(chunks[k].startAddr <= addr < chunks[k].startAddr + chunks[k].size)
        invariant k <= ci
        decreases |chunks| - k
      {
        k := k + 1;
      }
      var c := chunks[k];
      c.Release(granule, (addr - c.startAddr) / granule, n);
      Reassemble(k);
    }

    // gen_pool_virt_to_phys; the C function returns (phys_addr_t)-1 when no chunk has the address.
    method VirtToPhys(addr: nat) returns (paddr: int)
      requires Valid()
      ensures paddr == Translate(chunks, addr)
    {
      var k := 0;
      while k < |chunks|
        invariant k <= |chunks| && Translate(chunks, addr) == Translate(chunks[k..], addr)
      {
        var c := chunks[k];
        if c.startAddr <= addr < c.startAddr + c.size {
          return c.phys + (addr - c.startAddr);
        }
        k := k + 1;
      }
      return -1;
    }

    // gen_pool_avail
    method Avail() returns (total: int)
      requires Valid()
      ensures total == TotalAvail(chunks) >= 0
    {
      total := 0;
      var k := 0;
      while k < |chunks|
        invariant k <= |chunks| && total >= 0
        invariant total + TotalAvail(chunks[k..]) == TotalAvail(chunks)
      {
        AvailNonNegative(chunks[k]);
        total := total + chunks[k].avail;
        k := k + 1;
      }
    }

    lemma AvailNonNegative(c: Chunk)
      requires granule > 0 && c.Valid(granule)
      ensures c.avail >= 0
    {
      hide Bits;
      BitsBelow(Bits(c.bits[..]), c.endBit);
      Covers(granule, |Bits(c.bits[..])|, 0, c.endBit, c.size);
    }

    /** Allocating and freeing the same size puts every bitmap word and every counter back, for every
        size that is granted at all. */
    method AllocThenFree(size: nat, policy: Policy, patience: nat) returns (r: Grant)
      requires Valid() && PolicyOk(policy, granule)
      requires policy.FirstFitAlign? ==> forall c :: c in chunks ==> c.startAddr % granule == 0
      modifies Repr()
      ensures chunks == old(chunks) && (BitsFor(size, granule) < U32 ==> r != LeftBitmap)
      ensures r != LeftBitmap ==> Valid()
      ensures r != LeftBitmap ==> forall j | 0 <= j < |chunks| ::
        chunks[j].bits[..] == old(chunks[j].bits[..]) && chunks[j].avail == old(chunks[j].avail)
    {
      hide Bits, BitAt, Range, Acceptable, PolicyOk, BitsFor, Search.Fits, Chosen, NoneAcceptable, AttemptAt, Earliest,
        Chunk.Valid, DecidedBy;
      ghost var ci, bit;
      r, ci, bit := Alloc(size, policy, patience);
      if r.Granted? {
        ghost var c, n := chunks[ci], BitsFor(size, granule);
        FitsFree(old(c.bits[..]), c.endBit, bit, n);
        Free(r.addr, size, ci, bit);
        BitsInjective(c.bits[..], old(c.bits[..]));
      }
    }
  }

  /** How gen_pool_alloc ends: it returns 0, it returns an address, it is still retrying after the
      rounds it was given, or it has set bits past the end of the bitmap. */
  datatype Grant = Failed | Granted(addr: nat) | StillRetrying | LeftBitmap

  function ToGrant(t: Attempt, startAddr: nat, granule: nat): Grant {
    match t
    case NoPlace => Failed
    case Got(b) => Granted(startAddr + b * granule)
    case Retrying => StillRetrying
    case Overran => LeftBitmap
  }

  /** The outcome is that of setting n bits at the earliest place for the narrowed bit count. */
  ghost predicate DecidedBy(v: View, n: nat, granule: nat, r: Grant) {
    v.Shape() &&
    forall b :: 0 <= b < v.endBit && Earliest(v.words, v.endBit, Search.Need(n % U32), b) ==>
      r == ToGrant(AttemptAt(v.words, v.endBit, b, n), v.startAddr, granule)
  }

  /** What a chunk's turn promises, the pre-check included. */
  ghost predicate Turned(v: View, size: nat, policy: Policy, granule: nat, r: Attempt)
    requires PolicyOk(policy, granule) && granule > 0
  {
    && v.Shape()
    && (size <= v.avail ==> Tried(policy, v.words, v.endBit, v.startAddr, granule, BitsFor(size, granule), r))
    && (size > v.avail ==> r == Attempt.NoPlace && v.NoPlace(policy, granule, BitsFor(size, granule)))
  }

  lemma TurnedAway(v: View, size: nat, policy: Policy, granule: nat)
    requires PolicyOk(policy, granule) && granule > 0 && Turned(v, size, policy, granule, NoPlace)
    ensures BitsFor(size, granule) < U32 ==> v.NoPlace(policy, granule, BitsFor(size, granule))
    ensures policy == FirstFit ==> !v.Tempts(size, BitsFor(size, granule))
  {
    hide BitsFor, Earliest, NoneAcceptable, PolicyOk, Chosen;
  }

  lemma TurnedUp(v: View, size: nat, policy: Policy, granule: nat, t: Attempt)
    requires PolicyOk(policy, granule) && granule > 0 && Turned(v, size, policy, granule, t) && t != NoPlace
    ensures BitsFor(size, granule) < U32 ==>
      v.Shape() && t.Got? && t.bit < v.endBit
      && Chosen(policy, v.words, v.endBit, v.startAddr, granule, BitsFor(size, granule), t.bit)
    ensures policy == FirstFit ==>
      && v.Tempts(size, BitsFor(size, granule))
      && DecidedBy(v, BitsFor(size, granule), granule, ToGrant(t, v.startAddr, granule))
  {
    hide BitsFor, Earliest, NoneAcceptable, PolicyOk, Chosen;
  }

  // ---- Requests of 2^32 bits and more ----

  lemma BitsForWhole(n: nat, granule: nat)
    requires granule > 0
    ensures BitsFor(granule * n, granule) == n
  {
    DivUnique(granule * n + granule - 1, granule, n, granule - 1);
  }

  /** Where the earliest place is, from the bits in use. */
  lemma EarliestAt(words: seq<Word>, endBit: nat, n: nat, b: nat)
    requires endBit <= BITS_PER_LONG * |words| && n > 0 && b + n <= endBit
    requires Range(b, n) !! Bits(words) && Range(0, b) <= Bits(words)
    ensures Earliest(words, endBit, n, b)
  {
    hide Bits, Search.Fits;
    FitsFree(words, endBit, b, n);
    forall i: nat | i < b ensures !Search.Fits(words, endBit, i, n) {
      FitsFree(words, endBit, i, n);
      assert i in Range(0, b) && i in Range(i, n);
    }
  }

  lemma EarliestIsOne(words: seq<Word>, endBit: nat, n: nat, b: nat, c: nat)
    requires endBit <= BITS_PER_LONG * |words| && Earliest(words, endBit, n, b) && Earliest(words, endBit, n, c)
    ensures b == c
  {
    hide Search.Fits;
  }

  // First fit takes n whole granules at the earliest place of a pool of one chunk.
  method Grab(pool: GenPool, n: nat, ghost b: nat) returns (addr: nat)
    requires pool.Valid() && |pool.chunks| == 1 && 0 < n < U32
    requires var c := pool.chunks[0];
      b < c.endBit <= BITS_PER_LONG * c.bits.Length && Earliest(c.bits[..], c.endBit, n, b)
    modifies pool.Repr()
    ensures pool.Valid() && pool.chunks == old(pool.chunks) && addr == pool.chunks[0].startAddr + b * pool.granule
    ensures var c := pool.chunks[0];
      && b + n <= c.endBit && Bits(c.bits[..]) == old(Bits(c.bits[..])) + Range(b, n)
      && c.avail == old(c.avail) - pool.granule * n
  {
    hide Bits, BitAt, Search.Fits, Range, BitsFor, Chunk.Valid;
    ghost var c := pool.chunks[0];
    BitsForWhole(n, pool.granule);
    var r;
    ghost var ci, bit;
    FitsFree(c.bits[..], c.endBit, b, n);
    assert Acceptable(FirstFit, c.bits[..], c.endBit, c.startAddr, pool.granule, b, n);
    r, ci, bit := pool.Alloc(pool.granule * n, FirstFit, 0);
    if r == Failed {
      SizePositive(pool.granule, n);
      assert false;
    }
    EarliestIsOne(old(c.bits[..]), c.endBit, n, b, bit);
    addr := r.addr;
  }

  lemma SizePositive(g: nat, n: nat)
    requires g > 0 && n > 0
    ensures g * n > 0
  {}

  // A pool of one chunk of n + 1 bits, all free.
  method OneChunk(granule: nat, n: nat) returns (pool: GenPool)
    requires granule > 0
    ensures fresh(pool) && fresh(pool.Repr()) && pool.Valid() && pool.granule == granule && |pool.chunks| == 1
    ensures var c := pool.chunks[0];
      && n + 1 == c.endBit <= BITS_PER_LONG * c.bits.Length
      && Bits(c.bits[..]) == {} && c.avail == granule * n + granule
  {
    hide Bits;
    pool := new GenPool(granule);
    DivUnique(granule * (n + 1), granule, n + 1, 0);
    SizePositive(granule, n + 1);
    Scaled(granule, n, 1);
    var ok := pool.AddChunk(granule, 0, granule * (n + 1), true);
    ShapeOf(pool);
  }

  // The same with only bit `low` in use.
  method OneBitInUse(granule: nat, n: nat, low: nat) returns (pool: GenPool)
    requires granule > 0 && 0 < low < U32 && low < n
    ensures fresh(pool) && fresh(pool.Repr()) && pool.Valid() && pool.granule == granule && |pool.chunks| == 1
    ensures var c := pool.chunks[0];
      c.endBit == n + 1 && Bits(c.bits[..]) == Range(low, 1) && c.avail == granule * n
  {
    hide Bits, BitAt, Search.Fits, Range, BitsFor, Earliest, Chunk.Valid, GenPool.Valid;
    pool := OneChunk(granule, n);
    ghost var c := pool.chunks[0];
    EmptyRange(low, n);
    EarliestAt(c.bits[..], c.endBit, low, 0);
    var front := Grab(pool, low, 0);
    EarliestAt(c.bits[..], c.endBit, 1, low);
    var back := Grab(pool, 1, low);
    BitsForWhole(low, granule);
    SizePositive(granule, low);
    pool.Free(front, granule * low, 0, 0);
  }

  lemma ShapeOf(pool: GenPool)
    requires pool.Valid() && |pool.chunks| == 1
    ensures pool.chunks[0].endBit <= BITS_PER_LONG * pool.chunks[0].bits.Length
  {}

  lemma EmptyRange(low: nat, n: nat)
    requires low < n
    ensures Range(0, 0) == {} && Range(0, low) !! Range(low, 1)
    ensures low in Range(0, n) && low in Range(low, 1)
  {}

  /** Below 2^32 bits an allocation ends on every pool (Alloc). From 2^32 bits on it does not: for every
      such size there is a pool with room to spare on which first fit retries for ever. The search looks
      for the low 32 bits of the count, finds that many at the start of the chunk, and the set runs into
      the one bit in use just behind them, every time. */
  method WideRequestSticks(granule: nat, size: nat, patience: nat) returns (r: Grant)
    requires granule > 0 && BitsFor(size, granule) >= U32
    ensures r == StillRetrying
  {
    hide Bits, BitAt, Search.Fits, Range, BitsFor, Earliest, Chunk.Valid;
    var n := BitsFor(size, granule);
    var low := Search.Need(n % U32);
    var pool := OneBitInUse(granule, n, low);
    ghost var c := pool.chunks[0];
    ghost var words, ci, bit := c.bits[..], 0, 0;
    ShapeOf(pool);
    EmptyRange(low, n);
    EarliestAt(words, c.endBit, low, 0);
    BitsForBounds(size, granule);
    r, ci, bit := pool.Alloc(size, FirstFit, patience);
    assert AttemptAt(words, c.endBit, 0, n) == Retrying;
  }

  ghost function Translate(chunks: seq<Chunk>, addr: nat): int {
    if chunks == [] then -1
    else
      var c := chunks[0];
      if c.startAddr <= addr < c.startAddr + c.size then c.phys + (addr - c.startAddr)
      else Translate(chunks[1..], addr)
  }

  ghost function TotalAvail(chunks: seq<Chunk>): int
    reads set c | c in chunks
  {
    if chunks == [] then 0 else chunks[0].avail + TotalAvail(chunks[1..])
  }

  /** The chunk that has the address decides its translation, wherever it is in the list. */
  lemma {:induction false} TranslateAt(chunks: seq<Chunk>, k: nat, addr: nat)
    requires k < |chunks| && chunks[k].startAddr <= addr < chunks[k].startAddr + chunks[k].size
    requires forall i, j :: 0 <= i < j < |chunks| ==>
      || chunks[i].startAddr + chunks[i].size <= chunks[j].startAddr
      || chunks[j].startAddr + chunks[j].size <= chunks[i].startAddr
    ensures Translate(chunks, addr) == chunks[k].phys + (addr - chunks[k].startAddr)
  {
    if k > 0 {
      TranslateAt(chunks[1..], k - 1, addr);
    }
  }

  /** Every chunk's counter is in the total once, wherever it is in the list. */
  lemma {:induction false} TotalAvailJoins(front: seq<Chunk>, c: Chunk, back: seq<Chunk>)
    ensures TotalAvail(front + [c] + back) == TotalAvail(front) + c.avail + TotalAvail(back)
    decreases |front|
  {
    var all := front + [c] + back;
    if front == [] {
      assert all[0] == c && all[1..] == back;
    } else {
      TotalAvailJoins(front[1..], c, back);
      assert all[0] == front[0] && all[1..] == front[1..] + [c] + back;
    }
  }

  /** An address has no translation, -1, exactly when it lies in no chunk. */
  lemma {:induction false} TranslateNowhere(chunks: seq<Chunk>, addr: nat)
    ensures Translate(chunks, addr) == -1 <==>
      forall k :: 0 <= k < |chunks| ==> !(chunks[k].startAddr <= addr < chunks[k].startAddr + chunks[k].size)
  {
    if chunks != [] {
      TranslateNowhere(chunks[1..], addr);
      assert forall k :: 1 <= k < |chunks| ==> chunks[k] == chunks[1..][k - 1];
    }
  }

  /** With disjoint virtual and disjoint physical chunk ranges, no two bytes of the pool share a
      physical address: live allocations, whose bytes are distinct, never alias on the device. */
  lemma TranslateInjective(chunks: seq<Chunk>, k: nat, a: nat, m: nat, b: nat)
    requires k < |chunks| && chunks[k].startAddr <= a < chunks[k].startAddr + chunks[k].size
    requires m < |chunks| && chunks[m].startAddr <= b < chunks[m].startAddr + chunks[m].size
    requires forall i, j :: 0 <= i < j < |chunks| ==>
      || chunks[i].startAddr + chunks[i].size <= chunks[j].startAddr
      || chunks[j].startAddr + chunks[j].size <= chunks[i].startAddr
    requires forall i, j :: 0 <= i < j < |chunks| ==>
      chunks[i].phys + chunks[i].size <= chunks[j].phys || chunks[j].phys + chunks[j].size <= chunks[i].phys
    requires a != b
    ensures Translate(chunks, a) != Translate(chunks, b)
  {
    hide Translate;
    TranslateAt(chunks, k, a);
    TranslateAt(chunks, m, b);
  }
}
