/** The search policies of genalloc over a bitmap, each proved to return exactly the place it promises. */
module Search {
  import opened Words
  import opened Arithmetic

  /** [i, i + nr) lies below `size` and all its bits are clear. */
  ghost predicate Fits(words: seq<Word>, size: nat, i: nat, nr: nat)
    requires size <= BITS_PER_LONG * |words|
  {
    i + nr <= size && forall k :: i <= k < i + nr ==> !BitAt(words, k)
  }

  // find_next_bit: the first set bit at or after `offset`, or `size`.
  method FindNextBit(words: seq<Word>, size: nat, offset: nat) returns (i: nat)
    requires size <= BITS_PER_LONG * |words|
    ensures offset <= size ==> offset <= i <= size
    ensures offset > size ==> i == size
    ensures i < size ==> BitAt(words, i)
    ensures forall k: nat :: offset <= k < i ==> !BitAt(words, k)
  {
    hide BitAt;
    if offset > size {
      return size;
    }
    i := offset;
    while i < size && !BitAt(words, i)
      invariant offset <= i <= size
      invariant forall k: nat :: offset <= k < i ==> !BitAt(words, k)
    {
      i := i + 1;
    }
  }

  // find_next_zero_bit: the first clear bit at or after `offset`, or `size`.
  method FindNextZeroBit(words: seq<Word>, size: nat, offset: nat) returns (i: nat)
    requires size <= BITS_PER_LONG * |words|
    ensures offset <= size ==> offset <= i <= size
    ensures offset > size ==> i == size
    ensures i < size ==> !BitAt(words, i)
    ensures forall k: nat :: offset <= k < i ==> BitAt(words, k)
  {
    hide BitAt;
    if offset > size {
      return size;
    }
    i := offset;
    while i < size && BitAt(words, i)
      invariant offset <= i <= size
      invariant forall k: nat :: offset <= k < i ==> BitAt(words, k)
    {
      i := i + 1;
    }
  }

  /** A place the aligned search may return: i + alignOff is a multiple of alignMask + 1. */
  predicate Aligned(i: nat, alignMask: nat, alignOff: nat) {
    (i + alignOff) % (alignMask + 1) == 0
  }

  /** The bits a search for nr bits makes sure of: for nr == 0 it still begins at a clear bit. */
  function Need(nr: nat): nat {
    if nr == 0 then 1 else nr
  }

  // The next aligned place at or after i.
  method AlignUp(i: nat, alignMask: nat, alignOff: nat) returns (r: nat)
    ensures r >= i && Aligned(r, alignMask, alignOff)
    ensures forall k: nat :: i <= k < r ==> !Aligned(k, alignMask, alignOff)
  {
    hide Aligned;
    NextAligned(i, alignMask, alignOff);
    r := i;
    while !Aligned(r, alignMask, alignOff)
      invariant i <= r <= i + alignMask
      invariant forall k: nat :: i <= k < r ==> !Aligned(k, alignMask, alignOff)
      decreases i + alignMask - r
    {
      r := r + 1;
    }
  }

  lemma NextAligned(i: nat, alignMask: nat, alignOff: nat)
    ensures exists k: nat :: i <= k <= i + alignMask && Aligned(k, alignMask, alignOff)
  {
    var m, x := alignMask + 1, i + alignOff;
    var d := if x % m == 0 then 0 else m - x % m;
    var c := x / m + if x % m == 0 then 0 else 1;
    Distribute(m, x / m, 1);
    DivUnique(x + d, m, c, 0);
    assert Aligned(i + d, alignMask, alignOff);
  }

  // bitmap_find_next_zero_area_off: the first aligned place at or after `start` with nr clear bits,
  // or a value from `size` on when there is none.
  method FindNextZeroArea(words: seq<Word>, size: nat, start: nat, nr: nat, alignMask: nat, alignOff: nat)
    returns (index: nat)
    requires size <= BITS_PER_LONG * |words|
    ensures index < size ==> start <= index && Fits(words, size, index, nr) && Aligned(index, alignMask, alignOff)
    ensures index < size && alignMask == 0 ==> Fits(words, size, index, Need(nr))
    ensures forall i: nat :: start <= i < index && i < size && Aligned(i, alignMask, alignOff) ==>
      !Fits(words, size, i, Need(nr))
  {
    hide BitAt, Aligned, Fits;
    var from := start;
    while true
      invariant start <= from
      invariant forall i: nat :: start <= i < from && i < size && Aligned(i, alignMask, alignOff) ==>
        !Fits(words, size, i, Need(nr))
      decreases size - from
    {
      var zero := FindNextZeroBit(words, size, from);
      index := AlignUp(zero, alignMask, alignOff);
      forall i: nat | from <= i < index && i < size && Aligned(i, alignMask, alignOff)
        ensures !Fits(words, size, i, Need(nr))
      {
        NoFit(words, size, i, Need(nr), i);
      }
      if index + nr > size {
        forall i: nat | index <= i < size ensures !Fits(words, size, i, Need(nr)) {
          NoRoom(words, size, i, Need(nr));
        }
        return index + nr;
      }
      var i := FindNextBit(words, index + nr, index);
      if i >= index + nr {
        if alignMask == 0 {
          AlwaysAligned(alignOff);
          assert Aligned(zero, alignMask, alignOff);
        }
        FitHere(words, size, index, nr);
        return;
      }
      forall j: nat | index <= j <= i ensures !Fits(words, size, j, Need(nr)) {
        NoFit(words, size, j, Need(nr), i);
      }
      from := i + 1;  // every place up to i would include the set bit i
    }
  }

  // The same search while others change the bitmap: `zeros` and `ones` are what its scans answer, which
  // may be any values a scan can return. The range it returns still lies in the bitmap.
  method AreaWhileOthersWrite(size: nat, start: nat, nr: nat, alignMask: nat, alignOff: nat, zeros: seq<nat>,
      ones: seq<nat>)
    returns (index: nat, round: nat)
    ensures index < size ==> index + nr <= size
    // It is returned by a round in which the scan of it found no set bit, each round before having found one.
    ensures index < size ==> round >= |ones| || !(index <= ones[round] < index + nr)
    ensures round <= |ones| && forall k :: 0 < k < round ==> ones[k - 1] < ones[k]
  {
    var from;
    from, round := start, 0;
    while true
      invariant round <= |ones| && from == if round == 0 then start else ones[round - 1] + 1
      invariant forall k :: 0 < k < round ==> ones[k - 1] < ones[k]
      decreases size + nr - from
    {
      var zero := if round < |zeros| && from <= zeros[round] <= size then zeros[round] else size;
      index := AlignUp(if from <= zero then zero else from, alignMask, alignOff);
      if index + nr > size {
        return index + nr, round;
      }
      if round >= |ones| || !(index <= ones[round] < index + nr) {
        return;
      }
      from := ones[round] + 1;
      round := round + 1;
    }
  }

  lemma NoFit(words: seq<Word>, size: nat, i: nat, nr: nat, k: nat)
    requires size <= BITS_PER_LONG * |words| && i <= k < i + nr && k < size && BitAt(words, k)
    ensures !Fits(words, size, i, nr)
  {}

  lemma NoRoom(words: seq<Word>, size: nat, i: nat, nr: nat)
    requires size <= BITS_PER_LONG * |words| && size < i + nr
    ensures !Fits(words, size, i, nr)
  {}

  lemma FitHere(words: seq<Word>, size: nat, i: nat, nr: nat)
    requires i + nr <= size <= BITS_PER_LONG * |words|
    requires forall k: nat :: i <= k < i + nr ==> !BitAt(words, k)
    ensures Fits(words, size, i, nr)
    ensures i < size && !BitAt(words, i) ==> Fits(words, size, i, Need(nr))
  {}

  lemma AlwaysAligned(alignOff: nat)
    ensures forall i: nat :: Aligned(i, 0, alignOff)
  {}

  // gen_pool_first_fit
  method FirstFit(words: seq<Word>, size: nat, start: nat, nr: nat) returns (bit: nat)
    requires size <= BITS_PER_LONG * |words|
    ensures bit < size ==> start <= bit && Fits(words, size, bit, Need(nr))
    ensures forall i: nat :: start <= i < size && i < bit ==> !Fits(words, size, i, Need(nr))
  {
    hide Fits, Aligned;
    bit := FindNextZeroArea(words, size, start, nr, 0, 0);
    AlwaysAligned(0);
  }

  /** The end of the run of clear bits that starts at i. */
  ghost function RunEnd(words: seq<Word>, size: nat, i: nat): (e: nat)
    requires i <= size <= BITS_PER_LONG * |words|
    ensures i <= e <= size
    decreases size - i
  {
    if i == size || BitAt(words, i) then i else RunEnd(words, size, i + 1)
  }

  lemma {:induction false} RunEndUnique(words: seq<Word>, size: nat, i: nat, e: nat)
    requires i <= e <= size <= BITS_PER_LONG * |words|
    requires forall k :: i <= k < e ==> !BitAt(words, k)
    requires e == size || BitAt(words, e)
    ensures RunEnd(words, size, i) == e
    decreases e - i
  {
    hide BitAt;
    if i < e {
      assert !BitAt(words, i);
      RunEndUnique(words, size, i + 1, e);
    }
  }

  /** i starts a maximal run of clear bits among those at or after `start`. */
  ghost predicate RunStart(words: seq<Word>, size: nat, start: nat, i: nat)
    requires size <= BITS_PER_LONG * |words|
  {
    start <= i < size && !BitAt(words, i) && (i == start || BitAt(words, i - 1))
  }

  ghost predicate LongRun(words: seq<Word>, size: nat, start: nat, nr: nat, i: nat)
    requires size <= BITS_PER_LONG * |words|
  {
    RunStart(words, size, start, i) && RunEnd(words, size, i) - i >= nr
  }

  ghost predicate Better(words: seq<Word>, size: nat, i: nat, j: nat)
    requires i <= size <= BITS_PER_LONG * |words| && j <= size
  {
    var a, b := RunEnd(words, size, i) - i, RunEnd(words, size, j) - j;
    a < b || (a == b && i <= j)
  }

  lemma {:induction false} RunEndClear(words: seq<Word>, size: nat, i: nat)
    requires i <= size <= BITS_PER_LONG * |words|
    ensures forall k :: i <= k < RunEnd(words, size, i) ==> !BitAt(words, k)
    ensures RunEnd(words, size, i) == size || BitAt(words, RunEnd(words, size, i))
    decreases size - i
  {
    hide BitAt;
    if i < size && !BitAt(words, i) {
      RunEndClear(words, size, i + 1);
    }
  }

  /** The earliest fit at or after the end of a run (or after `start`) begins a long enough run, and
      no long enough run begins between. */
  lemma NextLongRun(words: seq<Word>, size: nat, start: nat, from: nat, nr: nat, index: nat)
    requires size <= BITS_PER_LONG * |words| && nr > 0
    requires from == start || (start < from <= size && BitAt(words, from - 1)) || from > size
    requires index < size ==> from <= index && Fits(words, size, index, nr)
    requires forall i: nat :: from <= i < index && i < size ==> !Fits(words, size, i, nr)
    ensures index < size ==> LongRun(words, size, start, nr, index)
    ensures forall i :: from <= i < index && i < size ==> !LongRun(words, size, start, nr, i)
  {
    hide BitAt, RunEnd;
    if index < size {
      RunEndCovers(words, size, index, nr);
      assert index > from ==> !Fits(words, size, index - 1, nr);
    }
    forall i | from <= i < index && i < size ensures !LongRun(words, size, start, nr, i) {
      RunEndClear(words, size, i);
      assert !Fits(words, size, i, nr);
    }
  }

  /** A run is at least as long as any fit at its start. */
  lemma RunEndCovers(words: seq<Word>, size: nat, i: nat, nr: nat)
    requires i <= size <= BITS_PER_LONG * |words| && Fits(words, size, i, nr)
    ensures RunEnd(words, size, i) >= i + nr
  {
    hide BitAt, RunEnd;
    RunEndClear(words, size, i);
  }

  /** find_next_bit from index + nr finds the end of the run at index, and no run starts inside it. */
  lemma RunAt(words: seq<Word>, size: nat, start: nat, nr: nat, index: nat, nextBit: nat)
    requires size <= BITS_PER_LONG * |words| && index < size
    requires LongRun(words, size, start, Need(nr), index) && index + nr <= nextBit <= size
    requires nextBit < size ==> BitAt(words, nextBit)
    requires forall k: nat :: index + nr <= k < nextBit ==> !BitAt(words, k)
    ensures index < nextBit && RunEnd(words, size, index) == nextBit
    ensures forall j :: index < j <= nextBit && j < size ==> !LongRun(words, size, start, Need(nr), j)
  {
    hide BitAt, RunEnd;
    RunEndClear(words, size, index);
    RunEndUnique(words, size, index, nextBit);
    forall j | index < j <= nextBit && j < size ensures !LongRun(words, size, start, Need(nr), j) {
      assert !BitAt(words, j - 1);
    }
  }

  // gen_pool_best_fit
  method BestFit(words: seq<Word>, size: nat, start: nat, nr: nat) returns (startBit: nat)
    requires size <= BITS_PER_LONG * |words|
    ensures startBit <= size
    ensures startBit == size ==> forall j :: start <= j < size ==> !LongRun(words, size, start, Need(nr), j)
    ensures startBit < size ==>
      && LongRun(words, size, start, Need(nr), startBit)
      && forall j :: start <= j < size && LongRun(words, size, start, Need(nr), j) ==> Better(words, size, startBit, j)
  {
    hide BitAt, RunEnd, RunStart, Aligned, Fits;
    startBit := size;
    var len := size + 1;
    AlwaysAligned(0);
    var index := FindNextZeroArea(words, size, start, nr, 0, 0);
    NextLongRun(words, size, start, start, Need(nr), index);
    while index < size
      invariant startBit <= size
      invariant index < size ==> index >= start && LongRun(words, size, start, Need(nr), index)
      invariant startBit == size ==> len == size + 1
      invariant startBit < size ==> startBit < index && LongRun(words, size, start, Need(nr), startBit)
      invariant startBit < size ==> len == RunEnd(words, size, startBit) - startBit
      invariant forall j :: start <= j < index && j < size && LongRun(words, size, start, Need(nr), j) ==>
        startBit < size && Better(words, size, startBit, j)
      decreases size - index
    {
      var nextBit := FindNextBit(words, size, index + nr);
      RunAt(words, size, start, nr, index, nextBit);
      if nextBit - index < len {
        len := nextBit - index;
        startBit := index;
        if len == nr {
          return;
        }
      }
      index := FindNextZeroArea(words, size, nextBit + 1, nr, 0, 0);
      NextLongRun(words, size, start, nextBit + 1, Need(nr), index);
    }
  }

  // The mask and offset gen_pool_first_fit_align hands to the bitmap search; align - 1 is a bit mask
  // there, so `startAddr & (align - 1)` is the remainder modulo a power of two.
  function AlignMask(align: nat, granule: nat): (m: nat)
    requires align > 0 && granule > 0
  {
    DivAtLeastOne(align + granule - 1, granule);
    (align + granule - 1) / granule - 1
  }

  function AlignOff(align: nat, granule: nat, startAddr: nat): nat
    requires align > 0 && granule > 0
  {
    startAddr % align / granule
  }

  lemma DivAtLeastOne(x: nat, m: nat)
    requires x >= m > 0
    ensures x / m >= 1
  {
    MulBounds(m, x / m);
  }

  // gen_pool_first_fit_align
  method FirstFitAlign(words: seq<Word>, size: nat, start: nat, nr: nat, align: nat, granule: nat, startAddr: nat)
    returns (bit: nat)
    requires size <= BITS_PER_LONG * |words|
    requires align > 0 && granule > 0 && PowerOfTwo(align) && PowerOfTwo(granule)
    ensures bit < size ==> start <= bit && Fits(words, size, bit, nr)
    ensures bit < size && startAddr % granule == 0 ==> (startAddr + bit * granule) % align == 0
    ensures startAddr % granule == 0 ==> forall i: nat ::
      start <= i < size && i < bit && (startAddr + i * granule) % align == 0 ==> !Fits(words, size, i, Need(nr))
  {
    hide Fits, Aligned, AlignMask, AlignOff, PowerOfTwo;
    bit := FindNextZeroArea(words, size, start, nr, AlignMask(align, granule), AlignOff(align, granule, startAddr));
    if startAddr % granule == 0 {
      forall i: nat
        ensures Aligned(i, AlignMask(align, granule), AlignOff(align, granule, startAddr))
           <==> (startAddr + i * granule) % align == 0
      {
        AlignedAddress(align, granule, startAddr, i);
      }
    }
  }

  ghost predicate PowerOfTwo(x: nat) {
    x == 1 || (x > 1 && x % 2 == 0 && PowerOfTwo(x / 2))
  }

  /** Of two powers of two, the smaller divides the larger. */
  lemma {:induction false} PowersDivide(a: nat, b: nat) returns (q: nat)
    requires PowerOfTwo(a) && PowerOfTwo(b) && a <= b
    ensures b == a * q
  {
    if a == 1 {
      q := b;
    } else {
      q := PowersDivide(a / 2, b / 2);
      assert 2 * ((a / 2) * q) == (2 * (a / 2)) * q;
    }
  }

  /** The bit-level alignment test is exact: it accepts a bit if and only if the byte address of that
      bit is a multiple of `align`. */
  lemma AlignedAddress(align: nat, granule: nat, startAddr: nat, i: nat)
    requires align > 0 && granule > 0 && PowerOfTwo(align) && PowerOfTwo(granule)
    requires startAddr % granule == 0
    ensures Aligned(i, AlignMask(align, granule), AlignOff(align, granule, startAddr))
       <==> (startAddr + i * granule) % align == 0
  {
    hide PowerOfTwo, Aligned, AlignMask, AlignOff;
    var s := startAddr / granule;
    AlignedScaled(align, granule, s, i);
    Distribute(granule, s, i);
    Commute(granule, i);
    assert startAddr == granule * s;
  }

  lemma AlignedScaled(align: nat, granule: nat, s: nat, i: nat)
    requires align > 0 && granule > 0 && PowerOfTwo(align) && PowerOfTwo(granule)
    ensures Aligned(i, AlignMask(align, granule), AlignOff(align, granule, granule * s))
       <==> (granule * (s + i)) % align == 0
  {
    hide PowerOfTwo;
    if align <= granule {
      var q := PowersDivide(align, granule);
      AlignedFine(align, granule, q, s, i);
    } else {
      var q := PowersDivide(granule, align);
      AlignedCoarse(align, granule, q, s, i);
    }
  }

  lemma AlignedFine(align: nat, granule: nat, q: nat, s: nat, i: nat)
    requires 0 < align <= granule && granule == align * q
    ensures AlignMask(align, granule) == 0
    ensures (granule * (s + i)) % align == 0
  {
    DivUnique(align + granule - 1, granule, 1, align - 1);
    Associate(align, q, s + i);
    DivUnique(granule * (s + i), align, q * (s + i), 0);
  }

  lemma AlignedCoarse(align: nat, granule: nat, q: nat, s: nat, i: nat)
    requires granule > 0 && q > 0 && align == granule * q
    ensures (align + granule - 1) / granule == q
    ensures align > 0 && (i + (granule * s) % align / granule) % q == 0 <==> (granule * (s + i)) % align == 0
  {
    DivUnique(align + granule - 1, granule, q, granule - 1);
    Scale(granule, q, s);
    Scale(granule, q, s + i);
    DivUnique(granule * (s % q), granule, s % q, 0);
    SameRemainder(q, s, i);
    MulBounds(granule, (s + i) % q);
  }

  lemma SameRemainder(q: nat, s: nat, i: nat)
    requires q > 0
    ensures (i + s % q) % q == (s + i) % q
  {
    var c, e, r := s / q, (i + s % q) / q, (i + s % q) % q;
    Distribute(q, c, e);
    DivUnique(s + i, q, c + e, r);
  }

  /** Scaling by g scales remainders. */
  lemma Scale(g: nat, q: nat, x: nat)
    requires g > 0 && q > 0
    ensures g * q > 0 && (g * x) % (g * q) == g * (x % q)
  {
    var c, r := x / q, x % q;
    assert x == q * c + r;
    Associate(g, q, c);
    assert g * x == (g * q) * c + g * r;
    assert g * r <= g * (q - 1);
    assert g * q > 0;
    DivUnique(g * x, g * q, c, g * r);
  }
}
