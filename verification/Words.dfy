/** Machine words of the allocation bitmap, as the sequence of their 64 bits (bit 0 first),
    and the bit sets that a sequence of words stands for. */
module Words {

  const BITS_PER_LONG: nat := 64

  type Word = w: seq<bool> | |w| == BITS_PER_LONG witness Fill(false)

  function Fill(b: bool): (w: seq<bool>)
    ensures |w| == BITS_PER_LONG && forall i :: 0 <= i < |w| ==> w[i] == b
  {
    seq(BITS_PER_LONG, _ => b)
  }

  // ---- The C operators on unsigned long ----

  function Or(a: Word, b: Word): (r: Word) {
    seq(BITS_PER_LONG, i requires 0 <= i < BITS_PER_LONG => a[i] || b[i])
  }

  function And(a: Word, b: Word): (r: Word) {
    seq(BITS_PER_LONG, i requires 0 <= i < BITS_PER_LONG => a[i] && b[i])
  }

  function Not(a: Word): (r: Word) {
    seq(BITS_PER_LONG, i requires 0 <= i < BITS_PER_LONG => !a[i])
  }

  function ShiftLeft(a: Word, n: nat): (r: Word) {
    seq(BITS_PER_LONG, i requires 0 <= i < BITS_PER_LONG => n <= i && a[i - n])
  }

  function ShiftRight(a: Word, n: nat): (r: Word) {
    seq(BITS_PER_LONG, i requires 0 <= i < BITS_PER_LONG => i + n < BITS_PER_LONG && a[i + n])
  }

  const ZERO: Word := Fill(false)
  const ONES: Word := Fill(true)

  // BITMAP_FIRST_WORD_MASK: ~0UL << (start & 63)
  function FirstWordMask(start: nat): Word {
    ShiftLeft(ONES, start % BITS_PER_LONG)
  }

  lemma AlignedFirstWordMask(start: nat)
    requires start % BITS_PER_LONG == 0
    ensures FirstWordMask(start) == ONES
  {}

  // BITMAP_LAST_WORD_MASK: ~0UL >> (-nbits & 63)
  function LastWordMask(nbits: nat): Word {
    ShiftRight(ONES, (BITS_PER_LONG - nbits % BITS_PER_LONG) % BITS_PER_LONG)
  }

  /** The mask of the word that holds bit `pos` when the range [pos, end) is processed word by word. */
  function PieceMask(pos: nat, end: nat): Word
    requires pos < end
  {
    if end - pos >= BITS_PER_LONG - pos % BITS_PER_LONG then FirstWordMask(pos)
    else And(FirstWordMask(pos), LastWordMask(end))
  }

  /** How many bits of [pos, end) lie in the word that holds `pos`. */
  function PieceLen(pos: nat, end: nat): (n: nat)
    requires pos < end
    ensures 0 < n <= end - pos
  {
    var room := BITS_PER_LONG - pos % BITS_PER_LONG;
    if end - pos >= room then room else end - pos
  }

  lemma FirstMaskBit(start: nat, b: nat)
    requires b < BITS_PER_LONG
    ensures FirstWordMask(start)[b] <==> start % BITS_PER_LONG <= b
  {}

  lemma LastMaskBit(nbits: nat, b: nat)
    requires b < BITS_PER_LONG
    ensures LastWordMask(nbits)[b] <==> nbits % BITS_PER_LONG == 0 || b < nbits % BITS_PER_LONG
  {
    var r := nbits % BITS_PER_LONG;
    assert (BITS_PER_LONG - r) % BITS_PER_LONG == if r == 0 then 0 else BITS_PER_LONG - r;
  }

  /** A range that ends inside the word of its start. */
  lemma SameWord(pos: nat, end: nat)
    requires pos < end && end - pos < BITS_PER_LONG - pos % BITS_PER_LONG
    ensures end % BITS_PER_LONG == pos % BITS_PER_LONG + (end - pos) > 0
  {
    var q, r := pos / BITS_PER_LONG, pos % BITS_PER_LONG;
    assert end == BITS_PER_LONG * q + (r + (end - pos));
  }

  /** The mask selects exactly the bits of the piece: no bit before `pos`, none at or after `end`. */
  lemma PieceMaskBits(pos: nat, end: nat, b: nat)
    requires pos < end && b < BITS_PER_LONG
    ensures PieceMask(pos, end)[b]
        <==> pos <= BITS_PER_LONG * (pos / BITS_PER_LONG) + b < pos + PieceLen(pos, end)
  {
    hide FirstWordMask, LastWordMask;
    FirstMaskBit(pos, b);
    LastMaskBit(end, b);
    assert pos == BITS_PER_LONG * (pos / BITS_PER_LONG) + pos % BITS_PER_LONG;
    if end - pos < BITS_PER_LONG - pos % BITS_PER_LONG {
      SameWord(pos, end);
    }
  }

  // ---- Bit sets ----

  predicate BitAt(words: seq<Word>, k: nat)
    requires k < BITS_PER_LONG * |words|
  {
    words[k / BITS_PER_LONG][k % BITS_PER_LONG]
  }

  ghost function Bits(words: seq<Word>): set<nat> {
    set k: nat | k < BITS_PER_LONG * |words| && BitAt(words, k)
  }

  predicate AtLeast(k: nat, lo: nat) { lo <= k }

  ghost function Range(lo: nat, len: nat): set<nat> {
    set k: nat | k < lo + len && AtLeast(k, lo)
  }

  lemma {:induction false} RangeSize(lo: nat, len: nat)
    ensures |Range(lo, len)| == len
    decreases len
  {
    if len == 0 {
      assert Range(lo, 0) == {};
    } else {
      RangeSize(lo, len - 1);
      assert Range(lo, len) == Range(lo, len - 1) + {lo + len - 1};
    }
  }

  lemma RangeSplit(lo: nat, len: nat, n: nat)
    requires n <= len
    ensures Range(lo, len) == Range(lo, n) + Range(lo + n, len - n)
  {}

  /** Bit b of the word that holds `pos` is bit number 64 * (pos / 64) + b of the bitmap. */
  lemma PieceIndex(words: seq<Word>, pos: nat, end: nat, b: nat)
    requires pos < end <= BITS_PER_LONG * |words| && b < BITS_PER_LONG
    ensures PieceMask(pos, end)[b]
        <==> BITS_PER_LONG * (pos / BITS_PER_LONG) + b in Range(pos, PieceLen(pos, end))
    ensures words[pos / BITS_PER_LONG][b] <==> BITS_PER_LONG * (pos / BITS_PER_LONG) + b in Bits(words)
  {
    PieceMaskBits(pos, end, b);
    var p := pos / BITS_PER_LONG;
    var k := BITS_PER_LONG * p + b;
    assert k / BITS_PER_LONG == p && k % BITS_PER_LONG == b;
    assert k in Bits(words) <==> BitAt(words, k);
  }

  lemma PieceMember(pos: nat, end: nat, k: nat)
    requires pos < end && k in Range(pos, PieceLen(pos, end))
    ensures k == BITS_PER_LONG * (pos / BITS_PER_LONG) + k % BITS_PER_LONG
  {}

  /** The test `val & mask_to_set` is zero exactly when the whole piece is free. */
  lemma PieceFree(words: seq<Word>, pos: nat, end: nat)
    requires pos < end <= BITS_PER_LONG * |words|
    ensures And(words[pos / BITS_PER_LONG], PieceMask(pos, end)) == ZERO
        <==> Range(pos, PieceLen(pos, end)) !! Bits(words)
  {
    var p := pos / BITS_PER_LONG;
    var c := And(words[p], PieceMask(pos, end));
    if c == ZERO {
      forall k | k in Range(pos, PieceLen(pos, end)) ensures k !in Bits(words) {
        PieceMember(pos, end, k);
        PieceIndex(words, pos, end, k % BITS_PER_LONG);
        assert !c[k % BITS_PER_LONG];
      }
    } else {
      var b: nat :| b < BITS_PER_LONG && c[b] != ZERO[b];
      PieceIndex(words, pos, end, b);
    }
  }

  /** The test `(val & mask_to_clear) == mask_to_clear` holds exactly when the whole piece is set. */
  lemma PieceHeld(words: seq<Word>, pos: nat, end: nat)
    requires pos < end <= BITS_PER_LONG * |words|
    ensures And(words[pos / BITS_PER_LONG], PieceMask(pos, end)) == PieceMask(pos, end)
        <==> Range(pos, PieceLen(pos, end)) <= Bits(words)
  {
    var p, m := pos / BITS_PER_LONG, PieceMask(pos, end);
    var c := And(words[p], m);
    if c == m {
      forall k | k in Range(pos, PieceLen(pos, end)) ensures k in Bits(words) {
        PieceMember(pos, end, k);
        PieceIndex(words, pos, end, k % BITS_PER_LONG);
        assert c[k % BITS_PER_LONG] == m[k % BITS_PER_LONG];
      }
    } else {
      var b: nat :| b < BITS_PER_LONG && c[b] != m[b];
      PieceIndex(words, pos, end, b);
    }
  }

  /** Storing `v | mask` adds exactly the piece. */
  lemma PieceSet(words: seq<Word>, pos: nat, end: nat)
    requires pos < end <= BITS_PER_LONG * |words|
    ensures Bits(words[pos / BITS_PER_LONG := Or(words[pos / BITS_PER_LONG], PieceMask(pos, end))])
         == Bits(words) + Range(pos, PieceLen(pos, end))
  {
    var p := pos / BITS_PER_LONG;
    var words' := words[p := Or(words[p], PieceMask(pos, end))];
    forall k: nat | k < BITS_PER_LONG * |words|
      ensures BitAt(words', k) <==> BitAt(words, k) || k in Range(pos, PieceLen(pos, end))
    {
      PieceMaskBits(pos, end, k % BITS_PER_LONG);
    }
  }

  /** Storing `v & ~mask` removes exactly the piece. */
  lemma PieceClear(words: seq<Word>, pos: nat, end: nat)
    requires pos < end <= BITS_PER_LONG * |words|
    ensures Bits(words[pos / BITS_PER_LONG := And(words[pos / BITS_PER_LONG], Not(PieceMask(pos, end)))])
         == Bits(words) - Range(pos, PieceLen(pos, end))
  {
    var p := pos / BITS_PER_LONG;
    var words' := words[p := And(words[p], Not(PieceMask(pos, end)))];
    forall k: nat | k < BITS_PER_LONG * |words|
      ensures BitAt(words', k) <==> BitAt(words, k) && k !in Range(pos, PieceLen(pos, end))
    {
      PieceMaskBits(pos, end, k % BITS_PER_LONG);
    }
  }

  /** The words are determined by the bits they stand for. */
  lemma BitsInjective(a: seq<Word>, b: seq<Word>)
    requires |a| == |b| && Bits(a) == Bits(b)
    ensures a == b
  {
    forall p, i | 0 <= p < |a| && 0 <= i < BITS_PER_LONG
      ensures a[p][i] == b[p][i]
    {
      var k := BITS_PER_LONG * p + i;
      assert k / BITS_PER_LONG == p && k % BITS_PER_LONG == i;
      assert k in Bits(a) <==> BitAt(a, k);
      assert k in Bits(b) <==> BitAt(b, k);
    }
    forall p | 0 <= p < |a| ensures a[p] == b[p] {}
  }
}
