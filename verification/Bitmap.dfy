/** bitmap_set_ll and bitmap_clear_ll run by a single thread: word-by-word range updates of an array
    of machine words, proved against plain set union and difference of bit numbers. */
module Bitmap {
  import opened Words

  // ---- The update as a function of the words: one piece per word, stop at the first conflict ----

  /** The words after setting [pos, end), and how many bits were left when a conflict stopped it. */
  function SetFrom(words: seq<Word>, pos: nat, end: nat): (r: (seq<Word>, nat))
    requires pos <= end <= BITS_PER_LONG * |words|
    decreases end - pos
  {
    var p := pos / BITS_PER_LONG;
    if pos == end then (words, 0)
    else if And(words[p], PieceMask(pos, end)) != ZERO then (words, end - pos)
    else SetFrom(words[p := Or(words[p], PieceMask(pos, end))], pos + PieceLen(pos, end), end)
  }

  function ClearFrom(words: seq<Word>, pos: nat, end: nat): (r: (seq<Word>, nat))
    requires pos <= end <= BITS_PER_LONG * |words|
    decreases end - pos
  {
    var p := pos / BITS_PER_LONG;
    if pos == end then (words, 0)
    else if And(words[p], PieceMask(pos, end)) != PieceMask(pos, end) then (words, end - pos)
    else ClearFrom(words[p := And(words[p], Not(PieceMask(pos, end)))], pos + PieceLen(pos, end), end)
  }

  /** A set that stops with `remain` bits to go has added exactly the prefix of length nr - remain,
      and every bit it added was clear before; it completes exactly when the whole range was clear. */
  lemma {:induction false} SetFromBits(words: seq<Word>, pos: nat, end: nat)
    requires pos <= end <= BITS_PER_LONG * |words|
    ensures var (after, remain) := SetFrom(words, pos, end);
      && |after| == |words| && remain <= end - pos
      && Range(pos, end - pos - remain) !! Bits(words)
      && Bits(after) == Bits(words) + Range(pos, end - pos - remain)
      && (remain == 0 <==> Range(pos, end - pos) !! Bits(words))
    decreases end - pos
  {
    hide PieceMask, Or, And, Not, Bits;
    if pos < end {
      var p, n := pos / BITS_PER_LONG, PieceLen(pos, end);
      PieceFree(words, pos, end);
      PieceSet(words, pos, end);
      RangeSplit(pos, end - pos, n);
      if And(words[p], PieceMask(pos, end)) == ZERO {
        var words' := words[p := Or(words[p], PieceMask(pos, end))];
        SetFromBits(words', pos + n, end);
        RangeSplit(pos, end - pos - SetFrom(words', pos + n, end).1, n);
      }
    }
  }

  /** The mirror image: exactly the prefix of length nr - remain was removed, all of it set before. */
  lemma {:induction false} ClearFromBits(words: seq<Word>, pos: nat, end: nat)
    requires pos <= end <= BITS_PER_LONG * |words|
    ensures var (after, remain) := ClearFrom(words, pos, end);
      && |after| == |words| && remain <= end - pos
      && Range(pos, end - pos - remain) <= Bits(words)
      && Bits(after) == Bits(words) - Range(pos, end - pos - remain)
      && (remain == 0 <==> Range(pos, end - pos) <= Bits(words))
    decreases end - pos
  {
    hide PieceMask, Or, And, Not, Bits;
    if pos < end {
      var p, n := pos / BITS_PER_LONG, PieceLen(pos, end);
      PieceHeld(words, pos, end);
      PieceClear(words, pos, end);
      RangeSplit(pos, end - pos, n);
      if And(words[p], PieceMask(pos, end)) == PieceMask(pos, end) {
        var words' := words[p := And(words[p], Not(PieceMask(pos, end)))];
        ClearFromBits(words', pos + n, end);
        RangeSplit(pos, end - pos - ClearFrom(words', pos + n, end).1, n);
      }
    }
  }

  /** Undoing a set that was stopped anywhere restores every word, and the undo itself never
      reports a conflict. With remain == 0 this is allocation followed by free. */
  lemma ClearUndoesSet(words: seq<Word>, start: nat, nr: nat)
    requires start + nr <= BITS_PER_LONG * |words|
    ensures var (after, remain) := SetFrom(words, start, start + nr);
      && |after| == |words| && remain <= nr
      && ClearFrom(after, start, start + nr - remain) == (words, 0)
  {
    hide SetFrom, ClearFrom, Bits;
    SetFromBits(words, start, start + nr);
    var (after, remain) := SetFrom(words, start, start + nr);
    ClearFromBits(after, start, start + nr - remain);
    var (back, left) := ClearFrom(after, start, start + nr - remain);
    assert Bits(back) == Bits(words);
    BitsInjective(back, words);
  }

  // ---- The C loops ----

  /** A whole-word piece, and where the next word begins. */
  lemma WholePiece(pos: nat, end: nat)
    requires pos < end && end - pos >= BITS_PER_LONG - pos % BITS_PER_LONG
    ensures PieceMask(pos, end) == FirstWordMask(pos) && PieceLen(pos, end) == BITS_PER_LONG - pos % BITS_PER_LONG
    ensures var next := pos + PieceLen(pos, end);
      next / BITS_PER_LONG == pos / BITS_PER_LONG + 1 && next % BITS_PER_LONG == 0 && FirstWordMask(next) == ONES
  {
    AlignedFirstWordMask(pos + PieceLen(pos, end));
  }

  /** The last piece. */
  lemma PartPiece(pos: nat, end: nat)
    requires pos < end && end - pos < BITS_PER_LONG - pos % BITS_PER_LONG
    ensures PieceMask(pos, end) == And(FirstWordMask(pos), LastWordMask(end)) && PieceLen(pos, end) == end - pos
  {}

  lemma SetWhole(words: seq<Word>, pos: nat, end: nat)
    requires pos < end <= BITS_PER_LONG * |words| && end - pos >= BITS_PER_LONG - pos % BITS_PER_LONG
    ensures var p, next := pos / BITS_PER_LONG, pos + (BITS_PER_LONG - pos % BITS_PER_LONG);
      && next <= end && p < |words| && next / BITS_PER_LONG == p + 1
      && next % BITS_PER_LONG == 0 && FirstWordMask(next) == ONES
      && SetFrom(words, pos, end) ==
           if And(words[p], FirstWordMask(pos)) != ZERO then (words, end - pos)
           else SetFrom(words[p := Or(words[p], FirstWordMask(pos))], next, end)
  {
    hide And, Or, Not, FirstWordMask;
    WholePiece(pos, end);
  }

  lemma SetPart(words: seq<Word>, pos: nat, end: nat)
    requires pos < end <= BITS_PER_LONG * |words| && end - pos < BITS_PER_LONG - pos % BITS_PER_LONG
    ensures var p, mask := pos / BITS_PER_LONG, And(FirstWordMask(pos), LastWordMask(end));
      && p < |words|
      && SetFrom(words, pos, end) ==
           if And(words[p], mask) != ZERO then (words, end - pos) else (words[p := Or(words[p], mask)], 0)
  {
    hide And, Or, Not, FirstWordMask, LastWordMask;
    PartPiece(pos, end);
  }

  lemma ClearWhole(words: seq<Word>, pos: nat, end: nat)
    requires pos < end <= BITS_PER_LONG * |words| && end - pos >= BITS_PER_LONG - pos % BITS_PER_LONG
    ensures var p, next := pos / BITS_PER_LONG, pos + (BITS_PER_LONG - pos % BITS_PER_LONG);
      && next <= end && p < |words| && next / BITS_PER_LONG == p + 1
      && next % BITS_PER_LONG == 0 && FirstWordMask(next) == ONES
      && ClearFrom(words, pos, end) ==
           if And(words[p], FirstWordMask(pos)) != FirstWordMask(pos) then (words, end - pos)
           else ClearFrom(words[p := And(words[p], Not(FirstWordMask(pos)))], next, end)
  {
    hide And, Or, Not, FirstWordMask;
    WholePiece(pos, end);
  }

  lemma ClearPart(words: seq<Word>, pos: nat, end: nat)
    requires pos < end <= BITS_PER_LONG * |words| && end - pos < BITS_PER_LONG - pos % BITS_PER_LONG
    ensures var p, mask := pos / BITS_PER_LONG, And(FirstWordMask(pos), LastWordMask(end));
      && p < |words|
      && ClearFrom(words, pos, end) ==
           if And(words[p], mask) != mask then (words, end - pos) else (words[p := And(words[p], Not(mask))], 0)
  {
    hide And, Or, Not, FirstWordMask, LastWordMask;
    PartPiece(pos, end);
  }

  lemma SetNothing(words: seq<Word>, end: nat)
    requires end <= BITS_PER_LONG * |words|
    ensures SetFrom(words, end, end) == (words, 0)
  {}

  lemma ClearNothing(words: seq<Word>, end: nat)
    requires end <= BITS_PER_LONG * |words|
    ensures ClearFrom(words, end, end) == (words, 0)
  {}

  // set_bits_ll, when nobody interferes between the load and the compare-and-swap.
  method SetBits(words: array<Word>, p: nat, mask: Word) returns (busy: bool)
    requires p < words.Length
    modifies words
    ensures busy <==> And(old(words[p]), mask) != ZERO
    ensures words[..] == if busy then old(words[..]) else old(words[..])[p := Or(old(words[p]), mask)]
  {
    var val := words[p];
    busy := And(val, mask) != ZERO;
    if !busy {
      words[p] := Or(val, mask);
    }
  }

  // clear_bits_ll, likewise.
  method ClearBits(words: array<Word>, p: nat, mask: Word) returns (busy: bool)
    requires p < words.Length
    modifies words
    ensures busy <==> And(old(words[p]), mask) != mask
    ensures words[..] == if busy then old(words[..]) else old(words[..])[p := And(old(words[p]), Not(mask))]
  {
    var val := words[p];
    busy := And(val, mask) != mask;
    if !busy {
      words[p] := And(val, Not(mask));
    }
  }

  method SetRange(words: array<Word>, start: nat, count: nat) returns (remain: nat)
    requires start + count <= BITS_PER_LONG * words.Length
    modifies words
    ensures (words[..], remain) == SetFrom(old(words[..]), start, start + count)
  {
    hide Or, And, Not, FirstWordMask, LastWordMask, SetFrom;
    var p := start / BITS_PER_LONG;
    var size := start + count;
    var nr: nat := count;
    var bitsToSet := BITS_PER_LONG - start % BITS_PER_LONG;
    var maskToSet := FirstWordMask(start);
    while nr >= bitsToSet
      invariant nr <= count
      invariant p == (size - nr) / BITS_PER_LONG
      invariant bitsToSet == BITS_PER_LONG - (size - nr) % BITS_PER_LONG
      invariant maskToSet == FirstWordMask(size - nr)
      invariant SetFrom(words[..], size - nr, size) == SetFrom(old(words[..]), start, size)
    {
      SetWhole(words[..], size - nr, size);
      var busy := SetBits(words, p, maskToSet);
      if busy {
        return nr;
      }
      nr := nr - bitsToSet;
      bitsToSet := BITS_PER_LONG;
      maskToSet := ONES;
      p := p + 1;
    }
    if nr != 0 {
      SetPart(words[..], size - nr, size);
      maskToSet := And(maskToSet, LastWordMask(size));
      var busy := SetBits(words, p, maskToSet);
      if busy {
        return nr;
      }
    }
    SetNothing(words[..], size);
    return 0;
  }

  method ClearRange(words: array<Word>, start: nat, count: nat) returns (remain: nat)
    requires start + count <= BITS_PER_LONG * words.Length
    modifies words
    ensures (words[..], remain) == ClearFrom(old(words[..]), start, start + count)
  {
    hide Or, And, Not, FirstWordMask, LastWordMask, ClearFrom;
    var p := start / BITS_PER_LONG;
    var size := start + count;
    var nr: nat := count;
    var bitsToClear := BITS_PER_LONG - start % BITS_PER_LONG;
    var maskToClear := FirstWordMask(start);
    while nr >= bitsToClear
      invariant nr <= count
      invariant p == (size - nr) / BITS_PER_LONG
      invariant bitsToClear == BITS_PER_LONG - (size - nr) % BITS_PER_LONG
      invariant maskToClear == FirstWordMask(size - nr)
      invariant ClearFrom(words[..], size - nr, size) == ClearFrom(old(words[..]), start, size)
    {
      ClearWhole(words[..], size - nr, size);
      var busy := ClearBits(words, p, maskToClear);
      if busy {
        return nr;
      }
      nr := nr - bitsToClear;
      bitsToClear := BITS_PER_LONG;
      maskToClear := ONES;
      p := p + 1;
    }
    if nr != 0 {
      ClearPart(words[..], size - nr, size);
      maskToClear := And(maskToClear, LastWordMask(size));
      var busy := ClearBits(words, p, maskToClear);
      if busy {
        return nr;
      }
    }
    ClearNothing(words[..], size);
    return 0;
  }
}
