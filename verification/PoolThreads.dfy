/** The lock-free side of genalloc: any number of threads allocate from and free to one chunk at once.
    The atomic steps are the load of a bitmap word, one compare-and-swap on it, and the atomic update
    of the chunk's byte counter; every interleaving of them is a run. */
module PoolThreads {
  import Arithmetic
  import Bitmap
  import opened Words
  import opened Options
  import opened Widths

  /** A run of bits handed out by gen_pool_alloc and not yet passed to gen_pool_free. */
  datatype Region = Region(start: nat, nr: nat)

  datatype Purpose = RollBack | Free

  /** Where a thread is. `done` bits of [start, start + nr) are finished; `val` is the word value it
      last loaded, if the load before the next compare-and-swap has happened. */
  datatype Op =
    | Idle
    | Setting(start: nat, nr: nat, done: nat, val: Option<Word>)
    | Taken(start: nat, nr: nat)
    | Clearing(purpose: Purpose, start: nat, nr: nat, done: nat, val: Option<Word>)
    | Cleared(nr: nat)
    | Bug

  datatype State = State(
    size: nat, granule: nat, endBit: nat,  // bytes in the chunk, bytes per bit, bits in use
    words: seq<Word>, avail: int, threads: seq<Op>, live: set<Region>)
  {
    predicate Shape() {
      granule > 0 && endBit <= BITS_PER_LONG * |words|
    }
  }

  // gen_pool_add_owner
  predicate Init(s: State) {
    && s.Shape() && s.endBit == s.size / s.granule
    && (forall p :: 0 <= p < |s.words| ==> s.words[p] == ZERO)
    && s.avail == s.size
    && (forall t :: 0 <= t < |s.threads| ==> s.threads[t] == Idle)
    && s.live == {}
  }

  /** What a scheduler may pick for a thread: start an allocation at any place a search policy could
      return, start freeing something that is held, or take the next atomic step of the operation. A
      policy takes the bit count in 32 bits; for a count that fits, whatever it reads from a bitmap others
      are changing, the range it returns lies in the chunk (Search.AreaWhileOthersWrite). */
  datatype Choice = BeginAlloc(start: nat, nr: nat) | BeginFree(r: Region) | Go

  predicate Enabled(s: State, t: nat, c: Choice)
    requires s.Shape()
  {
    && t < |s.threads|
    && match c
       case BeginAlloc(start, nr) => s.threads[t] == Idle && 0 < nr < U32 && start + nr <= s.endBit
       case BeginFree(r) => s.threads[t] == Idle && r in s.live
       case Go => s.threads[t] != Idle && s.threads[t] != Bug && InBounds(s.threads[t], s.endBit)
  }

  predicate InBounds(op: Op, endBit: nat) {
    match op
    case Setting(start, nr, done, _) => done < nr && start + nr <= endBit
    case Taken(start, nr) => 0 < nr && start + nr <= endBit
    case Clearing(_, start, nr, done, _) => done <= nr && start + nr <= endBit
    case _ => true
  }

  /** One step of set_bits_ll / bitmap_set_ll: load, give up on a conflict in the loaded value, or
      compare-and-swap (which reloads when the word has changed since). */
  function SetStep(s: State, t: nat): State
    requires s.Shape() && t < |s.threads| && s.threads[t].Setting? && InBounds(s.threads[t], s.endBit)
  {
    var Setting(start, nr, done, val) := s.threads[t];
    var pos := start + done;
    var p, mask := pos / BITS_PER_LONG, PieceMask(pos, start + nr);
    if val.None? then
      s.(threads := s.threads[t := Setting(start, nr, done, Some(s.words[p]))])
    else if And(val.value, mask) != ZERO then
      s.(threads := s.threads[t := Clearing(RollBack, start, done, 0, None)])
    else if s.words[p] != val.value then
      s.(threads := s.threads[t := Setting(start, nr, done, Some(s.words[p]))])
    else
      var done' := done + PieceLen(pos, start + nr);
      s.(words := s.words[p := Or(val.value, mask)],
         threads := s.threads[t := if done' == nr then Taken(start, nr) else Setting(start, nr, done', None)])
  }

  /** One step of clear_bits_ll / bitmap_clear_ll, for the rollback and for gen_pool_free; a conflict
      in the loaded value is the BUG_ON(remain) that follows both calls. */
  function ClearStep(s: State, t: nat): State
    requires s.Shape() && t < |s.threads| && s.threads[t].Clearing? && InBounds(s.threads[t], s.endBit)
  {
    var Clearing(purpose, start, nr, done, val) := s.threads[t];
    if done == nr then
      s.(threads := s.threads[t := if purpose == RollBack then Idle else Cleared(nr)])
    else
      var pos := start + done;
      var p, mask := pos / BITS_PER_LONG, PieceMask(pos, start + nr);
      if val.None? then
        s.(threads := s.threads[t := Clearing(purpose, start, nr, done, Some(s.words[p]))])
      else if And(val.value, mask) != mask then
        s.(threads := s.threads[t := Bug])
      else if s.words[p] != val.value then
        s.(threads := s.threads[t := Clearing(purpose, start, nr, done, Some(s.words[p]))])
      else
        s.(words := s.words[p := And(val.value, Not(mask))],
           threads := s.threads[t := Clearing(purpose, start, nr, done + PieceLen(pos, start + nr), None)])
  }

  function Step(s: State, t: nat, c: Choice): State
    requires s.Shape() && Enabled(s, t, c)
  {
    match c
    case BeginAlloc(start, nr) => s.(threads := s.threads[t := Setting(start, nr, 0, None)])
    case BeginFree(r) =>
      s.(live := s.live - {r}, threads := s.threads[t := Clearing(Free, r.start, r.nr, 0, None)])
    case Go =>
      match s.threads[t]
      case Setting(_, _, _, _) => SetStep(s, t)
      case Clearing(_, _, _, _, _) => ClearStep(s, t)
      case Taken(start, nr) =>
        s.(avail := s.avail - nr * s.granule, live := s.live + {Region(start, nr)},
           threads := s.threads[t := Idle])
      case Cleared(nr) =>
        s.(avail := s.avail + nr * s.granule, threads := s.threads[t := Idle])
  }

  // ---- Ownership ----

  datatype Holder = Thread(t: nat) | Allocation(r: Region)

  ghost function Owned(op: Op): set<nat> {
    match op
    case Setting(start, _, done, _) => Range(start, done)
    case Taken(start, nr) => Range(start, nr)
    case Clearing(_, start, nr, done, _) => if done <= nr then Range(start + done, nr - done) else {}
    case _ => {}
  }

  ghost function HeldBy(s: State, h: Holder): set<nat> {
    match h
    case Thread(t) => if t < |s.threads| then Owned(s.threads[t]) else {}
    case Allocation(r) => if r in s.live then Range(r.start, r.nr) else {}
  }

  /** `owner` names, for each set bit, the one attempt or allocation that holds it. */
  ghost predicate OwnedBy(s: State, owner: map<nat, Holder>) {
    && owner.Keys == Bits(s.words)
    && (forall k :: k in owner ==> k in HeldBy(s, owner[k]))
    && (forall h, k :: k in HeldBy(s, h) ==> k in owner && owner[k] == h)
  }

  /** Every set bit has exactly one holder, and nobody holds a clear bit. */
  ghost predicate ExactlyOwned(s: State) {
    exists owner :: OwnedBy(s, owner)
  }

  /** A thread about to clear has seen all the bits it must clear: its loaded value cannot be stale
      in those bits, because no one else may clear them. */
  predicate SeenHeld(op: Op) {
    op.Clearing? && op.val.Some? && op.done < op.nr ==>
      var mask := PieceMask(op.start + op.done, op.start + op.nr);
      And(op.val.value, mask) == mask
  }

  predicate ThreadOk(op: Op, endBit: nat) {
    op != Bug && InBounds(op, endBit) && SeenHeld(op)
  }

  /** How far the bit count of the bitmap runs ahead of what this thread has charged to `avail`. */
  function Uncharged(op: Op): int {
    match op
    case Setting(_, _, done, _) => done
    case Taken(_, nr) => nr
    case Clearing(RollBack, _, nr, done, _) => nr - done
    case Clearing(Free, _, _, done, _) => 0 - done
    case Cleared(nr) => 0 - nr
    case _ => 0
  }

  function TotalUncharged(threads: seq<Op>): int {
    if threads == [] then 0 else TotalUncharged(threads[..|threads| - 1]) + Uncharged(threads[|threads| - 1])
  }

  lemma {:induction false} TotalUnchargedUpdate(threads: seq<Op>, t: nat, op: Op)
    requires t < |threads|
    ensures TotalUncharged(threads[t := op]) == TotalUncharged(threads) - Uncharged(threads[t]) + Uncharged(op)
  {
    var n := |threads| - 1;
    assert threads[t := op][..n] == if t == n then threads[..n] else threads[..n][t := op];
    if t < n {
      TotalUnchargedUpdate(threads[..n], t, op);
    }
  }

  lemma {:induction false} TotalUnchargedIdle(threads: seq<Op>)
    requires forall t :: 0 <= t < |threads| ==> threads[t] == Idle
    ensures TotalUncharged(threads) == 0
  {
    if threads != [] {
      TotalUnchargedIdle(threads[..|threads| - 1]);
    }
  }

  ghost predicate Accounted(s: State) {
    s.avail == s.size - s.granule * (|Bits(s.words)| - TotalUncharged(s.threads))
  }

  ghost predicate Inv(s: State) {
    && s.Shape()
    && (forall t :: 0 <= t < |s.threads| ==> ThreadOk(s.threads[t], s.endBit))
    && (forall r :: r in s.live ==> r.nr > 0 && r.start + r.nr <= s.endBit)
    && ExactlyOwned(s)
    && Accounted(s)
  }

  // ---- Each step keeps the ownership ----

  /** A step that moves no bit between holders. */
  lemma QuietStep(s: State, s': State, owner: map<nat, Holder>)
    requires OwnedBy(s, owner) && Bits(s'.words) == Bits(s.words)
    requires forall h :: HeldBy(s', h) == HeldBy(s, h)
    ensures ExactlyOwned(s')
  {
    hide Bits, HeldBy;
    assert OwnedBy(s', owner);
  }

  /** A holder gains bits that were clear. */
  lemma GainStep(s: State, s': State, owner: map<nat, Holder>, h: Holder, piece: set<nat>)
    requires OwnedBy(s, owner)
    requires piece !! Bits(s.words) && Bits(s'.words) == Bits(s.words) + piece
    requires HeldBy(s', h) == HeldBy(s, h) + piece
    requires forall g :: g != h ==> HeldBy(s', g) == HeldBy(s, g)
    ensures ExactlyOwned(s')
  {
    hide Bits, HeldBy;
    var owner' := map k | k in Bits(s'.words) :: if k in piece then h else owner[k];
    assert OwnedBy(s', owner');
  }

  lemma OneHolder(s: State, owner: map<nat, Holder>, g: Holder, h: Holder, k: nat)
    requires OwnedBy(s, owner) && k in HeldBy(s, g) && k in HeldBy(s, h)
    ensures g == h
  {
    hide Bits, HeldBy;
    assert owner[k] == g && owner[k] == h;
  }

  /** A holder gives up bits, which become clear. */
  lemma LossStep(s: State, s': State, owner: map<nat, Holder>, h: Holder, piece: set<nat>)
    requires OwnedBy(s, owner)
    requires piece <= HeldBy(s, h) && Bits(s'.words) == Bits(s.words) - piece
    requires HeldBy(s', h) == HeldBy(s, h) - piece
    requires forall g :: g != h ==> HeldBy(s', g) == HeldBy(s, g)
    ensures ExactlyOwned(s')
  {
    hide Bits, HeldBy;
    var owner' := map k | k in Bits(s'.words) :: owner[k];
    forall g, k | k in HeldBy(s', g)
      ensures k in owner' && owner'[k] == g
    {
      assert k in HeldBy(s, g) && owner[k] == g;
      if k in piece {
        OneHolder(s, owner, g, h, k);
      }
    }
    assert OwnedBy(s', owner');
  }

  /** All bits of one holder pass to another that held none. */
  lemma HandOver(s: State, s': State, owner: map<nat, Holder>, from: Holder, to: Holder)
    requires OwnedBy(s, owner) && Bits(s'.words) == Bits(s.words) && from != to
    requires HeldBy(s, to) == {} && HeldBy(s', from) == {} && HeldBy(s', to) == HeldBy(s, from)
    requires forall g :: g != from && g != to ==> HeldBy(s', g) == HeldBy(s, g)
    ensures ExactlyOwned(s')
  {
    hide Bits, HeldBy;
    var owner' := map k | k in Bits(s'.words) :: if owner[k] == from then to else owner[k];
    assert OwnedBy(s', owner');
  }

  /** A thread's step leaves the words and its holdings as they are. */
  ghost predicate Same(s: State, s': State, t: nat)
    requires t < |s.threads| == |s'.threads|
  {
    && s'.words == s.words && Owned(s'.threads[t]) == Owned(s.threads[t])
    && Uncharged(s'.threads[t]) == Uncharged(s.threads[t])
  }

  /** It sets n clear bits from pos on, which it then holds. */
  ghost predicate Gains(s: State, s': State, t: nat, pos: nat, n: nat)
    requires t < |s.threads| == |s'.threads|
  {
    && Range(pos, n) !! Bits(s.words) && Bits(s'.words) == Bits(s.words) + Range(pos, n)
    && Owned(s'.threads[t]) == Owned(s.threads[t]) + Range(pos, n)
    && Uncharged(s'.threads[t]) == Uncharged(s.threads[t]) + n
  }

  /** It clears n bits from pos on, which it held. */
  ghost predicate Loses(s: State, s': State, t: nat, pos: nat, n: nat)
    requires t < |s.threads| == |s'.threads|
  {
    && Range(pos, n) <= Owned(s.threads[t]) && Bits(s'.words) == Bits(s.words) - Range(pos, n)
    && Owned(s'.threads[t]) == Owned(s.threads[t]) - Range(pos, n)
    && Uncharged(s'.threads[t]) == Uncharged(s.threads[t]) - n
  }

  /** The effect of one step of a setting thread: nothing, or one clear piece gained. */
  lemma SetStepEffect(s: State, t: nat)
    requires Inv(s) && t < |s.threads| && s.threads[t].Setting?
    ensures
      var s', op := SetStep(s, t), s.threads[t];
      && s' == s.(words := s'.words, threads := s.threads[t := s'.threads[t]])
      && |s'.words| == |s.words| && ThreadOk(s'.threads[t], s'.endBit)
      && var pos := op.start + op.done;
         Same(s, s', t) || Gains(s, s', t, pos, PieceLen(pos, op.start + op.nr))
  {
    hide PieceMask, PieceLen, And, Or, Not, Bits, Range, ExactlyOwned, Accounted;
    var s' := SetStep(s, t);
    var Setting(start, nr, done, val) := s.threads[t];
    var pos, end := start + done, start + nr;
    if val.Some? && And(val.value, PieceMask(pos, end)) == ZERO && s.words[pos / BITS_PER_LONG] == val.value {
      PieceFree(s.words, pos, end);
      PieceSet(s.words, pos, end);
      RangeSplit(start, done + PieceLen(pos, end), done);
    }
  }

  /** The effect of one step of a clearing thread: nothing, or one held piece given up. */
  lemma ClearStepEffect(s: State, t: nat)
    requires Inv(s) && t < |s.threads| && s.threads[t].Clearing?
    ensures
      var s', op := ClearStep(s, t), s.threads[t];
      && s' == s.(words := s'.words, threads := s.threads[t := s'.threads[t]])
      && |s'.words| == |s.words| && ThreadOk(s'.threads[t], s'.endBit)
      && var pos := op.start + op.done;
         Same(s, s', t) || (op.done < op.nr && Loses(s, s', t, pos, PieceLen(pos, op.start + op.nr)))
  {
    hide PieceMask, PieceLen, And, Or, Not, Bits, Range, Accounted, OwnedBy;
    var s' := ClearStep(s, t);
    var Clearing(purpose, start, nr, done, val) := s.threads[t];
    if done < nr {
      var pos, end := start + done, start + nr;
      var n := PieceLen(pos, end);
      RangeSplit(pos, nr - done, n);
      if val.None? || s.words[pos / BITS_PER_LONG] != val.value {
        // The word just loaded has all the bits this thread holds.
        var owner :| OwnedBy(s, owner);
        OwnsSetBits(s, owner, Thread(t));
        PieceHeld(s.words, pos, end);
      } else {
        PieceClear(s.words, pos, end);
        RangeApart(pos, n, nr - done - n);
      }
    } else {
      RangeEmpty(start + done);
    }
  }

  lemma RangeEmpty(lo: nat)
    ensures Range(lo, 0) == {}
  {}

  lemma RangeApart(lo: nat, n: nat, m: nat)
    ensures Range(lo, n) !! Range(lo + n, m)
  {}

  lemma OwnsSetBits(s: State, owner: map<nat, Holder>, h: Holder)
    requires OwnedBy(s, owner)
    ensures HeldBy(s, h) <= Bits(s.words)
  {
    hide Bits, HeldBy;
    forall k | k in HeldBy(s, h) ensures k in Bits(s.words) {}
  }

  /** Everything but the ownership survives a step of thread t that settles what it changes. */
  lemma RestKeeps(s: State, s': State, t: nat, x: int)
    requires Inv(s) && t < |s.threads| == |s'.threads| && ExactlyOwned(s')
    requires s' == s.(words := s'.words, avail := s'.avail, live := s'.live,
                      threads := s.threads[t := s'.threads[t]])
    requires |s'.words| == |s.words| && ThreadOk(s'.threads[t], s.endBit)
    requires forall r :: r in s'.live ==> r in s.live || (r.nr > 0 && r.start + r.nr <= s.endBit)
    requires x == |Bits(s'.words)| - |Bits(s.words)| - Uncharged(s'.threads[t]) + Uncharged(s.threads[t])
    requires s'.avail == s.avail - s.granule * x
    ensures Inv(s')
  {
    hide Bits, ExactlyOwned, Uncharged, ThreadOk;
    TotalUnchargedUpdate(s.threads, t, s'.threads[t]);
    var y := |Bits(s.words)| - TotalUncharged(s.threads);
    Arithmetic.Distribute(s.granule, x, y);
  }

  /** Only thread t's holdings differ between s and s'. */
  lemma OthersHold(s: State, s': State, t: nat)
    requires t < |s.threads| == |s'.threads| && s'.live == s.live && s'.threads == s.threads[t := s'.threads[t]]
    ensures HeldBy(s, Thread(t)) == Owned(s.threads[t]) && HeldBy(s', Thread(t)) == Owned(s'.threads[t])
    ensures forall g :: g != Thread(t) ==> HeldBy(s', g) == HeldBy(s, g)
  {
    hide Owned, Range;
  }

  /** What a step needs to know of the invariant. */
  lemma Unpack(s: State, t: nat) returns (owner: map<nat, Holder>)
    requires Inv(s) && t < |s.threads|
    ensures s.Shape() && ThreadOk(s.threads[t], s.endBit) && InBounds(s.threads[t], s.endBit)
    ensures OwnedBy(s, owner)
  {
    owner :| OwnedBy(s, owner);
  }

  lemma Joined(a: set<nat>, b: set<nat>)
    requires a !! b
    ensures |a + b| == |a| + |b|
  {}

  /** What a thread's step must keep of the ownership. */
  ghost predicate Owns(s: State, s': State, t: nat)
    requires t < |s.threads| == |s'.threads|
  {
    && ExactlyOwned(s')
    && |Bits(s'.words)| - |Bits(s.words)| == Uncharged(s'.threads[t]) - Uncharged(s.threads[t])
  }

  lemma SameOwns(s: State, s': State, t: nat, owner: map<nat, Holder>)
    requires t < |s.threads| == |s'.threads| && s'.live == s.live && s'.threads == s.threads[t := s'.threads[t]]
    requires OwnedBy(s, owner) && Same(s, s', t)
    ensures Owns(s, s', t)
  {
    hide Bits, Owned, OwnedBy, Uncharged, HeldBy, ExactlyOwned;
    OthersHold(s, s', t);
    QuietStep(s, s', owner);
  }

  lemma GainOwns(s: State, s': State, t: nat, owner: map<nat, Holder>, pos: nat, n: nat)
    requires t < |s.threads| == |s'.threads| && s'.live == s.live && s'.threads == s.threads[t := s'.threads[t]]
    requires OwnedBy(s, owner) && Gains(s, s', t, pos, n)
    ensures Owns(s, s', t)
  {
    hide Bits, Owned, OwnedBy, Uncharged, HeldBy, ExactlyOwned, Range;
    OthersHold(s, s', t);
    RangeSize(pos, n);
    GainStep(s, s', owner, Thread(t), Range(pos, n));
    Joined(Bits(s.words), Range(pos, n));
  }

  lemma LossOwns(s: State, s': State, t: nat, owner: map<nat, Holder>, pos: nat, n: nat)
    requires t < |s.threads| == |s'.threads| && s'.live == s.live && s'.threads == s.threads[t := s'.threads[t]]
    requires OwnedBy(s, owner) && Loses(s, s', t, pos, n)
    ensures Owns(s, s', t)
  {
    hide Bits, Owned, OwnedBy, Uncharged, HeldBy, ExactlyOwned, Range;
    OthersHold(s, s', t);
    OwnsSetBits(s, owner, Thread(t));
    RangeSize(pos, n);
    LossStep(s, s', owner, Thread(t), Range(pos, n));
    Joined(Bits(s'.words), Range(pos, n));
    assert Bits(s'.words) + Range(pos, n) == Bits(s.words);
  }

  lemma SetStepKeeps(s: State, t: nat)
    requires Inv(s) && t < |s.threads| && s.threads[t].Setting?
    ensures s.Shape() && InBounds(s.threads[t], s.endBit) && Inv(SetStep(s, t))
  {
    hide *;
    var owner := Unpack(s, t);
    SetStepEffect(s, t);
    var s', op := SetStep(s, t), s.threads[t];
    if Same(s, s', t) {
      SameOwns(s, s', t, owner);
    } else {
      var pos := op.start + op.done;
      GainOwns(s, s', t, owner, pos, PieceLen(pos, op.start + op.nr));
    }
    OwnsKeeps(s, s', t);
  }

  lemma ClearStepKeeps(s: State, t: nat)
    requires Inv(s) && t < |s.threads| && s.threads[t].Clearing?
    ensures s.Shape() && InBounds(s.threads[t], s.endBit) && Inv(ClearStep(s, t))
  {
    hide *;
    var owner := Unpack(s, t);
    ClearStepEffect(s, t);
    var s', op := ClearStep(s, t), s.threads[t];
    if Same(s, s', t) {
      SameOwns(s, s', t, owner);
    } else {
      var pos := op.start + op.done;
      LossOwns(s, s', t, owner, pos, PieceLen(pos, op.start + op.nr));
    }
    OwnsKeeps(s, s', t);
  }

  lemma OwnsKeeps(s: State, s': State, t: nat)
    requires Inv(s) && t < |s.threads| == |s'.threads| && Owns(s, s', t)
    requires s' == s.(words := s'.words, threads := s.threads[t := s'.threads[t]])
    requires |s'.words| == |s.words| && ThreadOk(s'.threads[t], s.endBit)
    ensures Inv(s')
  {
    hide Bits, ExactlyOwned, Uncharged, ThreadOk, Inv;
    RestKeeps(s, s', t, 0);
  }

  /** The bits of a finished attempt become an allocation, and are charged to `avail`. */
  lemma TakenKeeps(s: State, s': State, t: nat, r: Region)
    requires Inv(s) && t < |s.threads| && s.threads[t] == Taken(r.start, r.nr)
    requires s' == s.(avail := s.avail - s.granule * r.nr, live := s.live + {r}, threads := s.threads[t := Idle])
    ensures Inv(s')
  {
    hide OwnedBy, Bits, Inv, ExactlyOwned;
    var owner := Unpack(s, t);
    if r in s.live {
      OneHolder(s, owner, Thread(t), Allocation(r), r.start);
    }
    hide Range;
    HandOver(s, s', owner, Thread(t), Allocation(r));
    RestKeeps(s, s', t, r.nr);
  }

  /** Freeing hands an allocation's bits to the freeing thread. */
  lemma BeginFreeKeeps(s: State, s': State, t: nat, r: Region)
    requires Inv(s) && t < |s.threads| && s.threads[t] == Idle && r in s.live
    requires s' == s.(live := s.live - {r}, threads := s.threads[t := Clearing(Free, r.start, r.nr, 0, None)])
    ensures Inv(s')
  {
    hide OwnedBy, Bits, Range, ExactlyOwned, Accounted;
    var owner := Unpack(s, t);
    HandOver(s, s', owner, Allocation(r), Thread(t));
    RestKeeps(s, s', t, 0);
  }

  /** Starting an allocation, and crediting `avail` after a free, move no bit. */
  lemma NoBitsKeeps(s: State, s': State, t: nat, x: int)
    requires Inv(s) && t < |s.threads| == |s'.threads|
    requires s' == s.(avail := s'.avail, threads := s.threads[t := s'.threads[t]])
    requires Owned(s.threads[t]) == Owned(s'.threads[t]) == {} && ThreadOk(s'.threads[t], s.endBit)
    requires x == Uncharged(s.threads[t]) - Uncharged(s'.threads[t])
    requires s'.avail == s.avail - s.granule * x
    ensures Inv(s')
  {
    hide *;
    var owner := Unpack(s, t);
    OthersHold(s, s', t);
    QuietStep(s, s', owner);
    RestKeeps(s, s', t, x);
  }

  lemma StepKeeps(s: State, t: nat, c: Choice)
    requires Inv(s) && Enabled(s, t, c)
    ensures Inv(Step(s, t, c))
  {
    hide Inv, SetStep, ClearStep, And, PieceMask;
    var owner := Unpack(s, t);
    match c
    case BeginAlloc(start, nr) =>
      RangeEmpty(start);
      NoBitsKeeps(s, Step(s, t, c), t, 0);
    case BeginFree(r) => BeginFreeKeeps(s, Step(s, t, c), t, r);
    case Go =>
      match s.threads[t]
      case Setting(_, _, _, _) => SetStepKeeps(s, t);
      case Clearing(_, _, _, _, _) => ClearStepKeeps(s, t);
      case Taken(start, nr) => TakenKeeps(s, Step(s, t, c), t, Region(start, nr));
      case Cleared(nr) => NoBitsKeeps(s, Step(s, t, c), t, 0 - nr);
  }

  lemma InitOwned(s: State)
    requires Init(s)
    ensures ExactlyOwned(s)
  {
    assert Bits(s.words) == {};
    assert OwnedBy(s, map[]);
  }

  lemma InitInv(s: State)
    requires Init(s)
    ensures Inv(s)
  {
    hide ExactlyOwned, Bits;
    InitOwned(s);
    NothingSet(s.words);
    TotalUnchargedIdle(s.threads);
  }

  lemma NothingSet(words: seq<Word>)
    requires forall p :: 0 <= p < |words| ==> words[p] == ZERO
    ensures Bits(words) == {}
  {}

  // ---- Every run ----

  /** `run` lists the states of an execution: it starts freshly added, and each state follows from
      the one before by some enabled step of some thread. */
  ghost predicate IsRun(run: seq<State>) {
    && |run| > 0 && Init(run[0])
    && forall i :: 0 < i < |run| ==> Follows(run[i - 1], run[i])
  }

  ghost predicate Follows(s: State, s': State) {
    s.Shape() && exists t, c :: Enabled(s, t, c) && s' == Step(s, t, c)
  }

  lemma {:induction false} RunInv(run: seq<State>, i: nat)
    requires IsRun(run) && i < |run|
    ensures Inv(run[i])
  {
    hide Inv, Init, Step, Enabled;
    if i == 0 {
      InitInv(run[0]);
    } else {
      RunInv(run, i - 1);
      assert Follows(run[i - 1], run[i]);
      var t, c :| Enabled(run[i - 1], t, c) && run[i] == Step(run[i - 1], t, c);
      StepKeeps(run[i - 1], t, c);
    }
  }

  /** Some live allocation or some attempt in progress holds the bit. */
  ghost predicate HeldAt(s: State, k: nat) {
    || (exists r :: r in s.live && k in Range(r.start, r.nr))
    || (exists t :: 0 <= t < |s.threads| && k in Owned(s.threads[t]))
  }

  /** In every state of every run, for any number of threads: neither BUG_ON(remain) has fired; a bit is
      set exactly when a live allocation or an attempt in progress holds it, and no two of these, of
      either kind, hold the same bit. */
  lemma RunsAreSafe(run: seq<State>, i: nat)
    requires IsRun(run) && i < |run|
    ensures var s := run[i];
      && (forall t :: 0 <= t < |s.threads| ==> s.threads[t] != Bug)
      && (forall k :: k in Bits(s.words) <==> HeldAt(s, k))
      && (forall q, r :: q in s.live && r in s.live && q != r ==>
            Range(q.start, q.nr) !! Range(r.start, r.nr))
      && (forall r, t :: r in s.live && 0 <= t < |s.threads| ==>
            Range(r.start, r.nr) !! Owned(s.threads[t]))
      && (forall t, u :: 0 <= t < u < |s.threads| ==> Owned(s.threads[t]) !! Owned(s.threads[u]))
  {
    hide Bits, Range, Owned, OwnedBy, HeldAt;
    RunInv(run, i);
    var s := run[i];
    var owner :| OwnedBy(s, owner);
    forall q, r | q in s.live && r in s.live && q != r
      ensures Range(q.start, q.nr) !! Range(r.start, r.nr)
    {
      Apart(s, owner, Allocation(q), Allocation(r));
    }
    forall r, t | r in s.live && 0 <= t < |s.threads|
      ensures Range(r.start, r.nr) !! Owned(s.threads[t])
    {
      Apart(s, owner, Allocation(r), Thread(t));
    }
    forall t, u | 0 <= t < u < |s.threads| ensures Owned(s.threads[t]) !! Owned(s.threads[u]) {
      Apart(s, owner, Thread(t), Thread(u));
    }
    forall k ensures k in Bits(s.words) <==> HeldAt(s, k) {
      SetMeansHeld(s, owner, k);
    }
  }

  lemma SetMeansHeld(s: State, owner: map<nat, Holder>, k: nat)
    requires OwnedBy(s, owner)
    ensures k in Bits(s.words) <==> HeldAt(s, k)
  {
    hide Bits, Range, Owned;
    if k in Bits(s.words) {
      assert k in HeldBy(s, owner[k]);
    }
    if HeldAt(s, k) {
      if r :| r in s.live && k in Range(r.start, r.nr) {
        assert k in HeldBy(s, Allocation(r));
      } else {
        var t :| 0 <= t < |s.threads| && k in Owned(s.threads[t]);
        assert k in HeldBy(s, Thread(t));
      }
    }
  }

  lemma Apart(s: State, owner: map<nat, Holder>, g: Holder, h: Holder)
    requires OwnedBy(s, owner) && g != h
    ensures HeldBy(s, g) !! HeldBy(s, h)
  {
    hide HeldBy, Bits;
    forall k | k in HeldBy(s, g) ensures k !in HeldBy(s, h) {
      if k in HeldBy(s, h) {
        OneHolder(s, owner, g, h, k);
      }
    }
  }

  /** Whenever no operation is in flight, `avail` is exactly the chunk size minus the bytes of the
      set bits, whatever conflicts, rollbacks and reorderings came before. */
  lemma QuiescentAvail(run: seq<State>, i: nat)
    requires IsRun(run) && i < |run|
    requires forall t :: 0 <= t < |run[i].threads| ==> run[i].threads[t] == Idle
    ensures run[i].avail == run[i].size - run[i].granule * |Bits(run[i].words)|
  {
    RunInv(run, i);
    TotalUnchargedIdle(run[i].threads);
  }

  // ---- What an operation comes to ----

  /** Thread t, moving alone, gets from s to s' in n steps. */
  ghost predicate Reaches(s: State, t: nat, s': State, n: nat)
    decreases n
  {
    && s.Shape()
    && if n == 0 then s' == s else Enabled(s, t, Go) && Reaches(Step(s, t, Go), t, s', n - 1)
  }

  lemma {:induction false} ReachesOn(a: State, t: nat, b: State, n: nat, c: State, m: nat)
    requires Reaches(a, t, b, n) && Reaches(b, t, c, m)
    ensures Reaches(a, t, c, n + m)
    decreases n
  {
    hide Step, Enabled;
    if n > 0 {
      ReachesOn(Step(a, t, Go), t, b, n - 1, c, m);
    }
  }

  /** A step that leaves the words at `words` and the thread at `op`. */
  function At(s: State, t: nat, words: seq<Word>, op: Op): State
    requires t < |s.threads|
  {
    s.(words := words, threads := s.threads[t := op])
  }

  lemma AtTwice(s: State, t: nat, words: seq<Word>, op: Op, words': seq<Word>, op': Op)
    requires t < |s.threads|
    ensures At(At(s, t, words, op), t, words', op') == At(s, t, words', op')
  {}

  lemma TwoSteps(s: State, t: nat, a: State, b: State)
    requires s.Shape() && Enabled(s, t, Go) && a == Step(s, t, Go) && a.Shape()
    requires Enabled(a, t, Go) && b == Step(a, t, Go) && b.Shape()
    ensures Reaches(s, t, b, 2)
  {
    hide Step, Enabled;
    assert Reaches(b, t, b, 0) && Reaches(a, t, b, 1);
  }

  /** With the word it loaded still in place, a setting thread takes the piece or gives up. */
  lemma SetLoaded(s: State, t: nat, start: nat, nr: nat, done: nat)
    requires s.Shape() && t < |s.threads| && done < nr && start + nr <= s.endBit
    requires s.threads[t] == Setting(start, nr, done, Some(s.words[(start + done) / BITS_PER_LONG]))
    ensures var pos, end := start + done, start + nr;
      var p, mask, done' := pos / BITS_PER_LONG, PieceMask(pos, end), done + PieceLen(pos, end);
      Enabled(s, t, Go) && Step(s, t, Go) ==
        if And(s.words[p], mask) != ZERO then At(s, t, s.words, Clearing(RollBack, start, done, 0, None))
        else At(s, t, s.words[p := Or(s.words[p], mask)],
                if done' == nr then Taken(start, nr) else Setting(start, nr, done', None))
  {
    hide PieceMask, And, Or, PieceLen;
  }

  /** A setting thread alone loads a word and then takes the piece, or gives up on it. */
  lemma SetPieceAlone(s: State, t: nat, start: nat, nr: nat, done: nat)
    requires s.Shape() && t < |s.threads| && s.threads[t] == Setting(start, nr, done, None)
    requires done < nr && start + nr <= s.endBit
    ensures var pos, end := start + done, start + nr;
      var p, mask, done' := pos / BITS_PER_LONG, PieceMask(pos, end), done + PieceLen(pos, end);
      Reaches(s, t,
        if And(s.words[p], mask) != ZERO then At(s, t, s.words, Clearing(RollBack, start, done, 0, None))
        else At(s, t, s.words[p := Or(s.words[p], mask)],
                if done' == nr then Taken(start, nr) else Setting(start, nr, done', None)), 2)
  {
    hide PieceMask, And, Or, Reaches, PieceLen;
    var p := (start + done) / BITS_PER_LONG;
    var a := At(s, t, s.words, Setting(start, nr, done, Some(s.words[p])));
    assert a == Step(s, t, Go);
    SetLoaded(a, t, start, nr, done);
    var b := Step(a, t, Go);
    AtTwice(s, t, s.words, a.threads[t], b.words, b.threads[t]);
    hide Step, Enabled;
    TwoSteps(s, t, a, b);
  }

  lemma {:induction false} SetAlone(s: State, t: nat, start: nat, nr: nat, done: nat) returns (n: nat)
    requires s.Shape() && t < |s.threads| && s.threads[t] == Setting(start, nr, done, None)
    requires done < nr && start + nr <= s.endBit
    ensures var (after, remain) := Bitmap.SetFrom(s.words, start + done, start + nr);
      && |after| == |s.words| && remain <= nr - done
      && var op := if remain == 0 then Taken(start, nr) else Clearing(RollBack, start, nr - remain, 0, None);
         Reaches(s, t, At(s, t, after, op), n)
    decreases nr - done
  {
    hide PieceMask, And, Or, Reaches, Bits;
    var pos, end := start + done, start + nr;
    Bitmap.SetFromBits(s.words, pos, end);
    SetPieceAlone(s, t, start, nr, done);
    n := 2;
    var done' := done + PieceLen(pos, end);
    var p := pos / BITS_PER_LONG;
    if And(s.words[p], PieceMask(pos, end)) == ZERO && done' < nr {
      var next := At(s, t, s.words[p := Or(s.words[p], PieceMask(pos, end))], Setting(start, nr, done', None));
      var m := SetAlone(next, t, start, nr, done');
      var (after, remain) := Bitmap.SetFrom(next.words, start + done', end);
      var op := if remain == 0 then Taken(start, nr) else Clearing(RollBack, start, nr - remain, 0, None);
      AtTwice(s, t, next.words, next.threads[t], after, op);
      ReachesOn(s, t, next, 2, At(s, t, after, op), m);
      n := 2 + m;
    }
  }

  lemma ClearLoaded(s: State, t: nat, purpose: Purpose, start: nat, nr: nat, done: nat)
    requires s.Shape() && t < |s.threads| && done < nr && start + nr <= s.endBit
    requires s.threads[t] == Clearing(purpose, start, nr, done, Some(s.words[(start + done) / BITS_PER_LONG]))
    ensures var pos, end := start + done, start + nr;
      var p, mask := pos / BITS_PER_LONG, PieceMask(pos, end);
      Enabled(s, t, Go) && Step(s, t, Go) ==
        if And(s.words[p], mask) != mask then At(s, t, s.words, Bug)
        else At(s, t, s.words[p := And(s.words[p], Not(mask))],
                Clearing(purpose, start, nr, done + PieceLen(pos, end), None))
  {
    hide PieceMask, And, Not, PieceLen;
  }

  /** A clearing thread alone loads a word and then clears the piece, or finds it was not all set. */
  lemma ClearPieceAlone(s: State, t: nat, purpose: Purpose, start: nat, nr: nat, done: nat)
    requires s.Shape() && t < |s.threads| && s.threads[t] == Clearing(purpose, start, nr, done, None)
    requires done < nr && start + nr <= s.endBit
    ensures var pos, end := start + done, start + nr;
      var p, mask := pos / BITS_PER_LONG, PieceMask(pos, end);
      Reaches(s, t,
        if And(s.words[p], mask) != mask then At(s, t, s.words, Bug)
        else At(s, t, s.words[p := And(s.words[p], Not(mask))],
                Clearing(purpose, start, nr, done + PieceLen(pos, end), None)), 2)
  {
    hide PieceMask, And, Not, Reaches, PieceLen;
    var p := (start + done) / BITS_PER_LONG;
    var a := At(s, t, s.words, Clearing(purpose, start, nr, done, Some(s.words[p])));
    assert a == Step(s, t, Go);
    ClearLoaded(a, t, purpose, start, nr, done);
    var b := Step(a, t, Go);
    AtTwice(s, t, s.words, a.threads[t], b.words, b.threads[t]);
    hide Step, Enabled;
    TwoSteps(s, t, a, b);
  }

  function Finished(purpose: Purpose, nr: nat): Op {
    if purpose == RollBack then Idle else Cleared(nr)
  }

  lemma {:induction false} ClearAlone(s: State, t: nat, purpose: Purpose, start: nat, nr: nat, done: nat)
    returns (n: nat)
    requires s.Shape() && t < |s.threads| && s.threads[t] == Clearing(purpose, start, nr, done, None)
    requires done <= nr && start + nr <= s.endBit
    ensures var (after, remain) := Bitmap.ClearFrom(s.words, start + done, start + nr);
      && |after| == |s.words|
      && Reaches(s, t, At(s, t, after, if remain == 0 then Finished(purpose, nr) else Bug), n)
    decreases nr - done
  {
    hide PieceMask, And, Not, Reaches, Bits, PieceLen;
    var pos, end := start + done, start + nr;
    Bitmap.ClearFromBits(s.words, pos, end);
    if done == nr {
      n := 1;
      LastClear(s, t, purpose, start, nr);
    } else {
      ClearPieceAlone(s, t, purpose, start, nr, done);
      n := 2;
      var done' := done + PieceLen(pos, end);
      var p, mask := pos / BITS_PER_LONG, PieceMask(pos, end);
      PieceInside(pos, end);
      if And(s.words[p], mask) == mask {
        var next := At(s, t, s.words[p := And(s.words[p], Not(mask))], Clearing(purpose, start, nr, done', None));
        var m := ClearAlone(next, t, purpose, start, nr, done');
        var (after, remain) := Bitmap.ClearFrom(next.words, start + done', end);
        var op := if remain == 0 then Finished(purpose, nr) else Bug;
        AtTwice(s, t, next.words, next.threads[t], after, op);
        ReachesOn(s, t, next, 2, At(s, t, after, op), m);
        n := 2 + m;
      }
    }
  }

  lemma PieceInside(pos: nat, end: nat)
    requires pos < end
    ensures 0 < PieceLen(pos, end) <= end - pos
  {}

  lemma LastClear(s: State, t: nat, purpose: Purpose, start: nat, nr: nat)
    requires s.Shape() && t < |s.threads| && s.threads[t] == Clearing(purpose, start, nr, nr, None)
    requires start + nr <= s.endBit
    ensures Reaches(s, t, At(s, t, s.words, Finished(purpose, nr)), 1)
  {
    var a := At(s, t, s.words, Finished(purpose, nr));
    assert Step(s, t, Go) == a;
    assert Reaches(a, t, a, 0);
  }

  /** An attempt that no other thread disturbs takes its range, and sets exactly its bits, if the range is
      clear; otherwise it ends with every word as it was. */
  lemma AttemptAlone(s: State, t: nat, start: nat, nr: nat) returns (s': State, n: nat)
    requires s.Shape() && t < |s.threads| && s.threads[t] == Setting(start, nr, 0, None)
    requires 0 < nr && start + nr <= s.endBit
    ensures Reaches(s, t, s', n) && |s'.words| == |s.words|
    ensures Range(start, nr) !! Bits(s.words) ==>
      s' == At(s, t, s'.words, Taken(start, nr)) && Bits(s'.words) == Bits(s.words) + Range(start, nr)
    ensures !(Range(start, nr) !! Bits(s.words)) ==> s' == At(s, t, s.words, Idle)
  {
    hide Bits, Reaches, Bitmap.SetFrom, Bitmap.ClearFrom, Range;
    Bitmap.SetFromBits(s.words, start, start + nr);
    Bitmap.ClearUndoesSet(s.words, start, nr);
    n := SetAlone(s, t, start, nr, 0);
    var (after, remain) := Bitmap.SetFrom(s.words, start, start + nr);
    if remain == 0 {
      s' := At(s, t, after, Taken(start, nr));
    } else {
      var mid := At(s, t, after, Clearing(RollBack, start, nr - remain, 0, None));
      var m := ClearAlone(mid, t, RollBack, start, nr - remain, 0);
      AtTwice(s, t, after, mid.threads[t], s.words, Idle);
      s' := At(s, t, s.words, Idle);
      ReachesOn(s, t, mid, n, s', m);
      n := n + m;
    }
  }

  /** A free that no other thread disturbs clears exactly its range if all of it is set; otherwise it is
      the BUG_ON. */
  lemma FreeAlone(s: State, t: nat, start: nat, nr: nat) returns (s': State, n: nat)
    requires s.Shape() && t < |s.threads| && s.threads[t] == Clearing(Free, start, nr, 0, None)
    requires start + nr <= s.endBit
    ensures Reaches(s, t, s', n) && |s'.words| == |s.words|
    ensures Range(start, nr) <= Bits(s.words) ==>
      s' == At(s, t, s'.words, Cleared(nr)) && Bits(s'.words) == Bits(s.words) - Range(start, nr)
    ensures !(Range(start, nr) <= Bits(s.words)) ==> s' == At(s, t, s'.words, Bug)
  {
    hide Bits, Reaches, Bitmap.ClearFrom, Range;
    Bitmap.ClearFromBits(s.words, start, start + nr);
    n := ClearAlone(s, t, Free, start, nr, 0);
    var (after, remain) := Bitmap.ClearFrom(s.words, start, start + nr);
    s' := At(s, t, after, if remain == 0 then Cleared(nr) else Bug);
  }

  lemma OneMore(a: State, t: nat, b: State, n: nat, c: State)
    requires Reaches(a, t, b, n) && b.Shape() && Enabled(b, t, Go) && c == Step(b, t, Go) && c.Shape()
    ensures Reaches(a, t, c, n + 1)
  {
    hide Step, Enabled;
    assert Reaches(c, t, c, 0) && Reaches(b, t, c, 1);
    ReachesOn(a, t, b, n, c, 1);
  }

  /** A whole allocation at any place of the chunk, undisturbed: the region is live, its bits are set and its
      bytes are charged, if the place is clear; otherwise nothing has changed. */
  lemma AllocAlone(s: State, t: nat, start: nat, nr: nat) returns (s': State, n: nat)
    requires s.Shape() && t < |s.threads| && s.threads[t] == Idle && 0 < nr < U32 && start + nr <= s.endBit
    ensures Enabled(s, t, BeginAlloc(start, nr)) && Reaches(Step(s, t, BeginAlloc(start, nr)), t, s', n)
    ensures Range(start, nr) !! Bits(s.words) ==>
      && |s'.words| == |s.words| && Bits(s'.words) == Bits(s.words) + Range(start, nr)
      && s' == s.(words := s'.words, avail := s.avail - nr * s.granule, live := s.live + {Region(start, nr)})
    ensures !(Range(start, nr) !! Bits(s.words)) ==> s' == s
  {
    hide Bits, Range, Reaches;
    var a := Step(s, t, BeginAlloc(start, nr));
    assert a == At(s, t, s.words, Setting(start, nr, 0, None));
    var m;
    m, n := AttemptAlone(a, t, start, nr);
    if Range(start, nr) !! Bits(s.words) {
      AtTwice(s, t, s.words, a.threads[t], m.words, Taken(start, nr));
      s' := s.(words := m.words, avail := s.avail - nr * s.granule, live := s.live + {Region(start, nr)});
      assert m.threads[t := Idle] == s.threads;
      assert s' == Step(m, t, Go);
      OneMore(a, t, m, n, s');
      n := n + 1;
    } else {
      AtTwice(s, t, s.words, a.threads[t], s.words, Idle);
      assert s.threads[t := Idle] == s.threads;
      s' := s;
    }
  }

  /** And a whole free of a live region whose bits are set. */
  lemma FreeCallAlone(s: State, t: nat, r: Region) returns (s': State, n: nat)
    requires s.Shape() && t < |s.threads| && s.threads[t] == Idle && r in s.live
    requires r.start + r.nr <= s.endBit && Range(r.start, r.nr) <= Bits(s.words)
    ensures Enabled(s, t, BeginFree(r)) && Reaches(Step(s, t, BeginFree(r)), t, s', n)
    ensures |s'.words| == |s.words| && Bits(s'.words) == Bits(s.words) - Range(r.start, r.nr)
    ensures s' == s.(words := s'.words, avail := s.avail + r.nr * s.granule, live := s.live - {r})
  {
    hide Bits, Range, Reaches;
    var a := Step(s, t, BeginFree(r));
    var m;
    m, n := FreeAlone(a, t, r.start, r.nr);
    s' := s.(words := m.words, avail := s.avail + r.nr * s.granule, live := s.live - {r});
    assert m.threads[t := Idle] == s.threads;
    assert s' == Step(m, t, Go);
    OneMore(a, t, m, n, s');
    n := n + 1;
  }

  /** Both attempts at the same place, at the same point. */
  predicate SamePlace(a: Op, b: Op) {
    a.Setting? && b.Setting? && a.start == b.start && a.nr == b.nr && a.done == b.done
  }

  /** A setting thread comes by a word value only by loading the word it works on. */
  lemma StepLoads(s: State, t: nat, c: Choice, u: nat)
    requires s.Shape() && Enabled(s, t, c) && u < |s.threads|
    ensures |Step(s, t, c).threads| == |s.threads|
    ensures var op := Step(s, t, c).threads[u];
      op.Setting? && op.val.Some? && op != s.threads[u] ==>
        && SamePlace(s.threads[u], op)
        && var p := (op.start + op.done) / BITS_PER_LONG;
           p < |s.words| && op.val.value == s.words[p]
  {
    hide PieceMask, And, Or, Not;
  }

  /** The value a setting thread holds is that of its word at some earlier state, and the thread has not
      moved since. */
  lemma {:induction false} LoadedWhen(run: seq<State>, i: nat, t: nat) returns (j: nat)
    requires IsRun(run) && i < |run| && t < |run[i].threads|
    requires run[i].threads[t].Setting? && run[i].threads[t].val.Some?
    ensures var op := run[i].threads[t];
      var p := (op.start + op.done) / BITS_PER_LONG;
      && j < i && t < |run[j].threads| && SamePlace(run[j].threads[t], op)
      && p < |run[j].words| && op.val.value == run[j].words[p]
      && forall l :: j < l <= i ==> t < |run[l].threads| && run[l].threads[t] == op
    decreases i
  {
    hide Step, Enabled;
    if i > 0 {
      assert Follows(run[i - 1], run[i]);
      var u, c :| Enabled(run[i - 1], u, c) && run[i] == Step(run[i - 1], u, c);
      SameThreads(run[i - 1], u, c);
      StepLoads(run[i - 1], u, c, t);
      if run[i - 1].threads[t] == run[i].threads[t] {
        j := LoadedWhen(run, i - 1, t);
      } else {
        j := i - 1;
      }
    }
  }

  lemma SameThreads(s: State, t: nat, c: Choice)
    requires s.Shape() && Enabled(s, t, c)
    ensures |Step(s, t, c).threads| == |s.threads|
    ensures forall u :: 0 <= u < |s.threads| && u != t ==> Step(s, t, c).threads[u] == s.threads[u]
  {
    hide PieceMask, And, Or, Not;
  }

  /** Some bit of the piece the attempt is at is set. */
  ghost predicate PieceTaken(words: seq<Word>, op: Op)
    requires op.Setting?
  {
    var pos, end := op.start + op.done, op.start + op.nr;
    pos < end && !(Range(pos, PieceLen(pos, end)) !! Bits(words))
  }

  /** In every run, an attempt that has loaded a word next rolls back if and only if some bit of the piece
      it is at was set when it loaded the word. */
  lemma RollbackIff(run: seq<State>, i: nat, t: nat) returns (j: nat)
    requires IsRun(run) && i + 1 < |run| && t < |run[i].threads| && t < |run[i + 1].threads|
    requires run[i].threads[t].Setting? && run[i].threads[t].val.Some?
    requires run[i + 1].threads[t] != run[i].threads[t]
    ensures var op, next := run[i].threads[t], run[i + 1].threads[t];
      && j < i && t < |run[j].threads| && SamePlace(run[j].threads[t], op)
      && (forall l :: j < l <= i ==> t < |run[l].threads| && run[l].threads[t] == op)
      && if PieceTaken(run[j].words, op) then next == Clearing(RollBack, op.start, op.done, 0, None)
         else next.Setting? || next.Taken?
  {
    hide Inv, PieceTaken, IsRun, SamePlace;
    j := LoadedWhen(run, i, t);
    RunInv(run, j);
    LoadedConflict(run[j], t, run[i].threads[t]);
    NextMove(run, i, t);
  }

  predicate Hit(op: Op)
    requires op.Setting? && op.val.Some?
  {
    op.done < op.nr && And(op.val.value, PieceMask(op.start + op.done, op.start + op.nr)) != ZERO
  }

  lemma LoadedConflict(s: State, t: nat, op: Op)
    requires Inv(s) && t < |s.threads| && SamePlace(s.threads[t], op) && op.val.Some?
    requires (op.start + op.done) / BITS_PER_LONG < |s.words|
    requires op.val.value == s.words[(op.start + op.done) / BITS_PER_LONG]
    ensures Hit(op) <==> PieceTaken(s.words, op)
  {
    hide Bits, Range, PieceLen, PieceMask, And, ExactlyOwned, Accounted;
    PieceFree(s.words, op.start + op.done, op.start + op.nr);
  }

  lemma NextMove(run: seq<State>, i: nat, t: nat)
    requires IsRun(run) && i + 1 < |run| && t < |run[i].threads| && t < |run[i + 1].threads|
    requires run[i].threads[t].Setting? && run[i].threads[t].val.Some?
    requires run[i + 1].threads[t] != run[i].threads[t]
    ensures var op, next := run[i].threads[t], run[i + 1].threads[t];
      if Hit(op) then next == Clearing(RollBack, op.start, op.done, 0, None) else next.Setting? || next.Taken?
  {
    hide Step, Enabled, Hit;
    assert Follows(run[i], run[i + 1]);
    var u, c :| Enabled(run[i], u, c) && run[i + 1] == Step(run[i], u, c);
    SameThreads(run[i], u, c);
    LoadedStep(run[i], t, c);
  }

  lemma LoadedStep(s: State, t: nat, c: Choice)
    requires s.Shape() && Enabled(s, t, c) && s.threads[t].Setting? && s.threads[t].val.Some?
    ensures |Step(s, t, c).threads| == |s.threads|
    ensures var op, next := s.threads[t], Step(s, t, c).threads[t];
      if Hit(op) then next == Clearing(RollBack, op.start, op.done, 0, None) else next.Setting? || next.Taken?
  {
    hide PieceMask, And, Or, Not;
  }
}
