/** The madvise / use-count / purge protocol of VC4 buffer objects (BOs) under arbitrary interleaving.
    Any number of threads run vc4_bo_inc_usecnt, vc4_bo_dec_usecnt, the madvise ioctl and the
    userspace-cache purge on any number of BOs. The use count is changed without a lock on its fast
    paths; everything else happens under the BO's madv_lock or the purgeable pool's lock. */
module PurgeProtocol {
  import opened Options
  import opened Lists
  import opened MadvState

  /** `mem` says whether the BO still has its DMA memory; `lock` is the thread holding madv_lock. */
  datatype Bo = Bo(madv: Madv, usecnt: int, lock: Option<nat>, mem: bool)

  /** The next atomic step of a thread, with the BO it is working on. */
  datatype Pc =
    | Idle
    // vc4_bo_inc_usecnt, past its failed fast path
    | IncLock(b: nat) | IncSwitch(b: nat) | IncTry(b: nat) | IncSet(b: nat)
    // vc4_bo_dec_usecnt; `seen` is the value refcount_dec_not_one read
    | DecRead(b: nat) | DecSwap(b: nat, seen: int) | DecLock(b: nat) | DecTest(b: nat) | DecAdd(b: nat)
    // vc4_gem_madvise_ioctl
    | AdvLock(b: nat, advice: Madv) | AdvCount(b: nat, advice: Madv)
    | AdvPool(b: nat, advice: Madv, zero: bool) | AdvStore(b: nat, advice: Madv)
    // vc4_bo_userspace_cache_purge
    | PurgePick | PurgeLock(b: nat) | PurgeCheck(b: nat) | PurgeFree(b: nat) | PurgeMark(b: nat)
    | Unlock(b: nat)

  datatype PoolOp = Keep | Add | Remove

  /** What one atomic step does: the BO it leaves, the thread's next step, the references to the BO it
      hands out (+1) or takes back (-1), and its effect on the purgeable list. */
  datatype Move = Move(bo: Bo, pc: Pc, handed: int, pool: PoolOp)

  datatype Choice = Inc(b: nat) | Dec(b: nat) | Madvise(b: nat, advice: Madv) | Purge | Go

  /** The critical section a thread is in. */
  function Holds(pc: Pc): Option<nat> {
    match pc
    case IncSwitch(b) => Some(b) case IncTry(b) => Some(b) case IncSet(b) => Some(b)
    case DecTest(b) => Some(b) case DecAdd(b) => Some(b)
    case AdvCount(b, _) => Some(b) case AdvPool(b, _, _) => Some(b) case AdvStore(b, _) => Some(b)
    case PurgeCheck(b) => Some(b) case PurgeFree(b) => Some(b) case PurgeMark(b) => Some(b)
    case Unlock(b) => Some(b)
    case _ => None
  }

  /** The BO a thread is working on. */
  function Target(pc: Pc): Option<nat> {
    match pc
    case IncLock(b) => Some(b) case DecRead(b) => Some(b) case DecSwap(b, _) => Some(b)
    case DecLock(b) => Some(b) case AdvLock(b, _) => Some(b) case PurgeLock(b) => Some(b)
    case _ => Holds(pc)
  }

  /** The thread still owes the count one decrement for this BO. */
  function Owes(pc: Pc, b: nat): int {
    if pc == DecRead(b) || (pc.DecSwap? && pc.b == b) || pc == DecLock(b) || pc == DecTest(b) then 1 else 0
  }

  /** The thread has taken the BO off the list and has not yet looked at it under its lock. */
  predicate Limbo(pc: Pc, b: nat) {
    pc == PurgeLock(b) || pc == PurgeCheck(b)
  }

  predicate CanMove(bo: Bo, pc: Pc, c: Choice, refs: nat) {
    match c
    case Inc(_) => pc == Idle
    case Dec(_) => pc == Idle && refs > 0
    case Madvise(_, advice) => pc == Idle && (advice == WillNeed || advice == DontNeed)
    case Purge => false
    case Go => Target(pc).Some? && (pc.IncLock? || pc.DecLock? || pc.AdvLock? || pc.PurgeLock? ==> bo.lock == None)
  }

  function MoveOf(bo: Bo, pc: Pc, c: Choice, t: nat, listed: bool): Move {
    match c
    case Inc(b) =>  // refcount_inc_not_zero
      if bo.usecnt != 0 then Move(bo.(usecnt := bo.usecnt + 1), Idle, 1, Keep) else Move(bo, IncLock(b), 0, Keep)
    case Dec(b) => Move(bo, DecRead(b), -1, Keep)
    case Madvise(b, advice) =>
      if bo.madv == NotSupp then Move(bo, Idle, 0, Keep) else Move(bo, AdvLock(b, advice), 0, Keep)
    case Purge => Move(bo, pc, 0, Keep)
    case Go => GoMove(bo, pc, t, listed)
  }

  function GoMove(bo: Bo, pc: Pc, t: nat, listed: bool): Move {
    match pc
    case IncLock(b) => Move(bo.(lock := Some(t)), IncSwitch(b), 0, Keep)
    case IncSwitch(b) => Move(bo, if bo.madv == WillNeed then IncTry(b) else Unlock(b), 0, Keep)
    case IncTry(b) =>
      if bo.usecnt != 0 then Move(bo.(usecnt := bo.usecnt + 1), Unlock(b), 1, Keep) else Move(bo, IncSet(b), 0, Keep)
    case IncSet(b) => Move(bo.(usecnt := 1), Unlock(b), 1, Keep)

    case DecRead(b) => Move(bo, DecSwap(b, bo.usecnt), 0, Keep)
    case DecSwap(b, seen) =>
      if seen == 1 then Move(bo, DecLock(b), 0, Keep)
      else if bo.usecnt == seen then Move(bo.(usecnt := seen - 1), Idle, 0, Keep)
      else Move(bo, DecRead(b), 0, Keep)
    case DecLock(b) => Move(bo.(lock := Some(t)), DecTest(b), 0, Keep)
    case DecTest(b) =>  // refcount_dec_and_test && madv == DONTNEED
      Move(bo.(usecnt := bo.usecnt - 1),
           if bo.usecnt - 1 == 0 && bo.madv == DontNeed then DecAdd(b) else Unlock(b), 0, Keep)
    case DecAdd(b) => Move(bo, Unlock(b), 0, Add)

    case AdvLock(b, advice) => Move(bo.(lock := Some(t)), AdvCount(b, advice), 0, Keep)
    case AdvCount(b, advice) => Move(bo, AdvPool(b, advice, bo.usecnt == 0), 0, Keep)
    case AdvPool(b, advice, zero) =>
      Move(bo, AdvStore(b, advice), 0,
           if advice == DontNeed && bo.madv == WillNeed && zero then Add
           else if advice == WillNeed && bo.madv == DontNeed && zero then Remove
           else Keep)
    case AdvStore(b, advice) =>
      Move(if bo.madv != Purged then bo.(madv := advice) else bo, Unlock(b), 0, Keep)

    case PurgeLock(b) => Move(bo.(lock := Some(t)), PurgeCheck(b), 0, Keep)
    case PurgeCheck(b) =>
      Move(bo, if bo.madv == DontNeed && !listed && bo.usecnt == 0 then PurgeFree(b) else Unlock(b), 0, Keep)
    case PurgeFree(b) => Move(bo.(mem := false), PurgeMark(b), 0, Keep)
    case PurgeMark(b) => Move(bo.(madv := Purged), Unlock(b), 0, Keep)
    case Unlock(b) => Move(bo.(lock := None), Idle, 0, Keep)
    case _ => Move(bo, pc, 0, Keep)
  }

  // ---- What holds of one BO ----

  /** A BO is on the purgeable list exactly when it is unused and marked DONTNEED, except that a
      purger may hold it between delisting it and looking at it. */
  predicate Listing(madv: Madv, usecnt: int, listed: bool, limbo: bool) {
    && (listed ==> madv == DontNeed && usecnt == 0)
    && (madv == DontNeed && usecnt == 0 ==> listed || limbo)
  }

  /** The BO as seen by the thread that holds its lock (`pc` is Idle when nobody does). */
  predicate BoOk(bo: Bo, pc: Pc, listed: bool, limbo: bool) {
    && bo.usecnt >= 0
    && (bo.madv == Purged ==> bo.usecnt == 0)
    && (bo.mem <==> bo.madv != Purged && !pc.PurgeMark?)
    && match pc
       case IncTry(_) => bo.madv == WillNeed && Listing(bo.madv, bo.usecnt, listed, limbo)
       case IncSet(_) => bo.madv == WillNeed && bo.usecnt == 0 && Listing(bo.madv, bo.usecnt, listed, limbo)
       case DecAdd(_) => bo.madv == DontNeed && bo.usecnt == 0 && !listed
       case AdvPool(_, advice, zero) =>
         (zero <==> bo.usecnt == 0) && Advises(bo, advice) && Listing(bo.madv, bo.usecnt, listed, limbo)
       case AdvStore(_, advice) =>
         Advises(bo, advice) && Listing(if bo.madv == Purged then Purged else advice, bo.usecnt, listed, limbo)
       case AdvCount(_, advice) => Advises(bo, advice) && Listing(bo.madv, bo.usecnt, listed, limbo)
       case PurgeFree(_) => bo.madv == DontNeed && bo.usecnt == 0 && !listed
       case PurgeMark(_) => bo.madv == DontNeed && bo.usecnt == 0 && !listed
       case _ => Listing(bo.madv, bo.usecnt, listed, limbo)
  }

  predicate Advises(bo: Bo, advice: Madv) {
    bo.madv != NotSupp && (advice == WillNeed || advice == DontNeed)
  }

  function ListedAfter(listed: bool, op: PoolOp): bool {
    match op case Keep => listed case Add => true case Remove => false
  }

  /** A step of the thread that holds the BO's lock, or takes it, leaves the BO in order for the next
      holder state; `limbo` tells whether some other thread holds the BO in limbo. */
  lemma HolderStep(bo: Bo, pc: Pc, t: nat, b: nat, listed: bool, limbo: bool)
    requires Target(pc) == Some(b)
    requires (Holds(pc) == Some(b) && bo.lock == Some(t)) || (Holds(pc) == None && bo.lock == None)
    requires pc.AdvLock? ==> Advises(bo, pc.advice)
    requires BoOk(bo, if bo.lock.Some? then pc else Idle, listed, limbo || Limbo(pc, b))
    requires bo.usecnt >= Owes(pc, b)
    ensures var m := GoMove(bo, pc, t, listed);
      && BoOk(m.bo, if m.bo.lock.Some? then m.pc else Idle, ListedAfter(listed, m.pool), limbo || Limbo(m.pc, b))
      && (m.pool == Add ==> !listed)
  {
    match pc
    case _ =>
  }

  /** What the holder's step relies on besides. */
  lemma HolderFacts(bo: Bo, pc: Pc, listed: bool, limbo: bool)
    requires BoOk(bo, pc, listed, limbo)
    ensures pc.IncSet? ==> bo.usecnt == 0
    ensures pc.AdvStore? ==> Advises(bo, pc.advice)
    ensures pc.PurgeMark? ==> bo.madv == DontNeed
  {}

  /** What such a step does to the count and the lock. */
  lemma HolderMove(bo: Bo, pc: Pc, t: nat, b: nat, listed: bool)
    requires Target(pc) == Some(b)
    requires (Holds(pc) == Some(b) && bo.lock == Some(t)) || (Holds(pc) == None && bo.lock == None)
    requires pc.IncSet? ==> bo.usecnt == 0
    requires pc.AdvStore? ==> Advises(bo, pc.advice)
    requires pc.PurgeMark? ==> bo.madv == DontNeed
    ensures var m := GoMove(bo, pc, t, listed);
      && (m.bo.madv == NotSupp <==> bo.madv == NotSupp)
      && m.bo.usecnt == bo.usecnt + m.handed + Owes(m.pc, b) - Owes(pc, b)
      && (m.bo.lock == Some(t) <==> Holds(m.pc) == Some(b)) && (m.bo.lock == None <==> Holds(m.pc) == None)
      && (Target(m.pc) == Some(b) || m.pc == Idle) && !m.pc.AdvLock?
  {
    match pc
    case _ =>
  }

  /** A step of any other thread leaves the BO in order for whoever holds the lock. */
  lemma OtherStep(bo: Bo, holder: Pc, pc: Pc, c: Choice, t: nat, b: nat, listed: bool, limbo: bool)
    requires BoOk(bo, holder, listed, limbo || Limbo(pc, b)) && bo.usecnt >= Owes(pc, b)
    requires Holds(pc) == None && (c.Go? ==> Target(pc) == Some(b))
    requires c.Go? ==> !(pc.IncLock? || pc.DecLock? || pc.AdvLock? || pc.PurgeLock?)
    requires c.Go? || (!c.Purge? && pc == Idle && c.b == b)
    ensures var m := MoveOf(bo, pc, c, t, listed);
      BoOk(m.bo, holder, listed, limbo || Limbo(m.pc, b))
  {
    hide MoveOf, Holds, Target;
    OtherMove(bo, pc, c, t, b, listed);
    CountOnly(bo, MoveOf(bo, pc, c, t, listed).bo, holder, listed, limbo || Limbo(pc, b));
  }

  /** What such a step does: nothing, or a change of a count that is not zero before or after. */
  lemma OtherMove(bo: Bo, pc: Pc, c: Choice, t: nat, b: nat, listed: bool)
    requires bo.usecnt >= Owes(pc, b) && bo.usecnt >= 0
    requires Holds(pc) == None && (c.Go? ==> Target(pc) == Some(b))
    requires c.Go? ==> !(pc.IncLock? || pc.DecLock? || pc.AdvLock? || pc.PurgeLock?)
    requires c.Go? || (!c.Purge? && pc == Idle && c.b == b)
    ensures var m := MoveOf(bo, pc, c, t, listed);
      && m.bo == bo.(usecnt := m.bo.usecnt) && m.bo.usecnt >= 0 && (m.bo.usecnt == 0 <==> bo.usecnt == 0)
      && m.pool == Keep && !Limbo(pc, b) && !Limbo(m.pc, b)
      && m.bo.usecnt == bo.usecnt + m.handed + Owes(m.pc, b) - Owes(pc, b)
      && Holds(m.pc) == None && (Target(m.pc) == Some(b) || m.pc == Idle)
      && (m.pc.AdvLock? ==> c.Madvise? && bo.madv != NotSupp && m.pc.advice == c.advice)
  {}

  /** A BO is as much in order with any other count that is zero exactly when its own is. */
  lemma CountOnly(bo: Bo, bo': Bo, holder: Pc, listed: bool, limbo: bool)
    requires BoOk(bo, holder, listed, limbo)
    requires bo' == bo.(usecnt := bo'.usecnt) && bo'.usecnt >= 0 && (bo'.usecnt == 0 <==> bo.usecnt == 0)
    ensures BoOk(bo', holder, listed, limbo)
  {}

  // ---- The whole system ----

  /** `refs` counts, per BO, the successful vc4_bo_inc_usecnt calls not yet passed to
      vc4_bo_dec_usecnt. `num` and `bytes` are the pool's counters; `strays` and `strayBytes` record
      the removals that found their BO already off the list. */
  datatype State = State(
    bos: seq<Bo>, refs: seq<nat>, sizes: seq<nat>, threads: seq<Pc>,
    list: seq<nat>, num: int, bytes: int, strays: nat, strayBytes: nat)
  {
    predicate Shape() {
      |refs| == |bos| == |sizes| && (forall i :: 0 <= i < |list| ==> list[i] < |bos|)
    }
  }

  predicate FreshBo(bo: Bo) {
    bo.mem && bo.usecnt == 0 && bo.lock == None && (bo.madv == WillNeed || bo.madv == NotSupp)
  }

  predicate Init(s: State) {
    && s.Shape() && s.list == [] && s.num == 0 && s.bytes == 0 && s.strays == 0 && s.strayBytes == 0
    && (forall b :: 0 <= b < |s.bos| ==> s.refs[b] == 0 && FreshBo(s.bos[b]))
    && (forall t :: 0 <= t < |s.threads| ==> s.threads[t] == Idle)
  }

  function Sum(list: seq<nat>, sizes: seq<nat>): nat
    requires forall i :: 0 <= i < |list| ==> list[i] < |sizes|
  {
    if list == [] then 0 else sizes[list[0]] + Sum(list[1..], sizes)
  }

  /** vc4_bo_add_to_purgeable_pool and vc4_bo_remove_from_purgeable_pool, each under the pool's lock;
      list_del_init on a BO that is off the list changes nothing, but the counters still drop. */
  function PoolStep(s: State, b: nat, op: PoolOp): State
    requires s.Shape() && b < |s.bos|
  {
    match op
    case Keep => s
    case Add => s.(list := s.list + [b], num := s.num + 1, bytes := s.bytes + s.sizes[b])
    case Remove =>
      var s' := s.(list := Without(s.list, b), num := s.num - 1, bytes := s.bytes - s.sizes[b]);
      if b in s.list then s' else s'.(strays := s.strays + 1, strayBytes := s.strayBytes + s.sizes[b])
  }

  /** The BO a step works on: the one named when an operation starts, else the thread's target. */
  function Subject(s: State, t: nat, c: Choice): Option<nat>
    requires t < |s.threads|
  {
    match c
    case Inc(b) => Some(b) case Dec(b) => Some(b) case Madvise(b, _) => Some(b)
    case Purge => None
    case Go => Target(s.threads[t])
  }

  predicate Enabled(s: State, t: nat, c: Choice) {
    && s.Shape() && t < |s.threads|
    && if c.Purge? then s.threads[t] == Idle
       else if c.Go? && s.threads[t] == PurgePick then true
       else
         var b := Subject(s, t, c);
         b.Some? && b.value < |s.bos| && CanMove(s.bos[b.value], s.threads[t], c, s.refs[b.value])
         && s.refs[b.value] + MoveOf(s.bos[b.value], s.threads[t], c, t, b.value in s.list).handed >= 0
  }

  function Step(s: State, t: nat, c: Choice): State
    requires Enabled(s, t, c)
  {
    if c.Purge? then
      s.(threads := s.threads[t := PurgePick])
    else if c.Go? && s.threads[t] == PurgePick then
      // Under the pool's lock: stop when the list is empty, else delist its first BO.
      if s.list == [] then s.(threads := s.threads[t := Idle])
      else
        var b := s.list[0];
        s.(list := s.list[1..], num := s.num - 1, bytes := s.bytes - s.sizes[b],
           threads := s.threads[t := PurgeLock(b)])
    else
      var b := Subject(s, t, c).value;
      var m := MoveOf(s.bos[b], s.threads[t], c, t, b in s.list);
      PoolStep(s, b, m.pool).(bos := s.bos[b := m.bo], refs := s.refs[b := s.refs[b] + m.handed],
                              threads := s.threads[t := m.pc])
  }

  // ---- The invariant ----

  function TotalOwed(threads: seq<Pc>, b: nat): int {
    if threads == [] then 0 else TotalOwed(threads[..|threads| - 1], b) + Owes(threads[|threads| - 1], b)
  }

  lemma {:induction false} TotalOwedUpdate(threads: seq<Pc>, t: nat, pc: Pc, b: nat)
    requires t < |threads|
    ensures TotalOwed(threads[t := pc], b) == TotalOwed(threads, b) - Owes(threads[t], b) + Owes(pc, b)
    ensures TotalOwed(threads, b) >= Owes(threads[t], b)
  {
    hide Owes;
    var n := |threads| - 1;
    assert threads[t := pc][..n] == if t == n then threads[..n] else threads[..n][t := pc];
    if t < n {
      TotalOwedUpdate(threads[..n], t, pc, b);
      OwesBound(threads[n], b);
    } else {
      TotalOwedNonNegative(threads[..n], b);
    }
  }

  lemma OwesBound(pc: Pc, b: nat)
    ensures 0 <= Owes(pc, b) <= 1
  {}

  lemma {:induction false} TotalOwedNonNegative(threads: seq<Pc>, b: nat)
    ensures TotalOwed(threads, b) >= 0
  {
    if threads != [] {
      TotalOwedNonNegative(threads[..|threads| - 1], b);
    }
  }

  ghost predicate OtherLimbo(threads: seq<Pc>, t: int, b: nat) {
    exists u :: 0 <= u < |threads| && u != t && Limbo(threads[u], b)
  }

  ghost predicate InLimbo(threads: seq<Pc>, b: nat) {
    OtherLimbo(threads, -1, b)
  }

  function HolderPc(s: State, b: nat): Pc
    requires b < |s.bos|
  {
    var lock := s.bos[b].lock;
    if lock.Some? && lock.value < |s.threads| then s.threads[lock.value] else Idle
  }

  ghost predicate BoInv(s: State, b: nat)
    requires s.Shape() && b < |s.bos|
  {
    && (s.bos[b].lock.Some? ==> s.bos[b].lock.value < |s.threads| && Holds(s.threads[s.bos[b].lock.value]) == Some(b))
    && s.bos[b].usecnt == s.refs[b] + TotalOwed(s.threads, b)
    && BoOk(s.bos[b], HolderPc(s, b), b in s.list, InLimbo(s.threads, b))
  }

  predicate ThreadInv(s: State, t: nat)
    requires t < |s.threads|
  {
    var pc := s.threads[t];
    && (Target(pc).Some? ==> Target(pc).value < |s.bos|)
    && (Holds(pc).Some? ==> s.bos[Holds(pc).value].lock == Some(t))
    && (pc.AdvLock? ==> Advises(s.bos[pc.b], pc.advice))
  }

  ghost predicate ListInv(s: State)
    requires s.Shape()
  {
    && Distinct(s.list)
    && s.num == |s.list| - s.strays
    && s.bytes == Sum(s.list, s.sizes) - s.strayBytes
  }

  ghost predicate Inv(s: State) {
    && s.Shape()
    && (forall b :: 0 <= b < |s.bos| ==> BoInv(s, b))
    && (forall t :: 0 <= t < |s.threads| ==> ThreadInv(s, t))
    && ListInv(s)
  }

  // ---- Every step keeps it ----

  lemma {:induction false} WithoutDistinct(list: seq<nat>, b: nat, sizes: seq<nat>)
    requires Distinct(list) && b in list
    requires forall i :: 0 <= i < |list| ==> list[i] < |sizes|
    ensures var w := Without(list, b);
      && Distinct(w) && |w| == |list| - 1 && (forall i :: 0 <= i < |w| ==> w[i] < |sizes|)
      && Sum(w, sizes) == Sum(list, sizes) - sizes[b]
  {
    var rest := list[1..];
    WithoutMembers(rest, b);
    if list[0] == b {
      WithoutAbsent(rest, b);
      assert Without(list, b) == rest;
    } else {
      WithoutDistinct(rest, b, sizes);
      var w := Without(rest, b);
      assert Without(list, b) == [list[0]] + w;
      assert ([list[0]] + w)[1..] == w;
      forall j | 0 <= j < |w| ensures w[j] != list[0] {
        assert w[j] in rest;
      }
    }
  }

  lemma {:induction false} SumAppend(list: seq<nat>, b: nat, sizes: seq<nat>)
    requires b < |sizes| && forall i :: 0 <= i < |list| ==> list[i] < |sizes|
    ensures Sum(list + [b], sizes) == Sum(list, sizes) + sizes[b]
  {
    if list == [] {
      assert [] + [b] == [b];
    } else {
      assert (list + [b])[1..] == list[1..] + [b];
      SumAppend(list[1..], b, sizes);
    }
  }

  /** The pool operations keep the list duplicate-free and the counters in step with it. */
  lemma PoolStepKeeps(s: State, b: nat, op: PoolOp)
    requires s.Shape() && b < |s.bos| && ListInv(s) && (op == Add ==> b !in s.list)
    ensures var s' := PoolStep(s, b, op);
      && s'.Shape() && ListInv(s')
      && s' == s.(list := s'.list, num := s'.num, bytes := s'.bytes, strays := s'.strays, strayBytes := s'.strayBytes)
      && (b in s'.list <==> ListedAfter(b in s.list, op))
      && (forall x :: x != b ==> (x in s'.list <==> x in s.list))
  {
    match op
    case Keep =>
    case Add => SumAppend(s.list, b, s.sizes);
    case Remove =>
      WithoutMembers(s.list, b);
      if b in s.list {
        WithoutDistinct(s.list, b, s.sizes);
      } else {
        WithoutAbsent(s.list, b);
      }
  }

  lemma LimboSplit(threads: seq<Pc>, t: nat, pc: Pc, b: nat)
    requires t < |threads|
    ensures InLimbo(threads, b) <==> OtherLimbo(threads, t, b) || Limbo(threads[t], b)
    ensures InLimbo(threads[t := pc], b) <==> OtherLimbo(threads, t, b) || Limbo(pc, b)
  {
    hide Limbo;
    var threads' := threads[t := pc];
    assert forall u :: 0 <= u < |threads| && u != t ==> threads'[u] == threads[u];
    assert Limbo(threads[t], b) ==> InLimbo(threads, b);
    assert Limbo(threads'[t], b) ==> InLimbo(threads', b);
    if OtherLimbo(threads, t, b) {
      var u :| 0 <= u < |threads| && u != t && Limbo(threads[u], b);
      assert Limbo(threads'[u], b);
    }
  }

  /** A BO that is not the subject of a step stays in order. */
  lemma BystanderBo(s: State, s': State, t: nat, b: nat)
    requires s.Shape() && s'.Shape() && b < |s.bos| == |s'.bos| && t < |s.threads| == |s'.threads|
    requires BoInv(s, b) && s'.bos[b] == s.bos[b] && s'.refs[b] == s.refs[b]
    requires b in s'.list <==> b in s.list
    requires s'.threads == s.threads[t := s'.threads[t]]
    requires Target(s.threads[t]) != Some(b) && Target(s'.threads[t]) != Some(b)
    ensures BoInv(s', b)
  {
    hide BoOk;
    LimboSplit(s.threads, t, s'.threads[t], b);
    TotalOwedUpdate(s.threads, t, s'.threads[t], b);
  }

  function HolderAfter(s: State, t: nat, m: Move): Pc {
    if m.bo.lock == Some(t) then m.pc
    else if m.bo.lock.Some? && m.bo.lock.value < |s.threads| then s.threads[m.bo.lock.value]
    else Idle
  }

  /** What a step does to the BO it works on, seen from the whole system. */
  ghost predicate SubjectDone(s: State, t: nat, b: nat, m: Move)
    requires t < |s.threads| && b < |s.bos| == |s.refs|
  {
    && BoOk(m.bo, HolderAfter(s, t, m), ListedAfter(b in s.list, m.pool), InLimbo(s.threads[t := m.pc], b))
    && m.bo.usecnt == s.refs[b] + m.handed + TotalOwed(s.threads[t := m.pc], b)
    && (m.pool == Add ==> b !in s.list)
    && (m.bo.madv == NotSupp <==> s.bos[b].madv == NotSupp)
    && (s.bos[b].lock.Some? && s.bos[b].lock != Some(t) ==> m.bo.lock == s.bos[b].lock)
    && (m.bo.lock.Some? ==> m.bo.lock == Some(t) || m.bo.lock == s.bos[b].lock)
    && (Holds(m.pc) == Some(b) <==> m.bo.lock == Some(t)) && (Holds(m.pc).Some? ==> Holds(m.pc) == Some(b))
    && (Target(m.pc) == Some(b) || m.pc == Idle)
    && (Target(s.threads[t]) == Some(b) || s.threads[t] == Idle)
    && (m.pc.AdvLock? ==> m.pc.b == b && Advises(m.bo, m.pc.advice))
  }

  lemma SubjectMove(s: State, t: nat, c: Choice, b: nat)
    requires Inv(s) && Enabled(s, t, c) && Subject(s, t, c) == Some(b)
    requires !c.Purge? && !(c.Go? && s.threads[t] == PurgePick)
    ensures SubjectDone(s, t, b, MoveOf(s.bos[b], s.threads[t], c, t, b in s.list))
  {
    hide SubjectDone, MoveOf;
    if c.Go? && (Holds(s.threads[t]) == Some(b) || s.bos[b].lock == None) {
      SubjectHolder(s, t, b);
    } else {
      SubjectOther(s, t, c, b);
    }
  }

  lemma SubjectHolder(s: State, t: nat, b: nat)
    requires Inv(s) && Enabled(s, t, Go) && Target(s.threads[t]) == Some(b)
    requires Holds(s.threads[t]) == Some(b) || s.bos[b].lock == None
    ensures SubjectDone(s, t, b, MoveOf(s.bos[b], s.threads[t], Go, t, b in s.list))
  {
    hide BoOk, GoMove, Owes, Limbo, OtherLimbo, InLimbo, TotalOwed, ListInv, Listing, CanMove;
    var bo, pc := s.bos[b], s.threads[t];
    var m := GoMove(bo, pc, t, b in s.list);
    assert BoInv(s, b) && ThreadInv(s, t);
    TotalOwedUpdate(s.threads, t, m.pc, b);
    LimboSplit(s.threads, t, m.pc, b);
    HoldsIsTarget(pc);
    var limbo := OtherLimbo(s.threads, t, b);
    HolderStep(bo, pc, t, b, b in s.list, limbo);
    HolderFacts(bo, if bo.lock.Some? then pc else Idle, b in s.list, limbo || Limbo(pc, b));
    HolderMove(bo, pc, t, b, b in s.list);
  }

  lemma SubjectOther(s: State, t: nat, c: Choice, b: nat)
    requires Inv(s) && Enabled(s, t, c) && Subject(s, t, c) == Some(b)
    requires !c.Purge? && !(c.Go? && s.threads[t] == PurgePick)
    requires c.Go? ==> Holds(s.threads[t]) != Some(b) && s.bos[b].lock != None
    ensures SubjectDone(s, t, b, MoveOf(s.bos[b], s.threads[t], c, t, b in s.list))
  {
    hide BoOk, MoveOf, Owes, Limbo, OtherLimbo, InLimbo, TotalOwed, ListInv, Listing;
    var bo, pc := s.bos[b], s.threads[t];
    var m := MoveOf(bo, pc, c, t, b in s.list);
    assert BoInv(s, b) && ThreadInv(s, t);
    TotalOwedUpdate(s.threads, t, m.pc, b);
    LimboSplit(s.threads, t, m.pc, b);
    HoldsIsTarget(pc);
    var limbo := OtherLimbo(s.threads, t, b);
    OtherStep(bo, HolderPc(s, b), pc, c, t, b, b in s.list, limbo);
    CountNonNegative(bo, HolderPc(s, b), b in s.list, limbo || Limbo(pc, b));
    OtherMove(bo, pc, c, t, b, b in s.list);
  }

  lemma CountNonNegative(bo: Bo, holder: Pc, listed: bool, limbo: bool)
    requires BoOk(bo, holder, listed, limbo)
    ensures bo.usecnt >= 0
  {}

  lemma StepKeeps(s: State, t: nat, c: Choice)
    requires Inv(s) && Enabled(s, t, c)
    ensures Inv(Step(s, t, c))
  {
    hide BoInv, ThreadInv, ListInv, MoveOf, Holds, Target;
    var s' := Step(s, t, c);
    if c.Purge? || (c.Go? && s.threads[t] == PurgePick) {
      PickKeeps(s, t, c);
    } else {
      var b := Subject(s, t, c).value;
      MoveKeeps(s, t, c, b);
    }
  }

  /** Threads other than the one that moved, for a step that touches at most BO b. */
  lemma Bystanders(s: State, s': State, t: nat, b: nat)
    requires Inv(s) && t < |s.threads| == |s'.threads| && |s'.bos| == |s.bos|
    requires s'.threads == s.threads[t := s'.threads[t]]
    requires forall x :: 0 <= x < |s.bos| && x != b ==> s'.bos[x] == s.bos[x]
    requires b < |s.bos| ==>
      && (s'.bos[b].madv == NotSupp <==> s.bos[b].madv == NotSupp)
      && (s.bos[b].lock.Some? && s.bos[b].lock != Some(t) ==> s'.bos[b].lock == s.bos[b].lock)
    ensures forall u :: 0 <= u < |s.threads| && u != t ==> ThreadInv(s', u)
  {
    hide BoInv, ListInv, Holds, Target;
    forall u | 0 <= u < |s.threads| && u != t ensures ThreadInv(s', u) {
      assert ThreadInv(s, u);
      var pc := s.threads[u];
      HoldsIsTarget(pc);
    }
  }

  lemma HoldsIsTarget(pc: Pc)
    ensures Holds(pc).Some? ==> Target(pc) == Holds(pc)
    ensures pc.AdvLock? ==> Target(pc) == Some(pc.b)
  {}

  lemma MoveKeeps(s: State, t: nat, c: Choice, b: nat)
    requires Inv(s) && Enabled(s, t, c) && Subject(s, t, c) == Some(b)
    requires !c.Purge? && !(c.Go? && s.threads[t] == PurgePick)
    ensures Inv(Step(s, t, c))
  {
    hide BoOk, MoveOf, PoolStep, ListInv, InLimbo, Advises, CanMove;
    var s' := Step(s, t, c);
    var m := MoveOf(s.bos[b], s.threads[t], c, t, b in s.list);
    SubjectMove(s, t, c, b);
    PoolStepKeeps(s, b, m.pool);
    SameLists(PoolStep(s, b, m.pool), s');
    HoldsIsTarget(m.pc);
    assert ThreadInv(s', t);
    Bystanders(s, s', t, b);
    forall x | 0 <= x < |s'.bos| ensures BoInv(s', x) {
      assert BoInv(s, x);
      if x == b {
        SubjectBo(s, s', t, b, m);
      } else {
        BystanderBo(s, s', t, x);
      }
    }
  }

  lemma SameLists(s: State, s': State)
    requires s.Shape() && ListInv(s) && s'.Shape() && s'.sizes == s.sizes
    requires s'.list == s.list && s'.num == s.num && s'.bytes == s.bytes
    requires s'.strays == s.strays && s'.strayBytes == s.strayBytes
    ensures ListInv(s')
  {}

  lemma SubjectBo(s: State, s': State, t: nat, b: nat, m: Move)
    requires s.Shape() && s'.Shape() && t < |s.threads| && b < |s.bos| == |s'.bos| && BoInv(s, b)
    requires s'.threads == s.threads[t := m.pc] && s'.bos[b] == m.bo && s'.refs[b] == s.refs[b] + m.handed
    requires b in s'.list <==> ListedAfter(b in s.list, m.pool)
    requires BoOk(m.bo, HolderAfter(s, t, m), ListedAfter(b in s.list, m.pool), InLimbo(s.threads[t := m.pc], b))
    requires m.bo.usecnt == s.refs[b] + m.handed + TotalOwed(s.threads[t := m.pc], b)
    requires m.bo.lock.Some? ==> m.bo.lock == Some(t) || m.bo.lock == s.bos[b].lock
    requires Holds(m.pc) == Some(b) <==> m.bo.lock == Some(t)
    ensures BoInv(s', b)
  {
    hide BoOk, Holds, InLimbo, ListedAfter;
  }

  /** Starting a purge, and picking the first BO off the list (or finding the list empty). */
  lemma PickKeeps(s: State, t: nat, c: Choice)
    requires Inv(s) && Enabled(s, t, c) && (c.Purge? || (c.Go? && s.threads[t] == PurgePick))
    ensures Inv(Step(s, t, c))
  {
    hide BoOk, InLimbo, Advises;
    var s' := Step(s, t, c);
    var pc := s'.threads[t];
    Bystanders(s, s', t, |s.bos|);
    forall x | 0 <= x < |s'.bos| ensures BoInv(s', x) {
      assert BoInv(s, x);
      if pc == PurgeLock(x) {
        PickedBo(s, s', t, x);
      } else {
        BystanderBo(s, s', t, x);
      }
    }
    assert ThreadInv(s', t);
  }

  lemma PickedBo(s: State, s': State, t: nat, b: nat)
    requires s.Shape() && s'.Shape() && t < |s.threads| && b < |s.bos| && BoInv(s, b) && ThreadInv(s, t)
    requires s'.bos == s.bos && s'.refs == s.refs && s'.threads == s.threads[t := PurgeLock(b)]
    requires s.threads[t] == PurgePick && b in s.list && b !in s'.list
    ensures BoInv(s', b)
  {
    LimboSplit(s.threads, t, PurgeLock(b), b);
    TotalOwedUpdate(s.threads, t, PurgeLock(b), b);
    assert InLimbo(s'.threads, b);
  }

  lemma InitInv(s: State)
    requires Init(s)
    ensures Inv(s)
  {
    forall b | 0 <= b < |s.bos| ensures BoInv(s, b) {
      TotalOwedIdle(s.threads, b);
    }
  }

  lemma {:induction false} TotalOwedIdle(threads: seq<Pc>, b: nat)
    requires forall t :: 0 <= t < |threads| ==> threads[t] == Idle
    ensures TotalOwed(threads, b) == 0
  {
    if threads != [] {
      TotalOwedIdle(threads[..|threads| - 1], b);
    }
  }

  // ---- What one step can do to a BO ----

  /** The count is changed without the lock on its fast paths, yet it goes from zero to non-zero, or
      back, only in a step of the thread that holds the BO's madv_lock; and a purge drops the memory
      only then, only of an unused BO marked DONTNEED, whose count is still zero afterwards. */
  lemma ChangesUnderLock(s: State, t: nat, c: Choice, b: nat)
    requires Inv(s) && Enabled(s, t, c) && b < |s.bos|
    ensures var s' := Step(s, t, c);
      && |s'.bos| == |s.bos|
      && ((s.bos[b].usecnt == 0) != (s'.bos[b].usecnt == 0) ==> s.bos[b].lock == Some(t))
      && (s.bos[b].mem && !s'.bos[b].mem ==>
            && s.bos[b].lock == Some(t) && s.bos[b].madv == DontNeed
            && s.bos[b].usecnt == 0 && s'.bos[b].usecnt == 0)
      && (!s.bos[b].mem ==> !s'.bos[b].mem)
      && (s.bos[b].madv == Purged ==> s'.bos[b].madv == Purged)
  {
    hide BoOk, MoveOf, PoolStep, InLimbo;
    if Subject(s, t, c) == Some(b) {
      assert BoInv(s, b) && ThreadInv(s, t);
      TotalOwedUpdate(s.threads, t, Idle, b);
      HoldsIsTarget(s.threads[t]);
      MoveUnderLock(s.bos[b], HolderPc(s, b), s.threads[t], c, t, b, b in s.list, InLimbo(s.threads, b), s.refs[b]);
    }
  }

  /** The same of the move itself. */
  lemma MoveUnderLock(bo: Bo, holder: Pc, pc: Pc, c: Choice, t: nat, b: nat, listed: bool, limbo: bool, refs: nat)
    requires BoOk(bo, holder, listed, limbo) && bo.usecnt >= Owes(pc, b) && CanMove(bo, pc, c, refs)
    requires c.Go? ==> Target(pc) == Some(b)
    requires Holds(pc) == Some(b) ==> bo.lock == Some(t) && holder == pc
    requires Holds(pc).Some? ==> Holds(pc) == Some(b)
    ensures var m := MoveOf(bo, pc, c, t, listed);
      && ((bo.usecnt == 0) != (m.bo.usecnt == 0) ==> bo.lock == Some(t))
      && (bo.mem && !m.bo.mem ==> bo.lock == Some(t) && bo.madv == DontNeed && bo.usecnt == 0 && m.bo.usecnt == 0)
      && (!bo.mem ==> !m.bo.mem)
      && (bo.madv == Purged ==> m.bo.madv == Purged)
  {
    hide Listing;
  }

  // ---- Every run ----

  ghost predicate IsRun(run: seq<State>) {
    && |run| > 0 && Init(run[0])
    && forall i :: 0 < i < |run| ==> Follows(run[i - 1], run[i])
  }

  ghost predicate Follows(s: State, s': State) {
    exists t, c :: Enabled(s, t, c) && s' == Step(s, t, c)
  }

  lemma {:induction false} RunInv(run: seq<State>, i: nat)
    requires IsRun(run) && i < |run|
    ensures Inv(run[i]) && |run[i].bos| == |run[0].bos|
  {
    hide Inv, Init, Step, Enabled;
    if i == 0 {
      InitInv(run[0]);
    } else {
      RunInv(run, i - 1);
      assert Follows(run[i - 1], run[i]);
      var t, c :| Enabled(run[i - 1], t, c) && run[i] == Step(run[i - 1], t, c);
      StepKeeps(run[i - 1], t, c);
      BoCount(run[i - 1], t, c);
    }
  }

  lemma BoCount(s: State, t: nat, c: Choice)
    requires Enabled(s, t, c)
    ensures |Step(s, t, c).bos| == |s.bos|
  {}

  /** In every state of every run, a BO somebody holds has its memory and is not purged, and its count
      is never below the number of references handed out (no update is ever lost). */
  lemma UsedIsNeverPurged(run: seq<State>, i: nat, b: nat)
    requires IsRun(run) && i < |run| && b < |run[0].bos|
    ensures |run[i].bos| == |run[0].bos| == |run[i].refs|
    ensures run[i].bos[b].usecnt >= run[i].refs[b]
    ensures run[i].bos[b].usecnt > 0 ==> run[i].bos[b].mem && run[i].bos[b].madv != Purged
  {
    RunInv(run, i);
    assert BoInv(run[i], b);
    TotalOwedNonNegative(run[i].threads, b);
  }

  /** Once a BO's memory is gone it stays gone, nobody ever holds the BO again, and the mark PURGED
      is never taken back. */
  lemma {:induction false} PurgedForGood(run: seq<State>, i: nat, j: nat, b: nat)
    requires IsRun(run) && i <= j < |run| && b < |run[0].bos|
    ensures |run[i].bos| == |run[j].bos| == |run[0].bos| == |run[j].refs|
    ensures !run[i].bos[b].mem ==> !run[j].bos[b].mem && run[j].bos[b].usecnt == 0 && run[j].refs[b] == 0
    ensures run[i].bos[b].madv == Purged ==> run[j].bos[b].madv == Purged && !run[j].bos[b].mem
    decreases j
  {
    hide Init, Step, Enabled, ListInv, Listing, InLimbo;
    RunInv(run, i);
    RunInv(run, j);
    UsedIsNeverPurged(run, j, b);
    if i < j {
      PurgedForGood(run, i, j - 1, b);
      RunInv(run, j - 1);
      assert Follows(run[j - 1], run[j]);
      var t, c :| Enabled(run[j - 1], t, c) && run[j] == Step(run[j - 1], t, c);
      ChangesUnderLock(run[j - 1], t, c, b);
    }
    assert BoInv(run[j], b);
  }

  /** Whenever no operation is in flight, the purgeable list holds exactly the unused BOs marked
      DONTNEED, each once, and the counters are off by exactly the stray removals. */
  lemma QuiescentList(run: seq<State>, i: nat)
    requires IsRun(run) && i < |run|
    requires forall t :: 0 <= t < |run[i].threads| ==> run[i].threads[t] == Idle
    ensures var s := run[i];
      && s.Shape() && Distinct(s.list)
      && (forall b :: 0 <= b < |s.bos| ==> (b in s.list <==> s.bos[b].madv == DontNeed && s.bos[b].usecnt == 0))
      && s.num == |s.list| - s.strays && s.bytes == Sum(s.list, s.sizes) - s.strayBytes
  {
    RunInv(run, i);
    var s := run[i];
    forall b | 0 <= b < |s.bos|
      ensures b in s.list <==> s.bos[b].madv == DontNeed && s.bos[b].usecnt == 0
    {
      assert BoInv(s, b);
    }
  }

  /** A step of any kind strays if and only if it removes from the pool a BO that a purger has in hand,
      between delisting it and looking at it, and that nobody has listed again. */
  lemma StrayIff(s: State, t: nat, c: Choice)
    requires Inv(s) && Enabled(s, t, c)
    ensures var b := Subject(s, t, c);
      Step(s, t, c).strays != s.strays <==>
        && b.Some? && MoveOf(s.bos[b.value], s.threads[t], c, t, b.value in s.list).pool == Remove
        && InLimbo(s.threads, b.value) && b.value !in s.list
  {
    hide ListInv, InLimbo;
    if Subject(s, t, c).Some? {
      var b := Subject(s, t, c).value;
      assert BoInv(s, b) && ThreadInv(s, t);
      if MoveOf(s.bos[b], s.threads[t], c, t, b in s.list).pool == Remove {
        assert s.threads[t].AdvPool? && s.bos[b].lock == Some(t);
      }
    }
  }

  /** States of a system of one BO of one page and two threads, for the run below. */
  function Sys(madv: Madv, lock: Option<nat>, user: Pc, purger: Pc, list: seq<nat>, num: int, bytes: int,
      strays: nat): State {
    State([Bo(madv, 0, lock, true)], [0], [4096], [user, purger], list, num, bytes, strays, 4096 * strays)
  }

  /** A step of the first thread on the one BO. */
  lemma UserStep(s: State, c: Choice, m: Move)
    requires |s.bos| == |s.refs| == |s.sizes| == 1 && |s.threads| == 2 && s.Shape() && s.refs[0] == 0
    requires Subject(s, 0, c) == Some(0) && !c.Purge? && s.threads[0] != PurgePick
    requires CanMove(s.bos[0], s.threads[0], c, 0) && m == MoveOf(s.bos[0], s.threads[0], c, 0, 0 in s.list)
    requires m.handed == 0
    ensures Enabled(s, 0, c)
    ensures Step(s, 0, c) == PoolStep(s, 0, m.pool).(bos := [m.bo], threads := [m.pc, s.threads[1]])
  {
    hide MoveOf, CanMove, PoolStep;
    assert s.bos[0 := m.bo] == [m.bo] && s.refs[0 := 0] == s.refs && s.threads[0 := m.pc] == [m.pc, s.threads[1]];
    PoolStepLeaves(s, 0, m.pool);
  }

  lemma PoolStepLeaves(s: State, b: nat, op: PoolOp)
    requires s.Shape() && b < |s.bos|
    ensures PoolStep(s, b, op).refs == s.refs
  {}

  /** A step of the second thread that starts a purge or picks the one BO. */
  lemma PurgerStep(s: State, c: Choice)
    requires |s.bos| == 1 && |s.threads| == 2 && s.Shape()
    requires (c.Purge? && s.threads[1] == Idle) || (c.Go? && s.threads[1] == PurgePick && s.list == [0])
    ensures Enabled(s, 1, c)
    ensures Step(s, 1, c) ==
      if c.Purge? then s.(threads := [s.threads[0], PurgePick])
      else s.(list := [], num := s.num - 1, bytes := s.bytes - s.sizes[0], threads := [s.threads[0], PurgeLock(0)])
  {
    assert forall pc :: s.threads[1 := pc] == [s.threads[0], pc];
    assert s.list == [0] ==> s.list[1..] == [];
  }

  /** The first thread takes a step that leaves the purger alone. */
  lemma UserGoes(madv: Madv, lock: Option<nat>, user: Pc, purger: Pc, list: seq<nat>, num: int, bytes: int,
      c: Choice, m: Move)
    requires list == [] || list == [0]
    requires (c.Madvise? && c.b == 0) || (c.Go? && Target(user) == Some(0))
    requires CanMove(Bo(madv, 0, lock, true), user, c, 0)
      && m == MoveOf(Bo(madv, 0, lock, true), user, c, 0, list == [0])
    requires m.handed == 0 && m.bo.usecnt == 0 && m.bo.mem && (m.pool == Add ==> list == [])
    ensures Follows(Sys(madv, lock, user, purger, list, num, bytes, 0),
      match m.pool
      case Keep => Sys(m.bo.madv, m.bo.lock, m.pc, purger, list, num, bytes, 0)
      case Add => Sys(m.bo.madv, m.bo.lock, m.pc, purger, [0], num + 1, bytes + 4096, 0)
      case Remove => Sys(m.bo.madv, m.bo.lock, m.pc, purger, [], num - 1, bytes - 4096, if list == [] then 1 else 0))
  {
    hide MoveOf, Step, Enabled;
    UserStep(Sys(madv, lock, user, purger, list, num, bytes, 0), c, m);
    assert [] + [0] == [0];
    WithoutHead([0]);
  }

  lemma PurgerGoes(user: Pc, purger: Pc, c: Choice)
    requires (c.Purge? && purger == Idle) || (c.Go? && purger == PurgePick)
    ensures Follows(Sys(DontNeed, None, user, purger, [0], 1, 4096, 0),
      if c.Purge? then Sys(DontNeed, None, user, PurgePick, [0], 1, 4096, 0)
      else Sys(DontNeed, None, user, PurgeLock(0), [], 0, 0, 0))
  {
    hide Step, Enabled;
    PurgerStep(Sys(DontNeed, None, user, purger, [0], 1, 4096, 0), c);
  }

  /** The steps of an madvise call on an unused BO, one by one. */
  lemma AdviceMoves(madv: Madv, advice: Madv, listed: bool)
    requires (madv == WillNeed && advice == DontNeed) || (madv == DontNeed && advice == WillNeed)
    ensures var bo := Bo(madv, 0, None, true);
      var held := bo.(lock := Some(0));
      && MoveOf(bo, Idle, Madvise(0, advice), 0, listed) == Move(bo, AdvLock(0, advice), 0, Keep)
      && GoMove(bo, AdvLock(0, advice), 0, listed) == Move(held, AdvCount(0, advice), 0, Keep)
      && GoMove(held, AdvCount(0, advice), 0, listed) == Move(held, AdvPool(0, advice, true), 0, Keep)
      && GoMove(held, AdvPool(0, advice, true), 0, listed) ==
           Move(held, AdvStore(0, advice), 0, if advice == DontNeed then Add else Remove)
      && GoMove(held, AdvStore(0, advice), 0, listed) == Move(held.(madv := advice), Unlock(0), 0, Keep)
      && GoMove(held, Unlock(0), 0, listed) == Move(bo, Idle, 0, Keep)
  {}

  /** A step of the call on BO 0 can be taken: its lock is held, or free if it is what is waited for. */
  lemma CanGo(bo: Bo, pc: Pc, listed: bool)
    requires pc.AdvLock? || pc.AdvCount? || pc.AdvPool? || pc.AdvStore? || pc.Unlock?
    requires pc.b == 0 && (pc.AdvLock? ==> bo.lock == None)
    ensures MoveOf(bo, pc, Go, 0, listed) == GoMove(bo, pc, 0, listed)
    ensures Target(pc) == Some(0) && CanMove(bo, pc, Go, 0)
  {}

  lemma CanAdvise(bo: Bo, advice: Madv)
    requires advice == WillNeed || advice == DontNeed
    ensures CanMove(bo, Idle, Madvise(0, advice), 0)
  {}

  /** An madvise call up to its change of the list, the purger standing by. */
  lemma Advising(madv: Madv, advice: Madv, purger: Pc) returns (run: seq<State>)
    requires (madv == WillNeed && advice == DontNeed) || (madv == DontNeed && advice == WillNeed)
    ensures |run| == 5 && run[0] == Sys(madv, None, Idle, purger, [], 0, 0, 0)
    ensures run[4] == if advice == DontNeed then Sys(madv, Some(0), AdvStore(0, advice), purger, [0], 1, 4096, 0)
                      else Sys(madv, Some(0), AdvStore(0, advice), purger, [], -1, -4096, 1)
    ensures forall i :: 0 < i < 5 ==> Follows(run[i - 1], run[i])
  {
    hide Follows, Sys, GoMove, MoveOf, CanMove, Target, Holds;
    var bo := Bo(madv, 0, None, true);
    var held := bo.(lock := Some(0));
    AdviceMoves(madv, advice, false);
    CanAdvise(bo, advice);
    CanGo(bo, AdvLock(0, advice), false);
    CanGo(held, AdvCount(0, advice), false);
    CanGo(held, AdvPool(0, advice, true), false);
    run := [Sys(madv, None, Idle, purger, [], 0, 0, 0),
            Sys(madv, None, AdvLock(0, advice), purger, [], 0, 0, 0),
            Sys(madv, Some(0), AdvCount(0, advice), purger, [], 0, 0, 0),
            Sys(madv, Some(0), AdvPool(0, advice, true), purger, [], 0, 0, 0),
            if advice == DontNeed then Sys(madv, Some(0), AdvStore(0, advice), purger, [0], 1, 4096, 0)
            else Sys(madv, Some(0), AdvStore(0, advice), purger, [], -1, -4096, 1)];
    UserGoes(madv, None, Idle, purger, [], 0, 0, Madvise(0, advice), Move(bo, AdvLock(0, advice), 0, Keep));
    UserGoes(madv, None, AdvLock(0, advice), purger, [], 0, 0, Go, Move(held, AdvCount(0, advice), 0, Keep));
    UserGoes(madv, Some(0), AdvCount(0, advice), purger, [], 0, 0, Go, Move(held, AdvPool(0, advice, true), 0, Keep));
    UserGoes(madv, Some(0), AdvPool(0, advice, true), purger, [], 0, 0, Go,
             Move(held, AdvStore(0, advice), 0, if advice == DontNeed then Add else Remove));
  }

  /** The end of the call that listed the BO, and the purger delisting it again. */
  lemma Delisting() returns (run: seq<State>)
    ensures |run| == 5 && run[0] == Sys(WillNeed, Some(0), AdvStore(0, DontNeed), Idle, [0], 1, 4096, 0)
    ensures run[4] == Sys(DontNeed, None, Idle, PurgeLock(0), [], 0, 0, 0)
    ensures forall i :: 0 < i < 5 ==> Follows(run[i - 1], run[i])
  {
    hide Follows, Sys, GoMove, MoveOf, CanMove, Target, Holds;
    var held := Bo(WillNeed, 0, Some(0), true);
    AdviceMoves(WillNeed, DontNeed, true);
    AdviceMoves(DontNeed, WillNeed, true);
    CanGo(held, AdvStore(0, DontNeed), true);
    CanGo(held.(madv := DontNeed), Unlock(0), true);
    run := [Sys(WillNeed, Some(0), AdvStore(0, DontNeed), Idle, [0], 1, 4096, 0),
            Sys(DontNeed, Some(0), Unlock(0), Idle, [0], 1, 4096, 0),
            Sys(DontNeed, None, Idle, Idle, [0], 1, 4096, 0),
            Sys(DontNeed, None, Idle, PurgePick, [0], 1, 4096, 0),
            Sys(DontNeed, None, Idle, PurgeLock(0), [], 0, 0, 0)];
    UserGoes(WillNeed, Some(0), AdvStore(0, DontNeed), Idle, [0], 1, 4096, Go, Move(held.(madv := DontNeed),
        Unlock(0), 0, Keep));
    UserGoes(DontNeed, Some(0), Unlock(0), Idle, [0], 1, 4096, Go, Move(held.(madv := DontNeed, lock := None), Idle,
        0, Keep));
    PurgerGoes(Idle, Idle, Purge);
    PurgerGoes(Idle, PurgePick, Go);
  }

  lemma Joined(a: seq<State>, b: seq<State>)
    requires |a| > 0 && |b| > 0 && a[|a| - 1] == b[0]
    requires forall i :: 0 < i < |a| ==> Follows(a[i - 1], a[i])
    requires forall i :: 0 < i < |b| ==> Follows(b[i - 1], b[i])
    ensures var run := a + b[1..];
      && |run| == |a| + |b| - 1 && run[0] == a[0] && run[|run| - 1] == b[|b| - 1]
      && forall i :: 0 < i < |run| ==> Follows(run[i - 1], run[i])
  {
    hide Follows;
    var run := a + b[1..];
    forall i | 0 < i < |run| ensures Follows(run[i - 1], run[i]) {
      var j := i - |a| + 1;
      if j > 0 {
        assert run[i] == b[j] && run[i - 1] == b[j - 1];
        assert Follows(b[j - 1], b[j]);
      }
    }
  }

  /** The counters do drift: one BO, one thread calling madvise, one purging. The purger delists the
      BO; before it takes madv_lock the user marks the BO WILLNEED, and the removal that ioctl makes
      drops the count of an empty list to -1. */
  lemma CountersDrift() returns (run: seq<State>)
    ensures IsRun(run)
    ensures var last := run[|run| - 1]; last.list == [] && last.num == -1 && last.strays == 1
  {
    hide Follows;
    var first := Advising(WillNeed, DontNeed, Idle);
    var second := Delisting();
    var third := Advising(DontNeed, WillNeed, PurgeLock(0));
    Joined(first, second);
    Joined(first + second[1..], third);
    run := first + second[1..] + third[1..];
    assert Init(run[0]);
  }
}
