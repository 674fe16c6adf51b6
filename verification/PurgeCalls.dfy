/** What the calls of the purge protocol come to: each of them when its thread moves alone, and a
    vc4_bo_inc_usecnt whatever others do meanwhile. */
module PurgeCalls {
  import opened Options
  import opened Lists
  import opened MadvState
  import opened PurgeProtocol

  // ---- The calls as one step each ----

  /** The BO and its share of the list after a call that changes its count and its mark; it is on the
      list exactly while it is unused and marked DONTNEED, and the counters follow. */
  function Settled(s: State, b: nat, bo: Bo, handed: int): State
    requires s.Shape() && b < |s.bos| && s.refs[b] + handed >= 0
  {
    var before, after := Idles(s.bos[b]), Idles(bo);
    var joins: int := if after && !before then 1 else if before && !after then -1 else 0;
    var stray: nat := if joins == -1 && b !in s.list then 1 else 0;
    State(s.bos[b := bo], s.refs[b := s.refs[b] + handed], s.sizes, s.threads,
          if joins == 1 then s.list + [b] else if joins == -1 then Without(s.list, b) else s.list,
          s.num + joins, s.bytes + joins * s.sizes[b], s.strays + stray, s.strayBytes + stray * s.sizes[b])
  }

  predicate Idles(bo: Bo) {
    bo.madv == DontNeed && bo.usecnt == 0
  }

  /** The state after a call of thread t that nobody disturbs. */
  function Called(s: State, c: Choice): State
    requires s.Shape() && !c.Go? && (c.Purge? || c.b < |s.bos|)
    requires c.Dec? ==> s.refs[c.b] > 0
  {
    match c
    case Inc(b) =>
      var bo := s.bos[b];
      if Usable(bo.madv, bo.usecnt) then Settled(s, b, bo.(usecnt := bo.usecnt + 1), 1) else s
    case Dec(b) => Settled(s, b, s.bos[b].(usecnt := s.bos[b].usecnt - 1), -1)
    case Madvise(b, advice) =>
      var bo := s.bos[b];
      if bo.madv == NotSupp then s else Settled(s, b, bo.(madv := Advised(bo.madv, advice)), 0)
    case Purge =>
      if s.list == [] then s
      else Settled(s, s.list[0], s.bos[s.list[0]].(madv := Purged, mem := false), 0)
  }

  // ---- A thread on its own ----

  /** Thread t, moving alone, gets from s to s' in n steps. */
  ghost predicate Alone(s: State, t: nat, s': State, n: nat)
    decreases n
  {
    if n == 0 then s' == s else Enabled(s, t, Go) && Alone(Step(s, t, Go), t, s', n - 1)
  }

  /** Where thread t has got to since s, on BO b: what it made of the BO, the references it handed out, its
      next step and what it did to the list. */
  function Now(s: State, t: nat, b: nat, bo: Bo, handed: int, pc: Pc, pool: PoolOp): State
    requires s.Shape() && t < |s.threads| && b < |s.bos| && s.refs[b] + handed >= 0
  {
    PoolStep(s, b, pool).(bos := s.bos[b := bo], refs := s.refs[b := s.refs[b] + handed],
                          threads := s.threads[t := pc])
  }

  lemma NowShape(s: State, t: nat, b: nat, bo: Bo, handed: int, pc: Pc, pool: PoolOp)
    requires s.Shape() && t < |s.threads| && b < |s.bos| && s.refs[b] + handed >= 0
    ensures var r := Now(s, t, b, bo, handed, pc, pool);
      && r.Shape() && |r.threads| == |s.threads| && r.threads[t] == pc
      && |r.bos| == |s.bos| && r.bos[b] == bo && r.refs[b] == s.refs[b] + handed
  {
    WithoutMembers(s.list, b);
    var w := Without(s.list, b);
    forall i | 0 <= i < |w| ensures w[i] < |s.bos| {
      assert w[i] in s.list;
    }
  }

  lemma NowNext(s: State, t: nat, b: nat, bo: Bo, handed: int, pc: Pc, pool: PoolOp, bo': Bo, handed': int, pc': Pc,
      pool': PoolOp)
    requires s.Shape() && t < |s.threads| && b < |s.bos| && s.refs[b] + handed >= 0 && s.refs[b] + handed' >= 0
    requires pool == Keep || pool' == Keep
    ensures var r := Now(s, t, b, bo, handed, pc, pool);
      && r.Shape() && |r.bos| == |s.bos| && |r.refs| == |s.refs| && |r.threads| == |s.threads|
      && PoolStep(r, b, pool').(bos := r.bos[b := bo'], refs := r.refs[b := s.refs[b] + handed'],
                                threads := r.threads[t := pc']) ==
           Now(s, t, b, bo', handed', pc', if pool == Keep then pool' else pool)
  {
    NowShape(s, t, b, bo, handed, pc, pool);
  }

  /** One step of the thread at the front of a way that leads to the end. */
  lemma AloneStep(s: State, t: nat, b: nat, bo: Bo, handed: int, pc: Pc, pool: PoolOp, m: Move, end: State, n: nat)
    requires s.Shape() && t < |s.threads| && b < |s.bos| && s.refs[b] + handed >= 0
    requires Target(pc) == Some(b) && CanMove(bo, pc, Go, 0) && s.refs[b] + handed + m.handed >= 0
    requires m == GoMove(bo, pc, t, b in Now(s, t, b, bo, handed, pc, pool).list) && (pool == Keep || m.pool == Keep)
    requires Alone(Now(s, t, b, m.bo, handed + m.handed, m.pc, if pool == Keep then m.pool else pool), t, end, n)
    ensures Alone(Now(s, t, b, bo, handed, pc, pool), t, end, n + 1)
  {
    hide GoMove, Now, PoolStep;
    var r := Now(s, t, b, bo, handed, pc, pool);
    NowShape(s, t, b, bo, handed, pc, pool);
    NowNext(s, t, b, bo, handed, pc, pool, m.bo, handed + m.handed, m.pc, m.pool);
    GoIs(r, t, b, m);
  }

  lemma GoIs(r: State, t: nat, b: nat, m: Move)
    requires r.Shape() && t < |r.threads| && b < |r.bos| && Target(r.threads[t]) == Some(b)
    requires CanMove(r.bos[b], r.threads[t], Go, 0) && m == GoMove(r.bos[b], r.threads[t], t, b in r.list)
    requires r.refs[b] + m.handed >= 0
    ensures Enabled(r, t, Go)
    ensures Step(r, t, Go) ==
      PoolStep(r, b, m.pool).(bos := r.bos[b := m.bo], refs := r.refs[b := r.refs[b] + m.handed],
                              threads := r.threads[t := m.pc])
  {
    hide GoMove, PoolStep;
    assert r.threads[t] != PurgePick;
  }

  /** The last step: the lock, if it is held, is dropped. */
  lemma AloneLast(s: State, t: nat, b: nat, bo: Bo, handed: int, pool: PoolOp)
    requires s.Shape() && t < |s.threads| && b < |s.bos| && s.refs[b] + handed >= 0
    ensures Alone(Now(s, t, b, bo, handed, Unlock(b), pool), t,
                  Now(s, t, b, bo.(lock := None), handed, Idle, pool), 1)
  {
    hide Now;
    var end := Now(s, t, b, bo.(lock := None), handed, Idle, pool);
    assert Alone(end, t, end, 0);
    AloneStep(s, t, b, bo, handed, Unlock(b), pool, Move(bo.(lock := None), Idle, 0, Keep), end, 0);
  }

  /** vc4_bo_inc_usecnt past its fast path. */
  lemma IncAlone(s: State, t: nat, b: nat) returns (n: nat)
    requires s.Shape() && t < |s.threads| && b < |s.bos|
    requires s.bos[b].usecnt == 0 && s.bos[b].lock == None
    ensures var bo := s.bos[b];
      Alone(Now(s, t, b, bo, 0, IncLock(b), Keep), t,
            if bo.madv == WillNeed then Now(s, t, b, bo.(usecnt := 1), 1, Idle, Keep)
            else Now(s, t, b, bo, 0, Idle, Keep), n)
  {
    hide Now, Alone;
    var bo := s.bos[b];
    var held := bo.(lock := Some(t));
    var used := held.(usecnt := 1);
    assert held.(lock := None) == bo && used.(lock := None) == bo.(usecnt := 1);
    if bo.madv == WillNeed {
      var end := Now(s, t, b, bo.(usecnt := 1), 1, Idle, Keep);
      AloneLast(s, t, b, used, 1, Keep);
      AloneStep(s, t, b, held, 0, IncSet(b), Keep, Move(used, Unlock(b), 1, Keep), end, 1);
      AloneStep(s, t, b, held, 0, IncTry(b), Keep, Move(held, IncSet(b), 0, Keep), end, 2);
      AloneStep(s, t, b, held, 0, IncSwitch(b), Keep, Move(held, IncTry(b), 0, Keep), end, 3);
      AloneStep(s, t, b, bo, 0, IncLock(b), Keep, Move(held, IncSwitch(b), 0, Keep), end, 4);
      n := 5;
    } else {
      var end := Now(s, t, b, bo, 0, Idle, Keep);
      AloneLast(s, t, b, held, 0, Keep);
      AloneStep(s, t, b, held, 0, IncSwitch(b), Keep, Move(held, Unlock(b), 0, Keep), end, 1);
      AloneStep(s, t, b, bo, 0, IncLock(b), Keep, Move(held, IncSwitch(b), 0, Keep), end, 2);
      n := 3;
    }
  }

  lemma DecMoves(bo: Bo, t: nat, b: nat, listed: bool)
    ensures var held, less := bo.(lock := Some(t)), bo.(usecnt := bo.usecnt - 1);
      var last := held.(usecnt := bo.usecnt - 1);
      && GoMove(bo, DecRead(b), t, listed) == Move(bo, DecSwap(b, bo.usecnt), 0, Keep)
      && GoMove(bo, DecSwap(b, bo.usecnt), t, listed) ==
           (if bo.usecnt == 1 then Move(bo, DecLock(b), 0, Keep) else Move(less, Idle, 0, Keep))
      && GoMove(bo, DecLock(b), t, listed) == Move(held, DecTest(b), 0, Keep)
      && GoMove(held, DecTest(b), t, listed) == Move(last, if Idles(less) then DecAdd(b) else Unlock(b), 0, Keep)
      && GoMove(last, DecAdd(b), t, listed) == Move(last, Unlock(b), 0, Add)
  {}

  /** vc4_bo_dec_usecnt, its caller's reference given up. */
  lemma DecAlone(s: State, t: nat, b: nat) returns (n: nat)
    requires s.Shape() && t < |s.threads| && b < |s.bos| && s.refs[b] > 0
    requires s.bos[b].usecnt > 0 && s.bos[b].lock == None
    ensures var bo := s.bos[b].(usecnt := s.bos[b].usecnt - 1);
      Alone(Now(s, t, b, s.bos[b], -1, DecRead(b), Keep), t,
            Now(s, t, b, bo, -1, Idle, if Idles(bo) then Add else Keep), n)
  {
    hide Now, Alone, GoMove;
    DecMoves(s.bos[b], t, b, true);
    DecMoves(s.bos[b], t, b, false);
    var bo := s.bos[b];
    var less := bo.(usecnt := bo.usecnt - 1);
    var end := Now(s, t, b, less, -1, Idle, if Idles(less) then Add else Keep);
    if bo.usecnt > 1 {
      assert Alone(end, t, end, 0) by { AloneNone(end, t); }
      AloneStep(s, t, b, bo, -1, DecSwap(b, bo.usecnt), Keep, Move(less, Idle, 0, Keep), end, 0);
      n := 2;
    } else {
      var held := bo.(lock := Some(t));
      var last := held.(usecnt := 0);
      assert last.(lock := None) == less;
      n := 5;
      if Idles(less) {
        AloneLast(s, t, b, last, -1, Add);
        AloneStep(s, t, b, last, -1, DecAdd(b), Keep, Move(last, Unlock(b), 0, Add), end, 1);
        AloneStep(s, t, b, held, -1, DecTest(b), Keep, Move(last, DecAdd(b), 0, Keep), end, 2);
        n := 6;
      } else {
        AloneLast(s, t, b, last, -1, Keep);
        AloneStep(s, t, b, held, -1, DecTest(b), Keep, Move(last, Unlock(b), 0, Keep), end, 1);
      }
      AloneStep(s, t, b, bo, -1, DecLock(b), Keep, Move(held, DecTest(b), 0, Keep), end, n - 3);
      AloneStep(s, t, b, bo, -1, DecSwap(b, 1), Keep, Move(bo, DecLock(b), 0, Keep), end, n - 2);
    }
    AloneStep(s, t, b, bo, -1, DecRead(b), Keep, Move(bo, DecSwap(b, bo.usecnt), 0, Keep), end, n - 1);
  }

  lemma AloneNone(s: State, t: nat)
    ensures Alone(s, t, s, 0)
  {}

  function PoolChange(before: Bo, after: Bo): PoolOp {
    if Idles(after) && !Idles(before) then Add else if Idles(before) && !Idles(after) then Remove else Keep
  }

  lemma AdviseMoves(bo: Bo, t: nat, b: nat, advice: Madv, listed: bool)
    requires bo.madv != NotSupp && (advice == WillNeed || advice == DontNeed)
    ensures var held := bo.(lock := Some(t));
      var told := bo.(madv := Advised(bo.madv, advice));
      && GoMove(bo, AdvLock(b, advice), t, listed) == Move(held, AdvCount(b, advice), 0, Keep)
      && GoMove(held, AdvCount(b, advice), t, listed) == Move(held, AdvPool(b, advice, bo.usecnt == 0), 0, Keep)
      && GoMove(held, AdvPool(b, advice, bo.usecnt == 0), t, listed) ==
           Move(held, AdvStore(b, advice), 0, PoolChange(bo, told))
      && GoMove(held, AdvStore(b, advice), t, listed) == Move(told.(lock := Some(t)), Unlock(b), 0, Keep)
  {}

  lemma PurgeMoves(bo: Bo, t: nat, b: nat)
    requires Idles(bo)
    ensures var held := bo.(lock := Some(t));
      var freed, gone := held.(mem := false), held.(mem := false, madv := Purged);
      && GoMove(bo, PurgeLock(b), t, false) == Move(held, PurgeCheck(b), 0, Keep)
      && GoMove(held, PurgeCheck(b), t, false) == Move(held, PurgeFree(b), 0, Keep)
      && GoMove(held, PurgeFree(b), t, false) == Move(freed, PurgeMark(b), 0, Keep)
      && GoMove(freed, PurgeMark(b), t, false) == Move(gone, Unlock(b), 0, Keep)
  {}

  /** vc4_gem_madvise_ioctl, of a BO that can be advised on. */
  lemma AdviseAlone(s: State, t: nat, b: nat, advice: Madv) returns (n: nat)
    requires s.Shape() && t < |s.threads| && b < |s.bos| && s.bos[b].lock == None
    requires s.bos[b].madv != NotSupp && (advice == WillNeed || advice == DontNeed)
    ensures var bo := s.bos[b].(madv := Advised(s.bos[b].madv, advice));
      Alone(Now(s, t, b, s.bos[b], 0, AdvLock(b, advice), Keep), t,
            Now(s, t, b, bo, 0, Idle, PoolChange(s.bos[b], bo)), n)
  {
    hide Now, Alone, GoMove, PoolChange, Advised;
    var bo := s.bos[b];
    var held, told := bo.(lock := Some(t)), bo.(madv := Advised(bo.madv, advice));
    var pool := PoolChange(bo, told);
    AdviseMoves(bo, t, b, advice, true);
    AdviseMoves(bo, t, b, advice, false);
    var marked := told.(lock := Some(t));
    assert marked.(lock := None) == told;
    var end := Now(s, t, b, told, 0, Idle, pool);
    AloneLast(s, t, b, marked, 0, pool);
    AloneStep(s, t, b, held, 0, AdvStore(b, advice), pool, Move(marked, Unlock(b), 0, Keep), end, 1);
    AloneStep(s, t, b, held, 0, AdvPool(b, advice, bo.usecnt == 0), Keep, Move(held, AdvStore(b, advice), 0, pool),
              end, 2);
    AloneStep(s, t, b, held, 0, AdvCount(b, advice), Keep, Move(held, AdvPool(b, advice, bo.usecnt == 0), 0, Keep),
              end, 3);
    AloneStep(s, t, b, bo, 0, AdvLock(b, advice), Keep, Move(held, AdvCount(b, advice), 0, Keep), end, 4);
    n := 5;
  }

  /** One turn of the purge, the BO in hand. */
  lemma PurgeAlone(s: State, t: nat, b: nat) returns (n: nat)
    requires s.Shape() && t < |s.threads| && b < |s.bos| && s.bos[b].lock == None
    requires Idles(s.bos[b]) && b !in s.list
    ensures var bo := s.bos[b].(madv := Purged, mem := false);
      Alone(Now(s, t, b, s.bos[b], 0, PurgeLock(b), Keep), t, Now(s, t, b, bo, 0, Idle, Keep), n)
  {
    hide Alone, GoMove;
    var bo := s.bos[b];
    PurgeMoves(bo, t, b);
    var held := bo.(lock := Some(t));
    var freed, gone := held.(mem := false), held.(mem := false, madv := Purged);
    assert gone.(lock := None) == bo.(madv := Purged, mem := false);
    var end := Now(s, t, b, gone.(lock := None), 0, Idle, Keep);
    AloneLast(s, t, b, gone, 0, Keep);
    AloneStep(s, t, b, freed, 0, PurgeMark(b), Keep, Move(gone, Unlock(b), 0, Keep), end, 1);
    AloneStep(s, t, b, held, 0, PurgeFree(b), Keep, Move(freed, PurgeMark(b), 0, Keep), end, 2);
    AloneStep(s, t, b, held, 0, PurgeCheck(b), Keep, Move(held, PurgeFree(b), 0, Keep), end, 3);
    AloneStep(s, t, b, bo, 0, PurgeLock(b), Keep, Move(held, PurgeCheck(b), 0, Keep), end, 4);
    n := 5;
  }

  lemma NowIsSettled(s: State, t: nat, b: nat, bo: Bo, handed: int)
    requires s.Shape() && t < |s.threads| && b < |s.bos| && s.refs[b] + handed >= 0 && s.threads[t] == Idle
    ensures Now(s, t, b, bo, handed, Idle, PoolChange(s.bos[b], bo)) == Settled(s, b, bo, handed)
  {
    assert s.threads[t := Idle] == s.threads;
  }

  lemma StepIsNow(s: State, t: nat, c: Choice)
    requires Enabled(s, t, c) && !c.Go? && !c.Purge?
    ensures c.b < |s.bos|
    ensures var m := MoveOf(s.bos[c.b], s.threads[t], c, t, c.b in s.list);
      m.pool == Keep && s.refs[c.b] + m.handed >= 0
      && Step(s, t, c) == Now(s, t, c.b, m.bo, m.handed, m.pc, Keep)
  {}

  /** Any call whose thread moves alone, on a BO that nobody has locked, does what the call is for: the
      user gets a reference exactly when the BO is usable, the last user of a BO marked DONTNEED and the
      adviser list it, and a purge frees the first BO of the list. */
  lemma CallAlone(s: State, t: nat, c: Choice) returns (n: nat)
    requires Inv(s) && Enabled(s, t, c) && s.threads[t] == Idle && !c.Go?
    requires c.Purge? ==> s.list == [] || s.bos[s.list[0]].lock == None
    requires !c.Purge? ==> c.b < |s.bos| && s.bos[c.b].lock == None
    ensures (c.Dec? ==> s.refs[c.b] > 0) && Alone(Step(s, t, c), t, Called(s, c), n)
  {
    hide Inv, Now, Alone, Settled, Step, Enabled, Idles;
    match c
    case Inc(b) => n := IncCall(s, t, b);
    case Dec(b) => n := DecCall(s, t, b);
    case Madvise(b, advice) => n := AdviseCall(s, t, b, advice);
    case Purge => n := PurgeCall(s, t);
  }

  lemma IncCall(s: State, t: nat, b: nat) returns (n: nat)
    requires Inv(s) && Enabled(s, t, Inc(b)) && s.threads[t] == Idle && b < |s.bos| && s.bos[b].lock == None
    ensures Alone(Step(s, t, Inc(b)), t, Called(s, Inc(b)), n)
  {
    hide Inv, Now, Alone, Settled, Step;
    InvShape(s, b);
    StepIsNow(s, t, Inc(b));
    var bo := s.bos[b];
    NowIsSettled(s, t, b, bo, 0);
    NowIsSettled(s, t, b, bo.(usecnt := bo.usecnt + 1), 1);
    if bo.usecnt != 0 {
      AloneNone(Called(s, Inc(b)), t);
      n := 0;
    } else {
      n := IncAlone(s, t, b);
      SettledNone(s, b);
    }
  }

  lemma InvShape(s: State, b: nat)
    requires Inv(s) && b < |s.bos|
    ensures s.Shape() && s.bos[b].usecnt >= s.refs[b]
    ensures s.bos[b].lock == None && b in s.list ==> Idles(s.bos[b])
  {
    assert BoInv(s, b);
    TotalOwedNonNegative(s.threads, b);
  }

  lemma SettledNone(s: State, b: nat)
    requires s.Shape() && b < |s.bos|
    ensures Settled(s, b, s.bos[b], 0) == s
  {
    assert s.bos[b := s.bos[b]] == s.bos && s.refs[b := s.refs[b]] == s.refs;
  }

  lemma DecCall(s: State, t: nat, b: nat) returns (n: nat)
    requires Inv(s) && Enabled(s, t, Dec(b)) && s.threads[t] == Idle && b < |s.bos| && s.bos[b].lock == None
    ensures s.refs[b] > 0 && Alone(Step(s, t, Dec(b)), t, Called(s, Dec(b)), n)
  {
    hide Inv, Now, Alone, Settled, Step;
    InvShape(s, b);
    StepIsNow(s, t, Dec(b));
    var bo := s.bos[b].(usecnt := s.bos[b].usecnt - 1);
    NowIsSettled(s, t, b, bo, -1);
    n := DecAlone(s, t, b);
  }

  lemma AdviseCall(s: State, t: nat, b: nat, advice: Madv) returns (n: nat)
    requires Inv(s) && Enabled(s, t, Madvise(b, advice)) && s.threads[t] == Idle && b < |s.bos|
    requires s.bos[b].lock == None
    ensures Alone(Step(s, t, Madvise(b, advice)), t, Called(s, Madvise(b, advice)), n)
  {
    hide Inv, Now, Alone, Settled, Step;
    InvShape(s, b);
    StepIsNow(s, t, Madvise(b, advice));
    var bo := s.bos[b];
    if bo.madv == NotSupp {
      NowIsSettled(s, t, b, bo, 0);
      SettledNone(s, b);
      AloneNone(s, t);
      n := 0;
    } else {
      NowIsSettled(s, t, b, bo.(madv := Advised(bo.madv, advice)), 0);
      n := AdviseAlone(s, t, b, advice);
    }
  }

  lemma PurgeCall(s: State, t: nat) returns (n: nat)
    requires Inv(s) && Enabled(s, t, Purge) && s.threads[t] == Idle
    requires s.list == [] || s.bos[s.list[0]].lock == None
    ensures Alone(Step(s, t, Purge), t, Called(s, Purge), n)
  {
    hide Inv, Now, Alone, Settled;
    var r := Step(s, t, Purge);
    assert s.threads[t := PurgePick][t := Idle] == s.threads;
    if s.list == [] {
      AloneNone(s, t);
      AloneFirst(r, t, s, 0);
      n := 1;
    } else {
      var b := s.list[0];
      InvShape(s, b);
      HeadLeaves(s);
      var q := s.(list := s.list[1..], num := s.num - 1, bytes := s.bytes - s.sizes[b],
                  threads := s.threads[t := PurgeLock(b)]);
      assert s.threads[t := PurgePick][t := PurgeLock(b)] == s.threads[t := PurgeLock(b)];
      n := PurgeAlone(q, t, b);
      Picked(s, q, t, b);
      AloneFirst(r, t, Called(s, Purge), n);
      n := n + 1;
    }
  }

  lemma AloneFirst(s: State, t: nat, end: State, n: nat)
    requires Enabled(s, t, Go) && Alone(Step(s, t, Go), t, end, n)
    ensures Alone(s, t, end, n + 1)
  {}

  lemma HeadLeaves(s: State)
    requires Inv(s) && s.list != []
    ensures Without(s.list, s.list[0]) == s.list[1..] && s.list[0] !in s.list[1..]
  {
    WithoutHead(s.list);
  }

  /** The purger with the first BO in hand, and where it ends up. */
  lemma Picked(s: State, q: State, t: nat, b: nat)
    requires s.Shape() && t < |s.threads| && s.threads[t] == Idle && s.list != [] && b == s.list[0]
    requires Idles(s.bos[b]) && Without(s.list, b) == s.list[1..]
    requires q == s.(list := s.list[1..], num := s.num - 1, bytes := s.bytes - s.sizes[b],
                     threads := s.threads[t := PurgeLock(b)])
    ensures q.Shape() && Now(q, t, b, q.bos[b], 0, PurgeLock(b), Keep) == q
    ensures var bo := s.bos[b].(madv := Purged, mem := false);
      Now(q, t, b, bo, 0, Idle, Keep) == Settled(s, b, bo, 0)
  {
    assert q.bos[b := q.bos[b]] == q.bos && q.refs[b := q.refs[b]] == q.refs;
    assert q.threads[t := PurgeLock(b)] == q.threads && q.threads[t := Idle] == s.threads;
  }

  // ---- Runs ----

  /** Following a thread that moves alone extends a run. */
  lemma {:induction false} AloneExtends(run: seq<State>, t: nat, end: State, n: nat) returns (more: seq<State>)
    requires IsRun(run) && Alone(run[|run| - 1], t, end, n)
    ensures IsRun(more) && more[0] == run[0] && more[|more| - 1] == end
    decreases n
  {
    hide Init, Step, Enabled;
    if n == 0 {
      more := run;
    } else {
      var s := Step(run[|run| - 1], t, Go);
      assert Follows(run[|run| - 1], s);
      more := AloneExtends(run + [s], t, end, n - 1);
    }
  }

  /** References are handed out: from every initial state there is a run that ends with one on any BO that
      userspace needs. */
  lemma CountRises(s: State, t: nat, b: nat) returns (run: seq<State>)
    requires Init(s) && t < |s.threads| && b < |s.bos| && s.bos[b].madv == WillNeed
    ensures IsRun(run) && run[0] == s
    ensures var last := run[|run| - 1];
      b < |last.bos| == |last.refs| && last.bos[b].usecnt == 1 && last.refs[b] == 1
  {
    InitInv(s);
    CanCall(s, t, b);
    hide Alone, Settled, Inv, Step, Enabled;
    var n := CallAlone(s, t, Inc(b));
    var next := Step(s, t, Inc(b));
    assert Follows(s, next);
    run := AloneExtends([s, next], t, Called(s, Inc(b)), n);
    OneHandedOut(s, b);
  }

  lemma CanCall(s: State, t: nat, b: nat)
    requires Init(s) && t < |s.threads| && b < |s.bos|
    ensures Enabled(s, t, Inc(b)) && s.threads[t] == Idle && s.bos[b].lock == None
  {}

  lemma OneHandedOut(s: State, b: nat)
    requires Init(s) && b < |s.bos| && s.bos[b].madv == WillNeed
    ensures var r := Called(s, Inc(b)); |r.bos| == |r.refs| == |s.bos| && r.bos[b].usecnt == 1 && r.refs[b] == 1
  {}

  // ---- What vc4_bo_inc_usecnt answers, whatever others do ----

  datatype Turn = Turn(t: nat, c: Choice)

  /** A run with the turns taken: trace[i] leads from run[i] to run[i + 1]. */
  ghost predicate IsTraced(run: seq<State>, trace: seq<Turn>) {
    && |run| == |trace| + 1 && Init(run[0])
    && forall i :: 0 <= i < |trace| ==>
         Enabled(run[i], trace[i].t, trace[i].c) && run[i + 1] == Step(run[i], trace[i].t, trace[i].c)
  }

  function Refs(s: State, b: nat): nat {
    if b < |s.refs| then s.refs[b] else 0
  }

  /** The references to b that thread t was handed in its turns from i on, before k. */
  function Handed(run: seq<State>, trace: seq<Turn>, i: nat, k: nat, t: nat, b: nat): int
    requires i <= k <= |trace| < |run|
    decreases k
  {
    if i == k then 0
    else Handed(run, trace, i, k - 1, t, b) + if trace[k - 1].t == t then Refs(run[k], b) - Refs(run[k - 1], b) else 0
  }

  lemma {:induction false} TracedInv(run: seq<State>, trace: seq<Turn>, i: nat)
    requires IsTraced(run, trace) && i < |run|
    ensures Inv(run[i]) && |run[i].bos| == |run[0].bos| && |run[i].threads| == |run[0].threads|
    decreases i
  {
    hide Init, Step, Enabled, Inv;
    if i == 0 {
      InitInv(run[0]);
    } else {
      TracedInv(run, trace, i - 1);
      var t, c := trace[i - 1].t, trace[i - 1].c;
      assert Enabled(run[i - 1], t, c) && run[i - 1 + 1] == Step(run[i - 1], t, c);
      StepKeeps(run[i - 1], t, c);
      BoCount(run[i - 1], t, c);
      OthersStay(run[i - 1], t, c);
    }
  }

  lemma OthersStay(s: State, t: nat, c: Choice)
    requires Enabled(s, t, c)
    ensures |Step(s, t, c).threads| == |s.threads| && t < |s.threads|
    ensures forall u :: 0 <= u < |s.threads| && u != t ==> Step(s, t, c).threads[u] == s.threads[u]
  {
    hide MoveOf, PoolStep;
  }

  /** Thread t held the BO's lock in run[l], a state between i and k. */
  predicate Looked(run: seq<State>, i: nat, k: nat, l: nat, t: nat, b: nat) {
    i < l < k <= |run| && b < |run[l].bos| && run[l].bos[b].lock == Some(t)
  }

  /** How far a call of vc4_bo_inc_usecnt, past its fast path, has got in run[k], and what it has handed out. */
  predicate Incing(run: seq<State>, trace: seq<Turn>, i: nat, k: nat, l: nat, t: nat, b: nat)
    requires i <= k <= |trace| < |run| && t < |run[k].threads|
  {
    var h := Handed(run, trace, i, k, t, b);
    match run[k].threads[t]
    case IncLock(x) => x == b && h == 0
    case IncSwitch(x) => x == b && h == 0
    case IncTry(x) => x == b && h == 0 && Looked(run, i, k, l, t, b) && run[l].bos[b].madv == WillNeed
    case IncSet(x) => x == b && h == 0 && Looked(run, i, k, l, t, b) && run[l].bos[b].madv == WillNeed
    case Unlock(x) => x == b && Looked(run, i, k, l, t, b) && h == if run[l].bos[b].madv == WillNeed then 1 else 0
    case Idle => Looked(run, i, k, l, t, b) && h == if run[l].bos[b].madv == WillNeed then 1 else 0
    case _ => false
  }

  lemma IncGoes(s: State, t: nat, c: Choice, b: nat)
    requires Inv(s) && Enabled(s, t, c) && b < |s.bos|
    requires s.threads[t] in {IncLock(b), IncSwitch(b), IncTry(b), IncSet(b), Unlock(b)}
    ensures var pc, r := s.threads[t], Step(s, t, c);
      && t < |r.threads| && b < |r.refs|
      && (pc != IncLock(b) ==> s.bos[b].lock == Some(t))
      && var next, h := r.threads[t], r.refs[b] - s.refs[b];
      && (pc == IncLock(b) ==> next == IncSwitch(b) && h == 0)
      && (pc == IncSwitch(b) ==> h == 0 && next == if s.bos[b].madv == WillNeed then IncTry(b) else Unlock(b))
      && (pc == IncTry(b) ==> (next == IncSet(b) && h == 0) || (next == Unlock(b) && h == 1))
      && (pc == IncSet(b) ==> next == Unlock(b) && h == 1)
      && (pc == Unlock(b) ==> next == Idle && h == 0)
  {
    hide BoInv, ListInv, PoolStep;
    assert ThreadInv(s, t);
    GoIs(s, t, b, GoMove(s.bos[b], s.threads[t], t, b in s.list));
  }

  lemma {:induction false} IncPhase(run: seq<State>, trace: seq<Turn>, i: nat, k: nat, t: nat, b: nat)
    returns (l: nat)
    requires IsTraced(run, trace) && i < k <= |trace| && trace[i] == Turn(t, Inc(b))
    requires b < |run[i].bos| && run[i].bos[b].usecnt == 0
    requires forall x :: i < x < k ==> t < |run[x].threads| && run[x].threads[t] != Idle
    ensures t < |run[k].threads| && Incing(run, trace, i, k, l, t, b)
    decreases k
  {
    hide Init, Step, Enabled, Inv, IsTraced;
    if k == i + 1 {
      IncFirst(run, trace, i, t, b);
      l := i;
    } else {
      l := IncPhase(run, trace, i, k - 1, t, b);
      l := IncNext(run, trace, i, k, l, t, b);
    }
  }

  lemma IncFirst(run: seq<State>, trace: seq<Turn>, i: nat, t: nat, b: nat)
    requires IsTraced(run, trace) && i < |trace| && trace[i] == Turn(t, Inc(b))
    requires b < |run[i].bos| && run[i].bos[b].usecnt == 0
    ensures t < |run[i + 1].threads| && Incing(run, trace, i, i + 1, i, t, b)
  {
    hide Init, Step, Inv;
    assert Enabled(run[i], t, Inc(b)) && run[i + 1] == Step(run[i], t, Inc(b));
    IncStarts(run[i], t, b);
    assert Handed(run, trace, i, i, t, b) == 0;
  }

  lemma IncNext(run: seq<State>, trace: seq<Turn>, i: nat, k: nat, l: nat, t: nat, b: nat) returns (m: nat)
    requires IsTraced(run, trace) && i < k - 1 < |trace| && b < |run[i].bos|
    requires t < |run[k - 1].threads| && run[k - 1].threads[t] != Idle
    requires Incing(run, trace, i, k - 1, l, t, b)
    ensures t < |run[k].threads| && Incing(run, trace, i, k, m, t, b)
  {
    hide Init, Step, Enabled, Inv;
    TracedInv(run, trace, i);
    TracedInv(run, trace, k - 1);
    TracedInv(run, trace, k);
    var u, c := trace[k - 1].t, trace[k - 1].c;
    assert Enabled(run[k - 1], u, c) && run[k - 1 + 1] == Step(run[k - 1], u, c);
    OthersStay(run[k - 1], u, c);
    m := if u == t && run[k - 1].threads[t] == IncSwitch(b) then k - 1 else l;
    if u == t {
      IncGoes(run[k - 1], t, c, b);
      SameRefs(run[k - 1], run[k], b);
    }
  }

  lemma SameRefs(s: State, s': State, b: nat)
    requires Inv(s) && Inv(s') && |s'.bos| == |s.bos| && b < |s.bos|
    ensures b < |s.refs| == |s'.refs| && Refs(s, b) == s.refs[b] && Refs(s', b) == s'.refs[b]
  {
    hide BoInv, ThreadInv, ListInv;
  }

  lemma IncStarts(s: State, t: nat, b: nat)
    requires Enabled(s, t, Inc(b)) && b < |s.bos|
    ensures var r := Step(s, t, Inc(b));
      && t < |r.threads| && b < |r.refs| == |s.refs|
      && (s.bos[b].usecnt == 0 ==> r.threads[t] == IncLock(b) && r.refs[b] == s.refs[b])
      && (s.bos[b].usecnt != 0 ==> r.threads[t] == Idle && r.refs[b] == s.refs[b] + 1)
  {}

  /** In every run, a call of vc4_bo_inc_usecnt that has returned handed its caller exactly one reference
      if the count was not zero when the call began, or else if the BO was marked WILLNEED in a state of
      the call in which its thread held madv_lock; otherwise it handed out none. */
  lemma IncAnswers(run: seq<State>, trace: seq<Turn>, i: nat, k: nat, t: nat, b: nat) returns (l: nat)
    requires IsTraced(run, trace) && i < k <= |trace| && trace[i] == Turn(t, Inc(b))
    requires t < |run[k].threads| && run[k].threads[t] == Idle
    requires forall x :: i < x < k ==> t < |run[x].threads| && run[x].threads[t] != Idle
    ensures b < |run[i].bos|
    ensures var h := Handed(run, trace, i, k, t, b);
      if run[i].bos[b].usecnt != 0 then h == 1
      else Looked(run, i, k, l, t, b) && h == if run[l].bos[b].madv == WillNeed then 1 else 0
  {
    hide Init, Step, Inv, MoveOf;
    assert Enabled(run[i], t, Inc(b)) && run[i + 1] == Step(run[i], t, Inc(b));
    TracedInv(run, trace, i);
    TracedInv(run, trace, i + 1);
    if run[i].bos[b].usecnt != 0 {
      IncStarts(run[i], t, b);
      SameRefs(run[i], run[i + 1], b);
      assert Handed(run, trace, i, i, t, b) == 0;
      assert k == i + 1;
      l := i;
    } else {
      l := IncPhase(run, trace, i, k, t, b);
    }
  }
}
