/** Freeing buffer objects while others purge. vc4_free_object runs when the last reference to a BO is
    dropped; a purger holds no reference to the BO it has taken off the list. */
module PurgeFree {
  import opened Options
  import opened Lists
  import opened MadvState
  import opened PurgeProtocol

  /** The protocol's state, and the BOs that have been freed. */
  datatype Full = Full(s: State, gone: set<nat>)

  datatype FullChoice = Base(t: nat, c: Choice) | DoFree(b: nat)

  /** The last reference to b has been dropped: nobody uses it, and no call on it is in progress except
      that of a purger, which has it in hand without a reference. */
  predicate CanFree(f: Full, b: nat) {
    && f.s.Shape() && b < |f.s.bos| && b !in f.gone && f.s.refs[b] == 0 && f.s.bos[b].lock == None
    && forall t :: 0 <= t < |f.s.threads| && Target(f.s.threads[t]) == Some(b) ==> f.s.threads[t] == PurgeLock(b)
  }

  /** Calls are made only on BOs that have not been freed; threads under way go on. */
  predicate FullEnabled(f: Full, c: FullChoice) {
    match c
    case Base(t, x) => Enabled(f.s, t, x) && (x.Inc? || x.Dec? || x.Madvise? ==> x.b !in f.gone)
    case DoFree(b) => CanFree(f, b)
  }

  /** vc4_free_object: off the purgeable list if it is on it, and out of madvise's reach. */
  function FullStep(f: Full, c: FullChoice): Full
    requires FullEnabled(f, c)
  {
    match c
    case Base(t, x) => f.(s := Step(f.s, t, x))
    case DoFree(b) =>
      var bo := f.s.bos[b];
      var s := PoolStep(f.s, b, if bo.madv == DontNeed && bo.usecnt == 0 then Remove else Keep);
      Full(s.(bos := s.bos[b := Freed(bo)]), f.gone + {b})
  }

  function Freed(bo: Bo): Bo {
    if bo.madv == Purged then bo else bo.(madv := NotSupp)
  }

  /** No thread is about to touch a freed BO. */
  ghost predicate Safe(f: Full) {
    forall t :: 0 <= t < |f.s.threads| && Target(f.s.threads[t]).Some? ==> Target(f.s.threads[t]).value !in f.gone
  }

  ghost predicate FullInv(f: Full) {
    Inv(f.s) && forall b :: b in f.gone ==> b !in f.s.list
  }

  /** A purger has the BO in hand. */
  ghost predicate InHand(s: State, b: nat) {
    exists t :: 0 <= t < |s.threads| && s.threads[t] == PurgeLock(b)
  }

  /** A free that catches a purger with the BO in hand. */
  ghost predicate Catches(f: Full, c: FullChoice) {
    c.DoFree? && InHand(f.s, c.b)
  }

  lemma BaseKeeps(f: Full, t: nat, c: Choice)
    requires FullInv(f) && Safe(f) && FullEnabled(f, Base(t, c))
    ensures FullInv(FullStep(f, Base(t, c))) && Safe(FullStep(f, Base(t, c)))
  {
    hide Inv, Step, Enabled, MoveOf;
    StepKeeps(f.s, t, c);
    BaseMoves(f.s, t, c);
    BaseLists(f.s, t, c);
  }

  /** The thread's next target is the BO it was working on or was called on, or the head of the list. */
  lemma BaseMoves(s: State, t: nat, c: Choice)
    requires Inv(s) && Enabled(s, t, c)
    ensures var s' := Step(s, t, c);
      && |s'.threads| == |s.threads| && (forall u :: 0 <= u < |s.threads| && u != t ==> s'.threads[u] == s.threads[u])
      && (Target(s'.threads[t]).Some? ==>
            || Subject(s, t, c) == Target(s'.threads[t])
            || (s.list != [] && Target(s'.threads[t]) == Some(s.list[0])))
      && t < |s.threads|
  {
    hide SubjectDone, MoveOf, Inv;
    if !c.Purge? && !(c.Go? && s.threads[t] == PurgePick) {
      var b := Subject(s, t, c).value;
      SubjectMove(s, t, c, b);
      NextTarget(s, t, b, MoveOf(s.bos[b], s.threads[t], c, t, b in s.list));
    }
  }

  lemma NextTarget(s: State, t: nat, b: nat, m: Move)
    requires t < |s.threads| && b < |s.bos| == |s.refs| && SubjectDone(s, t, b, m)
    ensures Target(m.pc).Some? ==> Target(m.pc) == Some(b)
  {}

  /** The list gains at most the BO the step works on. */
  lemma BaseLists(s: State, t: nat, c: Choice)
    requires Inv(s) && Enabled(s, t, c)
    ensures forall b :: b in Step(s, t, c).list && b !in s.list ==> Subject(s, t, c) == Some(b)
  {
    hide MoveOf, BoInv, ThreadInv;
    if !c.Purge? && !(c.Go? && s.threads[t] == PurgePick) {
      var b := Subject(s, t, c).value;
      WithoutMembers(s.list, b);
    }
  }

  /** A free leaves the protocol in order whoever has the BO in hand. */
  lemma FreeKeeps(f: Full, b: nat)
    requires FullInv(f) && CanFree(f, b)
    ensures FullInv(FullStep(f, DoFree(b)))
  {
    hide BoOk, InLimbo, Listing, ListInv;
    var s, bo := f.s, f.s.bos[b];
    var op := if bo.madv == DontNeed && bo.usecnt == 0 then Remove else Keep;
    var s' := FullStep(f, DoFree(b)).s;
    PoolStepKeeps(s, b, op);
    SameLists(PoolStep(s, b, op), s');
    assert BoInv(s, b);
    FreedOk(bo, HolderPc(s, b), b in s.list, InLimbo(s.threads, b));
    forall x | 0 <= x < |s'.bos| ensures BoInv(s', x) {
      assert BoInv(s, x);
    }
    forall t | 0 <= t < |s'.threads| ensures ThreadInv(s', t) {
      assert ThreadInv(s, t);
      HoldsIsTarget(s.threads[t]);
    }
  }

  lemma FreedOk(bo: Bo, holder: Pc, listed: bool, limbo: bool)
    requires BoOk(bo, holder, listed, limbo) && bo.lock == None && holder == Idle
    ensures BoOk(Freed(bo), Idle, false, limbo)
    ensures listed ==> bo.madv == DontNeed && bo.usecnt == 0
  {}

  /** Every step from a safe state keeps the invariant, and the next state is safe exactly when the step
      was not a free that caught a purger. */
  lemma StepSafeIff(f: Full, c: FullChoice)
    requires FullInv(f) && Safe(f) && FullEnabled(f, c)
    ensures FullInv(FullStep(f, c)) && (Safe(FullStep(f, c)) <==> !Catches(f, c))
  {
    match c
    case Base(t, x) => BaseKeeps(f, t, x);
    case DoFree(b) =>
      hide Inv, PoolStep;
      FreeKeeps(f, b);
      SameThreads(f.s, b, if f.s.bos[b].madv == DontNeed && f.s.bos[b].usecnt == 0 then Remove else Keep);
      FreeSafeIff(f, b, FullStep(f, c));
  }

  lemma SameThreads(s: State, b: nat, op: PoolOp)
    requires s.Shape() && b < |s.bos|
    ensures PoolStep(s, b, op).threads == s.threads
  {}

  lemma FreeSafeIff(f: Full, b: nat, f': Full)
    requires CanFree(f, b) && Safe(f) && f'.s.threads == f.s.threads && f'.gone == f.gone + {b}
    ensures Safe(f') <==> !InHand(f.s, b)
  {
    if InHand(f.s, b) {
      var t :| 0 <= t < |f.s.threads| && f.s.threads[t] == PurgeLock(b);
      assert Target(f'.s.threads[t]) == Some(b);
    }
  }

  // ---- Every run ----

  /** A run with the choices made: trace[i] leads from run[i] to run[i + 1]. */
  ghost predicate IsFullRun(run: seq<Full>, trace: seq<FullChoice>) {
    && |run| == |trace| + 1 && Init(run[0].s) && run[0].gone == {}
    && forall i :: 0 <= i < |trace| ==> FullEnabled(run[i], trace[i]) && run[i + 1] == FullStep(run[i], trace[i])
  }

  ghost predicate SafeUpTo(run: seq<Full>, n: nat)
    requires n < |run|
  {
    forall i :: 0 <= i <= n ==> Safe(run[i])
  }

  ghost predicate CatchesNone(run: seq<Full>, trace: seq<FullChoice>, n: nat)
    requires n <= |trace| < |run|
  {
    forall i :: 0 <= i < n ==> !Catches(run[i], trace[i])
  }

  /** In every run, no thread ever comes to touch a freed BO exactly when no BO is freed while a purger
      has it in hand, between taking it off the list and taking its lock. */
  lemma {:induction false} NoTouchIff(run: seq<Full>, trace: seq<FullChoice>, n: nat)
    requires IsFullRun(run, trace) && n <= |trace|
    ensures SafeUpTo(run, n) <==> CatchesNone(run, trace, n)
    ensures SafeUpTo(run, n) ==> FullInv(run[n])
  {
    hide Init, FullStep, FullEnabled, Safe, Catches, FullInv;
    if n == 0 {
      FirstState(run[0]);
    } else {
      NoTouchIff(run, trace, n - 1);
      assert FullEnabled(run[n - 1], trace[n - 1]) && run[n - 1 + 1] == FullStep(run[n - 1], trace[n - 1]);
      if SafeUpTo(run, n - 1) {
        StepSafeIff(run[n - 1], trace[n - 1]);
        assert CatchesNone(run, trace, n) <==> !Catches(run[n - 1], trace[n - 1]);
        assert SafeUpTo(run, n) <==> Safe(run[n]);
      } else {
        var i :| 0 <= i < n - 1 && Catches(run[i], trace[i]);
        assert !CatchesNone(run, trace, n);
      }
    }
  }

  lemma FirstState(f: Full)
    requires Init(f.s) && f.gone == {}
    ensures Safe(f) && FullInv(f)
  {
    InitInv(f.s);
  }

  /** A run of the protocol is a run in which nothing is freed. */
  lemma {:induction false} Unfreed(run: seq<State>) returns (full: seq<Full>, trace: seq<FullChoice>)
    requires IsRun(run)
    ensures IsFullRun(full, trace) && |full| == |run| && forall i :: 0 <= i < |run| ==> full[i] == Full(run[i], {})
  {
    hide Init, Step, Enabled;
    var n := |run| - 1;
    if n == 0 {
      full, trace := [Full(run[0], {})], [];
    } else {
      var before, made := Unfreed(run[..n]);
      assert Follows(run[n - 1], run[n]);
      var t, c :| Enabled(run[n - 1], t, c) && run[n] == Step(run[n - 1], t, c);
      full, trace := before + [Full(run[n], {})], made + [Base(t, c)];
    }
  }

  /** It does happen: a user marks the BO DONTNEED, a purger takes it off the list, the BO is freed, and
      the purger is about to lock it. */
  lemma CaughtInHand() returns (run: seq<Full>, trace: seq<FullChoice>)
    ensures IsFullRun(run, trace) && trace != []
    ensures Catches(run[|trace| - 1], trace[|trace| - 1]) && Safe(run[|trace| - 1]) && !Safe(run[|trace|])
  {
    hide Follows, FullStep, FullEnabled, Init, Sys;
    var f := Full(Sys(DontNeed, None, Idle, PurgeLock(0), [], 0, 0, 0), {});
    var first := Advising(WillNeed, DontNeed, Idle);
    var second := Delisting();
    Joined(first, second);
    FirstIsInit();
    var before, made := Unfreed(first + second[1..]);
    CanBeCaught(f);
    run, trace := before + [FullStep(f, DoFree(0))], made + [DoFree(0)];
  }

  lemma FirstIsInit()
    ensures Init(Sys(WillNeed, None, Idle, Idle, [], 0, 0, 0))
  {}

  lemma CanBeCaught(f: Full)
    requires f == Full(Sys(DontNeed, None, Idle, PurgeLock(0), [], 0, 0, 0), {})
    ensures FullEnabled(f, DoFree(0)) && Catches(f, DoFree(0)) && Safe(f) && !Safe(FullStep(f, DoFree(0)))
  {
    var f' := FullStep(f, DoFree(0));
    assert f.s.threads[1] == PurgeLock(0);
    assert f'.s.threads[1] == PurgeLock(0) && Target(f'.s.threads[1]) == Some(0);
  }
}
