/** vc4_lock_bo_reservations: taking the reservation lock of every buffer object of a job, backing off
    and retrying when the wound/wait protocol reports a deadlock. */
module Reservations {
  import opened Lists

  datatype Error = EDeadlk | EIntr | EAlready | ENoMem

  datatype Outcome = Ok | Fail(error: Error)

  /** How a lock call on a reservation this job does not hold ends. */
  datatype Answer = Granted | Deadlock | Interrupted

  /** The answers to those calls, in order, and whether there is room for each fence. Calls past the end of
      a list are interrupted. */
  datatype Env = Env(locks: seq<Answer>, fences: seq<bool>)

  function AnswerAt(locks: seq<Answer>, k: nat): Answer {
    if k < |locks| then locks[k] else Interrupted
  }

  /** The entries that are locked when the pass over the list stands between j and i and entry c was
      taken first (c is -1 when there was no deadlock before). */
  predicate InSpan(k: int, j: int, i: int, c: int) {
    j <= k < i || (k == c && c >= i)
  }

  ghost function Span(bos: seq<nat>, j: int, i: int, c: int): set<nat> {
    set k | 0 <= k < |bos| && InSpan(k, j, i, c) :: bos[k]
  }

  ghost predicate SpanDistinct(bos: seq<nat>, j: int, i: int, c: int) {
    forall k, l :: 0 <= k < |bos| && 0 <= l < |bos| && InSpan(k, j, i, c) && InSpan(l, j, i, c) && bos[k] == bos[l] ==>
      k == l
  }

  // ---- Which answers lead to which result ----

  /** Entry i is locked already when the pass comes to it. */
  predicate Repeats(bos: seq<nat>, i: nat, c: int)
    requires i < |bos|
  {
    exists k :: 0 <= k < |bos| && InSpan(k, 0, i, c) && bos[k] == bos[i]
  }

  /** A result, the entry it was met at, and the answers used up so far. */
  datatype Result = Result(r: Outcome, at: nat, calls: nat)

  /** A pass over the list from entry i on, entry c being locked already. */
  function Pass(bos: seq<nat>, locks: seq<Answer>, i: nat, c: int, calls: nat): (p: Result)
    requires i <= |bos|
    ensures p.at <= |bos| && calls <= p.calls && (p.r == Ok <==> p.at == |bos|)
    decreases |bos| - i
  {
    if i == |bos| then Result(Ok, i, calls)
    else if i == c then Pass(bos, locks, i + 1, c, calls)
    else if Repeats(bos, i, c) then Result(Fail(EAlready), i, calls)
    else
      match AnswerAt(locks, calls)
      case Granted => Pass(bos, locks, i + 1, c, calls + 1)
      case Deadlock => Result(Fail(EDeadlk), i, calls + 1)
      case Interrupted => Result(Fail(EIntr), i, calls + 1)
  }

  /** After a deadlock the pass is made again, with the entry it was met at locked first. */
  function Passes(bos: seq<nat>, locks: seq<Answer>, c: int, calls: nat): Result
    requires -1 <= c < |bos|
    decreases |locks| - calls
  {
    if c != -1 && AnswerAt(locks, calls) == Interrupted then Result(Fail(EIntr), c, calls + 1)
    else
      var p := Pass(bos, locks, 0, c, if c == -1 then calls else calls + 1);
      if p.r != Fail(EDeadlk) then p
      else
        DeadlockAnswered(bos, locks, 0, c, if c == -1 then calls else calls + 1);
        Passes(bos, locks, p.at, p.calls)
  }

  lemma {:induction false} DeadlockAnswered(bos: seq<nat>, locks: seq<Answer>, i: nat, c: int, calls: nat)
    requires i <= |bos|
    ensures var p := Pass(bos, locks, i, c, calls);
      && p.r in {Ok, Fail(EDeadlk), Fail(EIntr), Fail(EAlready)}
      && (p.r == Fail(EDeadlk) ==> calls < p.calls <= |locks| && locks[p.calls - 1] == Deadlock)
      && (p.r == Fail(EIntr) ==> calls < p.calls && AnswerAt(locks, p.calls - 1) == Interrupted)
      && (p.r == Fail(EAlready) ==> p.at < |bos| && p.at != c && Repeats(bos, p.at, c))
    decreases |bos| - i
  {
    hide Repeats;
    if i < |bos| && (i == c || !Repeats(bos, i, c)) {
      if i == c {
        DeadlockAnswered(bos, locks, i + 1, c, calls);
      } else if AnswerAt(locks, calls) == Granted {
        DeadlockAnswered(bos, locks, i + 1, c, calls + 1);
      }
    }
  }

  /** A deadlock is never the result; an interruption is the last call's, and EALREADY means that the list
      names an entry twice. */
  lemma {:induction false} PassesCause(bos: seq<nat>, locks: seq<Answer>, c: int, calls: nat)
    requires -1 <= c < |bos|
    ensures var p := Passes(bos, locks, c, calls);
      && (p.r == Ok || p.r == Fail(EIntr) || p.r == Fail(EAlready))
      && (p.r == Fail(EIntr) ==> calls < p.calls && AnswerAt(locks, p.calls - 1) == Interrupted)
      && (p.r == Fail(EAlready) ==> !Distinct(bos))
    decreases |locks| - calls
  {
    hide Pass, Repeats;
    if c == -1 || AnswerAt(locks, calls) != Interrupted {
      var from := if c == -1 then calls else calls + 1;
      DeadlockAnswered(bos, locks, 0, c, from);
      var p := Pass(bos, locks, 0, c, from);
      if p.r == Fail(EDeadlk) {
        PassesCause(bos, locks, p.at, p.calls);
      } else if p.r == Fail(EAlready) {
        RepeatsTwice(bos, p.at, c);
      }
    }
  }

  lemma RepeatsTwice(bos: seq<nat>, i: nat, c: int)
    requires i < |bos| && i != c && Repeats(bos, i, c)
    ensures !Distinct(bos)
  {
    var k :| 0 <= k < |bos| && InSpan(k, 0, i, c) && bos[k] == bos[i];
  }

  /** The last n answers of the list, at least, grant. */
  predicate GrantsAtEnd(locks: seq<Answer>, n: nat) {
    n <= |locks| && forall k :: |locks| - n <= k < |locks| ==> locks[k] == Granted
  }

  /** How many locks a pass at entry i still needs. */
  function Needs(bos: seq<nat>, i: nat, c: int): int {
    |bos| - i - if c >= i then 1 else 0
  }

  /** A pass that is not interrupted and has enough answers left ends clean or in a deadlock, and then
      before the answers that all grant. */
  lemma {:induction false} PassGoesOn(bos: seq<nat>, locks: seq<Answer>, i: nat, c: int, calls: nat)
    requires i <= |bos| && -1 <= c < |bos| && Distinct(bos) && Interrupted !in locks && GrantsAtEnd(locks, |bos|)
    requires calls + Needs(bos, i, c) <= |locks|
    ensures var p := Pass(bos, locks, i, c, calls);
      p.r == Ok || (p.r == Fail(EDeadlk) && p.calls <= |locks| - |bos|)
    decreases |bos| - i
  {
    if i < |bos| {
      if i == c {
        PassGoesOn(bos, locks, i + 1, c, calls);
      } else {
        if Repeats(bos, i, c) {
          RepeatsTwice(bos, i, c);
        }
        if AnswerAt(locks, calls) == Granted {
          PassGoesOn(bos, locks, i + 1, c, calls + 1);
        }
      }
    }
  }

  /** However many deadlocks come first, a list without repeated entries is locked once every lock is
      granted, unless a call was interrupted before. */
  lemma {:induction false} DistinctSucceeds(bos: seq<nat>, locks: seq<Answer>, c: int, calls: nat)
    requires -1 <= c < |bos| && Distinct(bos) && Interrupted !in locks && GrantsAtEnd(locks, |bos|)
    requires calls <= |locks| - |bos|
    ensures Passes(bos, locks, c, calls).r == Ok
    decreases |locks| - calls
  {
    hide Pass, GrantsAtEnd, Distinct;
    if c == -1 || AnswerAt(locks, calls) != Interrupted {
      var from := if c == -1 then calls else calls + 1;
      PassGoesOn(bos, locks, 0, c, from);
      DeadlockAnswered(bos, locks, 0, c, from);
      var p := Pass(bos, locks, 0, c, from);
      if p.r == Fail(EDeadlk) {
        DistinctSucceeds(bos, locks, p.at, p.calls);
      }
    }
  }

  predicate Roomy(bos: seq<nat>, fences: seq<bool>) {
    |bos| <= |fences| && forall i :: 0 <= i < |bos| ==> fences[i]
  }

  lemma PassesStep(bos: seq<nat>, locks: seq<Answer>, c: int, calls: nat)
    requires -1 <= c < |bos|
    ensures Passes(bos, locks, c, calls) ==
      if c != -1 && AnswerAt(locks, calls) == Interrupted then Result(Fail(EIntr), c, calls + 1)
      else
        var p := Pass(bos, locks, 0, c, if c == -1 then calls else calls + 1);
        if p.r != Fail(EDeadlk) then p else Passes(bos, locks, p.at, p.calls)
  {
    DeadlockAnswered(bos, locks, 0, c, if c == -1 then calls else calls + 1);
  }

  class Job {
    const bos: seq<nat>  // exec->bo[i]->resv, by identity
    var held: set<nat>   // reservations this acquire context holds
    var calls: nat       // lock calls made so far
    const env: Env

    constructor (bos: seq<nat>, env: Env)
      ensures this.bos == bos && this.env == env && held == {} && calls == 0
    {
      this.bos, this.env, this.held, this.calls := bos, env, {}, 0;
    }

    // dma_resv_lock_interruptible: a lock the context already holds is refused with -EALREADY.
    method Lock(resv: nat) returns (r: Outcome)
      modifies this`held, this`calls
      ensures if resv in old(held) then r == Fail(EAlready) && held == old(held) && calls == old(calls)
              else
                && calls == old(calls) + 1 && held == old(held) + (if r == Ok then {resv} else {})
                && r == match AnswerAt(env.locks, old(calls))
                        case Granted => Ok
                        case Deadlock => Fail(EDeadlk)
                        case Interrupted => Fail(EIntr)
    {
      if resv in held {
        return Fail(EAlready);
      }
      var answer := AnswerAt(env.locks, calls);
      calls := calls + 1;
      match answer
      case Granted =>
        held := held + {resv};
        return Ok;
      case Deadlock => return Fail(EDeadlk);
      case Interrupted => return Fail(EIntr);
    }

    // dma_resv_lock_slow_interruptible: waits for the contended lock, so it does not end in a deadlock.
    method LockSlow(resv: nat) returns (r: Outcome)
      requires resv !in held
      modifies this`held, this`calls
      ensures calls == old(calls) + 1 && held == old(held) + (if r == Ok then {resv} else {})
      ensures r == if AnswerAt(env.locks, old(calls)) == Interrupted then Fail(EIntr) else Ok
    {
      r := if AnswerAt(env.locks, calls) == Interrupted then Fail(EIntr) else Ok;
      calls := calls + 1;
      if r == Ok {
        held := held + {resv};
      }
    }

    // dma_resv_unlock: the lock must be held.
    method Unlock(resv: nat)
      requires resv in held
      modifies this`held
      ensures held == old(held) - {resv}
    {
      held := held - {resv};
    }

    // The unwinding after the lock of entry i failed: unlock all entries before it, and the contended
    // one if the pass had not reached it yet.
    method BackOff(i: nat, contended: int)
      requires i < |bos| && -1 <= contended < |bos| && contended != i
      requires held == Span(bos, 0, i, contended) && SpanDistinct(bos, 0, i, contended)
      modifies this`held
      ensures held == {}
    {
      var j := 0;
      while j < i
        invariant j <= i && held == Span(bos, j, i, contended) && SpanDistinct(bos, j, i, contended)
      {
        assert InSpan(j, j, i, contended);
        Unlock(bos[j]);
        j := j + 1;
        assert forall k :: InSpan(k, j, i, contended) <==> InSpan(k, j - 1, i, contended) && k != j - 1;
      }
      if contended != -1 && contended >= i {
        assert InSpan(contended, i, i, contended);
        Unlock(bos[contended]);
      }
    }

    // One pass over the list with the contended entry already locked.
    method LockRest(contended: int) returns (r: Outcome, i: nat)
      requires -1 <= contended < |bos|
      requires held == Span(bos, 0, 0, contended)
      modifies this`held, this`calls
      ensures Result(r, i, calls) == Pass(bos, env.locks, 0, contended, old(calls))
      ensures r == Ok ==> held == Span(bos, 0, |bos|, -1) && SpanDistinct(bos, 0, |bos|, -1)
      ensures r != Ok ==> held == {}
    {
      hide Pass;
      r, i := Ok, 0;
      while i < |bos|
        invariant i <= |bos| && r == Ok
        invariant Pass(bos, env.locks, i, contended, calls) == Pass(bos, env.locks, 0, contended, old(calls))
        invariant held == Span(bos, 0, i, contended) && SpanDistinct(bos, 0, i, contended)
      {
        PassStep(bos, env.locks, i, contended, calls);
        if i != contended {
          r := Lock(bos[i]);
          if r != Ok {
            BackOff(i, contended);
            return;
          }
          assert forall k :: InSpan(k, 0, i + 1, contended) <==> InSpan(k, 0, i, contended) || k == i;
        }
        i := i + 1;
      }
      PassEnd(bos, env.locks, contended, calls);
      assert forall k :: 0 <= k < |bos| ==> InSpan(k, 0, |bos|, -1) && InSpan(k, 0, |bos|, contended);
    }

    lemma PassStep(bos: seq<nat>, locks: seq<Answer>, i: nat, c: int, calls: nat)
      requires i < |bos|
      ensures Pass(bos, locks, i, c, calls) ==
        if i == c then Pass(bos, locks, i + 1, c, calls)
        else if bos[i] in Span(bos, 0, i, c) then Result(Fail(EAlready), i, calls)
        else
          match AnswerAt(locks, calls)
          case Granted => Pass(bos, locks, i + 1, c, calls + 1)
          case Deadlock => Result(Fail(EDeadlk), i, calls + 1)
          case Interrupted => Result(Fail(EIntr), i, calls + 1)
    {}

    lemma PassEnd(bos: seq<nat>, locks: seq<Answer>, c: int, calls: nat)
      ensures Pass(bos, locks, |bos|, c, calls) == Result(Ok, |bos|, calls)
    {}

    // vc4_unlock_bo_reservations
    method UnlockAll()
      requires held == Span(bos, 0, |bos|, -1) && SpanDistinct(bos, 0, |bos|, -1)
      modifies this`held
      ensures held == {}
    {
      var i := 0;
      while i < |bos|
        invariant i <= |bos| && held == Span(bos, i, |bos|, -1) && SpanDistinct(bos, i, |bos|, -1)
      {
        assert InSpan(i, i, |bos|, -1);
        Unlock(bos[i]);
        i := i + 1;
        assert forall k :: InSpan(k, i, |bos|, -1) <==> InSpan(k, i - 1, |bos|, -1) && k != i - 1;
      }
    }

    // The retry loop of vc4_lock_bo_reservations.
    method LockAll() returns (r: Outcome)
      requires held == {}
      modifies this`held, this`calls
      ensures r == Ok ==> held == Span(bos, 0, |bos|, -1) && SpanDistinct(bos, 0, |bos|, -1)
      ensures r != Ok ==> held == {}
      ensures var p := Passes(bos, env.locks, -1, old(calls)); r == p.r && calls == p.calls
    {
      hide Pass, Passes;
      var contended := -1;
      r := Fail(EDeadlk);
      ghost var p := Passes(bos, env.locks, -1, calls);
      PassesCause(bos, env.locks, -1, calls);
      while r == Fail(EDeadlk)
        invariant -1 <= contended < |bos|
        invariant r != Ok ==> held == {}
        invariant r == Fail(EDeadlk) ==> Passes(bos, env.locks, contended, calls) == p
        invariant r != Fail(EDeadlk) ==> r == p.r && calls == p.calls
        invariant r == Ok ==> held == Span(bos, 0, |bos|, -1) && SpanDistinct(bos, 0, |bos|, -1)
        decreases r == Fail(EDeadlk), |env.locks| - calls
      {
        PassesStep(bos, env.locks, contended, calls);
        if contended != -1 {
          r := LockSlow(bos[contended]);
          if r != Ok {
            return;
          }
        }
        assert forall k :: InSpan(k, 0, 0, contended) <==> k == contended >= 0;
        DeadlockAnswered(bos, env.locks, 0, contended, calls);
        var i;
        r, i := LockRest(contended);
        if r == Fail(EDeadlk) {
          contended := i;
        }
      }
    }

    // Room for a fence on every reservation, or none of them is kept.
    method ReserveFences() returns (r: Outcome)
      requires held == Span(bos, 0, |bos|, -1) && SpanDistinct(bos, 0, |bos|, -1)
      modifies this`held
      ensures r == if Roomy(bos, env.fences) then Ok else Fail(ENoMem)
      ensures r == Ok ==> Distinct(bos) && held == set resv | resv in bos
      ensures r != Ok ==> held == {}
    {
      var i := 0;
      while i < |bos|
        invariant i <= |bos| && held == Span(bos, 0, |bos|, -1) && SpanDistinct(bos, 0, |bos|, -1)
        invariant i <= |env.fences| && forall k :: 0 <= k < i ==> env.fences[k]
      {
        if i >= |env.fences| || !env.fences[i] {
          UnlockAll();
          return Fail(ENoMem);
        }
        i := i + 1;
      }
      assert forall k :: 0 <= k < |bos| ==> InSpan(k, 0, |bos|, -1);
      return Ok;
    }

    /** All or nothing, for every list (with or without repeated entries), every sequence of deadlock
        back-offs and every failure: on success each listed reservation is held and no entry repeats;
        on any failure none is held. Which of them happens is decided by Passes and then by the room for
        the fences; see PassesCause and DistinctSucceeds. */
    method LockBoReservations() returns (r: Outcome)
      requires held == {}
      modifies this`held, this`calls
      ensures r == Ok ==> Distinct(bos) && held == set resv | resv in bos
      ensures r != Ok ==> held == {}
      ensures var p := Passes(bos, env.locks, -1, old(calls));
        && calls == p.calls
        && r == if p.r != Ok then p.r else if Roomy(bos, env.fences) then Ok else Fail(ENoMem)
      ensures r != Fail(EDeadlk)
      ensures r == Fail(EIntr) ==> old(calls) < calls && AnswerAt(env.locks, calls - 1) == Interrupted
      ensures r == Fail(EAlready) ==> !Distinct(bos)
      ensures r == Fail(ENoMem) ==> !Roomy(bos, env.fences)
    {
      hide Passes, Roomy, Span, SpanDistinct, Distinct;
      PassesCause(bos, env.locks, -1, calls);
      r := LockAll();
      if r == Ok {
        r := ReserveFences();
      }
    }
  }
}
