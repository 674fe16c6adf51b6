/** The vc4 job queue: jobs move from the binner's list to the renderer's, then to the done list, and
    are freed; callbacks wait for sequence numbers to finish. The interrupt handlers are environment
    steps that move the head of a list. */
module Jobs {
  import opened Options

  /** A job that has no binner command list skips the binner. */
  datatype Job = Job(seqno: nat, perfmon: Option<nat>, usesBinner: bool)

  datatype Callback = Callback(id: nat, seqno: nat)

  /** What may happen between two critical sections of the completion pass. */
  datatype Op =
    | Submit(perfmon: Option<nat>, usesBinner: bool, memory: bool)
    | BinDone(kick: bool)
    | RenderDone(kick: bool)
    | QueueCallback(seqno: nat)

  /** How many jobs, or callbacks, a sequence of such operations adds. */
  function Submits(ops: seq<Op>): nat {
    if ops == [] then 0
    else Submits(ops[..|ops| - 1]) + var op := ops[|ops| - 1]; if op.Submit? && op.memory then 1 else 0
  }

  function Queues(ops: seq<Op>): nat {
    if ops == [] then 0 else Queues(ops[..|ops| - 1]) + if ops[|ops| - 1].QueueCallback? then 1 else 0
  }

  function Joined(gaps: seq<seq<Op>>): seq<Op> {
    if gaps == [] then [] else Joined(gaps[..|gaps| - 1]) + gaps[|gaps| - 1]
  }

  lemma {:induction false} CountsJoin(a: seq<Op>, b: seq<Op>)
    ensures Submits(a + b) == Submits(a) + Submits(b) && Queues(a + b) == Queues(a) + Queues(b)
    decreases |b|
  {
    if b == [] {
      assert a + b == a;
    } else {
      CountsJoin(a, b[..|b| - 1]);
      assert (a + b)[..|a + b| - 1] == a + b[..|b| - 1];
    }
  }

  /** How many jobs at the head skip the binner before the hardware has to be waited for. */
  function Skipped(bin: seq<Job>): nat {
    if bin == [] || bin[0].usesBinner then 0
    else if |bin| > 1 && bin[1].perfmon == bin[0].perfmon then 1 + Skipped(bin[1..])
    else 1
  }

  /** The jobs moved are the longest run from the head that skips the binner under one performance
      monitor. */
  lemma {:induction false} SkippedIsLongestRun(bin: seq<Job>, k: nat)
    ensures Skipped(bin) <= |bin|
    ensures k <= |bin| ==>
      (k <= Skipped(bin) <==> forall j :: 0 <= j < k ==> !bin[j].usesBinner && bin[j].perfmon == bin[0].perfmon)
  {
    if bin != [] && !bin[0].usesBinner {
      if |bin| > 1 && bin[1].perfmon == bin[0].perfmon {
        var rest := bin[1..];
        SkippedIsLongestRun(rest, if k > 0 then k - 1 else 0);
        if 0 < k <= |bin| {
          assert (forall j :: 0 <= j < k ==> !bin[j].usesBinner && bin[j].perfmon == bin[0].perfmon)
            <==> (forall j :: 0 <= j < k - 1 ==> !rest[j].usesBinner && rest[j].perfmon == rest[0].perfmon) by {
            assert forall j :: 0 <= j < k - 1 ==> rest[j] == bin[j + 1];
            assert forall j :: 1 <= j < k ==> bin[j] == rest[j - 1];
          }
        }
      } else if 1 < k <= |bin| {
        assert bin[1].perfmon != bin[0].perfmon;
      }
    }
  }

  /** The jobs of a list in submission order: each is one later than the one before. */
  ghost predicate Numbered(jobs: seq<Job>) {
    forall i :: 0 <= i < |jobs| ==> jobs[i].seqno == i + 1
  }

  /** The callbacks that are not due. */
  function Waiting(cbs: seq<Callback>, finished: nat): seq<Callback> {
    if cbs == [] then []
    else (if cbs[0].seqno <= finished then [] else [cbs[0]]) + Waiting(cbs[1..], finished)
  }

  /** The callbacks that are due. */
  function Due(cbs: seq<Callback>, finished: nat): seq<Callback> {
    if cbs == [] then []
    else (if cbs[0].seqno <= finished then [cbs[0]] else []) + Due(cbs[1..], finished)
  }

  lemma {:induction false} Parted(cbs: seq<Callback>, finished: nat)
    ensures multiset(cbs) == multiset(Waiting(cbs, finished)) + multiset(Due(cbs, finished))
    decreases |cbs|
  {
    if cbs != [] {
      var rest, c := cbs[1..], cbs[0];
      Parted(rest, finished);
      assert cbs == [c] + rest;
      if c.seqno <= finished {
        assert Due(cbs, finished) == [c] + Due(rest, finished) && Waiting(cbs, finished) == Waiting(rest, finished);
      } else {
        assert Waiting(cbs, finished) == [c] + Waiting(rest, finished) && Due(cbs, finished) == Due(rest, finished);
      }
    }
  }

  lemma SiftOne(kept: seq<Callback>, out: seq<Callback>, rest: seq<Callback>, finished: nat)
    requires rest != []
    ensures kept + Waiting(rest, finished) ==
      (if rest[0].seqno <= finished then kept else kept + [rest[0]]) + Waiting(rest[1..], finished)
    ensures out + Due(rest, finished) ==
      (if rest[0].seqno <= finished then out + [rest[0]] else out) + Due(rest[1..], finished)
  {
    var w, d := Waiting(rest[1..], finished), Due(rest[1..], finished);
    if rest[0].seqno <= finished {
      assert [] + w == w && out + ([rest[0]] + d) == (out + [rest[0]]) + d;
    } else {
      assert [] + d == d && kept + ([rest[0]] + w) == (kept + [rest[0]]) + w;
    }
  }

  lemma SiftNone(kept: seq<Callback>, out: seq<Callback>, finished: nat)
    ensures kept + Waiting([], finished) == kept && out + Due([], finished) == out
  {}

  lemma {:induction false} PartedRight(cbs: seq<Callback>, finished: nat)
    ensures forall k :: 0 <= k < |Waiting(cbs, finished)| ==> Waiting(cbs, finished)[k].seqno > finished
    ensures forall k :: 0 <= k < |Due(cbs, finished)| ==> Due(cbs, finished)[k].seqno <= finished
  {
    if cbs != [] {
      PartedRight(cbs[1..], finished);
    }
  }

  /** The lists, end to end, hold every job ever submitted in submission order, and those past the
      renderer are the finished ones. */
  ghost predicate JobsOk(pipeline: seq<Job>, past: nat, emit: nat, finished: nat) {
    Numbered(pipeline) && |pipeline| == emit && past == finished
  }

  /** Every callback ever queued is waiting or was scheduled, exactly once, and none was scheduled
      before its number had finished. */
  ghost predicate CallbacksOk(queued: seq<Callback>, callbacks: seq<Callback>, scheduled: seq<Callback>,
      finished: nat) {
    && (forall k :: 0 <= k < |queued| ==> queued[k].id == k)
    && multiset(queued) == multiset(callbacks) + multiset(scheduled)
    && (forall k :: 0 <= k < |scheduled| ==> scheduled[k].seqno <= finished)
  }

  /** The render list followed by the bin list is strictly increasing, and none of it has finished. */
  lemma InFlightIncreases(past: seq<Job>, render: seq<Job>, bin: seq<Job>, emit: nat, finished: nat, i: nat, j: nat)
    requires JobsOk(past + render + bin, |past|, emit, finished) && i < j < |render + bin|
    ensures finished < (render + bin)[i].seqno < (render + bin)[j].seqno <= emit
  {
    var p := past + render + bin;
    assert p[|past| + i] == (render + bin)[i] && p[|past| + j] == (render + bin)[j];
  }

  /** Each queued callback is in exactly one of the two lists, and there once. */
  lemma ExactlyOnce(queued: seq<Callback>, callbacks: seq<Callback>, scheduled: seq<Callback>, finished: nat, k: nat)
    requires CallbacksOk(queued, callbacks, scheduled, finished) && k < |queued|
    ensures multiset(callbacks)[queued[k]] + multiset(scheduled)[queued[k]] == 1
    ensures queued[k].seqno > finished ==> queued[k] in callbacks
  {
    var a, b := queued[..k], queued[k + 1..];
    assert queued == a + [queued[k]] + b;
    assert queued[k] !in a && queued[k] !in b;
    assert multiset(queued)[queued[k]] == multiset(a)[queued[k]] + 1 + multiset(b)[queued[k]];
    if queued[k].seqno > finished {
      assert queued[k] !in scheduled;
    }
  }

  lemma LaterOk(queued: seq<Callback>, callbacks: seq<Callback>, scheduled: seq<Callback>, finished: nat, later: nat)
    requires CallbacksOk(queued, callbacks, scheduled, finished) && finished <= later
    ensures CallbacksOk(queued, callbacks, scheduled, later)
  {}

  lemma QueuedOk(queued: seq<Callback>, callbacks: seq<Callback>, scheduled: seq<Callback>, finished: nat, seqno: nat)
    requires CallbacksOk(queued, callbacks, scheduled, finished)
    ensures var cb := Callback(|queued|, seqno);
      && CallbacksOk(queued + [cb], callbacks + [cb], scheduled, finished)
      && (seqno <= finished ==> CallbacksOk(queued + [cb], callbacks, scheduled + [cb], finished))
  {}

  lemma ScheduledOk(queued: seq<Callback>, callbacks: seq<Callback>, scheduled: seq<Callback>, finished: nat)
    requires CallbacksOk(queued, callbacks, scheduled, finished)
    ensures CallbacksOk(queued, Waiting(callbacks, finished), scheduled + Due(callbacks, finished), finished)
  {
    Parted(callbacks, finished);
    PartedRight(callbacks, finished);
  }

  lemma MoveAlong(a: seq<Job>, b: seq<Job>, c: seq<Job>, k: nat)
    requires k <= |c|
    ensures a + (b + c[..k]) + c[k..] == a + b + c
  {
    assert c == c[..k] + c[k..];
  }

  lemma OneMore(p: seq<Job>, past: nat, emit: nat, finished: nat, perfmon: Option<nat>, usesBinner: bool)
    requires JobsOk(p, past, emit, finished)
    ensures JobsOk(p + [Job(emit + 1, perfmon, usesBinner)], past, emit + 1, finished)
  {}

  lemma CountsNone()
    ensures Submits([]) == Queues([]) == 0
  {}

  /** The first job of the render list is the next one to finish. */
  lemma NextFinished(a: seq<Job>, render: seq<Job>, bin: seq<Job>, emit: nat, finished: nat)
    requires JobsOk(a + render + bin, |a|, emit, finished) && render != []
    ensures render[0].seqno == finished + 1
    ensures JobsOk(a + [render[0]] + render[1..] + bin, |a| + 1, emit, finished + 1)
  {
    assert (a + render + bin)[|a|] == render[0];
    assert a + [render[0]] + render[1..] + bin == a + render + bin;
  }

  lemma SkippedNext(bin: seq<Job>)
    requires bin != []
    ensures Skipped(bin) ==
      if bin[0].usesBinner then 0
      else if bin[1..] != [] && bin[1..][0].perfmon == bin[0].perfmon then 1 + Skipped(bin[1..]) else 1
  {}

  lemma SkippedNone()
    ensures Skipped([]) == 0
  {}

  lemma SkippedOne(bin: seq<Job>)
    requires |bin| == 1
    ensures Skipped(bin) == if bin[0].usesBinner then 0 else 1
  {
    SkippedIsLongestRun(bin, 0);
  }

  class Queue {
    var bin: seq<Job>
    var render: seq<Job>
    var done: seq<Job>
    var emit: nat
    var finished: nat
    var callbacks: seq<Callback>
    var scheduled: seq<Callback>       // handed to the workqueue, in order
    var binned: seq<Job>               // given to the binner, in order
    var rendered: seq<Job>             // given to the renderer by the functions below, in order
    ghost var freed: seq<Job>
    var queued: seq<Callback>          // every callback ever queued, under its own id

    /** The jobs past and in flight, in the order of the lists. */
    ghost function Pipeline(): seq<Job>
      reads this
    {
      freed + done + render + bin
    }

    ghost predicate Valid()
      reads this
    {
      && JobsOk(Pipeline(), |freed| + |done|, emit, finished)
      && CallbacksOk(queued, callbacks, scheduled, finished)
    }

    // vc4_gem_init
    constructor ()
      ensures Valid() && emit == 0 && queued == [] && binned == rendered == []
    {
      binned, rendered := [], [];
      bin, render, done, emit, finished, callbacks, scheduled := [], [], [], 0, 0, [], [];
      freed, queued := [], [];
    }

    // vc4_move_job_to_render, for the first job of the binner's list: an idle renderer gets it at once.
    method MoveJobToRender()
      requires bin != []
      modifies this`bin, this`render, this`rendered
      ensures render == old(render) + [old(bin)[0]] && bin == old(bin)[1..]
      ensures rendered == old(rendered) + if old(render) == [] then [old(bin)[0]] else []
    {
      var exec := bin[0];
      var wasEmpty := render == [];
      bin := bin[1..];
      render := render + [exec];
      if wasEmpty {
        SubmitNextRenderJob();
      }
    }

    // vc4_submit_next_render_job
    method SubmitNextRenderJob()
      modifies this`rendered
      ensures rendered == old(rendered) + if render == [] then [] else [render[0]]
    {
      if render != [] {
        rendered := rendered + [render[0]];
      }
    }

    // vc4_submit_next_bin_job: `started` is the job given to the binner, if the loop ended at one.
    method SubmitNextBinJob() returns (started: Option<Job>)
      modifies this`bin, this`render, this`binned, this`rendered
      ensures var k := Skipped(old(bin));
        && k <= |old(bin)| && render == old(render) + old(bin)[..k] && bin == old(bin)[k..]
        && (started.Some? ==> bin != [] && started.value == bin[0] && bin[0].usesBinner)
        && (started == None ==> bin == [] || (k > 0 && bin[0].perfmon != old(bin)[k - 1].perfmon))
        && (started.Some? <==> bin != [] && bin[0].usesBinner && (k == 0 || bin[0].perfmon == old(bin)[k - 1].perfmon))
        && rendered == old(rendered) + if old(render) == [] && k > 0 then [old(bin)[0]] else []
      ensures binned == old(binned) + if started.Some? then [started.value] else []
    {
      hide Skipped;
      ghost var k := 0;
      SkippedIsLongestRun(bin, 0);
      while bin != []
        invariant k <= |old(bin)| && bin == old(bin)[k..] && render == old(render) + old(bin)[..k]
        invariant k + Skipped(bin) == Skipped(old(bin))
        invariant bin != [] && k > 0 ==> bin[0].perfmon == old(bin)[k - 1].perfmon
        invariant rendered == old(rendered) + if old(render) == [] && k > 0 then [old(bin)[0]] else []
        invariant binned == old(binned)
        decreases |bin|
      {
        var exec := bin[0];
        SkippedNext(bin);
        if exec.usesBinner {
          binned := binned + [exec];
          return Some(exec);
        }
        ghost var before := bin;
        MoveJobToRender();
        k := k + 1;
        assert old(bin)[..k] == old(bin)[..k - 1] + [old(bin)[k - 1]];
        if bin == [] || bin[0].perfmon != exec.perfmon {
          return None;
        }
      }
      SkippedNone();
      started := None;
    }

    // A call of vc4_submit_next_bin_job moves jobs along without changing their order.
    method Kick()
      modifies this`bin, this`render, this`binned, this`rendered
      ensures |old(bin)| == 1 ==>
        var exec := old(bin)[0];
        && bin == (if exec.usesBinner then old(bin) else [])
        && binned == old(binned) + (if exec.usesBinner then [exec] else [])
        && rendered == old(rendered) + if !exec.usesBinner && old(render) == [] then [exec] else []
      ensures Pipeline() == old(Pipeline()) && render + bin == old(render) + old(bin)
      ensures old(render) <= render
    {
      hide Skipped;
      MoveAlong([], render, bin, Skipped(bin)) by { SkippedIsLongestRun(bin, 0); }
      ghost var b := bin;
      if |bin| == 1 {
        SkippedOne(bin);
      }
      var started := SubmitNextBinJob();
      MoveAlong(freed + done, old(render), b, Skipped(b));
      MoveAlong([], old(render), b, Skipped(b));
      assert [] + old(render) == old(render) && [] + render == render;
    }

    /** vc4_queue_submit: the job gets the next sequence number and the tail of the binner's list. It is
        started exactly when no bin job is before it and the renderer is idle or at work under the same
        performance monitor: in the binner, or, if it does not use it, in the renderer once that is idle. */
    method QueueSubmit(perfmon: Option<nat>, usesBinner: bool, memory: bool) returns (ok: bool)
      requires Valid()
      modifies this`bin, this`render, this`emit, this`binned, this`rendered
      ensures Valid() && ok == memory
      ensures !ok ==> bin == old(bin) && render == old(render) && emit == old(emit)
      ensures !ok ==> binned == old(binned) && rendered == old(rendered)
      ensures ok ==>
        var exec := Job(emit, perfmon, usesBinner);
        var starts := old(bin) == [] && (old(render) == [] || old(render)[0].perfmon == perfmon);
        && bin == (if starts && !usesBinner then [] else old(bin) + [exec])
        && binned == old(binned) + (if starts && usesBinner then [exec] else [])
        && rendered == old(rendered) + (if starts && !usesBinner && old(render) == [] then [exec] else [])
      ensures ok ==> render + bin == old(render) + old(bin) + [Job(emit, perfmon, usesBinner)] && emit == old(emit) + 1
      ensures ok && old(bin) != [] ==> render == old(render)
    {
      if !memory {
        return false;
      }
      hide JobsOk, CallbacksOk, Skipped;
      OneMore(Pipeline(), |freed| + |done|, emit, finished, perfmon, usesBinner);
      emit := emit + 1;
      var exec := Job(emit, perfmon, usesBinner);
      bin := bin + [exec];
      assert Pipeline() == old(Pipeline()) + [exec];
      if |bin| == 1 && (render == [] || render[0].perfmon == exec.perfmon) {
        Kick();
      }
      ok := true;
    }

    // The binner has finished the first job of its list; the handler may start the next one.
    method BinDone(kick: bool)
      requires Valid()
      modifies this`bin, this`render, this`binned, this`rendered
      ensures Valid() && render + bin == old(render) + old(bin)
      ensures old(bin) != [] ==> old(render) + [old(bin)[0]] <= render && (!kick ==> bin == old(bin)[1..])
    {
      if bin == [] {
        return;
      }
      hide JobsOk, CallbacksOk;
      ghost var p := Pipeline();
      MoveJobToRender();
      assert old(bin) == [old(bin)[0]] + bin;
      assert Pipeline() == p && render + bin == old(render) + old(bin);
      if kick {
        Kick();
      }
    }

    // The renderer has finished the first job of its list; the handler may start the next bin job.
    method RenderDone(kick: bool)
      requires Valid()
      modifies this`bin, this`render, this`done, this`finished, this`binned, this`rendered
      ensures Valid() && freed + done + render + bin == old(freed + done + render + bin)
      ensures finished >= old(finished) && old(done) <= done
      ensures if old(render) == [] then done == old(done) && finished == old(finished)
              else done == old(done) + [old(render)[0]] && finished == old(render)[0].seqno
    {
      if render == [] {
        return;
      }
      hide JobsOk, CallbacksOk;
      ghost var p := Pipeline();
      var exec := render[0];
      NextFinished(freed + done, render, bin, emit, finished);
      LaterOk(queued, callbacks, scheduled, finished, exec.seqno);
      finished := exec.seqno;
      done := done + [exec];
      render := render[1..];
      assert Pipeline() == p;
      if kick {
        Kick();
      }
    }

    // vc4_queue_seqno_cb: queued while its number is ahead, else scheduled at once.
    method QueueSeqnoCb(seqno: nat) returns (cb: Callback)
      requires Valid()
      modifies this`callbacks, this`scheduled, this`queued
      ensures Valid() && cb.seqno == seqno && queued == old(queued) + [cb]
      ensures seqno <= finished ==> scheduled == old(scheduled) + [cb] && callbacks == old(callbacks)
      ensures seqno > finished ==> callbacks == old(callbacks) + [cb] && scheduled == old(scheduled)
    {
      hide CallbacksOk;
      QueuedOk(queued, callbacks, scheduled, finished, seqno);
      cb := Callback(|queued|, seqno);
      queued := queued + [cb];
      if seqno > finished {
        callbacks := callbacks + [cb];
      } else {
        scheduled := scheduled + [cb];
      }
    }

    method Happen(op: Op)
      requires Valid()
      modifies this`bin, this`render, this`done, this`emit, this`finished, this`callbacks, this`scheduled, this`queued,
          this`binned, this`rendered
      ensures Valid() && finished >= old(finished) && old(queued) <= queued && old(done) <= done
      ensures emit == old(emit) + (if op.Submit? && op.memory then 1 else 0)
      ensures |queued| == |old(queued)| + (if op.QueueCallback? then 1 else 0)
    {
      match op
      case Submit(perfmon, usesBinner, memory) => var ok := QueueSubmit(perfmon, usesBinner, memory);
      case BinDone(kick) => BinDone(kick);
      case RenderDone(kick) => RenderDone(kick);
      case QueueCallback(seqno) => var cb := QueueSeqnoCb(seqno);
    }

    // The walk over the waiting callbacks, under the job lock.
    method ScheduleDue()
      requires Valid()
      modifies this`callbacks, this`scheduled
      ensures Valid() && callbacks == Waiting(old(callbacks), finished)
      ensures scheduled == old(scheduled) + Due(old(callbacks), finished)
    {
      hide CallbacksOk, JobsOk, Waiting, Due;
      ScheduledOk(queued, callbacks, scheduled, finished);
      var rest, kept := callbacks, [];
      while rest != []
        invariant kept + Waiting(rest, finished) == Waiting(old(callbacks), finished)
        invariant scheduled + Due(rest, finished) == old(scheduled) + Due(old(callbacks), finished)
        decreases |rest|
      {
        SiftOne(kept, scheduled, rest, finished);
        if rest[0].seqno <= finished {
          scheduled := scheduled + [rest[0]];
        } else {
          kept := kept + [rest[0]];
        }
        rest := rest[1..];
      }
      SiftNone(kept, scheduled, finished);
      callbacks := kept;
    }

    method HappenAll(ops: seq<Op>)
      requires Valid()
      modifies this`bin, this`render, this`done, this`emit, this`finished, this`callbacks, this`scheduled, this`queued,
          this`binned, this`rendered
      ensures Valid() && finished >= old(finished) && old(queued) <= queued && old(done) <= done
      ensures emit == old(emit) + Submits(ops) && |queued| == |old(queued)| + Queues(ops)
    {
      hide JobsOk, CallbacksOk;
      var i := 0;
      while i < |ops|
        invariant i <= |ops| && Valid() && finished >= old(finished) && old(queued) <= queued && old(done) <= done
        invariant emit == old(emit) + Submits(ops[..i]) && |queued| == |old(queued)| + Queues(ops[..i])
      {
        assert ops[..i + 1][..i] == ops[..i];
        Happen(ops[i]);
        i := i + 1;
      }
      assert ops[..i] == ops;
    }

    // One turn of the loop over the done list.
    method FreeFirst()
      requires Valid() && done != []
      modifies this`done, this`freed
      ensures Valid() && done == old(done)[1..] && freed + done == old(freed + done)
    {
      done, freed := done[1..], freed + [done[0]];
      assert freed + done == old(freed + done);
    }

    /** vc4_job_handle_completed. The lock is dropped while a finished job is freed: gaps[n] is what
        happens meanwhile. Whatever it is, all jobs on the done list are freed, in order, and no
        callback that is due stays queued. */
    method HandleCompleted(gaps: seq<seq<Op>>) returns (ghost turns: nat)
      requires Valid()
      modifies this
      ensures Valid() && done == [] && finished >= old(finished)
      ensures old(freed + done) <= freed && old(queued) <= queued
      ensures forall k :: 0 <= k < |callbacks| ==> callbacks[k].seqno > finished
      // The lock is dropped at least once for each job that was done, and what the gaps say has happened.
      ensures turns <= |gaps| && (turns < |gaps| ==> turns >= |old(done)|)
      ensures var ops := Joined(gaps[..turns]);
        emit == old(emit) + Submits(ops) && |queued| == |old(queued)| + Queues(ops)
      // With nothing happening meanwhile it frees exactly the done list and schedules exactly what is due.
      ensures gaps == [] ==>
        && freed == old(freed + done) && finished == old(finished) && bin == old(bin) && render == old(render)
        && callbacks == Waiting(old(callbacks), finished)
        && scheduled == old(scheduled) + Due(old(callbacks), finished)
    {
      hide JobsOk, CallbacksOk, Waiting, Due, Submits, Queues;
      CountsNone();
      var n := 0;
      ghost var cycles := 0;
      while done != []
        invariant Valid() && finished >= old(finished) && n <= |gaps|
        invariant old(freed + done) <= freed + done && old(queued) <= queued
        invariant cycles + |done| >= |old(done)| && (n < |gaps| ==> n == cycles)
        invariant
          var ops := Joined(gaps[..n]);
          emit == old(emit) + Submits(ops) && |queued| == |old(queued)| + Queues(ops)
        invariant gaps == [] ==>
          && freed + done == old(freed + done) && finished == old(finished) && bin == old(bin) && render == old(render)
          && callbacks == old(callbacks) && scheduled == old(scheduled)
        decreases |gaps| - n, |done|
      {
        FreeFirst();
        cycles := cycles + 1;
        if n < |gaps| {
          HappenAll(gaps[n]);
          assert gaps[..n + 1][..n] == gaps[..n];
          CountsJoin(Joined(gaps[..n]), gaps[n]);
          n := n + 1;
        }
      }
      turns := n;
      assert freed + done == freed;
      PartedRight(callbacks, finished);
      ScheduleDue();
    }
  }
}
