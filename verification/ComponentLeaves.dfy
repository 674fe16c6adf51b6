/** What leaves the framework and what it leaves behind: component_del, component_master_del, and the
    attempts of a master that fail. */
module ComponentLeaves {
  import opened Options
  import opened Lists
  import opened Component

  /** The registration an event is about. */
  function Named(e: Event): Option<nat> {
    match e
    case Bound(who, _) => Some(who.id)
    case Refused(who) => Some(who.id)
    case Released(who, _) => Some(who.id)
    case Deleted(who, _) => Some(who.id)
    case _ => None
  }

  /** From s to r the log went on, and only with events about registrations that s has; r has the same. */
  ghost predicate GoesOn(s: State, r: State) {
    && |r.comps| == |s.comps| && (forall c :: 0 <= c < |s.comps| ==> r.comps[c].who == s.comps[c].who)
    && r.masters == s.masters && r.next == s.next && s.log <= r.log
    && forall k :: |s.log| <= k < |r.log| && Named(r.log[k]).Some? ==> HasId(s.comps, Named(r.log[k]).value)
  }

  lemma GoesOnSame(s: State)
    ensures GoesOn(s, s)
  {}

  lemma GoesOnTwice(a: State, b: State, c: State)
    requires GoesOn(a, b) && GoesOn(b, c)
    ensures GoesOn(a, c)
  {
    forall k | |a.log| <= k < |c.log| && Named(c.log[k]).Some? ensures HasId(a.comps, Named(c.log[k]).value) {
      if k < |b.log| {
        assert c.log[k] == b.log[k];
      } else {
        var id := Named(c.log[k]).value;
        var x :| 0 <= x < |b.comps| && b.comps[x].who.id == id;
        assert a.comps[x].who.id == id;
      }
    }
  }

  lemma BindOneGoesOn(env: Env, s: State, i: nat, tie: Binding)
    requires i < |s.comps|
    ensures GoesOn(s, BindOne(env, s, i, tie))
  {
    IdAt(s.comps, i);
  }

  lemma ReleaseGoesOn(s: State, i: nat, tie: Binding)
    requires i < |s.comps|
    ensures GoesOn(s, Release(s, i, tie))
  {
    IdAt(s.comps, i);
  }

  lemma {:induction false} BindMatchGoesOn(env: Env, s: State, entries: seq<nat>, tie: Binding)
    ensures GoesOn(s, BindMatch(env, s, entries, tie).s)
    decreases |entries|
  {
    hide GoesOn;
    GoesOnSame(s);
    if entries != [] {
      var i := First(s.comps, entries[0], false);
      if i == |s.comps| {
        BindMatchGoesOn(env, s, entries[1..], tie);
      } else {
        var r := BindOne(env, s, i, tie);
        BindOneGoesOn(env, s, i, tie);
        BindMatchGoesOn(env, r, entries[1..], tie);
        GoesOnTwice(s, r, BindMatch(env, r, entries[1..], tie).s);
      }
    }
  }

  lemma {:induction false} BindRestGoesOn(env: Env, s: State, i: nat, tie: Binding)
    requires i <= |s.comps|
    ensures GoesOn(s, BindRest(env, s, i, tie).s)
    decreases |s.comps| - i
  {
    hide GoesOn;
    GoesOnSame(s);
    if i < |s.comps| {
      if s.comps[i].binding.Some? {
        BindRestGoesOn(env, s, i + 1, tie);
      } else {
        var r := BindOne(env, s, i, tie);
        BindOneGoesOn(env, s, i, tie);
        BindRestGoesOn(env, r, i + 1, tie);
        GoesOnTwice(s, r, BindRest(env, r, i + 1, tie).s);
      }
    }
  }

  lemma {:induction false} UnbindMatchGoesOn(s: State, entries: seq<nat>, tie: Binding)
    ensures GoesOn(s, UnbindMatch(s, entries, tie))
    decreases |entries|
  {
    hide GoesOn;
    GoesOnSame(s);
    if entries != [] {
      var n := |entries| - 1;
      var i := First(s.comps, entries[n], true);
      if i < |s.comps| {
        ReleaseGoesOn(s, i, tie);
      }
      var r := if i == |s.comps| then s else Release(s, i, tie);
      UnbindMatchGoesOn(r, entries[..n], tie);
      GoesOnTwice(s, r, UnbindMatch(r, entries[..n], tie));
    }
  }

  lemma {:induction false} UnbindRestGoesOn(s: State, n: nat, tie: Binding)
    requires n <= |s.comps|
    ensures GoesOn(s, UnbindRest(s, n, tie))
    decreases n
  {
    hide GoesOn;
    GoesOnSame(s);
    if n > 0 {
      if s.comps[n - 1].binding.Some? {
        ReleaseGoesOn(s, n - 1, tie);
      }
      var r := if s.comps[n - 1].binding.Some? then Release(s, n - 1, tie) else s;
      UnbindRestGoesOn(r, n - 1, tie);
      GoesOnTwice(s, r, UnbindRest(r, n - 1, tie));
    }
  }

  lemma BindAllGoesOn(env: Env, s: State, tie: Binding)
    ensures GoesOn(s, BindAll(env, s, tie).s)
  {
    hide GoesOn;
    if EntriesFor(s.masters, tie.master).Some? {
      BindMatchGoesOn(env, s, EntriesFor(s.masters, tie.master).value, tie);
    } else {
      BindRestGoesOn(env, s, 0, tie);
    }
  }

  lemma UnbindAllGoesOn(s: State, tie: Binding)
    ensures GoesOn(s, UnbindAll(s, tie))
  {
    hide GoesOn;
    if EntriesFor(s.masters, tie.master).Some? {
      UnbindMatchGoesOn(s, EntriesFor(s.masters, tie.master).value, tie);
    } else {
      UnbindRestGoesOn(s, |s.comps|, tie);
    }
  }

  lemma QuietGoesOn(s: State, e: Event)
    requires Named(e) == None
    ensures GoesOn(s, s.(log := s.log + [e]))
  {}

  lemma AskGoesOn(env: Env, s: State, dev: nat)
    ensures GoesOn(s, AskMaster(env, s, dev).s)
  {
    hide GoesOn, BindAll, UnbindAll;
    var s1 := s.(log := s.log + [Asked(dev)]);
    QuietGoesOn(s, Asked(dev));
    if !env.plans(|s.log|).FailEarly? {
      var tie := Binding(dev, env.plans(|s.log|).data);
      var o := BindAll(env, s1, tie);
      BindAllGoesOn(env, s1, tie);
      GoesOnTwice(s, s1, o.s);
      UnbindAllGoesOn(o.s, tie);
      GoesOnTwice(s, o.s, UnbindAll(o.s, tie));
    }
  }

  /** The same while masters come and go, and one component may have come. */
  ghost predicate Follows(s: State, r: State) {
    && s.next <= r.next && s.log <= r.log
    && (forall c :: 0 <= c < |r.comps| ==> HasId(s.comps, r.comps[c].who.id) || r.comps[c].who.id >= s.next)
    && forall k :: |s.log| <= k < |r.log| && Named(r.log[k]).Some? ==>
         HasId(s.comps, Named(r.log[k]).value) || Named(r.log[k]).value >= s.next
  }

  lemma {:induction false} TryBindFollows(env: Env, s: State, i: nat)
    requires i <= |s.masters|
    ensures Follows(s, TryBind(env, s, i))
    decreases |s.masters| - i
  {
    hide AskMaster, Follows;
    FollowsSame(s);
    if i < |s.masters| {
      var r := TryOne(env, s, i);
      AskGoesOn(env, s, s.masters[i].dev);
      OneFollows(s, r, if Ready(s, i) then AskMaster(env, s, s.masters[i].dev).s else s);
      TryBindFollows(env, r, i + 1);
      FollowsTwice(s, r, TryBind(env, r, i + 1));
    }
  }

  lemma FollowsSame(s: State)
    ensures GoesOn(s, s) && Follows(s, s)
  {
    forall c | 0 <= c < |s.comps| ensures HasId(s.comps, s.comps[c].who.id) {
      IdAt(s.comps, c);
    }
  }

  lemma OneFollows(s: State, r: State, q: State)
    requires GoesOn(s, q) && r == q.(masters := r.masters)
    ensures Follows(s, r)
  {
    forall c | 0 <= c < |r.comps| ensures HasId(s.comps, r.comps[c].who.id) {
      IdAt(s.comps, c);
    }
  }

  lemma FollowsTwice(a: State, b: State, c: State)
    requires Follows(a, b) && Follows(b, c)
    ensures Follows(a, c)
  {
    forall k | |a.log| <= k < |c.log| && Named(c.log[k]).Some?
      ensures HasId(a.comps, Named(c.log[k]).value) || Named(c.log[k]).value >= a.next
    {
      if k < |b.log| {
        assert c.log[k] == b.log[k];
      } else {
        KnownBefore(a, b, Named(c.log[k]).value);
      }
    }
    forall x | 0 <= x < |c.comps| ensures HasId(a.comps, c.comps[x].who.id) || c.comps[x].who.id >= a.next {
      KnownBefore(a, b, c.comps[x].who.id);
    }
  }

  lemma KnownBefore(a: State, b: State, id: nat)
    requires Follows(a, b)
    ensures HasId(b.comps, id) || id >= b.next ==> HasId(a.comps, id) || id >= a.next
  {
    if HasId(b.comps, id) {
      var y :| 0 <= y < |b.comps| && b.comps[y].who.id == id;
    }
  }

  /** Every call of the interface is about registrations that are there, or that it makes. */
  lemma StepFollows(env: Env, s: State, op: Op)
    ensures Follows(s, Step(env, s, op))
  {
    hide TryBind, BindAll, UnbindAll, Follows, GoesOn;
    FollowsSame(s);
    match op
    case OpAdd(dev, ops) =>
      if ops.bind {
        var r := s.(comps := s.comps + [Comp(Who(s.next, dev, ops), None)], next := s.next + 1);
        AddFollows(s, r);
        TryBindFollows(env, r, 0);
        FollowsTwice(s, r, TryBind(env, r, 0));
      }
    case OpDel(dev, ops) => DelFollows(s, dev, ops);
    case OpBindAll(tie) =>
      BindAllGoesOn(env, s, tie);
      OneFollows(s, BindAll(env, s, tie).s, BindAll(env, s, tie).s);
    case OpUnbindAll(tie) =>
      UnbindAllGoesOn(s, tie);
      OneFollows(s, UnbindAll(s, tie), UnbindAll(s, tie));
    case OpMasterAdd(dev, ops, entries) =>
      var r := s.(masters := s.masters + [Master(dev, ops, entries, false)]);
      OneFollows(s, r, s);
      TryBindFollows(env, r, 0);
      FollowsTwice(s, r, TryBind(env, r, 0));
    case OpMasterDel(dev, ops) => MasterDelFollows(s, dev, ops);
  }

  lemma AddFollows(s: State, r: State)
    requires |r.comps| == |s.comps| + 1 && r.comps[..|s.comps|] == s.comps && r.comps[|s.comps|].who.id == s.next
    requires r.log == s.log && r.next == s.next + 1
    ensures Follows(s, r)
  {
    forall c | 0 <= c < |s.comps| ensures r.comps[c] == s.comps[c] {
      assert r.comps[..|s.comps|][c] == s.comps[c];
    }
  }

  lemma DelFollows(s: State, dev: nat, ops: Ops)
    ensures Follows(s, Del(s, dev, ops))
  {
    hide Find;
    var i := Find(s.comps, dev, ops);
    if i < |s.comps| {
      var r := Del(s, dev, ops);
      IdAt(s.comps, i);
      forall c | 0 <= c < |r.comps| ensures HasId(s.comps, r.comps[c].who.id) {
        assert r.comps[c] == s.comps[if c < i then c else c + 1];
      }
    } else {
      FollowsSame(s);
    }
  }

  lemma MasterDelFollows(s: State, dev: nat, ops: Ops)
    ensures Follows(s, MasterDel(s, dev, ops))
  {
    hide FindMaster;
    FollowsSame(s);
  }

  // ---- What is gone stays gone ----

  /** A registration that has left is never heard of again, whatever calls come. */
  lemma {:induction false} GoneForGood(env: Env, before: seq<Op>, after: seq<Op>, id: nat)
    requires var s := Run(env, before); id < s.next && !HasId(s.comps, id)
    ensures var s, r := Run(env, before), Run(env, before + after);
      && s.log <= r.log && id < r.next && !HasId(r.comps, id)
      && forall k :: |s.log| <= k < |r.log| ==> Named(r.log[k]) != Some(id)
    decreases |after|
  {
    var s := Run(env, before);
    if after == [] {
      assert before + after == before;
    } else {
      hide Step, Run;
      var n := |after| - 1;
      var calls := before + after;
      assert calls[..|calls| - 1] == before + after[..n];
      GoneForGood(env, before, after[..n], id);
      RunStep(env, calls);
      var q := Run(env, before + after[..n]);
      StepFollows(env, q, after[n]);
      var r := Step(env, q, after[n]);
      forall k | |s.log| <= k < |r.log| ensures Named(r.log[k]) != Some(id) {
        if k < |q.log| {
          assert r.log[k] == q.log[k];
        }
      }
    }
  }

  lemma RunStep(env: Env, calls: seq<Op>)
    requires calls != []
    ensures Run(env, calls) == Step(env, Run(env, calls[..|calls| - 1]), calls[|calls| - 1])
  {}

  /** A registration of the device with these ops. */
  predicate Is(c: Comp, dev: nat, ops: Ops) {
    c.who.dev == dev && c.who.ops == ops
  }

  function Registrations(comps: seq<Comp>, dev: nat, ops: Ops): nat {
    if comps == [] then 0 else (if Is(comps[0], dev, ops) then 1 else 0) + Registrations(comps[1..], dev, ops)
  }

  /** component_del takes out the first registration of the device with these ops, bound or not, and none
      when there is none; the others keep their order and their bindings. */
  lemma DelLeaves(env: Env, s: State, dev: nat, ops: Ops) returns (i: nat)
    ensures var r := Step(env, s, OpDel(dev, ops));
      && i <= |s.comps| && (forall k :: 0 <= k < i ==> !Is(s.comps[k], dev, ops))
      && r.masters == s.masters && r.next == s.next
      && if i == |s.comps| then r == s
         else
           var c := s.comps[i];
           && Is(c, dev, ops) && r.comps == s.comps[..i] + s.comps[i + 1..]
           && r.log == s.log + if c.binding.Some? then [Deleted(c.who, c.binding.value)] else []
  {
    i := Find(s.comps, dev, ops);
    FirstFound(s.comps, dev, ops);
    assert s.log + [] == s.log;
  }

  lemma {:induction false} FirstFound(comps: seq<Comp>, dev: nat, ops: Ops)
    ensures forall k :: 0 <= k < Find(comps, dev, ops) ==> !Is(comps[k], dev, ops)
  {
    if comps != [] && !Is(comps[0], dev, ops) {
      FirstFound(comps[1..], dev, ops);
      assert forall k :: 0 < k < |comps| ==> comps[k] == comps[1..][k - 1];
    }
  }

  lemma {:induction false} OneFewer(comps: seq<Comp>, i: nat, dev: nat, ops: Ops)
    requires i < |comps| && Is(comps[i], dev, ops)
    ensures Registrations(comps[..i] + comps[i + 1..], dev, ops) == Registrations(comps, dev, ops) - 1
  {
    if i == 0 {
      assert comps[..0] + comps[1..] == comps[1..];
    } else {
      OneFewer(comps[1..], i - 1, dev, ops);
      assert (comps[..i] + comps[i + 1..])[1..] == comps[1..][..i - 1] + comps[1..][i..];
    }
  }

  lemma {:induction false} NoneOf(comps: seq<Comp>, dev: nat, ops: Ops)
    requires forall k :: 0 <= k < |comps| ==> !Is(comps[k], dev, ops)
    ensures Registrations(comps, dev, ops) == 0
  {
    if comps != [] {
      NoneOf(comps[1..], dev, ops);
    }
  }

  /** In every run: component_del leaves one registration of the device and ops fewer, if there is one, and
      no later event is about the one that left. */
  lemma DeletedForGood(env: Env, before: seq<Op>, dev: nat, ops: Ops, after: seq<Op>)
    ensures var s, q := Run(env, before), Run(env, before + [OpDel(dev, ops)]);
      var r := Run(env, before + [OpDel(dev, ops)] + after);
      var n := Registrations(s.comps, dev, ops);
      && Registrations(q.comps, dev, ops) == (if n == 0 then 0 else n - 1)
      && q.log <= r.log
      && forall id: nat :: HasId(s.comps, id) && !HasId(q.comps, id) ==>
           !HasId(r.comps, id) && forall k :: |q.log| <= k < |r.log| ==> Named(r.log[k]) != Some(id)
  {
    hide Step, Run;
    var calls := before + [OpDel(dev, ops)];
    assert calls[..|calls| - 1] == before;
    RunStep(env, calls);
    var s, q := Run(env, before), Run(env, calls);
    var i := DelLeaves(env, s, dev, ops);
    if i == |s.comps| {
      NoneOf(s.comps, dev, ops);
    } else {
      OneFewer(s.comps, i, dev, ops);
      SomeOf(s.comps, i, dev, ops);
    }
    CallbacksAlternate(env, before);
    RunLog(env, calls, after);
    forall id: nat | HasId(s.comps, id) && !HasId(q.comps, id)
      ensures var r := Run(env, calls + after);
        !HasId(r.comps, id) && forall k :: |q.log| <= k < |r.log| ==> Named(r.log[k]) != Some(id)
    {
      IdBelow(s, id);
      GoneForGood(env, calls, after, id);
    }
  }

  lemma {:induction false} SomeOf(comps: seq<Comp>, i: nat, dev: nat, ops: Ops)
    requires i < |comps| && Is(comps[i], dev, ops)
    ensures Registrations(comps, dev, ops) > 0
  {
    if i > 0 {
      SomeOf(comps[1..], i - 1, dev, ops);
    }
  }

  lemma IdBelow(s: State, id: nat)
    requires Inv(s) && HasId(s.comps, id)
    ensures id < s.next
  {
    hide Alternates, BoundBy;
  }

  lemma {:induction false} RunLog(env: Env, before: seq<Op>, after: seq<Op>)
    ensures Run(env, before).log <= Run(env, before + after).log
    decreases |after|
  {
    if after == [] {
      assert before + after == before;
    } else {
      hide Step, Run;
      var calls := before + after;
      assert calls[..|calls| - 1] == before + after[..|after| - 1];
      RunLog(env, before, after[..|after| - 1]);
      RunStep(env, calls);
      StepFollows(env, Run(env, before + after[..|after| - 1]), after[|after| - 1]);
    }
  }

  /** component_master_del takes out the first such master, calling its unbind callback if it was bound;
      the other masters keep their order and every component its binding. */
  lemma MasterLeaves(env: Env, s: State, dev: nat, ops: Ops) returns (i: nat)
    ensures var r := Step(env, s, OpMasterDel(dev, ops));
      && i <= |s.masters| && (forall k :: 0 <= k < i ==> s.masters[k].dev != dev || s.masters[k].ops != ops)
      && r.comps == s.comps && r.next == s.next
      && if i == |s.masters| then r == s
         else
           var m := s.masters[i];
           && m.dev == dev && m.ops == ops && r.masters == s.masters[..i] + s.masters[i + 1..]
           && r.log == s.log + if m.bound && ops.unbind then [MasterUnbound(dev)] else []
  {
    i := FindMaster(s.masters, dev, ops);
    FirstMaster(s.masters, dev, ops);
    assert s.log + [] == s.log;
  }

  lemma {:induction false} FirstMaster(masters: seq<Master>, dev: nat, ops: Ops)
    ensures var i := FindMaster(masters, dev, ops);
      && (forall k :: 0 <= k < i ==> masters[k].dev != dev || masters[k].ops != ops)
      && (i < |masters| ==> masters[i].dev == dev && masters[i].ops == ops)
  {
    if masters != [] && !(masters[0].dev == dev && masters[0].ops == ops) {
      FirstMaster(masters[1..], dev, ops);
      assert forall k :: 0 < k < |masters| ==> masters[k] == masters[1..][k - 1];
    }
  }

  // ---- Attempts ----

  /** Without a match list component_bind_all tries every unbound component in order: it succeeds exactly
      when none is left unbound, and else stops at the first that refuses, the ones before it bound. */
  lemma {:induction false} BindRestTries(env: Env, s: State, i: nat, tie: Binding) returns (stop: nat)
    requires i <= |s.comps|
    ensures var o := BindRest(env, s, i, tie);
      && i <= stop <= |s.comps| == |o.s.comps| && (o.ok <==> stop == |s.comps|)
      && (forall c :: 0 <= c < |s.comps| ==>
            o.s.comps[c] == if i <= c < stop && s.comps[c].binding == None then s.comps[c].(binding := Some(tie))
                            else s.comps[c])
      && (!o.ok ==> s.comps[stop].binding == None && |o.s.log| > 0
                    && o.s.log[|o.s.log| - 1] == Refused(s.comps[stop].who))
    decreases |s.comps| - i
  {
    if i == |s.comps| {
      stop := i;
    } else if s.comps[i].binding.Some? {
      stop := BindRestTries(env, s, i + 1, tie);
    } else if !env.binds(|s.log|) {
      stop := i;
    } else {
      stop := BindRestTries(env, BindOne(env, s, i, tie), i + 1, tie);
    }
  }

  /** Along a match list a failure is the last bind callback's, and only then is that one refused. */
  lemma {:induction false} BindMatchStops(env: Env, s: State, entries: seq<nat>, tie: Binding)
    ensures var o := BindMatch(env, s, entries, tie);
      && (!o.ok ==> |o.s.log| > 0 && o.s.log[|o.s.log| - 1].Refused?)
      && (o.ok && |s.log| > 0 && !s.log[|s.log| - 1].Refused? ==>
            |o.s.log| > 0 && !o.s.log[|o.s.log| - 1].Refused?)
    decreases |entries|
  {
    if entries != [] {
      var i := First(s.comps, entries[0], false);
      BindMatchStops(env, if i == |s.comps| then s else BindOne(env, s, i, tie), entries[1..], tie);
    }
  }

  lemma {:induction false} UnbindMatchReleases(s: State, entries: seq<nat>, tie: Binding)
    requires |s.log| > 0 && !s.log[|s.log| - 1].Refused?
    ensures var log := UnbindMatch(s, entries, tie).log; |log| > 0 && !log[|log| - 1].Refused?
    decreases |entries|
  {
    if entries != [] {
      var n := |entries| - 1;
      var i := First(s.comps, entries[n], true);
      UnbindMatchReleases(if i == |s.comps| then s else Release(s, i, tie), entries[..n], tie);
    }
  }

  /** Without a match list component_unbind_all unbinds every bound component, last registered first, and
      makes no other callback. */
  lemma {:induction false} UnbindRestReverses(s: State, n: nat, tie: Binding)
    requires n <= |s.comps| && forall i, j :: 0 <= i < j < |s.comps| ==> s.comps[i].who.id < s.comps[j].who.id
    ensures var r := UnbindRest(s, n, tie);
      && |r.comps| == |s.comps| && s.log <= r.log
      && (forall c :: 0 <= c < |s.comps| ==> r.comps[c] == if c < n then s.comps[c].(binding := None) else s.comps[c])
      && (forall k :: |s.log| <= k < |r.log| ==>
            r.log[k].Released? && r.log[k].tie == tie && IsBound(s, n, r.log[k].who))
      && (forall j, k :: |s.log| <= j < k < |r.log| ==> r.log[j].who.id > r.log[k].who.id)
      && (forall c :: 0 <= c < n && s.comps[c].binding.Some? ==> IsReleased(r.log, |s.log|, s.comps[c].who))
    decreases n
  {
    hide IsBound, IsReleased;
    if n > 0 {
      var c := s.comps[n - 1];
      var t := if c.binding.Some? then Release(s, n - 1, tie) else s;
      UnbindRestReverses(t, n - 1, tie);
      ReverseNext(s, t, UnbindRest(t, n - 1, tie), n, tie);
    }
  }

  ghost predicate IsBound(s: State, n: nat, who: Who) {
    exists c :: 0 <= c < n && c < |s.comps| && s.comps[c].who == who && s.comps[c].binding.Some?
  }

  ghost predicate IsReleased(log: seq<Event>, from: nat, who: Who) {
    exists k :: from <= k < |log| && log[k].Released? && log[k].who == who
  }

  lemma BoundBefore(s: State, t: State, n: nat, who: Who)
    requires 0 < n <= |s.comps| == |t.comps| && IsBound(t, n - 1, who)
    requires forall i, j :: 0 <= i < j < |s.comps| ==> s.comps[i].who.id < s.comps[j].who.id
    requires forall x :: 0 <= x < n - 1 ==> t.comps[x] == s.comps[x]
    ensures IsBound(s, n, who) && who.id < s.comps[n - 1].who.id
  {
    var x :| 0 <= x < n - 1 && x < |t.comps| && t.comps[x].who == who && t.comps[x].binding.Some?;
    assert s.comps[x] == t.comps[x];
  }

  lemma LastBound(s: State, n: nat)
    requires 0 < n <= |s.comps| && s.comps[n - 1].binding.Some?
    ensures IsBound(s, n, s.comps[n - 1].who)
  {}

  lemma ReverseNext(s: State, t: State, r: State, n: nat, tie: Binding)
    requires 0 < n <= |s.comps| && forall i, j :: 0 <= i < j < |s.comps| ==> s.comps[i].who.id < s.comps[j].who.id
    requires t == if s.comps[n - 1].binding.Some? then Release(s, n - 1, tie) else s
    requires t.log <= r.log
    requires forall k :: |t.log| <= k < |r.log| ==>
      r.log[k].Released? && r.log[k].tie == tie && IsBound(t, n - 1, r.log[k].who)
    requires forall j, k :: |t.log| <= j < k < |r.log| ==> r.log[j].who.id > r.log[k].who.id
    requires forall c :: 0 <= c < n - 1 && t.comps[c].binding.Some? ==> IsReleased(r.log, |t.log|, t.comps[c].who)
    ensures s.log <= r.log
    ensures forall k :: |s.log| <= k < |r.log| ==>
      r.log[k].Released? && r.log[k].tie == tie && IsBound(s, n, r.log[k].who)
    ensures forall j, k :: |s.log| <= j < k < |r.log| ==> r.log[j].who.id > r.log[k].who.id
    ensures forall c :: 0 <= c < n && s.comps[c].binding.Some? ==> IsReleased(r.log, |s.log|, s.comps[c].who)
  {
    hide IsBound;
    var c := s.comps[n - 1];
    if c.binding.Some? {
      LastBound(s, n);
    }
    forall k | |t.log| <= k < |r.log|
      ensures IsBound(s, n, r.log[k].who) && r.log[k].who.id < c.who.id
    {
      assert IsBound(t, n - 1, r.log[k].who);
      BoundBefore(s, t, n, r.log[k].who);
    }
    if c.binding.Some? {
      assert r.log[|s.log|] == t.log[|s.log|] == Released(c.who, tie);
    }
    forall x | 0 <= x < n && s.comps[x].binding.Some? ensures IsReleased(r.log, |s.log|, s.comps[x].who) {
      if x < n - 1 {
        assert t.comps[x] == s.comps[x] && IsReleased(r.log, |t.log|, t.comps[x].who);
      }
    }
  }
}
