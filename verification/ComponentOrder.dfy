/** Registration order does not matter. For runs that only register components and masters, one
    component per device and match lists that name each device once, the components bound to a master
    are at every moment a prefix of its match list, bound in that order and unbound in the reverse,
    whatever callbacks fail. When none fails, the outcome depends only on which registrations were
    made. */
module ComponentOrder {
  import opened Options
  import opened Lists
  import opened Component
  import ComponentLeaves

  /** The devices currently bound to a master, in bind order; None once an unbind was not for the
      most recently bound one. */
  function Stack(log: seq<Event>, master: nat): Option<seq<nat>> {
    if log == [] then Some([])
    else
      var e, below := log[|log| - 1], Stack(log[..|log| - 1], master);
      if !(e.Bound? || e.Released? || e.Deleted?) || e.tie.master != master || below == None then below
      else if e.Bound? then Some(below.value + [e.who.dev])
      else if below.value != [] && below.value[|below.value| - 1] == e.who.dev then
        Some(below.value[..|below.value| - 1])
      else None
  }

  lemma StackAppend(log: seq<Event>, e: Event, master: nat)
    ensures var below := Stack(log, master);
      Stack(log + [e], master) ==
        if !(e.Bound? || e.Released? || e.Deleted?) || e.tie.master != master || below == None then below
        else if e.Bound? then Some(below.value + [e.who.dev])
        else if below.value != [] && below.value[|below.value| - 1] == e.who.dev then
          Some(below.value[..|below.value| - 1])
        else None
  {
    assert (log + [e])[..|log + [e]| - 1] == log;
  }

  // ---- What the registrations must be ----

  ghost predicate Disjoint(s: seq<nat>, t: seq<nat>) {
    forall i, j :: 0 <= i < |s| && 0 <= j < |t| ==> s[i] != t[j]
  }

  ghost predicate Tidy(comps: seq<Comp>, masters: seq<Master>) {
    && (forall i, j :: 0 <= i < j < |comps| ==> comps[i].who.dev != comps[j].who.dev)
    && (forall i :: 0 <= i < |masters| ==> masters[i].entries.Some? && Distinct(masters[i].entries.value))
    && (forall i, j :: 0 <= i < j < |masters| ==>
          masters[i].dev != masters[j].dev && Disjoint(masters[i].entries.value, masters[j].entries.value))
  }

  // ---- Progress of each master ----

  /** The master's first k entries, and no others, are bound, and to it. */
  ghost predicate BoundUpTo(comps: seq<Comp>, master: nat, entries: seq<nat>, k: nat) {
    && k <= |entries|
    && (forall p :: 0 <= p < k ==> Registered(comps, entries[p]))
    && (forall c, p :: 0 <= c < |comps| && 0 <= p < |entries| && comps[c].who.dev == entries[p] ==>
          if p < k then comps[c].binding.Some? && comps[c].binding.value.master == master
          else comps[c].binding == None)
  }

  ghost predicate Listed(masters: seq<Master>, dev: nat) {
    exists i, p :: 0 <= i < |masters| && masters[i].entries.Some? && 0 <= p < |masters[i].entries.value|
                   && masters[i].entries.value[p] == dev
  }

  ghost predicate HasMaster(masters: seq<Master>, dev: nat) {
    exists i :: 0 <= i < |masters| && masters[i].dev == dev
  }

  /** How many components are bound to the master, by the log. */
  ghost function Depth(log: seq<Event>, master: nat): nat {
    var st := Stack(log, master);
    if st == None then 0 else |st.value|
  }

  ghost predicate MasterOk(s: State, i: nat)
    requires i < |s.masters| && s.masters[i].entries.Some?
  {
    var m := s.masters[i];
    var k := Depth(s.log, m.dev);
    && BoundUpTo(s.comps, m.dev, m.entries.value, k)
    && Stack(s.log, m.dev) == Some(m.entries.value[..k])
    && (m.bound ==> m.ops.bind && k == |m.entries.value|)
  }

  ghost predicate Good(s: State) {
    && Tidy(s.comps, s.masters)
    && (forall i :: 0 <= i < |s.masters| ==> MasterOk(s, i))
    && (forall c :: 0 <= c < |s.comps| && s.comps[c].binding.Some? ==> Listed(s.masters, s.comps[c].who.dev))
    && (forall m: nat :: !HasMaster(s.masters, m) ==> Stack(s.log, m) == Some([]))
  }

  lemma StillRegistered(comps: seq<Comp>, comps': seq<Comp>, dev: nat, c: nat)
    requires |comps| <= |comps'| && forall x :: 0 <= x < |comps| ==> comps'[x].who == comps[x].who
    requires Registered(comps, dev) || (c < |comps| && comps[c].who.dev == dev)
    ensures Registered(comps', dev)
  {
    var x :| 0 <= x < |comps| && comps[x].who.dev == dev;
    assert comps'[x].who.dev == dev;
  }

  /** Setting the binding of one entry of master i, just past or just before its bound prefix, leaves
      every master j in order. */
  lemma MovePrefix(s: State, r: State, i: nat, j: nat, c: nat, q: nat, b: Option<Binding>)
    requires Tidy(s.comps, s.masters) && i < |s.masters| && j < |s.masters| && c < |s.comps|
    requires MasterOk(s, i) && MasterOk(s, j) && r.masters == s.masters
    requires q < |s.masters[i].entries.value| && s.comps[c].who.dev == s.masters[i].entries.value[q]
    requires Depth(s.log, s.masters[i].dev) == (if b.Some? then q else q + 1)
    requires r.comps == s.comps[c := s.comps[c].(binding := b)]
    requires b.Some? ==> b.value.master == s.masters[i].dev
    requires b == None ==> !s.masters[i].bound
    requires var n := if i != j then Depth(s.log, s.masters[j].dev) else if b.Some? then q + 1 else q;
      Stack(r.log, s.masters[j].dev) == Some(s.masters[j].entries.value[..n])
    ensures MasterOk(r, j)
  {
    hide Registered, Stack;
    var m := s.masters[j];
    var k, n := Depth(s.log, m.dev), Depth(r.log, m.dev);
    assert |r.comps| == |s.comps| && forall x :: 0 <= x < |s.comps| ==> r.comps[x].who == s.comps[x].who;
    forall p | 0 <= p < n ensures Registered(r.comps, m.entries.value[p]) {
      StillRegistered(s.comps, r.comps, m.entries.value[p], c);
    }
  }

  lemma IsMaster(masters: seq<Master>, i: nat)
    requires i < |masters|
    ensures HasMaster(masters, masters[i].dev)
  {}

  /** Binding the next entry of a master. */
  lemma BindNext(env: Env, s: State, i: nat, c: nat, data: nat)
    requires Good(s) && i < |s.masters| && c < |s.comps|
    requires Depth(s.log, s.masters[i].dev) < |s.masters[i].entries.value|
    requires s.comps[c].who.dev == s.masters[i].entries.value[Depth(s.log, s.masters[i].dev)]
    ensures var r := BindOne(env, s, c, Binding(s.masters[i].dev, data));
      Good(r) && Depth(r.log, s.masters[i].dev) ==
        Depth(s.log, s.masters[i].dev) + if env.binds(|s.log|) then 1 else 0
    ensures Aside(s, BindOne(env, s, c, Binding(s.masters[i].dev, data)), i)
  {
    hide Stack, Distinct, Disjoint, HasMaster, BoundUpTo;
    var m := s.masters[i];
    var tie := Binding(m.dev, data);
    var r := BindOne(env, s, c, tie);
    var k := Depth(s.log, m.dev);
    assert MasterOk(s, i);
    IsMaster(s.masters, i);
    forall d: nat ensures Stack(r.log, d) ==
      if env.binds(|s.log|) && d == m.dev then Some(m.entries.value[..k + 1]) else Stack(s.log, d)
    {
      StackAppend(s.log, r.log[|s.log|], d);
      assert m.entries.value[..k] + [m.entries.value[k]] == m.entries.value[..k + 1];
    }
    if env.binds(|s.log|) {
      forall j | 0 <= j < |s.masters| ensures MasterOk(r, j) {
        assert MasterOk(s, j);
        MovePrefix(s, r, i, j, c, k, Some(tie));
      }
      forall c' | 0 <= c' < |r.comps| && r.comps[c'].binding.Some? ensures Listed(r.masters, r.comps[c'].who.dev) {
        if c' == c {
          assert m.entries.value[k] == s.comps[c].who.dev;
        }
      }
    } else {
      forall j | 0 <= j < |s.masters| ensures MasterOk(r, j) {
        assert MasterOk(s, j);
      }
    }
  }

  /** Releasing the last bound entry of a master. */
  lemma ReleaseLast(s: State, i: nat, c: nat, data: nat)
    requires Good(s) && i < |s.masters| && c < |s.comps| && !s.masters[i].bound
    requires 0 < Depth(s.log, s.masters[i].dev) <= |s.masters[i].entries.value|
    requires s.comps[c].who.dev == s.masters[i].entries.value[Depth(s.log, s.masters[i].dev) - 1]
    ensures var r := Release(s, c, Binding(s.masters[i].dev, data));
      Good(r) && Depth(r.log, s.masters[i].dev) == Depth(s.log, s.masters[i].dev) - 1
    ensures Aside(s, Release(s, c, Binding(s.masters[i].dev, data)), i)
  {
    hide Stack, Distinct, Disjoint, HasMaster, BoundUpTo;
    var m := s.masters[i];
    var r := Release(s, c, Binding(m.dev, data));
    var k := Depth(s.log, m.dev);
    assert MasterOk(s, i);
    IsMaster(s.masters, i);
    forall d: nat ensures Stack(r.log, d) == if d == m.dev then Some(m.entries.value[..k - 1]) else Stack(s.log, d)
    {
      StackAppend(s.log, r.log[|s.log|], d);
      assert m.entries.value[..k][..k - 1] == m.entries.value[..k - 1];
    }
    forall j | 0 <= j < |s.masters| ensures MasterOk(r, j) {
      assert MasterOk(s, j);
      MovePrefix(s, r, i, j, c, k - 1, None);
    }
  }

  /** Nothing but the progress of master i has changed. */
  ghost predicate Aside(s: State, r: State, i: nat) {
    && r.masters == s.masters && r.next == s.next
    && |r.comps| == |s.comps|
    && (forall c :: 0 <= c < |s.comps| ==> r.comps[c].who == s.comps[c].who)
    && (forall j :: 0 <= j < |s.masters| && j != i ==> Depth(r.log, s.masters[j].dev) == Depth(s.log, s.masters[j].dev))
  }

  lemma SameRegistered(comps: seq<Comp>, comps': seq<Comp>)
    requires |comps| == |comps'| && forall c :: 0 <= c < |comps| ==> comps'[c].who == comps[c].who
    ensures forall dev :: Registered(comps, dev) <==> Registered(comps', dev)
    ensures forall entries :: Complete(entries, comps) <==> Complete(entries, comps')
  {
    forall dev ensures Registered(comps, dev) <==> Registered(comps', dev) {
      if Registered(comps, dev) {
        var c :| 0 <= c < |comps| && comps[c].who.dev == dev;
        assert comps'[c].who.dev == dev;
      }
      if Registered(comps', dev) {
        var c :| 0 <= c < |comps'| && comps'[c].who.dev == dev;
        assert comps[c].who.dev == dev;
      }
    }
  }

  /** Entries of the bound prefix have no unbound component; the next one has. */
  lemma FirstUnbound(s: State, i: nat, p: nat)
    requires Good(s) && i < |s.masters| && p <= Depth(s.log, s.masters[i].dev)
    requires p < |s.masters[i].entries.value| && Complete(s.masters[i].entries, s.comps)
    ensures First(s.comps, s.masters[i].entries.value[p], false) == |s.comps| <==> p < Depth(s.log, s.masters[i].dev)
  {
    assert MasterOk(s, i);
    assert Registered(s.comps, s.masters[i].entries.value[p]);
  }

  /** component_bind_all picks up where the bound prefix ends. */
  lemma {:induction false} BindFrom(env: Env, s: State, i: nat, p: nat, data: nat)
    requires Good(s) && i < |s.masters| && p <= Depth(s.log, s.masters[i].dev)
    requires p <= |s.masters[i].entries.value| && Complete(s.masters[i].entries, s.comps)
    ensures var o := BindMatch(env, s, s.masters[i].entries.value[p..], Binding(s.masters[i].dev, data));
      && Good(o.s) && Aside(s, o.s, i)
      && (o.ok ==> Depth(o.s.log, s.masters[i].dev) == |s.masters[i].entries.value|)
      && ((forall n :: env.binds(n)) ==> o.ok)
    decreases |s.masters[i].entries.value| - p
  {
    hide BoundUpTo, Stack, Listed, HasMaster, Distinct, Disjoint;
    var m := s.masters[i];
    var e, tie, k := m.entries.value, Binding(m.dev, data), Depth(s.log, m.dev);
    if p < |e| {
      assert e[p..][1..] == e[p + 1..];
      var c := First(s.comps, e[p], false);
      FirstUnbound(s, i, p);
      if p < k {
        BindFrom(env, s, i, p + 1, data);
      } else {
        var r := BindOne(env, s, c, tie);
        BindNext(env, s, i, c, data);
        if env.binds(|s.log|) {
          SameRegistered(s.comps, r.comps);
          BindFrom(env, r, i, p + 1, data);
        }
      }
    } else {
      DepthBound(s, i);
    }
  }

  lemma DepthBound(s: State, i: nat)
    requires Good(s) && i < |s.masters|
    ensures Depth(s.log, s.masters[i].dev) <= |s.masters[i].entries.value|
  {
    assert MasterOk(s, i);
  }

  /** The last entry of the bound prefix has a bound component. */
  lemma FirstBound(s: State, i: nat)
    requires Good(s) && i < |s.masters| && 0 < Depth(s.log, s.masters[i].dev) <= |s.masters[i].entries.value|
    ensures First(s.comps, s.masters[i].entries.value[Depth(s.log, s.masters[i].dev) - 1], true) < |s.comps|
  {
    hide Stack, Distinct, Disjoint, HasMaster, Listed;
    assert MasterOk(s, i);
    assert Registered(s.comps, s.masters[i].entries.value[Depth(s.log, s.masters[i].dev) - 1]);
  }

  /** component_unbind_all undoes the bound prefix from its end. */
  lemma {:induction false} UnbindFrom(s: State, i: nat, data: nat)
    requires Good(s) && i < |s.masters| && !s.masters[i].bound
    requires Depth(s.log, s.masters[i].dev) <= |s.masters[i].entries.value|
    ensures var e := s.masters[i].entries.value[..Depth(s.log, s.masters[i].dev)];
      var r := UnbindMatch(s, e, Binding(s.masters[i].dev, data));
      Good(r) && Aside(s, r, i) && Depth(r.log, s.masters[i].dev) == 0
    decreases Depth(s.log, s.masters[i].dev)
  {
    hide Stack, Distinct, Disjoint, HasMaster, Listed, MasterOk, BoundUpTo;
    var m := s.masters[i];
    var e, tie, k := m.entries.value, Binding(m.dev, data), Depth(s.log, m.dev);
    if k > 0 {
      assert e[..k][..k - 1] == e[..k - 1];
      FirstBound(s, i);
      var c := First(s.comps, e[k - 1], true);
      ReleaseLast(s, i, c, data);
      UnbindFrom(Release(s, c, tie), i, data);
    }
  }

  // ---- Runs of registrations ----

  /** No callback ever fails. */
  ghost predicate Smooth(env: Env) {
    (forall n :: env.binds(n)) && forall n :: env.plans(n).Succeed?
  }

  lemma BindAllGood(env: Env, s: State, i: nat, data: nat)
    requires Good(s) && i < |s.masters| && Complete(s.masters[i].entries, s.comps)
    ensures var o := BindAll(env, s, Binding(s.masters[i].dev, data));
      && Good(o.s) && Aside(s, o.s, i)
      && (o.ok ==> Depth(o.s.log, s.masters[i].dev) == |s.masters[i].entries.value|)
      && ((forall n :: env.binds(n)) ==> o.ok)
  {
    hide BindMatch, MasterOk, Stack, Listed, Distinct, Disjoint;
    var m := s.masters[i];
    assert MasterFor(s.masters, m.dev) == i;
    BindFrom(env, s, i, 0, data);
    assert m.entries.value[0..] == m.entries.value;
  }

  lemma UnbindAllGood(s: State, i: nat, data: nat)
    requires Good(s) && i < |s.masters| && !s.masters[i].bound
    requires Depth(s.log, s.masters[i].dev) == |s.masters[i].entries.value|
    ensures var r := UnbindAll(s, Binding(s.masters[i].dev, data));
      Good(r) && Aside(s, r, i) && Depth(r.log, s.masters[i].dev) == 0
  {
    hide UnbindMatch, MasterOk, Stack, Listed, Distinct, Disjoint;
    var m := s.masters[i];
    assert MasterFor(s.masters, m.dev) == i;
    UnbindFrom(s, i, data);
    assert m.entries.value[..|m.entries.value|] == m.entries.value;
  }

  lemma AskKeeps(env: Env, s: State, i: nat)
    requires Good(s) && i < |s.masters| && Ready(s, i)
    ensures var o := AskMaster(env, s, s.masters[i].dev);
      && Good(o.s) && Aside(s, o.s, i)
      && (o.ok ==> Depth(o.s.log, s.masters[i].dev) == |s.masters[i].entries.value|)
      && (Smooth(env) ==> o.ok)
  {
    hide BindAll, UnbindAll, MasterOk, Stack, Listed, HasMaster, Distinct, Disjoint, BoundUpTo;
    var m := s.masters[i];
    var s1 := s.(log := s.log + [Asked(m.dev)]);
    AskedGood(s, m.dev);
    var plan := env.plans(|s.log|);
    if !plan.FailEarly? {
      BindAllGood(env, s1, i, plan.data);
      var o := BindAll(env, s1, Binding(m.dev, plan.data));
      if o.ok {
        UnbindAllGood(o.s, i, plan.data);
      }
    }
  }

  /** How an attempt on a ready master ends: refused by a component, whose callback is then the last; or
      with its whole list bound, when it succeeds and also when it fails after that; or with nothing bound
      when the unbind action cannot be registered; or, failing before that, with nothing changed. */
  lemma AttemptEnds(env: Env, s: State, i: nat)
    requires Good(s) && i < |s.masters| && Ready(s, i)
    ensures var o, m, plan := AskMaster(env, s, s.masters[i].dev), s.masters[i], env.plans(|s.log|);
      if plan.FailEarly? then !o.ok && o.s == s.(log := s.log + [Asked(m.dev)])
      else if |o.s.log| > 0 && o.s.log[|o.s.log| - 1].Refused? then !o.ok
      else (o.ok <==> plan.Succeed?) && Depth(o.s.log, m.dev) == if plan.FailAttach? then 0 else |m.entries.value|
  {
    hide BindAll, UnbindAll, MasterOk, Stack, Listed, HasMaster, Distinct, Disjoint, BoundUpTo;
    var m := s.masters[i];
    var s1 := s.(log := s.log + [Asked(m.dev)]);
    AskedGood(s, m.dev);
    if !env.plans(|s.log|).FailEarly? {
      var tie := Binding(m.dev, env.plans(|s.log|).data);
      BindAllGood(env, s1, i, tie.data);
      var o := BindAll(env, s1, tie);
      ComponentLeaves.BindAllGoesOn(env, s1, tie);
      if o.ok {
        UnbindAllGood(o.s, i, tie.data);
        ComponentLeaves.UnbindAllGoesOn(o.s, tie);
        NotRefusedLast(env, s1, i, tie);
      } else {
        RefusedLast(env, s1, i, tie);
      }
    }
  }

  lemma NotRefusedLast(env: Env, s: State, i: nat, tie: Binding)
    requires Good(s) && i < |s.masters| && tie.master == s.masters[i].dev && BindAll(env, s, tie).ok
    requires |s.log| > 0 && !s.log[|s.log| - 1].Refused?
    ensures var log := BindAll(env, s, tie).s.log; |log| > 0 && !log[|log| - 1].Refused?
    ensures var log := UnbindAll(BindAll(env, s, tie).s, tie).log; |log| > 0 && !log[|log| - 1].Refused?
  {
    hide BindMatch, UnbindMatch, MasterOk, Stack, Listed, Distinct, Disjoint;
    assert MasterFor(s.masters, s.masters[i].dev) == i;
    var e := s.masters[i].entries.value;
    ComponentLeaves.BindMatchStops(env, s, e, tie);
    ComponentLeaves.BindMatchGoesOn(env, s, e, tie);
    ComponentLeaves.UnbindMatchReleases(BindMatch(env, s, e, tie).s, e, tie);
  }

  lemma RefusedLast(env: Env, s: State, i: nat, tie: Binding)
    requires Good(s) && i < |s.masters| && tie.master == s.masters[i].dev && !BindAll(env, s, tie).ok
    ensures var log := BindAll(env, s, tie).s.log; |log| > 0 && log[|log| - 1].Refused?
  {
    hide BindMatch, MasterOk, Stack, Listed, Distinct, Disjoint;
    assert MasterFor(s.masters, s.masters[i].dev) == i;
    ComponentLeaves.BindMatchStops(env, s, s.masters[i].entries.value, tie);
  }

  lemma AskedGood(s: State, dev: nat)
    requires Good(s)
    ensures Good(s.(log := s.log + [Asked(dev)]))
    ensures forall d: nat :: Stack(s.log + [Asked(dev)], d) == Stack(s.log, d)
  {
    var s1 := s.(log := s.log + [Asked(dev)]);
    forall d: nat ensures Stack(s1.log, d) == Stack(s.log, d) {
      StackAppend(s.log, Asked(dev), d);
    }
    forall j | 0 <= j < |s1.masters| ensures MasterOk(s1, j) {
      assert MasterOk(s, j);
    }
  }

  /** The registrations are the same and in the same order. */
  ghost predicate SameLists(s: State, r: State) {
    && |r.comps| == |s.comps| && |r.masters| == |s.masters| && r.next == s.next
    && (forall c :: 0 <= c < |s.comps| ==> r.comps[c].who == s.comps[c].who)
    && (forall j :: 0 <= j < |s.masters| ==> r.masters[j] == s.masters[j].(bound := r.masters[j].bound))
  }

  /** Masters before i are bound exactly when their match list is complete; the unbound ones have
      nothing bound to them. */
  ghost predicate Settled(s: State, i: nat) {
    && (forall j :: 0 <= j < |s.masters| && j < i ==>
          (s.masters[j].bound <==> s.masters[j].ops.bind && Complete(s.masters[j].entries, s.comps)))
    && (forall j :: 0 <= j < |s.masters| && !s.masters[j].bound ==> Depth(s.log, s.masters[j].dev) == 0)
  }

  lemma TryOneGood(env: Env, s: State, i: nat)
    requires Good(s) && i < |s.masters|
    ensures var r := TryOne(env, s, i); Good(r) && SameLists(s, r)
    ensures Smooth(env) && Settled(s, i) ==> Settled(TryOne(env, s, i), i + 1)
  {
    var r := TryOne(env, s, i);
    assert MasterOk(s, i);
    if Ready(s, i) {
      AskKeeps(env, s, i);
      var o := AskMaster(env, s, s.masters[i].dev);
      SameRegistered(s.comps, o.s.comps);
      if o.ok {
        MarkGood(o.s, i);
      }
    }
  }

  lemma MarkGood(s: State, i: nat)
    requires Good(s) && i < |s.masters| && s.masters[i].ops.bind
    requires Depth(s.log, s.masters[i].dev) == |s.masters[i].entries.value|
    ensures Good(MarkBound(s, i))
  {
    var r := MarkBound(s, i);
    forall j | 0 <= j < |r.masters| ensures MasterOk(r, j) {
      assert MasterOk(s, j);
    }
    forall c | 0 <= c < |r.comps| && r.comps[c].binding.Some? ensures Listed(r.masters, r.comps[c].who.dev) {
      var j, p :| 0 <= j < |s.masters| && 0 <= p < |s.masters[j].entries.value|
                  && s.masters[j].entries.value[p] == s.comps[c].who.dev;
      assert r.masters[j].entries.value[p] == s.comps[c].who.dev;
    }
    forall m: nat | HasMaster(s.masters, m) ensures HasMaster(r.masters, m) {
      var j :| 0 <= j < |s.masters| && s.masters[j].dev == m;
      assert r.masters[j].dev == m;
    }
  }

  lemma {:induction false} TryBindGood(env: Env, s: State, i: nat)
    requires Good(s) && i <= |s.masters|
    ensures var r := TryBind(env, s, i); Good(r) && SameLists(s, r)
    ensures Smooth(env) && Settled(s, i) ==> Settled(TryBind(env, s, i), |s.masters|)
    decreases |s.masters| - i
  {
    if i < |s.masters| {
      TryOneGood(env, s, i);
      TryBindGood(env, TryOne(env, s, i), i + 1);
    }
  }

  /** A new component for a device that has none. */
  lemma AddGood(s: State, dev: nat, ops: Ops)
    requires Good(s) && !Registered(s.comps, dev)
    ensures Good(s.(comps := s.comps + [Comp(Who(s.next, dev, ops), None)], next := s.next + 1))
  {
    var r := s.(comps := s.comps + [Comp(Who(s.next, dev, ops), None)], next := s.next + 1);
    forall j | 0 <= j < |r.masters| ensures MasterOk(r, j) {
      assert MasterOk(s, j);
      var m := s.masters[j];
      forall p | 0 <= p < Depth(s.log, m.dev) ensures Registered(r.comps, m.entries.value[p]) {
        assert Registered(s.comps, m.entries.value[p]);
        StillRegistered(s.comps, r.comps, m.entries.value[p], 0);
      }
    }
  }

  /** A new master whose device and entries no other master has. */
  lemma MasterAddGood(s: State, dev: nat, ops: Ops, entries: seq<nat>)
    requires Good(s) && Distinct(entries) && !HasMaster(s.masters, dev)
    requires forall i :: 0 <= i < |s.masters| ==> Disjoint(s.masters[i].entries.value, entries)
    ensures Good(s.(masters := s.masters + [Master(dev, ops, Some(entries), false)]))
    ensures Stack(s.log, dev) == Some([])
  {
    var r := s.(masters := s.masters + [Master(dev, ops, Some(entries), false)]);
    forall j | 0 <= j < |r.masters| ensures MasterOk(r, j) {
      if j < |s.masters| {
        assert MasterOk(s, j);
      }
    }
    forall c | 0 <= c < |r.comps| && r.comps[c].binding.Some? ensures Listed(r.masters, r.comps[c].who.dev) {
      var j, p :| 0 <= j < |s.masters| && 0 <= p < |s.masters[j].entries.value|
                  && s.masters[j].entries.value[p] == s.comps[c].who.dev;
      assert r.masters[j].entries.value[p] == s.comps[c].who.dev;
    }
    forall m: nat | HasMaster(s.masters, m) ensures HasMaster(r.masters, m) {
      var j :| 0 <= j < |s.masters| && s.masters[j].dev == m;
      assert r.masters[j].dev == m;
    }
  }

  // ---- Lists of registrations ----

  ghost predicate Compatible(a: Op, b: Op) {
    && (a.OpAdd? && b.OpAdd? ==> a.dev != b.dev)
    && (a.OpMasterAdd? && b.OpMasterAdd? && a.entries.Some? && b.entries.Some? ==>
          a.dev != b.dev && Disjoint(a.entries.value, b.entries.value))
  }

  ghost predicate Registrations(ops: seq<Op>) {
    && (forall k :: 0 <= k < |ops| ==>
          ops[k].OpAdd? || (ops[k].OpMasterAdd? && ops[k].entries.Some? && Distinct(ops[k].entries.value)))
    && (forall k, l :: 0 <= k < l < |ops| ==> Compatible(ops[k], ops[l]))
  }

  /** The run registers a component for the device. */
  ghost predicate Adds(ops: seq<Op>, dev: nat) {
    exists k :: 0 <= k < |ops| && ops[k].OpAdd? && ops[k].dev == dev && ops[k].ops.bind
  }

  predicate IsFor(m: Master, op: Op) {
    op.OpMasterAdd? && op == OpMasterAdd(m.dev, m.ops, m.entries)
  }

  ghost predicate HasMasterFor(masters: seq<Master>, op: Op) {
    exists i :: 0 <= i < |masters| && IsFor(masters[i], op)
  }

  ghost predicate HasOpFor(ops: seq<Op>, m: Master) {
    exists k :: 0 <= k < |ops| && IsFor(m, ops[k])
  }

  /** The lists hold what was registered and nothing else. */
  ghost predicate Reflects(s: State, ops: seq<Op>) {
    && (forall dev :: Registered(s.comps, dev) <==> Adds(ops, dev))
    && (forall i :: 0 <= i < |s.masters| ==> HasOpFor(ops, s.masters[i]))
    && (forall k :: 0 <= k < |ops| && ops[k].OpMasterAdd? ==> HasMasterFor(s.masters, ops[k]))
  }

  lemma ReflectsSame(s: State, r: State, ops: seq<Op>)
    requires Reflects(s, ops) && SameLists(s, r)
    ensures Reflects(r, ops)
  {
    SameRegistered(s.comps, r.comps);
    forall i | 0 <= i < |r.masters| ensures HasOpFor(ops, r.masters[i]) {
      var k :| 0 <= k < |ops| && IsFor(s.masters[i], ops[k]);
      assert IsFor(r.masters[i], ops[k]);
    }
    forall k | 0 <= k < |ops| && ops[k].OpMasterAdd? ensures HasMasterFor(r.masters, ops[k]) {
      var i :| 0 <= i < |s.masters| && IsFor(s.masters[i], ops[k]);
      assert IsFor(r.masters[i], ops[k]);
    }
  }

  /** The list that the next operation extends, before any master is tried. */
  function Listing(s: State, op: Op): State
    requires op.OpAdd? || op.OpMasterAdd?
  {
    match op
    case OpAdd(dev, ops) =>
      if ops.bind then s.(comps := s.comps + [Comp(Who(s.next, dev, ops), None)], next := s.next + 1) else s
    case OpMasterAdd(dev, ops, entries) => s.(masters := s.masters + [Master(dev, ops, entries, false)])
  }

  lemma ReflectsAdds(s: State, ops: seq<Op>, op: Op, dev: nat)
    requires Reflects(s, ops) && (op.OpAdd? || op.OpMasterAdd?)
    ensures Registered(Listing(s, op).comps, dev) <==> Adds(ops + [op], dev)
  {
    var r, all := Listing(s, op), ops + [op];
    if Registered(s.comps, dev) {
      var k :| 0 <= k < |ops| && ops[k].OpAdd? && ops[k].dev == dev && ops[k].ops.bind;
      assert all[k] == ops[k];
      var c :| 0 <= c < |s.comps| && s.comps[c].who.dev == dev;
      assert r.comps[c] == s.comps[c];
    } else if op.OpAdd? && op.dev == dev && op.ops.bind {
      assert all[|ops|] == op;
      assert r.comps[|s.comps|].who.dev == dev;
    } else {
      assert forall k :: 0 <= k < |all| && all[k].OpAdd? && all[k].dev == dev && all[k].ops.bind ==>
          k < |ops| && ops[k] == all[k];
      assert !Adds(ops, dev);
    }
  }

  lemma ReflectsNext(s: State, ops: seq<Op>, op: Op)
    requires Reflects(s, ops) && (op.OpAdd? || op.OpMasterAdd?)
    ensures Reflects(Listing(s, op), ops + [op])
  {
    var r, all := Listing(s, op), ops + [op];
    forall dev ensures Registered(r.comps, dev) <==> Adds(all, dev) {
      ReflectsAdds(s, ops, op, dev);
    }
    forall i | 0 <= i < |r.masters| ensures HasOpFor(all, r.masters[i]) {
      if i < |s.masters| {
        var k :| 0 <= k < |ops| && IsFor(s.masters[i], ops[k]);
        assert IsFor(r.masters[i], all[k]);
      } else {
        assert IsFor(r.masters[i], all[|ops|]);
      }
    }
    forall k | 0 <= k < |all| && all[k].OpMasterAdd? ensures HasMasterFor(r.masters, all[k]) {
      if k < |ops| {
        assert ops[k].OpMasterAdd?;
        var i :| 0 <= i < |s.masters| && IsFor(s.masters[i], ops[k]);
        assert IsFor(r.masters[i], all[k]);
      } else {
        assert IsFor(r.masters[|s.masters|], all[k]);
      }
    }
  }

  /** A device that the list adds only now is not registered yet. */
  lemma FreshDevice(s: State, ops: seq<Op>, op: Op)
    requires op.OpAdd? && Reflects(s, ops) && Registrations(ops + [op])
    ensures !Registered(s.comps, op.dev)
  {
    var all := ops + [op];
    assert all[|ops|] == op;
    forall k | 0 <= k < |ops| && ops[k].OpAdd? ensures ops[k].dev != op.dev {
      assert all[k] == ops[k];
      assert Compatible(all[k], all[|ops|]);
    }
    assert !Adds(ops, op.dev);
  }

  /** A master that the list adds only now shares nothing with those that are there. */
  lemma FreshMaster(s: State, ops: seq<Op>, op: Op, i: nat)
    requires op.OpMasterAdd? && Reflects(s, ops) && Registrations(ops + [op]) && i < |s.masters|
    ensures op.entries.Some? && Distinct(op.entries.value) && s.masters[i].dev != op.dev
    ensures s.masters[i].entries.Some? && Disjoint(s.masters[i].entries.value, op.entries.value)
  {
    hide Distinct, Disjoint, Adds, HasMasterFor;
    var all := ops + [op];
    assert all[|ops|] == op;
    assert HasOpFor(ops, s.masters[i]);
    var k :| 0 <= k < |ops| && IsFor(s.masters[i], ops[k]);
    assert all[k] == ops[k];
    assert Compatible(all[k], all[|ops|]);
  }

  lemma EntriesOf(ops: seq<Op>, op: Op)
    requires op.OpMasterAdd? && Registrations(ops + [op])
    ensures op.entries.Some? && Distinct(op.entries.value)
  {
    assert (ops + [op])[|ops|] == op;
  }

  /** The next registration of a list meets lists it is compatible with. */
  lemma ListingGood(s: State, ops: seq<Op>, op: Op)
    requires op.OpAdd? || op.OpMasterAdd?
    requires Good(s) && Reflects(s, ops) && Registrations(ops + [op])
    ensures Good(Listing(s, op))
    ensures forall n :: Settled(s, n) ==> Settled(Listing(s, op), 0)
  {
    hide Good, Registrations, Reflects, Stack, Distinct, Disjoint;
    match op
    case OpAdd(dev, o) =>
      if o.bind {
        FreshDevice(s, ops, op);
        AddGood(s, dev, o);
      }
    case OpMasterAdd(dev, o, entries) =>
      EntriesOf(ops, op);
      forall i | 0 <= i < |s.masters|
        ensures s.masters[i].entries.Some? && s.masters[i].dev != dev
        ensures Disjoint(s.masters[i].entries.value, entries.value)
      {
        FreshMaster(s, ops, op, i);
      }
      MasterAddGood(s, dev, o, entries.value);
  }

  lemma StepGood(env: Env, s: State, ops: seq<Op>, op: Op)
    requires op.OpAdd? || op.OpMasterAdd?
    requires Good(s) && Reflects(s, ops) && Registrations(ops + [op])
    ensures var r := Step(env, s, op);
      && Good(r) && Reflects(r, ops + [op])
      && (Smooth(env) && Settled(s, |s.masters|) ==> Settled(r, |r.masters|))
  {
    hide Good, Registrations, Stack, TryBind, Reflects, Smooth;
    ListingGood(s, ops, op);
    ReflectsNext(s, ops, op);
    var t := Listing(s, op);
    if op.OpMasterAdd? || op.ops.bind {
      TryBindGood(env, t, 0);
      ReflectsSame(t, TryBind(env, t, 0), ops + [op]);
    }
  }

  /** In every run of registrations, whatever fails: each master's components are bound along its
      match list, a prefix of it at every moment, and undone from the end. */
  lemma {:induction false} BoundInMatchOrder(env: Env, ops: seq<Op>)
    requires Registrations(ops)
    ensures var s := Run(env, ops); Good(s) && Reflects(s, ops)
    ensures Smooth(env) ==> Settled(Run(env, ops), |Run(env, ops).masters|)
    decreases |ops|
  {
    if ops != [] {
      var n := |ops| - 1;
      assert ops == ops[..n] + [ops[n]];
      BoundInMatchOrder(env, ops[..n]);
      StepGood(env, Run(env, ops[..n]), ops[..n], ops[n]);
    }
  }

  // ---- What a reader sees ----

  /** The master a device's component is bound to. */
  function MasterOfDevice(s: State, dev: nat): Option<nat> {
    var c := First(s.comps, dev, true);
    if c == |s.comps| then None else Some(s.comps[c].binding.value.master)
  }

  predicate MasterBound(s: State, master: nat) {
    var i := MasterFor(s.masters, master);
    i < |s.masters| && s.masters[i].bound
  }

  /** When no callback fails a master is bound exactly when every device of its list was registered,
      and then exactly its list is bound to it, in list order. */
  lemma SettledMeans(env: Env, ops: seq<Op>, k: nat)
    requires Registrations(ops) && Smooth(env) && k < |ops| && ops[k].OpMasterAdd?
    ensures var s, op := Run(env, ops), ops[k];
      var all := op.ops.bind && forall p :: 0 <= p < |op.entries.value| ==> Adds(ops, op.entries.value[p]);
      && (MasterBound(s, op.dev) <==> all)
      && Stack(s.log, op.dev) == Some(if all then op.entries.value else [])
      && (forall dev :: dev in op.entries.value ==> MasterOfDevice(s, dev) == if all then Some(op.dev) else None)
  {
    hide Stack, Run, Registrations, MasterOfDevice, Distinct, Disjoint, Listed, HasMaster;
    BoundInMatchOrder(env, ops);
    var s, op := Run(env, ops), ops[k];
    var i := TheMaster(s, ops, k);
    SettledOne(s, ops, k, i);
    forall dev | dev in op.entries.value
      ensures MasterOfDevice(s, dev) == if Depth(s.log, op.dev) > 0 then Some(op.dev) else None
    {
      EntryMaster(s, i, dev);
    }
  }

  /** The master a registration made. */
  lemma TheMaster(s: State, ops: seq<Op>, k: nat) returns (i: nat)
    requires Good(s) && Reflects(s, ops) && k < |ops| && ops[k].OpMasterAdd?
    ensures i < |s.masters| && IsFor(s.masters[i], ops[k]) && MasterFor(s.masters, ops[k].dev) == i
  {
    hide Stack, MasterOk, Adds, HasOpFor, Listed, Distinct, Disjoint;
    assert HasMasterFor(s.masters, ops[k]);
    i :| 0 <= i < |s.masters| && IsFor(s.masters[i], ops[k]);
  }

  lemma SettledOne(s: State, ops: seq<Op>, k: nat, i: nat)
    requires Good(s) && Reflects(s, ops) && Settled(s, |s.masters|) && k < |ops| && ops[k].OpMasterAdd?
    requires i < |s.masters| && IsFor(s.masters[i], ops[k])
    ensures var e := s.masters[i].entries.value;
      var all := ops[k].ops.bind && forall p :: 0 <= p < |e| ==> Adds(ops, e[p]);
      && s.masters[i].entries.Some? && (s.masters[i].bound <==> all)
      && Depth(s.log, ops[k].dev) == (if all then |e| else 0)
      && Stack(s.log, ops[k].dev) == Some(if all then e else [])
  {
    hide Stack, BoundUpTo, Adds, Listed, HasMaster, HasOpFor, HasMasterFor, Distinct, Disjoint;
    assert MasterOk(s, i);
    var e := s.masters[i].entries.value;
    assert e[..|e|] == e && e[..0] == [];
  }

  lemma EntryMaster(s: State, i: nat, dev: nat)
    requires Good(s) && i < |s.masters| && dev in s.masters[i].entries.value
    requires Depth(s.log, s.masters[i].dev) == 0 || Depth(s.log, s.masters[i].dev) == |s.masters[i].entries.value|
    ensures MasterOfDevice(s, dev) ==
            if Depth(s.log, s.masters[i].dev) > 0 then Some(s.masters[i].dev) else None
  {
    assert MasterOk(s, i);
    var p :| 0 <= p < |s.masters[i].entries.value| && s.masters[i].entries.value[p] == dev;
    if Depth(s.log, s.masters[i].dev) > 0 {
      assert Registered(s.comps, dev);
    }
  }

  /** Two runs that make the same registrations in any two orders end with the same masters bound, the
      same components bound to each, and the same bind order. */
  lemma OrderIrrelevant(env: Env, env': Env, ops: seq<Op>, ops': seq<Op>, k: nat)
    requires Registrations(ops) && Registrations(ops') && Smooth(env) && Smooth(env')
    requires forall op :: op in ops <==> op in ops'
    requires k < |ops| && ops[k].OpMasterAdd?
    ensures var s, s', op := Run(env, ops), Run(env', ops'), ops[k];
      && MasterBound(s, op.dev) == MasterBound(s', op.dev)
      && Stack(s.log, op.dev) == Stack(s'.log, op.dev)
      && forall dev :: dev in op.entries.value ==> MasterOfDevice(s, dev) == MasterOfDevice(s', dev)
  {
    assert ops[k] in ops';
    var k' :| 0 <= k' < |ops'| && ops'[k'] == ops[k];
    SettledMeans(env, ops, k);
    SettledMeans(env', ops', k');
    forall dev ensures Adds(ops, dev) <==> Adds(ops', dev) {
      AddsSame(ops, ops', dev);
      AddsSame(ops', ops, dev);
    }
  }

  lemma AddsSame(ops: seq<Op>, ops': seq<Op>, dev: nat)
    requires forall op :: op in ops ==> op in ops'
    ensures Adds(ops, dev) ==> Adds(ops', dev)
  {
    if Adds(ops, dev) {
      var k :| 0 <= k < |ops| && ops[k].OpAdd? && ops[k].dev == dev && ops[k].ops.bind;
      assert ops[k] in ops';
      var k' :| 0 <= k' < |ops'| && ops'[k'] == ops[k];
    }
  }

  /** The log went on with exactly the unbinds of these devices, last one first. */
  ghost predicate Undone(before: seq<Event>, after: seq<Event>, up: seq<nat>) {
    && |after| == |before| + |up| && before <= after
    && forall x :: |before| <= x < |after| ==> after[x].Released? && after[x].who.dev == up[|after| - 1 - x]
  }

  lemma UndoneLast(a: seq<Event>, e: Event, b: seq<Event>, up: seq<nat>)
    requires e.Released? && Undone(a + [e], b, up)
    ensures Undone(a, b, up + [e.who.dev])
  {
    assert b[|a|] == (a + [e])[|a|];
    assert a <= a + [e];
  }

  lemma ReleaseShrinks(s: State, master: nat, entries: seq<nat>, k: nat, c: nat, tie: Binding)
    requires forall i, j :: 0 <= i < j < |s.comps| ==> s.comps[i].who.dev != s.comps[j].who.dev
    requires Distinct(entries) && 0 < k && BoundUpTo(s.comps, master, entries, k)
    requires c < |s.comps| && s.comps[c].who.dev == entries[k - 1]
    ensures BoundUpTo(Release(s, c, tie).comps, master, entries, k - 1)
  {
    SameRegistered(s.comps, Release(s, c, tie).comps);
  }

  /** component_unbind_all along a list whose first k entries are bound undoes exactly those, in
      reverse. */
  lemma {:induction false} UnbindReplays(s: State, master: nat, entries: seq<nat>, n: nat, k: nat, tie: Binding)
    requires forall i, j :: 0 <= i < j < |s.comps| ==> s.comps[i].who.dev != s.comps[j].who.dev
    requires Distinct(entries) && k <= n <= |entries| && BoundUpTo(s.comps, master, entries, k)
    ensures var r := UnbindMatch(s, entries[..n], tie);
      Undone(s.log, r.log, entries[..k]) && BoundUpTo(r.comps, master, entries, 0)
    decreases n
  {
    hide Undone, Distinct;
    if n == 0 {
      NothingUndone(s.log);
    } else {
      assert entries[..n][..n - 1] == entries[..n - 1];
      var c := First(s.comps, entries[n - 1], true);
      if k < n {
        assert c == |s.comps|;
        UnbindReplays(s, master, entries, n - 1, k, tie);
      } else {
        assert Registered(s.comps, entries[n - 1]);
        assert c < |s.comps|;
        var r := Release(s, c, tie);
        ReleaseShrinks(s, master, entries, k, c, tie);
        UnbindReplays(r, master, entries, n - 1, k - 1, tie);
        UndoneLast(s.log, Released(s.comps[c].who, tie), UnbindMatch(r, entries[..n - 1], tie).log, entries[..k - 1]);
        assert entries[..k - 1] + [entries[k - 1]] == entries[..k];
      }
    }
  }

  lemma NothingUndone(log: seq<Event>)
    ensures Undone(log, log, [])
  {}

  /** At any point of a run of registrations, component_unbind_all on a registered master unbinds what
      is bound to it, exactly in the reverse of the bind order. */
  lemma UnbindReversesRun(env: Env, ops: seq<Op>, k: nat, data: nat)
    requires Registrations(ops) && k < |ops| && ops[k].OpMasterAdd?
    ensures var s, op := Run(env, ops), ops[k];
      var r, up := UnbindAll(s, Binding(op.dev, data)), Stack(s.log, op.dev);
      && up.Some? && Undone(s.log, r.log, up.value)
      && forall dev :: dev in op.entries.value ==> MasterOfDevice(r, dev) == None
  {
    hide Undone, Stack, UnbindMatch, Run, Registrations;
    BoundInMatchOrder(env, ops);
    var s, op := Run(env, ops), ops[k];
    var i := TheMaster(s, ops, k);
    assert MasterOk(s, i);
    var e := op.entries.value;
    UnbindReplays(s, op.dev, e, |e|, Depth(s.log, op.dev), Binding(op.dev, data));
    assert e[..|e|] == e;
    var r := UnbindAll(s, Binding(op.dev, data));
    forall dev | dev in e ensures MasterOfDevice(r, dev) == None {
      var p :| 0 <= p < |e| && e[p] == dev;
    }
  }

  // ---- The bind callbacks of a run in which nothing fails ----

  /** The devices whose bind callbacks a master's calls made, in the order of the log. */
  function BoundDevices(log: seq<Event>, master: nat): seq<nat> {
    if log == [] then []
    else
      var before, e := BoundDevices(log[..|log| - 1], master), log[|log| - 1];
      if e.Bound? && e.tie.master == master then before + [e.who.dev] else before
  }

  predicate BindsOnly(log: seq<Event>) {
    forall x :: 0 <= x < |log| ==> !log[x].Released? && !log[x].Deleted?
  }

  lemma {:induction false} StackIsBound(log: seq<Event>, master: nat)
    requires BindsOnly(log)
    ensures Stack(log, master) == Some(BoundDevices(log, master))
    decreases |log|
  {
    if log != [] {
      StackIsBound(log[..|log| - 1], master);
    }
  }

  lemma {:induction false} BindMatchOnlyBinds(env: Env, s: State, entries: seq<nat>, tie: Binding)
    requires BindsOnly(s.log)
    ensures BindsOnly(BindMatch(env, s, entries, tie).s.log)
    decreases |entries|
  {
    if entries != [] {
      var i := First(s.comps, entries[0], false);
      BindMatchOnlyBinds(env, if i == |s.comps| then s else BindOne(env, s, i, tie), entries[1..], tie);
    }
  }

  lemma {:induction false} BindRestOnlyBinds(env: Env, s: State, i: nat, tie: Binding)
    requires BindsOnly(s.log) && i <= |s.comps|
    ensures BindsOnly(BindRest(env, s, i, tie).s.log)
    decreases |s.comps| - i
  {
    if i < |s.comps| {
      BindRestOnlyBinds(env, if s.comps[i].binding.Some? then s else BindOne(env, s, i, tie), i + 1, tie);
    }
  }

  lemma TryOneOnlyBinds(env: Env, s: State, i: nat)
    requires Smooth(env) && BindsOnly(s.log) && i < |s.masters|
    ensures BindsOnly(TryOne(env, s, i).log)
  {
    hide BindMatch, BindRest;
    var dev := s.masters[i].dev;
    var s1 := s.(log := s.log + [Asked(dev)]);
    assert env.plans(|s.log|).Succeed?;
    var tie := Binding(dev, env.plans(|s.log|).data);
    BindRestOnlyBinds(env, s1, 0, tie);
    if EntriesFor(s1.masters, dev).Some? {
      BindMatchOnlyBinds(env, s1, EntriesFor(s1.masters, dev).value, tie);
    }
  }

  lemma {:induction false} TryBindOnlyBinds(env: Env, s: State, i: nat)
    requires Smooth(env) && BindsOnly(s.log) && i <= |s.masters|
    ensures BindsOnly(TryBind(env, s, i).log)
    decreases |s.masters| - i
  {
    if i < |s.masters| {
      TryOneOnlyBinds(env, s, i);
      TryBindOnlyBinds(env, TryOne(env, s, i), i + 1);
    }
  }

  /** A run of registrations in which nothing fails undoes nothing: its log is binds only. */
  lemma {:induction false} SmoothRunOnlyBinds(env: Env, ops: seq<Op>)
    requires Smooth(env) && Registrations(ops)
    ensures BindsOnly(Run(env, ops).log)
    decreases |ops|
  {
    hide TryBind, BindsOnly;
    if ops == [] {
      NothingAtFirst();
    } else {
      var n := |ops| - 1;
      assert Registrations(ops[..n]);
      SmoothRunOnlyBinds(env, ops[..n]);
      var t := Listing(Run(env, ops[..n]), ops[n]);
      TryBindOnlyBinds(env, t, 0);
    }
  }

  lemma NothingAtFirst()
    ensures BindsOnly(INIT.log)
  {}
}
