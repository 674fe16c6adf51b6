/** The component framework as the kernel runs it: two global lists updated in place, walked by nested
    loops. Every call is proved to do what its counterpart in Component says. */
module ComponentRegistry {
  import opened Options
  import opened Component

  datatype Status = Ok | EInval | ENoMem

  class Registry {
    var comps: seq<Comp>
    var masters: seq<Master>
    var log: seq<Event>
    var next: nat
    const env: Env

    function St(): State
      reads this
    {
      State(comps, masters, log, next)
    }

    constructor (env: Env)
      ensures St() == INIT && this.env == env
    {
      this.env, comps, masters, log, next := env, [], [], [], 0;
    }

    // c->ops->bind, and the bookkeeping when it succeeds.
    method BindComponent(i: nat, tie: Binding) returns (ok: bool)
      requires i < |comps|
      modifies this
      ensures ok == env.binds(|old(log)|) && St() == BindOne(env, old(St()), i, tie)
    {
      ok := env.binds(|log|);
      if ok {
        log := log + [Bound(comps[i].who, tie)];
        comps := comps[i := comps[i].(binding := Some(tie))];
      } else {
        log := log + [Refused(comps[i].who)];
      }
    }

    // c->ops->unbind, if there is one, and clearing the component's fields.
    method ReleaseComponent(i: nat, tie: Binding)
      requires i < |comps|
      modifies this
      ensures St() == Release(old(St()), i, tie)
    {
      log := log + [Released(comps[i].who, tie)];
      comps := comps[i := comps[i].(binding := None)];
    }

    // lkpi_master_for
    method MasterOf(dev: nat) returns (entries: Option<seq<nat>>)
      ensures entries == EntriesFor(masters, dev)
    {
      var i := 0;
      while i < |masters|
        invariant i <= |masters| && forall j :: 0 <= j < i ==> masters[j].dev != dev
      {
        if masters[i].dev == dev {
          return masters[i].entries;
        }
        i := i + 1;
      }
      return None;
    }

    // The walk over the components for one match entry.
    method FirstFor(dev: nat, bound: bool) returns (i: nat)
      ensures i == First(comps, dev, bound)
    {
      i := 0;
      while i < |comps| && (comps[i].binding.Some? != bound || comps[i].who.dev != dev)
        invariant i <= |comps|
        invariant forall j :: 0 <= j < i ==> comps[j].who.dev != dev || comps[j].binding.Some? != bound
      {
        i := i + 1;
      }
    }

    // component_bind_all
    method ComponentBindAll(tie: Binding) returns (ok: bool)
      modifies this
      ensures Outcome(St(), ok) == BindAll(env, old(St()), tie)
    {
      var entries := MasterOf(tie.master);
      if entries == None {
        ok := BindInOrder(tie);
      } else {
        ok := BindByMatch(entries.value, tie);
      }
    }

    method BindInOrder(tie: Binding) returns (ok: bool)
      modifies this
      ensures Outcome(St(), ok) == BindRest(env, old(St()), 0, tie)
    {
      var i := 0;
      while i < |comps|
        invariant i <= |comps| && BindRest(env, St(), i, tie) == BindRest(env, old(St()), 0, tie)
      {
        if comps[i].binding == None {
          ok := BindComponent(i, tie);
          if !ok {
            return;
          }
        }
        i := i + 1;
      }
      ok := true;
    }

    method BindByMatch(entries: seq<nat>, tie: Binding) returns (ok: bool)
      modifies this
      ensures Outcome(St(), ok) == BindMatch(env, old(St()), entries, tie)
    {
      var k := 0;
      assert entries[0..] == entries;
      while k < |entries|
        invariant k <= |entries| && BindMatch(env, St(), entries[k..], tie) == BindMatch(env, old(St()), entries, tie)
      {
        assert entries[k..][1..] == entries[k + 1..];
        var i := FirstFor(entries[k], false);
        if i < |comps| {
          ok := BindComponent(i, tie);
          if !ok {
            return;
          }
        }
        k := k + 1;
      }
      ok := true;
    }

    // component_unbind_all
    method ComponentUnbindAll(tie: Binding)
      modifies this
      ensures St() == UnbindAll(old(St()), tie)
    {
      var entries := MasterOf(tie.master);
      if entries == None {
        var n: nat := |comps|;
        while n > 0
          invariant n <= |comps| && UnbindRest(St(), n, tie) == UnbindRest(old(St()), |old(comps)|, tie)
        {
          n := n - 1;
          if comps[n].binding.Some? {
            ReleaseComponent(n, tie);
          }
        }
      } else {
        UnbindByMatch(entries.value, tie);
      }
    }

    method UnbindByMatch(entries: seq<nat>, tie: Binding)
      modifies this
      ensures St() == UnbindMatch(old(St()), entries, tie)
    {
      var k := |entries|;
      assert entries[..k] == entries;
      while k > 0
        invariant k <= |entries| && UnbindMatch(St(), entries[..k], tie) == UnbindMatch(old(St()), entries, tie)
      {
        k := k - 1;
        assert entries[..k + 1][..k] == entries[..k];
        var i := FirstFor(entries[k], true);
        if i < |comps| {
          ReleaseComponent(i, tie);
        }
      }
    }

    // lkpi_match_complete
    method MatchComplete(entries: Option<seq<nat>>) returns (complete: bool)
      ensures complete == Complete(entries, comps)
    {
      if entries == None {
        return true;
      }
      var k := 0;
      while k < |entries.value|
        invariant k <= |entries.value| && forall p :: 0 <= p < k ==> Registered(comps, entries.value[p])
      {
        var found, i := false, 0;
        while i < |comps| && !found
          invariant i <= |comps| && (found ==> Registered(comps, entries.value[k]))
          invariant !found ==> forall c :: 0 <= c < i ==> comps[c].who.dev != entries.value[k]
          decreases |comps| - i, !found
        {
          if comps[i].who.dev == entries.value[k] {
            found := true;
          } else {
            i := i + 1;
          }
        }
        if !found {
          return false;
        }
        k := k + 1;
      }
      return true;
    }

    // vc4_drm_bind, as far as the framework sees it.
    method MasterBind(dev: nat) returns (ok: bool)
      modifies this
      ensures Outcome(St(), ok) == AskMaster(env, old(St()), dev)
    {
      var plan := env.plans(|log|);
      log := log + [Asked(dev)];
      if plan == FailEarly {
        return false;
      }
      var tie := Binding(dev, plan.data);
      ok := ComponentBindAll(tie);
      if !ok {
        return;
      }
      if plan.FailAttach? {
        ComponentUnbindAll(tie);
      }
      ok := plan.Succeed?;
    }

    // lkpi_try_bind_masters
    method TryBindMasters()
      modifies this
      ensures St() == TryBind(env, old(St()), 0)
    {
      var i := 0;
      while i < |masters|
        invariant i <= |masters| && TryBind(env, St(), i) == TryBind(env, old(St()), 0)
      {
        ghost var before := St();
        AskMasterShape(env, before, masters[i].dev);
        if !masters[i].bound && masters[i].ops.bind {
          var complete := MatchComplete(masters[i].entries);
          if complete {
            var ok := MasterBind(masters[i].dev);
            if ok {
              masters := masters[i := masters[i].(bound := true)];
            }
          }
        }
        assert St() == TryOne(env, before, i);
        i := i + 1;
      }
    }

    // component_add
    method ComponentAdd(dev: Option<nat>, ops: Option<Ops>, memory: bool) returns (r: Status)
      modifies this
      ensures r == EInval <==> dev == None || ops == None || !ops.value.bind
      ensures r == ENoMem <==> r != EInval && !memory
      ensures St() == if r == Ok then Add(env, old(St()), dev.value, ops.value) else old(St())
    {
      if dev == None || ops == None || !ops.value.bind {
        return EInval;
      }
      if !memory {
        return ENoMem;
      }
      comps := comps + [Comp(Who(next, dev.value, ops.value), None)];
      next := next + 1;
      TryBindMasters();
      return Ok;
    }

    // component_del
    method ComponentDel(dev: nat, ops: Ops)
      modifies this
      ensures St() == Del(old(St()), dev, ops)
    {
      var i := 0;
      while i < |comps| && (comps[i].who.dev != dev || comps[i].who.ops != ops)
        invariant i <= |comps| && Find(comps, dev, ops) == i + Find(comps[i..], dev, ops)
      {
        i := i + 1;
      }
      if i == |comps| {
        return;
      }
      var c := comps[i];
      comps := comps[..i] + comps[i + 1..];
      if c.binding.Some? {
        log := log + [Deleted(c.who, c.binding.value)];
      } else {
        assert old(log) + [] == log;
      }
    }

    // component_master_add_with_match
    method MasterAddWithMatch(master: Option<nat>, ops: Option<Ops>, entries: Option<seq<nat>>, memory: bool)
      returns (r: Status)
      modifies this
      ensures r == EInval <==> master == None || ops == None
      ensures r == ENoMem <==> r != EInval && !memory
      ensures St() == if r == Ok then MasterAdd(env, old(St()), master.value, ops.value, entries) else old(St())
    {
      if master == None || ops == None {
        return EInval;
      }
      if !memory {
        return ENoMem;
      }
      masters := masters + [Master(master.value, ops.value, entries, false)];
      TryBindMasters();
      return Ok;
    }

    // component_master_del
    method ComponentMasterDel(dev: nat, ops: Ops)
      modifies this
      ensures St() == MasterDel(old(St()), dev, ops)
    {
      var i := 0;
      while i < |masters| && (masters[i].dev != dev || masters[i].ops != ops)
        invariant i <= |masters| && FindMaster(masters, dev, ops) == i + FindMaster(masters[i..], dev, ops)
      {
        i := i + 1;
      }
      if i == |masters| {
        return;
      }
      var m := masters[i];
      masters := masters[..i] + masters[i + 1..];
      if m.bound && m.ops.unbind {
        log := log + [MasterUnbound(m.dev)];
      } else {
        assert old(log) + [] == log;
      }
    }
  }
}
