/** The component framework: the lists of registered components and masters, what each call does to
    them, and the log of callbacks it makes. The callbacks' results come from an arbitrary
    environment. */
module Component {
  import opened Options
  import opened Lists

  /** The ops structures, by identity; `bind` and `unbind` tell whether the callback is set. */
  datatype Ops = Ops(id: nat, bind: bool, unbind: bool)

  /** The arguments a component is bound with. */
  datatype Binding = Binding(master: nat, data: nat)

  /** One registration. Registering a device twice makes two, so each has its own id. */
  datatype Who = Who(id: nat, dev: nat, ops: Ops)

  /** `binding` is the bound flag together with the master and data recorded with it. */
  datatype Comp = Comp(who: Who, binding: Option<Binding>)

  /** `entries` is the match list, each entry compared by device; None is a null match. */
  datatype Master = Master(dev: nat, ops: Ops, entries: Option<seq<nat>>, bound: bool)

  /** A bind callback that succeeded or failed, an unbind (which reaches the callback exactly when
      the ops have one), the unbind made by component_del, and a call of a master's callbacks. */
  datatype Event =
    | Bound(who: Who, tie: Binding)
    | Refused(who: Who)
    | Released(who: Who, tie: Binding)
    | Deleted(who: Who, tie: Binding)
    | Asked(master: nat)
    | MasterUnbound(master: nat)

  datatype State = State(comps: seq<Comp>, masters: seq<Master>, log: seq<Event>, next: nat)

  const INIT: State := State([], [], [], 0)

  /** What a master's bind callback does around component_bind_all: fail before it, fail to register
      the unbind action (which runs the action), fail later, or succeed. */
  datatype Plan = FailEarly | FailAttach(data: nat) | FailLate(data: nat) | Succeed(data: nat)

  /** The callbacks' behaviour, as a function of how many events came before. */
  datatype Env = Env(binds: nat -> bool, plans: nat -> Plan)

  datatype Outcome = Outcome(s: State, ok: bool)

  // ---- Lookups ----

  /** The first component for the device whose bound flag is as given, or |comps|. */
  function First(comps: seq<Comp>, dev: nat, bound: bool): (i: nat)
    ensures i <= |comps|
    ensures i < |comps| ==> comps[i].who.dev == dev && comps[i].binding.Some? == bound
    ensures forall j :: 0 <= j < i ==> comps[j].who.dev != dev || comps[j].binding.Some? != bound
  {
    if comps == [] || (comps[0].who.dev == dev && comps[0].binding.Some? == bound) then 0
    else
      var i := First(comps[1..], dev, bound);
      assert forall j :: 1 <= j < |comps| ==> comps[j] == comps[1..][j - 1];
      i + 1
  }

  /** lkpi_master_for */
  function MasterFor(masters: seq<Master>, dev: nat): (i: nat)
    ensures i <= |masters|
    ensures i < |masters| ==> masters[i].dev == dev
    ensures forall j :: 0 <= j < i ==> masters[j].dev != dev
  {
    if masters == [] || masters[0].dev == dev then 0
    else
      var i := MasterFor(masters[1..], dev);
      assert forall j :: 1 <= j < |masters| ==> masters[j] == masters[1..][j - 1];
      i + 1
  }

  function EntriesFor(masters: seq<Master>, dev: nat): Option<seq<nat>> {
    var i := MasterFor(masters, dev);
    if i == |masters| then None else masters[i].entries
  }

  predicate Registered(comps: seq<Comp>, dev: nat) {
    exists c :: 0 <= c < |comps| && comps[c].who.dev == dev
  }

  /** lkpi_match_complete */
  predicate Complete(entries: Option<seq<nat>>, comps: seq<Comp>) {
    entries.Some? ==> forall p :: 0 <= p < |entries.value| ==> Registered(comps, entries.value[p])
  }

  // ---- The calls ----

  /** One bind callback, on component i. */
  function BindOne(env: Env, s: State, i: nat, tie: Binding): State
    requires i < |s.comps|
  {
    if env.binds(|s.log|) then
      s.(comps := s.comps[i := s.comps[i].(binding := Some(tie))], log := s.log + [Bound(s.comps[i].who, tie)])
    else
      s.(log := s.log + [Refused(s.comps[i].who)])
  }

  /** component_bind_all along a match list: one component per entry, stopping at the first failure. */
  function BindMatch(env: Env, s: State, entries: seq<nat>, tie: Binding): Outcome
    decreases |entries|
  {
    if entries == [] then Outcome(s, true)
    else
      var i := First(s.comps, entries[0], false);
      if i == |s.comps| then BindMatch(env, s, entries[1..], tie)
      else if !env.binds(|s.log|) then Outcome(BindOne(env, s, i, tie), false)
      else BindMatch(env, BindOne(env, s, i, tie), entries[1..], tie)
  }

  /** component_bind_all without a match list: every unbound component from i on. */
  function BindRest(env: Env, s: State, i: nat, tie: Binding): Outcome
    requires i <= |s.comps|
    decreases |s.comps| - i
  {
    if i == |s.comps| then Outcome(s, true)
    else if s.comps[i].binding.Some? then BindRest(env, s, i + 1, tie)
    else if !env.binds(|s.log|) then Outcome(BindOne(env, s, i, tie), false)
    else BindRest(env, BindOne(env, s, i, tie), i + 1, tie)
  }

  function BindAll(env: Env, s: State, tie: Binding): Outcome {
    var entries := EntriesFor(s.masters, tie.master);
    if entries.Some? then BindMatch(env, s, entries.value, tie) else BindRest(env, s, 0, tie)
  }

  function Release(s: State, i: nat, tie: Binding): State
    requires i < |s.comps|
  {
    s.(comps := s.comps[i := s.comps[i].(binding := None)], log := s.log + [Released(s.comps[i].who, tie)])
  }

  /** component_unbind_all along a match list, last entry first. */
  function UnbindMatch(s: State, entries: seq<nat>, tie: Binding): State
    decreases |entries|
  {
    if entries == [] then s
    else
      var n := |entries| - 1;
      var i := First(s.comps, entries[n], true);
      UnbindMatch(if i == |s.comps| then s else Release(s, i, tie), entries[..n], tie)
  }

  /** component_unbind_all without a match list: every bound component before n, last first. */
  function UnbindRest(s: State, n: nat, tie: Binding): State
    requires n <= |s.comps|
    decreases n
  {
    if n == 0 then s
    else UnbindRest(if s.comps[n - 1].binding.Some? then Release(s, n - 1, tie) else s, n - 1, tie)
  }

  function UnbindAll(s: State, tie: Binding): State {
    var entries := EntriesFor(s.masters, tie.master);
    if entries.Some? then UnbindMatch(s, entries.value, tie) else UnbindRest(s, |s.comps|, tie)
  }

  /** A call of a master's bind callback. */
  function AskMaster(env: Env, s: State, dev: nat): Outcome {
    var s1 := s.(log := s.log + [Asked(dev)]);
    match env.plans(|s.log|)
    case FailEarly => Outcome(s1, false)
    case Succeed(data) => BindAll(env, s1, Binding(dev, data))
    case FailLate(data) => Outcome(BindAll(env, s1, Binding(dev, data)).s, false)
    case FailAttach(data) =>
      var o := BindAll(env, s1, Binding(dev, data));
      Outcome(if o.ok then UnbindAll(o.s, Binding(dev, data)) else o.s, false)
  }

  predicate Ready(s: State, i: nat)
    requires i < |s.masters|
  {
    !s.masters[i].bound && s.masters[i].ops.bind && Complete(s.masters[i].entries, s.comps)
  }

  function MarkBound(s: State, i: nat): State
    requires i < |s.masters|
  {
    s.(masters := s.masters[i := s.masters[i].(bound := true)])
  }

  /** The lists keep their members across a call of a master's callback. */
  lemma AskMasterShape(env: Env, s: State, dev: nat)
    ensures AskMaster(env, s, dev).s.masters == s.masters && |AskMaster(env, s, dev).s.comps| == |s.comps|
  {
    var s1 := s.(log := s.log + [Asked(dev)]);
    if !env.plans(|s.log|).FailEarly? {
      var tie := Binding(dev, env.plans(|s.log|).data);
      BindAllShape(env, s1, tie);
      UnbindAllShape(BindAll(env, s1, tie).s, tie);
    }
  }

  lemma BindAllShape(env: Env, s: State, tie: Binding)
    ensures BindAll(env, s, tie).s.masters == s.masters && |BindAll(env, s, tie).s.comps| == |s.comps|
  {
    if EntriesFor(s.masters, tie.master).Some? {
      BindMatchShape(env, s, EntriesFor(s.masters, tie.master).value, tie);
    } else {
      BindRestShape(env, s, 0, tie);
    }
  }

  lemma BindMatchShape(env: Env, s: State, entries: seq<nat>, tie: Binding)
    ensures var r := BindMatch(env, s, entries, tie).s; r.masters == s.masters && |r.comps| == |s.comps|
    decreases |entries|
  {
  }

  lemma BindRestShape(env: Env, s: State, i: nat, tie: Binding)
    requires i <= |s.comps|
    ensures var r := BindRest(env, s, i, tie).s; r.masters == s.masters && |r.comps| == |s.comps|
    decreases |s.comps| - i
  {
  }

  lemma UnbindAllShape(s: State, tie: Binding)
    ensures UnbindAll(s, tie).masters == s.masters && |UnbindAll(s, tie).comps| == |s.comps|
  {
    if EntriesFor(s.masters, tie.master).Some? {
      UnbindMatchShape(s, EntriesFor(s.masters, tie.master).value, tie);
    } else {
      UnbindRestShape(s, |s.comps|, tie);
    }
  }

  lemma UnbindMatchShape(s: State, entries: seq<nat>, tie: Binding)
    ensures var r := UnbindMatch(s, entries, tie); r.masters == s.masters && |r.comps| == |s.comps|
    decreases |entries|
  {
  }

  lemma UnbindRestShape(s: State, n: nat, tie: Binding)
    requires n <= |s.comps|
    ensures var r := UnbindRest(s, n, tie); r.masters == s.masters && |r.comps| == |s.comps|
    decreases n
  {
  }

  /** One master's turn in lkpi_try_bind_masters. */
  function TryOne(env: Env, s: State, i: nat): (r: State)
    requires i < |s.masters|
    ensures |r.masters| == |s.masters|
  {
    AskMasterShape(env, s, s.masters[i].dev);
    if !Ready(s, i) then s
    else
      var o := AskMaster(env, s, s.masters[i].dev);
      if o.ok then MarkBound(o.s, i) else o.s
  }

  /** lkpi_try_bind_masters, from master i on. */
  function TryBind(env: Env, s: State, i: nat): State
    requires i <= |s.masters|
    decreases |s.masters| - i
  {
    if i == |s.masters| then s else TryBind(env, TryOne(env, s, i), i + 1)
  }

  /** component_add */
  function Add(env: Env, s: State, dev: nat, ops: Ops): State {
    if !ops.bind then s
    else TryBind(env, s.(comps := s.comps + [Comp(Who(s.next, dev, ops), None)], next := s.next + 1), 0)
  }

  /** The first registration of the device with these ops, or |comps|. */
  function Find(comps: seq<Comp>, dev: nat, ops: Ops): (i: nat)
    ensures i <= |comps|
    ensures i < |comps| ==> comps[i].who.dev == dev && comps[i].who.ops == ops
  {
    if comps == [] || (comps[0].who.dev == dev && comps[0].who.ops == ops) then 0 else 1 + Find(comps[1..], dev, ops)
  }

  /** component_del: the unbind callback gets the master and data recorded at bind. */
  function Del(s: State, dev: nat, ops: Ops): State {
    var i := Find(s.comps, dev, ops);
    if i == |s.comps| then s
    else
      s.(comps := s.comps[..i] + s.comps[i + 1..],
         log := s.log + if s.comps[i].binding.Some? then [Deleted(s.comps[i].who, s.comps[i].binding.value)] else [])
  }

  /** component_master_add_with_match */
  function MasterAdd(env: Env, s: State, dev: nat, ops: Ops, entries: Option<seq<nat>>): State {
    TryBind(env, s.(masters := s.masters + [Master(dev, ops, entries, false)]), 0)
  }

  function FindMaster(masters: seq<Master>, dev: nat, ops: Ops): (i: nat)
    ensures i <= |masters|
  {
    if masters == [] || (masters[0].dev == dev && masters[0].ops == ops) then 0
    else 1 + FindMaster(masters[1..], dev, ops)
  }

  /** component_master_del */
  function MasterDel(s: State, dev: nat, ops: Ops): State {
    var i := FindMaster(s.masters, dev, ops);
    if i == |s.masters| then s
    else
      s.(masters := s.masters[..i] + s.masters[i + 1..],
         log := s.log + if s.masters[i].bound && s.masters[i].ops.unbind then [MasterUnbound(s.masters[i].dev)] else [])
  }

  datatype Op =
    | OpAdd(dev: nat, ops: Ops)
    | OpDel(dev: nat, ops: Ops)
    | OpBindAll(tie: Binding)
    | OpUnbindAll(tie: Binding)
    | OpMasterAdd(dev: nat, ops: Ops, entries: Option<seq<nat>>)
    | OpMasterDel(dev: nat, ops: Ops)

  function Step(env: Env, s: State, op: Op): State {
    match op
    case OpAdd(dev, ops) => Add(env, s, dev, ops)
    case OpDel(dev, ops) => Del(s, dev, ops)
    case OpBindAll(tie) => BindAll(env, s, tie).s
    case OpUnbindAll(tie) => UnbindAll(s, tie)
    case OpMasterAdd(dev, ops, entries) => MasterAdd(env, s, dev, ops, entries)
    case OpMasterDel(dev, ops) => MasterDel(s, dev, ops)
  }

  function Run(env: Env, ops: seq<Op>): State {
    if ops == [] then INIT else Step(env, Run(env, ops[..|ops| - 1]), ops[|ops| - 1])
  }

  // ---- Callbacks alternate ----

  /** What a registration is bound to, read off the log alone. */
  function BoundBy(log: seq<Event>, id: nat): Option<Binding> {
    if log == [] then None
    else
      match log[|log| - 1]
      case Bound(who, tie) => if who.id == id then Some(tie) else BoundBy(log[..|log| - 1], id)
      case Released(who, _) => if who.id == id then None else BoundBy(log[..|log| - 1], id)
      case Deleted(who, _) => if who.id == id then None else BoundBy(log[..|log| - 1], id)
      case _ => BoundBy(log[..|log| - 1], id)
  }

  /** Every bind callback is for a registration that is not bound, every unbind for one that is, and
      component_del hands unbind the arguments of the bind it undoes. */
  predicate Alternates(log: seq<Event>) {
    log == [] ||
    var before := log[..|log| - 1];
    Alternates(before)
    && match log[|log| - 1]
       case Bound(who, _) => BoundBy(before, who.id) == None
       case Refused(who) => BoundBy(before, who.id) == None
       case Released(who, _) => BoundBy(before, who.id).Some?
       case Deleted(who, tie) => BoundBy(before, who.id) == Some(tie)
       case _ => true
  }

  ghost predicate Inv(s: State) {
    && Alternates(s.log)
    && (forall i :: 0 <= i < |s.comps| ==> s.comps[i].who.id < s.next)
    && (forall i, j :: 0 <= i < j < |s.comps| ==> s.comps[i].who.id < s.comps[j].who.id)
    && (forall i :: 0 <= i < |s.comps| ==> s.comps[i].binding == BoundBy(s.log, s.comps[i].who.id))
    && (forall id :: BoundBy(s.log, id).Some? ==> HasId(s.comps, id))
  }

  predicate HasId(comps: seq<Comp>, id: nat) {
    exists i :: 0 <= i < |comps| && comps[i].who.id == id
  }

  /** Appending one event changes what is bound only for the registration it names. */
  lemma BoundByAppend(log: seq<Event>, e: Event, id: nat)
    ensures BoundBy(log + [e], id) ==
            if e.Bound? && e.who.id == id then Some(e.tie)
            else if (e.Released? || e.Deleted?) && e.who.id == id then None
            else BoundBy(log, id)
    ensures Alternates(log + [e]) <==>
            Alternates(log)
            && (e.Bound? || e.Refused? ==> BoundBy(log, e.who.id) == None)
            && (e.Released? ==> BoundBy(log, e.who.id).Some?)
            && (e.Deleted? ==> BoundBy(log, e.who.id) == Some(e.tie))
  {
    assert (log + [e])[..|log + [e]| - 1] == log;
  }

  /** The same registrations have the same ids. */
  lemma SameIds(comps: seq<Comp>, comps': seq<Comp>, id: nat)
    requires |comps| <= |comps'| && forall j :: 0 <= j < |comps| ==> comps'[j].who == comps[j].who
    ensures HasId(comps, id) ==> HasId(comps', id)
  {
    if HasId(comps, id) {
      var j :| 0 <= j < |comps| && comps[j].who.id == id;
      assert comps'[j].who.id == id;
    }
  }

  lemma IdAt(comps: seq<Comp>, i: nat)
    requires i < |comps|
    ensures HasId(comps, comps[i].who.id)
  {}

  lemma BindOneKeeps(env: Env, s: State, i: nat, tie: Binding)
    requires Inv(s) && i < |s.comps| && s.comps[i].binding == None
    ensures Inv(BindOne(env, s, i, tie))
  {
    hide BoundBy, Alternates, HasId;
    var r, who := BindOne(env, s, i, tie), s.comps[i].who;
    var e := if env.binds(|s.log|) then Bound(who, tie) else Refused(who);
    BoundByAppend(s.log, e, who.id);
    forall id: nat
      ensures BoundBy(r.log, id) == if e.Bound? && who.id == id then Some(tie) else BoundBy(s.log, id)
    {
      BoundByAppend(s.log, e, id);
    }
    forall id: nat | BoundBy(r.log, id).Some? ensures HasId(r.comps, id) {
      IdAt(s.comps, i);
      SameIds(s.comps, r.comps, id);
    }
  }

  lemma ReleaseKeeps(s: State, i: nat, tie: Binding)
    requires Inv(s) && i < |s.comps| && s.comps[i].binding.Some?
    ensures Inv(Release(s, i, tie))
  {
    hide BoundBy, Alternates, HasId;
    var r, who := Release(s, i, tie), s.comps[i].who;
    var e := Released(who, tie);
    BoundByAppend(s.log, e, who.id);
    forall id: nat ensures BoundBy(r.log, id) == if who.id == id then None else BoundBy(s.log, id) {
      BoundByAppend(s.log, e, id);
    }
    forall id: nat | BoundBy(r.log, id).Some? ensures HasId(r.comps, id) {
      SameIds(s.comps, r.comps, id);
    }
  }

  lemma QuietKeeps(s: State, e: Event)
    requires Inv(s) && (e.Asked? || e.MasterUnbound?)
    ensures Inv(s.(log := s.log + [e]))
  {
    hide BoundBy, Alternates, HasId;
    BoundByAppend(s.log, e, 0);
    forall id: nat ensures BoundBy(s.log + [e], id) == BoundBy(s.log, id) {
      BoundByAppend(s.log, e, id);
    }
  }

  lemma {:induction false} BindMatchKeeps(env: Env, s: State, entries: seq<nat>, tie: Binding)
    requires Inv(s)
    ensures Inv(BindMatch(env, s, entries, tie).s)
    decreases |entries|
  {
    hide Inv;
    if entries != [] {
      var i := First(s.comps, entries[0], false);
      if i == |s.comps| {
        BindMatchKeeps(env, s, entries[1..], tie);
      } else {
        BindOneKeeps(env, s, i, tie);
        BindMatchKeeps(env, BindOne(env, s, i, tie), entries[1..], tie);
      }
    }
  }

  lemma {:induction false} BindRestKeeps(env: Env, s: State, i: nat, tie: Binding)
    requires Inv(s) && i <= |s.comps|
    ensures Inv(BindRest(env, s, i, tie).s)
    decreases |s.comps| - i
  {
    hide Inv;
    if i < |s.comps| {
      if s.comps[i].binding.Some? {
        BindRestKeeps(env, s, i + 1, tie);
      } else {
        BindOneKeeps(env, s, i, tie);
        BindRestKeeps(env, BindOne(env, s, i, tie), i + 1, tie);
      }
    }
  }

  lemma {:induction false} UnbindMatchKeeps(s: State, entries: seq<nat>, tie: Binding)
    requires Inv(s)
    ensures Inv(UnbindMatch(s, entries, tie))
    decreases |entries|
  {
    hide Inv;
    if entries != [] {
      var n := |entries| - 1;
      var i := First(s.comps, entries[n], true);
      if i < |s.comps| {
        ReleaseKeeps(s, i, tie);
      }
      UnbindMatchKeeps(if i == |s.comps| then s else Release(s, i, tie), entries[..n], tie);
    }
  }

  lemma {:induction false} UnbindRestKeeps(s: State, n: nat, tie: Binding)
    requires Inv(s) && n <= |s.comps|
    ensures Inv(UnbindRest(s, n, tie))
    decreases n
  {
    hide Inv;
    if n > 0 {
      if s.comps[n - 1].binding.Some? {
        ReleaseKeeps(s, n - 1, tie);
      }
      UnbindRestKeeps(if s.comps[n - 1].binding.Some? then Release(s, n - 1, tie) else s, n - 1, tie);
    }
  }

  lemma BindAllKeeps(env: Env, s: State, tie: Binding)
    requires Inv(s)
    ensures Inv(BindAll(env, s, tie).s)
  {
    hide Inv;
    if EntriesFor(s.masters, tie.master).Some? {
      BindMatchKeeps(env, s, EntriesFor(s.masters, tie.master).value, tie);
    } else {
      BindRestKeeps(env, s, 0, tie);
    }
  }

  lemma UnbindAllKeeps(s: State, tie: Binding)
    requires Inv(s)
    ensures Inv(UnbindAll(s, tie))
  {
    hide Inv;
    if EntriesFor(s.masters, tie.master).Some? {
      UnbindMatchKeeps(s, EntriesFor(s.masters, tie.master).value, tie);
    } else {
      UnbindRestKeeps(s, |s.comps|, tie);
    }
  }

  /** The list of masters does not matter to the callbacks' log. */
  lemma MastersKeep(s: State, masters: seq<Master>)
    requires Inv(s)
    ensures Inv(s.(masters := masters))
  {
    hide BoundBy, Alternates, HasId;
  }

  lemma TryOneKeeps(env: Env, s: State, i: nat)
    requires Inv(s) && i < |s.masters|
    ensures Inv(TryOne(env, s, i))
  {
    hide Inv;
    var dev := s.masters[i].dev;
    var s1 := s.(log := s.log + [Asked(dev)]);
    QuietKeeps(s, Asked(dev));
    if !env.plans(|s.log|).FailEarly? {
      var tie := Binding(dev, env.plans(|s.log|).data);
      BindAllKeeps(env, s1, tie);
      UnbindAllKeeps(BindAll(env, s1, tie).s, tie);
    }
    var r := AskMaster(env, s, dev).s;
    AskMasterShape(env, s, dev);
    MastersKeep(r, r.masters[i := r.masters[i].(bound := true)]);
  }

  lemma {:induction false} TryBindKeeps(env: Env, s: State, i: nat)
    requires Inv(s) && i <= |s.masters|
    ensures Inv(TryBind(env, s, i))
    decreases |s.masters| - i
  {
    hide Inv;
    if i < |s.masters| {
      TryOneKeeps(env, s, i);
      TryBindKeeps(env, TryOne(env, s, i), i + 1);
    }
  }

  lemma AppendKeeps(s: State, dev: nat, ops: Ops)
    requires Inv(s)
    ensures Inv(s.(comps := s.comps + [Comp(Who(s.next, dev, ops), None)], next := s.next + 1))
  {
    hide BoundBy, Alternates;
    var r := s.(comps := s.comps + [Comp(Who(s.next, dev, ops), None)], next := s.next + 1);
    assert !HasId(s.comps, s.next);
    hide HasId;
    forall id: nat | BoundBy(r.log, id).Some? ensures HasId(r.comps, id) {
      SameIds(s.comps, r.comps, id);
    }
  }

  lemma IdKept(comps: seq<Comp>, i: nat, id: nat)
    requires i < |comps| && comps[i].who.id != id && HasId(comps, id)
    ensures HasId(comps[..i] + comps[i + 1..], id)
  {
    var j :| 0 <= j < |comps| && comps[j].who.id == id;
    assert (comps[..i] + comps[i + 1..])[if j < i then j else j - 1] == comps[j];
  }

  lemma DelBoundBy(s: State, dev: nat, ops: Ops, id: nat)
    requires Inv(s) && Find(s.comps, dev, ops) < |s.comps|
    ensures var gone := s.comps[Find(s.comps, dev, ops)].who.id;
      BoundBy(Del(s, dev, ops).log, id) == if id == gone then None else BoundBy(s.log, id)
    ensures Alternates(Del(s, dev, ops).log)
  {
    var c := s.comps[Find(s.comps, dev, ops)];
    if c.binding.Some? {
      BoundByAppend(s.log, Deleted(c.who, c.binding.value), id);
    } else {
      assert Del(s, dev, ops).log == s.log;
    }
  }

  lemma DelKeeps(s: State, dev: nat, ops: Ops)
    requires Inv(s)
    ensures Inv(Del(s, dev, ops))
  {
    hide BoundBy, Alternates, Find, HasId;
    var i := Find(s.comps, dev, ops);
    if i < |s.comps| {
      var gone := s.comps[i].who.id;
      var r := Del(s, dev, ops);
      forall id: nat
        ensures BoundBy(r.log, id) == if id == gone then None else BoundBy(s.log, id)
        ensures Alternates(r.log)
      {
        DelBoundBy(s, dev, ops, id);
      }
      assert forall j :: 0 <= j < |r.comps| ==> r.comps[j] == s.comps[if j < i then j else j + 1];
      forall id | BoundBy(r.log, id).Some? ensures HasId(r.comps, id) {
        IdKept(s.comps, i, id);
      }
    }
  }

  lemma StepKeeps(env: Env, s: State, op: Op)
    requires Inv(s)
    ensures Inv(Step(env, s, op))
  {
    hide Inv, TryBind, BindAll, UnbindAll;
    match op
    case OpAdd(dev, ops) =>
      if ops.bind {
        AppendKeeps(s, dev, ops);
        TryBindKeeps(env, s.(comps := s.comps + [Comp(Who(s.next, dev, ops), None)], next := s.next + 1), 0);
      }
    case OpDel(dev, ops) => DelKeeps(s, dev, ops);
    case OpBindAll(tie) => BindAllKeeps(env, s, tie);
    case OpUnbindAll(tie) => UnbindAllKeeps(s, tie);
    case OpMasterAdd(dev, ops, entries) =>
      MastersKeep(s, s.masters + [Master(dev, ops, entries, false)]);
      TryBindKeeps(env, s.(masters := s.masters + [Master(dev, ops, entries, false)]), 0);
    case OpMasterDel(dev, ops) =>
      var i := FindMaster(s.masters, dev, ops);
      assert s.log + [] == s.log;
      if i < |s.masters| {
        var rest := s.masters[..i] + s.masters[i + 1..];
        MastersKeep(s, rest);
        QuietKeeps(s.(masters := rest), MasterUnbound(s.masters[i].dev));
      }
  }

  /** Over every run of calls, whatever the callbacks answer: each registration's callbacks alternate
      bind, unbind, bind, ...; the bound flag tells which comes next, and nothing stays bound once its
      registration is gone. */
  lemma {:induction false} CallbacksAlternate(env: Env, ops: seq<Op>)
    ensures var s := Run(env, ops); Inv(s)
    decreases |ops|
  {
    if ops != [] {
      CallbacksAlternate(env, ops[..|ops| - 1]);
      StepKeeps(env, Run(env, ops[..|ops| - 1]), ops[|ops| - 1]);
    }
  }

  /** In an alternating log two bind callbacks of one registration have an unbind between them. */
  lemma {:induction false} UnbindBetween(log: seq<Event>, a: nat, b: nat) returns (u: nat)
    requires Alternates(log) && a < b < |log|
    requires log[a].Bound? && (log[b].Bound? || log[b].Refused?) && log[a].who.id == log[b].who.id
    ensures a < u < b && (log[u].Released? || log[u].Deleted?) && log[u].who.id == log[a].who.id
    decreases |log|
  {
    var n := |log| - 1;
    if b < n {
      u := UnbindBetween(log[..n], a, b);
    } else {
      u := LastUnbind(log[..n], a);
    }
  }

  lemma {:induction false} LastUnbind(log: seq<Event>, a: nat) returns (u: nat)
    requires a < |log| && log[a].Bound? && BoundBy(log, log[a].who.id) == None
    ensures a < u < |log| && (log[u].Released? || log[u].Deleted?) && log[u].who.id == log[a].who.id
    decreases |log|
  {
    var n := |log| - 1;
    if (log[n].Released? || log[n].Deleted?) && log[n].who.id == log[a].who.id {
      u := n;
    } else {
      u := LastUnbind(log[..n], a);
    }
  }

  // ---- The arguments of unbind ----

  /** Every unbind made by component_unbind_all got the arguments of the bind it undid. */
  predicate Faithful(log: seq<Event>) {
    log == [] ||
    var before, e := log[..|log| - 1], log[|log| - 1];
    Faithful(before) && (e.Released? ==> BoundBy(before, e.who.id) == Some(e.tie))
  }

  /** An unbind gets them exactly when the caller is the master, with the data, that bound it. */
  lemma ReleaseFaithfulIff(s: State, i: nat, tie: Binding)
    requires Inv(s) && i < |s.comps| && s.comps[i].binding.Some?
    ensures Faithful(Release(s, i, tie).log) <==> Faithful(s.log) && s.comps[i].binding == Some(tie)
  {
    hide BoundBy, Alternates, HasId;
    var e := Released(s.comps[i].who, tie);
    assert (s.log + [e])[..|s.log + [e]| - 1] == s.log;
  }

  /** Without a match list component_unbind_all unbinds everybody's components: all of them get the
      arguments of their bind exactly when all were bound by this caller. */
  lemma {:induction false} UnbindRestFaithfulIff(s: State, n: nat, tie: Binding)
    requires Inv(s) && n <= |s.comps|
    ensures Faithful(UnbindRest(s, n, tie).log) <==>
      Faithful(s.log) && forall j :: 0 <= j < n && s.comps[j].binding.Some? ==> s.comps[j].binding == Some(tie)
    decreases n
  {
    hide Inv, Faithful;
    if n > 0 {
      if s.comps[n - 1].binding.Some? {
        ReleaseFaithfulIff(s, n - 1, tie);
        ReleaseKeeps(s, n - 1, tie);
      }
      var t := if s.comps[n - 1].binding.Some? then Release(s, n - 1, tie) else s;
      UnbindRestFaithfulIff(t, n - 1, tie);
      assert forall j :: 0 <= j < n - 1 ==> t.comps[j] == s.comps[j];
    }
  }

  /** Along a match list: all of them get the arguments of their bind exactly when every component that
      it unbinds was bound by this caller. */
  lemma {:induction false} UnbindMatchFaithful(s: State, entries: seq<nat>, tie: Binding)
    requires Inv(s)
    ensures var r := UnbindMatch(s, entries, tie);
      && |r.comps| == |s.comps|
      && (forall c :: 0 <= c < |s.comps| ==> r.comps[c] == s.comps[c] || r.comps[c] == s.comps[c].(binding := None))
      && (Faithful(r.log) <==>
            && Faithful(s.log)
            && forall c :: 0 <= c < |s.comps| && r.comps[c] != s.comps[c] ==> s.comps[c].binding == Some(tie))
    decreases |entries|
  {
    hide Inv, Faithful, First;
    if entries != [] {
      var n := |entries| - 1;
      var i := First(s.comps, entries[n], true);
      var t := if i == |s.comps| then s else Release(s, i, tie);
      if i < |s.comps| {
        ReleaseFaithfulIff(s, i, tie);
        ReleaseKeeps(s, i, tie);
      }
      UnbindMatchFaithful(t, entries[..n], tie);
      assert forall j :: 0 <= j < |s.comps| && j != i ==> t.comps[j] == s.comps[j];
    }
  }

  /** A list that names each device once makes it unbind the first bound component of each. */
  lemma {:induction false} UnbindMatchReaches(s: State, entries: seq<nat>, tie: Binding, c: nat)
    requires Distinct(entries) && c < |s.comps|
    ensures var r, dev := UnbindMatch(s, entries, tie), s.comps[c].who.dev;
      |r.comps| == |s.comps| && (r.comps[c] != s.comps[c] <==> dev in entries && First(s.comps, dev, true) == c)
    decreases |entries|
  {
    if entries != [] {
      hide First;
      var n := |entries| - 1;
      var i := First(s.comps, entries[n], true);
      var t := if i == |s.comps| then s else Release(s, i, tie);
      UnbindMatchReaches(t, entries[..n], tie, c);
      assert entries == entries[..n] + [entries[n]] && entries[n] !in entries[..n];
      if i < |s.comps| && s.comps[c].who.dev != entries[n] {
        FirstKept(s.comps, t.comps, s.comps[c].who.dev);
      }
    }
  }

  lemma FirstKept(comps: seq<Comp>, comps': seq<Comp>, dev: nat)
    requires |comps'| == |comps|
    requires forall j :: 0 <= j < |comps| ==> comps'[j].who.dev == comps[j].who.dev
    requires forall j :: 0 <= j < |comps| && comps[j].who.dev == dev ==>
      comps'[j].binding.Some? == comps[j].binding.Some?
    ensures First(comps', dev, true) == First(comps, dev, true)
  {
    hide First;
    var i, j := First(comps, dev, true), First(comps', dev, true);
    assert i < |comps| ==> comps'[i].who.dev == dev;
    assert j < |comps| ==> comps[j].who.dev == dev;
  }

  /** So along such a list all unbinds get the arguments of their bind if and only if the first bound
      component of every listed device was bound by this caller. */
  lemma UnbindMatchFaithfulIff(s: State, entries: seq<nat>, tie: Binding)
    requires Inv(s) && Distinct(entries)
    ensures Faithful(UnbindMatch(s, entries, tie).log) <==>
      && Faithful(s.log)
      && forall p :: 0 <= p < |entries| ==>
           var c := First(s.comps, entries[p], true);
           c < |s.comps| ==> s.comps[c].binding == Some(tie)
  {
    hide Inv, Faithful, First, UnbindMatch;
    UnbindMatchFaithful(s, entries, tie);
    forall c: nat | c < |s.comps|
      ensures UnbindMatch(s, entries, tie).comps[c] != s.comps[c] <==>
        s.comps[c].who.dev in entries && First(s.comps, s.comps[c].who.dev, true) == c
    {
      UnbindMatchReaches(s, entries, tie, c);
    }
  }

  /** It does unbind another master's component: a component is added, bound by master 1, and unbound by a
      caller that is master 2 and has no match list. */
  lemma ForeignUnbind(env: Env)
    requires env.binds(0)
    ensures var ops := Ops(0, true, true);
      var s := Run(env, [OpAdd(7, ops), OpBindAll(Binding(1, 0)), OpUnbindAll(Binding(2, 0))]);
      && s.log == [Bound(Who(0, 7, ops), Binding(1, 0)), Released(Who(0, 7, ops), Binding(2, 0))]
      && !Faithful(s.log)
  {
    var ops := Ops(0, true, true);
    var who, mine, other := Who(0, 7, ops), Binding(1, 0), Binding(2, 0);
    var calls := [OpAdd(7, ops), OpBindAll(mine), OpUnbindAll(other)];
    assert calls[..2] == [OpAdd(7, ops), OpBindAll(mine)] && calls[..2][..1] == [OpAdd(7, ops)];
    OneAdded(env, 7, ops);
    var one := State([Comp(who, None)], [], [], 1);
    OneBound(env, who, mine);
    var two := State([Comp(who, Some(mine))], [], [Bound(who, mine)], 1);
    OneReleased(who, mine, other);
    assert Run(env, calls[..2][..1]) == one && Run(env, calls[..2]) == two;
  }

  lemma OneAdded(env: Env, dev: nat, ops: Ops)
    requires ops.bind
    ensures Run(env, [OpAdd(dev, ops)]) == State([Comp(Who(0, dev, ops), None)], [], [], 1)
  {
    assert [OpAdd(dev, ops)][..0] == [];
    assert Run(env, [OpAdd(dev, ops)]) == Step(env, INIT, OpAdd(dev, ops));
  }

  lemma OneBound(env: Env, who: Who, tie: Binding)
    requires env.binds(0)
    ensures BindAll(env, State([Comp(who, None)], [], [], 1), tie).s ==
      State([Comp(who, Some(tie))], [], [Bound(who, tie)], 1)
  {
    var s := State([Comp(who, None)], [], [], 1);
    assert BindOne(env, s, 0, tie) == State([Comp(who, Some(tie))], [], [Bound(who, tie)], 1);
    assert BindRest(env, BindOne(env, s, 0, tie), 1, tie).s == BindOne(env, s, 0, tie);
  }

  lemma OneReleased(who: Who, tie: Binding, other: Binding)
    requires tie != other
    ensures var s := UnbindAll(State([Comp(who, Some(tie))], [], [Bound(who, tie)], 1), other);
      s.log == [Bound(who, tie), Released(who, other)] && !Faithful(s.log)
  {
    var s := State([Comp(who, Some(tie))], [], [Bound(who, tie)], 1);
    var r := Release(s, 0, other);
    assert UnbindRest(r, 0, other) == r;
    assert r.log == [Bound(who, tie), Released(who, other)] && r.log[..1] == s.log;
    assert BoundBy(s.log, who.id) == Some(tie);
  }
}
