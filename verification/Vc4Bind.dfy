/** What the vc4 bind order is for: a CRTC's bind callback visits the encoders registered so far, so an
    encoder can use a CRTC only if it was bound before it. From any registry of platform devices, in
    any probe order, the binds come out in the one order that connects them all. */
module Vc4Bind {
  import opened Options
  import Component
  import ComponentOrder
  import Platform

  /** What a device's bind callback registers: nothing that matters here, an encoder of some type, or
      a CRTC with its table of encoder types. */
  datatype Role = Hvs | Hdmi(kind: nat, isVirtual: bool) | PixelValve(table: seq<nat>)

  /** possible_crtcs as the set of its bits, and clock_select. */
  datatype Encoder = Encoder(kind: nat, isVirtual: bool, crtcs: set<nat>, clock: nat)

  datatype Drm = Drm(encoders: seq<Encoder>, crtcs: nat)

  /** The first position of a type in a CRTC's table, or |table|. */
  function Slot(table: seq<nat>, kind: nat): (i: nat)
    ensures i <= |table| && (i < |table| ==> table[i] == kind)
    ensures i == |table| <==> kind !in table
    ensures kind !in table[..i]
  {
    if table == [] || table[0] == kind then 0 else 1 + Slot(table[1..], kind)
  }

  function Connect(e: Encoder, crtc: nat, table: seq<nat>): Encoder {
    if e.isVirtual || e.kind !in table then e else e.(crtcs := e.crtcs + {crtc}, clock := Slot(table, e.kind))
  }

  function ConnectAll(encoders: seq<Encoder>, crtc: nat, table: seq<nat>): seq<Encoder> {
    seq(|encoders|, i requires 0 <= i < |encoders| => Connect(encoders[i], crtc, table))
  }

  /** One bind callback. */
  function Bind(drm: Drm, role: Role): Drm {
    match role
    case Hvs => drm
    case Hdmi(kind, isVirtual) => drm.(encoders := drm.encoders + [Encoder(kind, isVirtual, {}, 0)])
    case PixelValve(table) => Drm(ConnectAll(drm.encoders, drm.crtcs, table), drm.crtcs + 1)
  }

  function BindSeq(roles: seq<Role>): Drm {
    if roles == [] then Drm([], 0) else Bind(BindSeq(roles[..|roles| - 1]), roles[|roles| - 1])
  }

  class Device {
    var encoders: seq<Encoder>
    var crtcs: nat

    constructor ()
      ensures Drm(encoders, crtcs) == Drm([], 0)
    {
      encoders, crtcs := [], 0;
    }

    // The inner loop of vc4_set_crtc_possible_masks, for one encoder.
    method MaskEncoder(k: nat, crtc: nat, table: seq<nat>)
      requires k < |encoders| && !encoders[k].isVirtual
      modifies this`encoders
      ensures encoders == old(encoders)[k := Connect(old(encoders)[k], crtc, table)]
    {
      var i := 0;
      while i < |table|
        invariant i <= |table| && encoders == old(encoders) && encoders[k].kind !in table[..i]
      {
        if encoders[k].kind == table[i] {
          encoders := encoders[k := encoders[k].(clock := i, crtcs := encoders[k].crtcs + {crtc})];
          assert Slot(table, old(encoders)[k].kind) == i;
          return;
        }
        i := i + 1;
      }
    }

    // vc4_set_crtc_possible_masks
    method SetCrtcPossibleMasks(crtc: nat, table: seq<nat>)
      modifies this`encoders
      ensures encoders == ConnectAll(old(encoders), crtc, table)
    {
      var k := 0;
      while k < |encoders|
        invariant k <= |encoders| == |old(encoders)|
        invariant forall j :: 0 <= j < k ==> encoders[j] == Connect(old(encoders)[j], crtc, table)
        invariant forall j :: k <= j < |encoders| ==> encoders[j] == old(encoders)[j]
      {
        if !encoders[k].isVirtual {
          MaskEncoder(k, crtc, table);
        }
        k := k + 1;
      }
    }

    // The part of the bind callbacks that registers encoders and CRTCs.
    method BindDevice(role: Role)
      modifies this
      ensures Drm(encoders, crtcs) == Bind(old(Drm(encoders, crtcs)), role)
    {
      match role
      case Hvs =>
      case Hdmi(kind, isVirtual) =>
        encoders := encoders + [Encoder(kind, isVirtual, {}, 0)];
      case PixelValve(table) =>
        var crtc := crtcs;
        crtcs := crtcs + 1;
        SetCrtcPossibleMasks(crtc, table);
    }
  }

  /** How many encoders, or CRTCs, were bound before a position: the index the next one gets. */
  function EncodersBefore(roles: seq<Role>, a: nat): nat
    requires a <= |roles|
  {
    if a == 0 then 0 else EncodersBefore(roles, a - 1) + if roles[a - 1].Hdmi? then 1 else 0
  }

  function CrtcsBefore(roles: seq<Role>, a: nat): nat
    requires a <= |roles|
  {
    if a == 0 then 0 else CrtcsBefore(roles, a - 1) + if roles[a - 1].PixelValve? then 1 else 0
  }

  /** Bit `CrtcsBefore(roles, b)` of encoder `EncodersBefore(roles, a)` as it must be: set exactly when
      the encoder was bound before the CRTC, is not virtual, and its type is in the CRTC's table. */
  ghost predicate Linked(roles: seq<Role>, a: nat, b: nat)
    requires a < |roles| && b < |roles| && roles[a].Hdmi? && roles[b].PixelValve?
  {
    a < b && !roles[a].isVirtual && roles[a].kind in roles[b].table
  }

  ghost predicate IsCrtcBit(roles: seq<Role>, a: nat, x: nat)
    requires a < |roles| && roles[a].Hdmi?
  {
    exists b :: 0 <= b < |roles| && roles[b].PixelValve? && Linked(roles, a, b) && CrtcsBefore(roles, b) == x
  }

  lemma {:induction false} CountsAreLocal(roles: seq<Role>, r: Role, a: nat)
    requires a <= |roles|
    ensures EncodersBefore(roles + [r], a) == EncodersBefore(roles, a)
    ensures CrtcsBefore(roles + [r], a) == CrtcsBefore(roles, a)
  {
    if a > 0 {
      CountsAreLocal(roles, r, a - 1);
    }
  }

  lemma {:induction false} CountsGrow(roles: seq<Role>, a: nat, b: nat)
    requires a <= b <= |roles|
    ensures EncodersBefore(roles, a) <= EncodersBefore(roles, b) && CrtcsBefore(roles, a) <= CrtcsBefore(roles, b)
    ensures a < b && roles[a].Hdmi? ==> EncodersBefore(roles, a) < EncodersBefore(roles, b)
    ensures a < b && roles[a].PixelValve? ==> CrtcsBefore(roles, a) < CrtcsBefore(roles, b)
    decreases b - a
  {
    if a < b {
      CountsGrow(roles, a, b - 1);
    }
  }

  lemma {:induction false} BindCounts(roles: seq<Role>)
    ensures |BindSeq(roles).encoders| == EncodersBefore(roles, |roles|)
    ensures BindSeq(roles).crtcs == CrtcsBefore(roles, |roles|)
    decreases |roles|
  {
    if roles != [] {
      var n := |roles| - 1;
      BindCounts(roles[..n]);
      assert roles == roles[..n] + [roles[n]];
      CountsAreLocal(roles[..n], roles[n], n);
    }
  }

  /** For every bind order: the bits of an encoder are exactly the CRTCs bound after it whose table has
      its type. */
  lemma {:induction false} MasksExact(roles: seq<Role>, a: nat)
    requires a < |roles| && roles[a].Hdmi?
    ensures var i := EncodersBefore(roles, a);
      && i < |BindSeq(roles).encoders|
      && var e := BindSeq(roles).encoders[i];
      && e.kind == roles[a].kind && e.isVirtual == roles[a].isVirtual
      && forall x :: x in e.crtcs <==> IsCrtcBit(roles, a, x)
    decreases |roles|
  {
    var n := |roles| - 1;
    var front, last := roles[..n], roles[n];
    assert roles == front + [last];
    BindCounts(front);
    BindCounts(roles);
    CountsGrow(roles, a, |roles|);
    CountsAreLocal(front, last, a);
    CountsAreLocal(front, last, n);
    if a < n {
      MasksExact(front, a);
      forall x: nat ensures IsCrtcBit(roles, a, x) <==> IsCrtcBit(front, a, x) || LastBit(front, last, a, x) {
        BitsGrow(front, last, a, x);
      }
    } else {
      forall x ensures !IsCrtcBit(roles, a, x) {}
    }
  }

  /** What the last bind adds to the bits of an encoder bound before. */
  ghost predicate LastBit(front: seq<Role>, last: Role, a: nat, x: nat)
    requires a < |front| && front[a].Hdmi?
  {
    last.PixelValve? && Linked(front + [last], a, |front|) && x == CrtcsBefore(front + [last], |front|)
  }

  lemma BitsGrow(front: seq<Role>, last: Role, a: nat, x: nat)
    requires a < |front| && front[a].Hdmi?
    ensures IsCrtcBit(front + [last], a, x) <==> IsCrtcBit(front, a, x) || LastBit(front, last, a, x)
  {
    hide CrtcsBefore;
    var roles := front + [last];
    assert roles[|front|] == last;
    if IsCrtcBit(front, a, x) {
      var b :| 0 <= b < |front| && front[b].PixelValve? && Linked(front, a, b) && CrtcsBefore(front, b) == x;
      CountsAreLocal(front, last, b);
      assert roles[b] == front[b] && Linked(roles, a, b);
    }
    if IsCrtcBit(roles, a, x) {
      var b :| 0 <= b < |roles| && roles[b].PixelValve? && Linked(roles, a, b) && CrtcsBefore(roles, b) == x;
      if b < |front| {
        CountsAreLocal(front, last, b);
        assert roles[b] == front[b] && Linked(front, a, b);
      }
    }
  }

  /** For one encoder and one CRTC. */
  lemma MaskBit(roles: seq<Role>, a: nat, b: nat)
    requires a < |roles| && b < |roles| && roles[a].Hdmi? && roles[b].PixelValve?
    ensures var i := EncodersBefore(roles, a);
      i < |BindSeq(roles).encoders| &&
      (CrtcsBefore(roles, b) in BindSeq(roles).encoders[i].crtcs <==> Linked(roles, a, b))
  {
    MasksExact(roles, a);
    var x := CrtcsBefore(roles, b);
    if IsCrtcBit(roles, a, x) {
      var c :| 0 <= c < |roles| && roles[c].PixelValve? && Linked(roles, a, c) && CrtcsBefore(roles, c) == x;
      if b < c {
        CountsGrow(roles, b, c);
      } else if c < b {
        CountsGrow(roles, c, b);
      }
    }
  }

  /** The CRTC at position b is the last one bound after the encoder at a whose table has its type. */
  ghost predicate LastLinked(roles: seq<Role>, a: nat, b: nat)
    requires a < |roles| && roles[a].Hdmi?
  {
    && b < |roles| && roles[b].PixelValve? && Linked(roles, a, b)
    && forall c :: b < c < |roles| && roles[c].PixelValve? ==> !Linked(roles, a, c)
  }

  /** The position is that of the type in the table, the first if there are several. */
  predicate Selects(table: seq<nat>, kind: nat, clock: nat) {
    clock < |table| && table[clock] == kind && kind !in table[..clock]
  }

  /** For every bind order: the clock of an encoder is selected by the last CRTC connected to it, from that
      CRTC's table, and is 0 while there is none. */
  lemma {:induction false} ClockExact(roles: seq<Role>, a: nat)
    requires a < |roles| && roles[a].Hdmi?
    ensures var i := EncodersBefore(roles, a);
      && i < |BindSeq(roles).encoders|
      && var e := BindSeq(roles).encoders[i];
      && (forall b: nat :: LastLinked(roles, a, b) ==> Selects(roles[b].table, roles[a].kind, e.clock))
      && ((forall b: nat :: !LastLinked(roles, a, b)) ==> e.clock == 0)
    decreases |roles|
  {
    hide BindSeq, EncodersBefore, CrtcsBefore, Connect, LastLinked, Selects;
    var n := |roles| - 1;
    var front, last := roles[..n], roles[n];
    assert roles == front + [last];
    if a < n {
      MasksExact(front, a);
      ClockExact(front, a);
      LastAfter(front, last, a);
      BindLast(front, last, a);
      ConnectClock(BindSeq(front).encoders[EncodersBefore(front, a)], CrtcsBefore(front, n),
                   if last.PixelValve? then last.table else []);
      LinkedLast(front, last, a);
      if last.PixelValve? && Linked(roles, a, n) {
        assert LastLinked(roles, a, n);
      }
    } else {
      FreshEncoder(front, last);
    }
  }

  /** The encoder bound at position a after one more bind. */
  lemma BindLast(front: seq<Role>, last: Role, a: nat)
    requires a < |front| && front[a].Hdmi?
    ensures var roles, i := front + [last], EncodersBefore(front, a);
      && EncodersBefore(roles, a) == i < |BindSeq(front).encoders| <= |BindSeq(roles).encoders|
      && var e := BindSeq(front).encoders[i];
         BindSeq(roles).encoders[i] ==
           if last.PixelValve? then Connect(e, CrtcsBefore(front, |front|), last.table) else e
  {
    hide Connect;
    var roles := front + [last];
    assert roles[..|front|] == front;
    BindCounts(front);
    CountsGrow(front, a, |front|);
    CountsAreLocal(front, last, a);
  }

  lemma ConnectClock(e: Encoder, crtc: nat, table: seq<nat>)
    ensures var r := Connect(e, crtc, table);
      if !e.isVirtual && e.kind in table then Selects(table, e.kind, r.clock) else r == e
  {}

  lemma LinkedLast(front: seq<Role>, last: Role, a: nat)
    requires a < |front| && front[a].Hdmi?
    ensures last.PixelValve? ==>
      (Linked(front + [last], a, |front|) <==> !front[a].isVirtual && front[a].kind in last.table)
    ensures forall b: nat :: LastLinked(front, a, b) ==> b < |front| && front[b].PixelValve?
    ensures forall b: nat :: LastLinked(front + [last], a, b) ==> b <= |front| && (front + [last])[b].PixelValve?
  {}

  lemma FreshEncoder(front: seq<Role>, last: Role)
    requires last.Hdmi?
    ensures var roles, n := front + [last], |front|;
      && EncodersBefore(roles, n) < |BindSeq(roles).encoders|
      && BindSeq(roles).encoders[EncodersBefore(roles, n)].clock == 0
      && forall b: nat :: !LastLinked(roles, n, b)
  {
    assert (front + [last])[..|front|] == front;
    BindCounts(front);
    CountsAreLocal(front, last, |front|);
  }

  lemma LastAfter(front: seq<Role>, last: Role, a: nat)
    requires a < |front| && front[a].Hdmi?
    ensures var roles := front + [last];
      if last.PixelValve? && Linked(roles, a, |front|) then
        forall b: nat :: LastLinked(roles, a, b) <==> b == |front|
      else forall b: nat :: LastLinked(roles, a, b) <==> LastLinked(front, a, b)
  {
    var roles := front + [last];
    forall b: nat | b < |front| ensures roles[b] == front[b] {}
    if !(last.PixelValve? && Linked(roles, a, |front|)) {
      forall b: nat ensures LastLinked(roles, a, b) <==> LastLinked(front, a, b) {
        assert LastLinked(roles, a, b) ==> b < |front|;
      }
    }
  }

  // ---- From the registry to the masks ----

  const HVS_DRIVER: nat := 0
  const HDMI_DRIVER: nat := 1
  const CRTC_DRIVER: nat := 2

  const COMPONENT_DRIVERS: seq<nat> := [HVS_DRIVER, HDMI_DRIVER, CRTC_DRIVER]

  /** The callbacks of a driver register what the driver is for. */
  ghost predicate RolesFit(reg: seq<Platform.Pdev>, role: nat -> Role) {
    forall i :: 0 <= i < |reg| ==>
      && (reg[i].drv == Some(HVS_DRIVER) ==> role(reg[i].dev).Hvs?)
      && (reg[i].drv == Some(HDMI_DRIVER) ==> role(reg[i].dev).Hdmi? && !role(reg[i].dev).isVirtual)
      && (reg[i].drv == Some(CRTC_DRIVER) ==> role(reg[i].dev).PixelValve?)
  }

  function RolesOf(order: seq<nat>, role: nat -> Role): seq<Role> {
    seq(|order|, i requires 0 <= i < |order| => role(order[i]))
  }

  /** Every HVS before every HDMI, every HDMI before every CRTC. */
  function Rank(r: Role): nat {
    match r case Hvs => 0 case Hdmi(_, _) => 1 case PixelValve(_) => 2
  }

  lemma RankOfDevice(reg: seq<Platform.Pdev>, role: nat -> Role, dev: nat, x: nat)
    requires RolesFit(reg, role) && x < |COMPONENT_DRIVERS|
    requires Platform.FirstOf(reg, dev) < |reg| && Platform.DriverOf(reg, dev) == Some(COMPONENT_DRIVERS[x])
    ensures Rank(role(dev)) == x && (role(dev).Hdmi? ==> !role(dev).isVirtual)
  {
    var i := Platform.FirstOf(reg, dev);
    assert reg[i].dev == dev && reg[i].drv == Some(COMPONENT_DRIVERS[x]);
  }

  lemma RolesInOrder(reg: seq<Platform.Pdev>, role: nat -> Role, k: nat, l: nat)
    requires Platform.DistinctDevices(reg) && RolesFit(reg, role)
    requires k < l < |Platform.MatchList(reg, COMPONENT_DRIVERS)|
    ensures var m := Platform.MatchList(reg, COMPONENT_DRIVERS);
      && Rank(role(m[k])) <= Rank(role(m[l]))
      && (role(m[k]).Hdmi? ==> !role(m[k]).isVirtual)
  {
    Platform.MatchListGrouped(reg, COMPONENT_DRIVERS);
    var m := Platform.MatchList(reg, COMPONENT_DRIVERS);
    var x := Platform.RankIn(COMPONENT_DRIVERS, Platform.DriverOf(reg, m[k]));
    var y := Platform.RankIn(COMPONENT_DRIVERS, Platform.DriverOf(reg, m[l]));
    assert x <= y < |COMPONENT_DRIVERS|;
    RankOfDevice(reg, role, m[k], x);
    RankOfDevice(reg, role, m[l], y);
  }

  lemma MatchListConnects(reg: seq<Platform.Pdev>, role: nat -> Role, a: nat, b: nat)
    requires Platform.DistinctDevices(reg) && RolesFit(reg, role)
    requires var roles := RolesOf(Platform.MatchList(reg, COMPONENT_DRIVERS), role);
      a < |roles| && b < |roles| && roles[a].Hdmi? && roles[b].PixelValve?
    ensures var roles := RolesOf(Platform.MatchList(reg, COMPONENT_DRIVERS), role);
      var i := EncodersBefore(roles, a);
      i < |BindSeq(roles).encoders| &&
      (CrtcsBefore(roles, b) in BindSeq(roles).encoders[i].crtcs <==> roles[a].kind in roles[b].table)
  {
    hide BindSeq, EncodersBefore, CrtcsBefore, Platform.MatchList;
    var roles := RolesOf(Platform.MatchList(reg, COMPONENT_DRIVERS), role);
    MaskBit(roles, a, b);
    if b < a {
      RolesInOrder(reg, role, b, a);
    } else {
      RolesInOrder(reg, role, a, b);
    }
  }

  /** The DRM device as the bind callbacks in a log leave it, one callback after the other. */
  function DrmAfter(log: seq<Component.Event>, master: nat, role: nat -> Role): Drm {
    if log == [] then Drm([], 0)
    else
      var before, e := DrmAfter(log[..|log| - 1], master, role), log[|log| - 1];
      if e.Bound? && e.tie.master == master then Bind(before, role(e.who.dev)) else before
  }

  lemma {:induction false} DrmIsBindSeq(log: seq<Component.Event>, master: nat, role: nat -> Role)
    ensures DrmAfter(log, master, role) == BindSeq(RolesOf(ComponentOrder.BoundDevices(log, master), role))
    decreases |log|
  {
    if log != [] {
      var e, before := log[|log| - 1], log[..|log| - 1];
      DrmIsBindSeq(before, master, role);
      var devs := ComponentOrder.BoundDevices(before, master);
      if e.Bound? && e.tie.master == master {
        var roles := RolesOf(devs + [e.who.dev], role);
        assert roles[..|roles| - 1] == RolesOf(devs, role);
      }
    }
  }

  /** The encoder at position a of the bind order has the bit of the CRTC at position b exactly when its
      type is in that CRTC's table. */
  ghost predicate Connected(drm: Drm, roles: seq<Role>) {
    forall a, b :: 0 <= a < |roles| && 0 <= b < |roles| && roles[a].Hdmi? && roles[b].PixelValve? ==>
      var i := EncodersBefore(roles, a);
      i < |drm.encoders| && (CrtcsBefore(roles, b) in drm.encoders[i].crtcs <==> roles[a].kind in roles[b].table)
  }

  /** End to end. Take any duplicate-free registry and any order in which the master and the components
      of its match list register, among any other registrations. When no callback fails, the bind
      callbacks in the run's log follow the match list, and the device they leave has in each encoder's
      possible_crtcs exactly the CRTCs whose table has the encoder's type. */
  lemma EveryProbeOrderConnects(reg: seq<Platform.Pdev>, role: nat -> Role, env: Component.Env,
      ops: seq<Component.Op>, k: nat)
    requires Platform.DistinctDevices(reg) && RolesFit(reg, role)
    requires ComponentOrder.Registrations(ops) && ComponentOrder.Smooth(env)
    requires k < |ops| && ops[k].OpMasterAdd? && ops[k].ops.bind
    requires ops[k].entries == Some(Platform.MatchList(reg, COMPONENT_DRIVERS))
    requires forall p :: 0 <= p < |ops[k].entries.value| ==> ComponentOrder.Adds(ops, ops[k].entries.value[p])
    ensures var log := Component.Run(env, ops).log;
      && ComponentOrder.BoundDevices(log, ops[k].dev) == ops[k].entries.value
      && Connected(DrmAfter(log, ops[k].dev, role), RolesOf(ops[k].entries.value, role))
  {
    hide *;
    var log := Component.Run(env, ops).log;
    ComponentOrder.SettledMeans(env, ops, k);
    ComponentOrder.SmoothRunOnlyBinds(env, ops);
    ComponentOrder.StackIsBound(log, ops[k].dev);
    DrmIsBindSeq(log, ops[k].dev, role);
    AllConnected(reg, role);
  }

  lemma AllConnected(reg: seq<Platform.Pdev>, role: nat -> Role)
    requires Platform.DistinctDevices(reg) && RolesFit(reg, role)
    ensures var roles := RolesOf(Platform.MatchList(reg, COMPONENT_DRIVERS), role);
      Connected(BindSeq(roles), roles)
  {
    hide BindSeq, EncodersBefore, CrtcsBefore, Platform.MatchList, Platform.DistinctDevices, RolesFit;
    var roles := RolesOf(Platform.MatchList(reg, COMPONENT_DRIVERS), role);
    forall a, b | 0 <= a < |roles| && 0 <= b < |roles| && roles[a].Hdmi? && roles[b].PixelValve?
      ensures var i := EncodersBefore(roles, a);
        i < |BindSeq(roles).encoders| &&
        (CrtcsBefore(roles, b) in BindSeq(roles).encoders[i].crtcs <==> roles[a].kind in roles[b].table)
    {
      MatchListConnects(reg, role, a, b);
    }
  }
}
