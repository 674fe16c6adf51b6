/** The platform-device registry and the match list vc4 builds from it: for each driver of a fixed
    table, in table order, every registered device of that driver. */
module Platform {
  import opened Options

  /** A registered device and its driver, both by identity. */
  datatype Pdev = Pdev(dev: nat, drv: Option<nat>)

  // ---- What the iterator finds ----

  /** The first entry for the device, or |reg|. */
  function FirstOf(reg: seq<Pdev>, dev: nat): (i: nat)
    ensures i <= |reg| && (i < |reg| ==> reg[i].dev == dev)
    ensures forall j :: 0 <= j < i ==> reg[j].dev != dev
  {
    if reg == [] || reg[0].dev == dev then 0
    else
      assert forall j :: 1 <= j < |reg| ==> reg[j] == reg[1..][j - 1];
      1 + FirstOf(reg[1..], dev)
  }

  /** The first entry of the driver at or after `from`, or |reg|. */
  function NextOf(reg: seq<Pdev>, drv: nat, from: nat): (i: nat)
    requires from <= |reg|
    ensures from <= i <= |reg| && (i < |reg| ==> reg[i].drv == Some(drv))
    ensures forall j :: from <= j < i ==> reg[j].drv != Some(drv)
    decreases |reg| - from
  {
    if from == |reg| || reg[from].drv == Some(drv) then from else NextOf(reg, drv, from + 1)
  }

  /** Where the iterator starts looking when it is handed its previous result. */
  function StartOf(reg: seq<Pdev>, start: Option<nat>): (i: nat)
    ensures i <= |reg|
  {
    if start == None then 0
    else
      var i := FirstOf(reg, start.value);
      if i == |reg| then i else i + 1
  }

  /** platform_find_device_by_driver */
  function Next(reg: seq<Pdev>, start: Option<nat>, drv: nat): Option<nat> {
    var i := NextOf(reg, drv, StartOf(reg, start));
    if i == |reg| then None else Some(reg[i].dev)
  }

  /** The devices of a driver from an entry on, in registration order. */
  function DevicesOf(reg: seq<Pdev>, drv: nat, from: nat): seq<nat>
    requires from <= |reg|
    decreases |reg| - from
  {
    if from == |reg| then []
    else (if reg[from].drv == Some(drv) then [reg[from].dev] else []) + DevicesOf(reg, drv, from + 1)
  }

  /** The match list: the drivers in table order, each with its devices in registration order. */
  function MatchList(reg: seq<Pdev>, drivers: seq<nat>): seq<nat> {
    if drivers == [] then []
    else MatchList(reg, drivers[..|drivers| - 1]) + DevicesOf(reg, drivers[|drivers| - 1], 0)
  }

  /** Every entry of the driver is the first entry of its device. */
  ghost predicate FirstEntries(reg: seq<Pdev>, drv: nat) {
    forall i :: 0 <= i < |reg| && reg[i].drv == Some(drv) ==> FirstOf(reg, reg[i].dev) == i
  }

  lemma {:induction false} DevicesFromNext(reg: seq<Pdev>, drv: nat, from: nat)
    requires from <= |reg|
    ensures var i := NextOf(reg, drv, from);
      DevicesOf(reg, drv, from) == if i == |reg| then [] else [reg[i].dev] + DevicesOf(reg, drv, i + 1)
    decreases |reg| - from
  {
    if from < |reg| && reg[from].drv != Some(drv) {
      DevicesFromNext(reg, drv, from + 1);
      assert [] + DevicesOf(reg, drv, from + 1) == DevicesOf(reg, drv, from + 1);
    }
  }

  /** One turn of the loop over a driver's devices. */
  lemma Advance(reg: seq<Pdev>, p: Option<nat>, drv: nat)
    requires FirstEntries(reg, drv) && Next(reg, p, drv).Some?
    ensures var d := Next(reg, p, drv);
      && DevicesOf(reg, drv, StartOf(reg, p)) == [d.value] + DevicesOf(reg, drv, StartOf(reg, d))
      && StartOf(reg, p) < StartOf(reg, d)
  {
    DevicesFromNext(reg, drv, StartOf(reg, p));
    assert FirstOf(reg, Next(reg, p, drv).value) == NextOf(reg, drv, StartOf(reg, p));
  }

  // ---- When the loop over one driver ends ----

  /** Where the loop stands: over, or about to pass `p` to the iterator. */
  datatype Walk = Over | At(p: Option<nat>)

  function After(reg: seq<Pdev>, drv: nat, n: nat): Walk {
    if n == 0 then At(None)
    else
      var w := After(reg, drv, n - 1);
      if w == Over then Over
      else
        var d := Next(reg, w.p, drv);
        if d == None then Over else At(d)
  }

  ghost predicate Ends(reg: seq<Pdev>, drv: nat) {
    exists n: nat :: After(reg, drv, n) == Over
  }

  lemma {:induction false} WalkFollows(reg: seq<Pdev>, drv: nat, n: nat)
    requires FirstEntries(reg, drv) && n <= |DevicesOf(reg, drv, 0)|
    ensures var w := After(reg, drv, n);
      w.At? && DevicesOf(reg, drv, StartOf(reg, w.p)) == DevicesOf(reg, drv, 0)[n..]
  {
    hide FirstOf, NextOf;
    if n > 0 {
      WalkFollows(reg, drv, n - 1);
      var p := After(reg, drv, n - 1).p;
      DevicesFromNext(reg, drv, StartOf(reg, p));
      Advance(reg, p, drv);
      assert DevicesOf(reg, drv, 0)[n - 1..][1..] == DevicesOf(reg, drv, 0)[n..];
    }
  }

  lemma {:induction false} WalkStuck(reg: seq<Pdev>, drv: nat, bad: nat, n: nat)
    requires bad < |reg| && reg[bad].drv == Some(drv) && FirstOf(reg, reg[bad].dev) != bad
    ensures var w := After(reg, drv, n); w.At? && StartOf(reg, w.p) <= bad
  {
    hide FirstOf, NextOf;
    if n > 0 {
      WalkStuck(reg, drv, bad, n - 1);
      var i := NextOf(reg, drv, StartOf(reg, After(reg, drv, n - 1).p));
      assert i <= bad;
      assert FirstOf(reg, reg[i].dev) <= i;
    }
  }

  /** The loop over a driver ends exactly when none of the driver's entries repeats a device that was
      registered before. */
  lemma LoopEndsIff(reg: seq<Pdev>, drv: nat)
    ensures Ends(reg, drv) <==> FirstEntries(reg, drv)
  {
    if FirstEntries(reg, drv) {
      var d := DevicesOf(reg, drv, 0);
      WalkFollows(reg, drv, |d|);
      DevicesFromNext(reg, drv, StartOf(reg, After(reg, drv, |d|).p));
      assert After(reg, drv, |d| + 1) == Over;
    } else {
      var bad :| 0 <= bad < |reg| && reg[bad].drv == Some(drv) && FirstOf(reg, reg[bad].dev) != bad;
      forall n: nat ensures After(reg, drv, n) != Over {
        WalkStuck(reg, drv, bad, n);
      }
    }
  }

  /** A device registered twice with its driver: the loop goes round for ever. */
  lemma TwiceRegistered(dev: nat, drv: nat)
    ensures !Ends([Pdev(dev, Some(drv)), Pdev(dev, Some(drv))], drv)
  {
    var reg := [Pdev(dev, Some(drv)), Pdev(dev, Some(drv))];
    LoopEndsIff(reg, drv);
    assert reg[0].dev == dev && reg[1].dev == dev && reg[1].drv == Some(drv);
    assert FirstOf(reg, dev) == 0;
  }

  // ---- The match list ----

  ghost predicate DistinctDevices(reg: seq<Pdev>) {
    forall i, j :: 0 <= i < j < |reg| ==> reg[i].dev != reg[j].dev
  }

  /** A registry that has no device twice makes every driver's loop end. */
  lemma DistinctEnds(reg: seq<Pdev>, drv: nat)
    requires DistinctDevices(reg)
    ensures FirstEntries(reg, drv) && Ends(reg, drv)
  {
    hide Ends;
    LoopEndsIff(reg, drv);
  }

  /** The driver of a device. */
  function DriverOf(reg: seq<Pdev>, dev: nat): Option<nat> {
    var i := FirstOf(reg, dev);
    if i == |reg| then None else reg[i].drv
  }

  /** The device is registered, at `from` or later, with this driver. */
  ghost predicate Has(reg: seq<Pdev>, drv: nat, from: nat, dev: nat) {
    from <= FirstOf(reg, dev) < |reg| && DriverOf(reg, dev) == Some(drv)
  }

  ghost predicate InOrder(reg: seq<Pdev>, d: seq<nat>) {
    forall k, l :: 0 <= k < l < |d| ==> FirstOf(reg, d[k]) < FirstOf(reg, d[l])
  }

  lemma {:induction false} DevicesExact(reg: seq<Pdev>, drv: nat, from: nat)
    requires DistinctDevices(reg) && from <= |reg|
    ensures var d := DevicesOf(reg, drv, from);
      && (forall k :: 0 <= k < |d| ==> Has(reg, drv, from, d[k]))
      && InOrder(reg, d)
      && (forall i :: from <= i < |reg| && reg[i].drv == Some(drv) ==> reg[i].dev in d)
    decreases |reg| - from
  {
    hide FirstOf;
    if from < |reg| {
      DevicesExact(reg, drv, from + 1);
      assert FirstOf(reg, reg[from].dev) == from;
      var d, rest := DevicesOf(reg, drv, from), DevicesOf(reg, drv, from + 1);
      var off := |d| - |rest|;
      forall k | 0 <= k < |d| ensures Has(reg, drv, from, d[k]) {
        if k >= off {
          assert Has(reg, drv, from + 1, rest[k - off]);
        }
      }
      forall k, l | 0 <= k < l < |d| ensures FirstOf(reg, d[k]) < FirstOf(reg, d[l]) {
        assert Has(reg, drv, from + 1, rest[l - off]);
        if k >= off {
          assert FirstOf(reg, rest[k - off]) < FirstOf(reg, rest[l - off]);
        }
      }
    }
  }

  /** A driver's place in the table, or |drivers|. */
  function RankIn(drivers: seq<nat>, drv: Option<nat>): (x: nat)
    ensures x <= |drivers| && (x < |drivers| ==> drv == Some(drivers[x]))
    ensures forall y :: 0 <= y < x ==> drv != Some(drivers[y])
  {
    if drivers == [] || drv == Some(drivers[0]) then 0
    else
      assert forall y :: 1 <= y < |drivers| ==> drivers[y] == drivers[1..][y - 1];
      1 + RankIn(drivers[1..], drv)
  }

  /** The list names each device of a listed driver once and nothing else, in table order. */
  ghost predicate Grouped(reg: seq<Pdev>, drivers: seq<nat>, m: seq<nat>) {
    && (forall k :: 0 <= k < |m| ==> FirstOf(reg, m[k]) < |reg| && RankIn(drivers, DriverOf(reg, m[k])) < |drivers|)
    && (forall k, l :: 0 <= k < l < |m| ==>
          m[k] != m[l] && RankIn(drivers, DriverOf(reg, m[k])) <= RankIn(drivers, DriverOf(reg, m[l])))
    && (forall i :: 0 <= i < |reg| && RankIn(drivers, reg[i].drv) < |drivers| ==> reg[i].dev in m)
  }

  lemma RankGrows(front: seq<nat>, last: nat, drv: Option<nat>)
    requires last !in front
    ensures var x := RankIn(front + [last], drv);
      x == if RankIn(front, drv) < |front| then RankIn(front, drv)
           else if drv == Some(last) then |front| else |front| + 1
  {
    hide RankIn;
    var drivers := front + [last];
    assert forall y :: 0 <= y < |front| ==> drivers[y] == front[y];
    assert drivers[|front|] == last;
  }

  lemma GroupedNext(reg: seq<Pdev>, front: seq<nat>, last: nat, m: seq<nat>)
    requires DistinctDevices(reg) && last !in front && Grouped(reg, front, m)
    ensures Grouped(reg, front + [last], m + DevicesOf(reg, last, 0))
  {
    hide RankIn, FirstOf, DevicesOf;
    DevicesExact(reg, last, 0);
    var d, drivers := DevicesOf(reg, last, 0), front + [last];
    var all := m + d;
    forall k | 0 <= k < |all|
      ensures FirstOf(reg, all[k]) < |reg|
      ensures RankIn(drivers, DriverOf(reg, all[k])) == if k < |m| then RankIn(front, DriverOf(reg, m[k])) else |front|
      ensures k < |m| ==> RankIn(drivers, DriverOf(reg, all[k])) < |front| && DriverOf(reg, all[k]) != Some(last)
      ensures k >= |m| ==> DriverOf(reg, all[k]) == Some(last)
    {
      RankGrows(front, last, DriverOf(reg, all[k]));
      if k >= |m| {
        assert Has(reg, last, 0, d[k - |m|]);
        NotRanked(front, last);
      }
    }
    forall i | 0 <= i < |reg| && RankIn(drivers, reg[i].drv) < |drivers| ensures reg[i].dev in all {
      RankGrows(front, last, reg[i].drv);
    }
  }

  lemma NotRanked(front: seq<nat>, last: nat)
    requires last !in front
    ensures RankIn(front, Some(last)) == |front|
  {
    hide RankIn;
  }

  lemma GroupedNone(reg: seq<Pdev>)
    ensures Grouped(reg, [], [])
  {}

  /** For every duplicate-free registry and table. */
  lemma {:induction false} MatchListGrouped(reg: seq<Pdev>, drivers: seq<nat>)
    requires DistinctDevices(reg)
    requires forall x, y :: 0 <= x < y < |drivers| ==> drivers[x] != drivers[y]
    ensures Grouped(reg, drivers, MatchList(reg, drivers))
    decreases |drivers|
  {
    hide Grouped, RankIn, DevicesOf;
    if drivers == [] {
      GroupedNone(reg);
    } else {
      var n := |drivers| - 1;
      MatchListGrouped(reg, drivers[..n]);
      GroupedNext(reg, drivers[..n], drivers[n], MatchList(reg, drivers[..n]));
      assert drivers == drivers[..n] + [drivers[n]];
    }
  }

  class Registry {
    var pdevs: seq<Pdev>

    constructor ()
      ensures pdevs == []
    {
      pdevs := [];
    }

    // lkpi_platform_device_register
    method Register(pdev: Option<nat>, drv: Option<nat>)
      modifies this
      ensures pdevs == if pdev == None then old(pdevs) else old(pdevs) + [Pdev(pdev.value, drv)]
    {
      if pdev == None {
        return;
      }
      pdevs := pdevs + [Pdev(pdev.value, drv)];
    }

    // lkpi_platform_device_unregister
    method Unregister(pdev: nat)
      modifies this
      ensures var i := FirstOf(old(pdevs), pdev);
        pdevs == if i == |old(pdevs)| then old(pdevs) else old(pdevs)[..i] + old(pdevs)[i + 1..]
    {
      var i := 0;
      while i < |pdevs|
        invariant i <= |pdevs| && pdevs == old(pdevs) && forall j :: 0 <= j < i ==> pdevs[j].dev != pdev
      {
        if pdevs[i].dev == pdev {
          pdevs := pdevs[..i] + pdevs[i + 1..];
          return;
        }
        i := i + 1;
      }
    }

    // platform_find_device_by_driver
    method FindByDriver(start: Option<nat>, drv: Option<nat>) returns (found: Option<nat>)
      ensures found == if drv == None then None else Next(pdevs, start, drv.value)
    {
      if drv == None {
        return None;
      }
      var seen, i := start == None, 0;
      while i < |pdevs|
        invariant i <= |pdevs|
        invariant seen ==> StartOf(pdevs, start) <= i
        invariant seen ==> forall j :: StartOf(pdevs, start) <= j < i ==> pdevs[j].drv != drv
        invariant !seen ==> start.Some? && forall j :: 0 <= j < i ==> pdevs[j].dev != start.value
      {
        if !seen {
          seen := Some(pdevs[i].dev) == start;
        } else if pdevs[i].drv == drv {
          return Some(pdevs[i].dev);
        }
        i := i + 1;
      }
      return None;
    }

    // The loop over the devices of one driver, each appended by component_match_add.
    method MatchAddDriver(m0: Option<seq<nat>>, drv: nat) returns (m: Option<seq<nat>>)
      requires FirstEntries(pdevs, drv) && m0 != Some([])
      ensures Entries(m) == Entries(m0) + DevicesOf(pdevs, drv, 0) && m != Some([])
    {
      hide NextOf, FirstOf, DevicesOf, FirstEntries;
      m := m0;
      var p := None;
      var d := FindByDriver(p, Some(drv));
      while d.Some?
        invariant d == Next(pdevs, p, drv) && m != Some([])
        invariant Entries(m0) + DevicesOf(pdevs, drv, 0) == Entries(m) + DevicesOf(pdevs, drv, StartOf(pdevs, p))
        decreases |pdevs| - StartOf(pdevs, p)
      {
        Advance(pdevs, p, drv);
        if m == None {
          m := Some([]);
        }
        m := Some(m.value + [d.value]);
        p := d;
        d := FindByDriver(p, Some(drv));
      }
      DevicesFromNext(pdevs, drv, StartOf(pdevs, p));
    }

    /** vc4_match_add_drivers: builds exactly the match list, provided no driver of the table has an
        entry that repeats a device. With no device at all no list is made. */
    method MatchAddDrivers(drivers: seq<nat>) returns (m: Option<seq<nat>>)
      requires forall x :: 0 <= x < |drivers| ==> FirstEntries(pdevs, drivers[x])
      ensures Entries(m) == MatchList(pdevs, drivers) && (m == None <==> MatchList(pdevs, drivers) == [])
    {
      m := None;
      var i := 0;
      while i < |drivers|
        invariant i <= |drivers| && Entries(m) == MatchList(pdevs, drivers[..i]) && m != Some([])
      {
        m := MatchAddDriver(m, drivers[i]);
        assert drivers[..i + 1][..i] == drivers[..i];
        i := i + 1;
      }
      assert drivers[..i] == drivers;
    }
  }

  /** The entries of a match list that may not have been made. */
  function Entries(m: Option<seq<nat>>): seq<nat> {
    if m == None then [] else m.value
  }
}
