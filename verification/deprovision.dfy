/** Deprovision: a re-runnable teardown that works from the machine's record. */
module Deprovision {
  import opened Libvirt
  import opened Provision

  datatype Verdict = Done | Retry | Error

  datatype D = D(inv: Inventory, verdict: Verdict)

  // ---------------------------------------------------------------- one call

  /** The common shape of the removeVol functions: an absent volume is fine, a failed lookup is not. */
  function RemoveVol(inv: Inventory, plan: Plan, i: nat, key: VolKey): R {
    match GetVol(inv, plan, i, key)
    case LookupFails => R(inv, false)
    case Absent => R(inv, true)
    case Present => DeleteVol(inv, plan(Delete, i), key)
  }

  /** The volumes in order, up to the first failure. */
  function RemoveVols(inv: Inventory, plan: Plan, i: nat, keys: seq<VolKey>): R
    decreases |keys|
  {
    if keys == [] then R(inv, true)
    else
      var r := RemoveVol(inv, plan, i, keys[0]);
      if !r.ok then r else RemoveVols(r.inv, plan, i + 1, keys[1..])
  }

  function RemoveDomain(inv: Inventory, plan: Plan, vmName: string): D {
    if !plan(DomLookup, 0).Good? then D(inv, Error)
    else if vmName !in inv.doms then D(inv, Done)
    else if !plan(DomGetState, 0).Good? then D(inv, Error)
    else
      match inv.doms[vmName]
      case Running =>
        var r := DestroyDomain(inv, plan(Destroy, 0), vmName);
        D(r.inv, if r.ok then Retry else Error)
      case Shutdown => D(inv, Retry)
      case Shutoff =>
        var r := UndefineDomain(inv, plan(Undefine, 0), vmName);
        D(r.inv, if r.ok then Done else Error)
      case _ => D(inv, Retry)
  }

  /** The NVRAM volume: its recorded name, or one made from the recorded machine name. */
  function NvramTarget(rec: Record): VolKey {
    if rec.vmNvramName != "" then VolKey("nvram", rec.vmNvramName) else NvramKey(rec.vmName)
  }

  function DiskTargets(pool: string, ds: seq<DiskRec>): seq<VolKey> {
    if ds == [] then [] else [VolKey(pool, ds[0].volName)] + DiskTargets(pool, ds[1..])
  }

  /** The volumes removed after the domain: main, ISO, additional disks, cidata.  An empty pool name
      means that nothing is. */
  function VolTargets(rec: Record): seq<VolKey> {
    if rec.poolName == "" then []
    else
      (if rec.vmVolName == "" then [] else [VolKey(rec.poolName, rec.vmVolName)])
      + (if rec.isoVolName == "" then [] else [VolKey("isos", rec.isoVolName)])
      + DiskTargets(rec.poolName, rec.disks)
      + (if rec.cidataVolName == "" then [] else [VolKey("config", rec.cidataVolName)])
  }

  function Call(inv: Inventory, rec: Record, vmName: string, plan: Plan): D {
    if vmName == "" then D(inv, Retry)
    else
      var n := RemoveVol(inv, plan, 0, NvramTarget(rec));
      if !n.ok then D(n.inv, Error)
      else
        var d := RemoveDomain(n.inv, plan, vmName);
        if !d.verdict.Done? then d
        else
          var r := RemoveVols(d.inv, plan, 1, VolTargets(rec));
          D(r.inv, if r.ok then Done else Error)
  }

  // ---------------------------------------------------------------- what a call may change

  function Targets(rec: Record): set<VolKey> {
    {NvramTarget(rec)} + set k | k in VolTargets(rec)
  }

  /** Volumes are only removed, and only some of `keys`; every deletion that is logged is one of them. */
  ghost predicate Removes(a: Inventory, b: Inventory, keys: set<VolKey>) {
    && (forall k :: k in b.vols ==> k in a.vols && b.vols[k] == a.vols[k])
    && (forall k :: k in a.vols && k !in b.vols ==> k in keys)
    && b.pools == a.pools
    && a.log <= b.log && forall i :: |a.log| <= i < |b.log| ==> b.log[i].VolDeleted? && b.log[i].key in keys
  }

  lemma {:induction false} RemovesTransitive(a: Inventory, b: Inventory, c: Inventory, x: set<VolKey>, y: set<VolKey>)
    requires Removes(a, b, x) && Removes(b, c, y)
    ensures Removes(a, c, x + y)
  {
    forall i | |a.log| <= i < |c.log| ensures c.log[i].VolDeleted? && c.log[i].key in x + y {
      if i < |b.log| {
        assert c.log[i] == b.log[i];
      }
    }
  }

  lemma {:induction false} RemovesMore(a: Inventory, b: Inventory, x: set<VolKey>, y: set<VolKey>)
    requires Removes(a, b, x) && x <= y
    ensures Removes(a, b, y)
  {
  }

  lemma {:induction false} RemoveVolEffect(inv: Inventory, plan: Plan, i: nat, key: VolKey)
    ensures var r := RemoveVol(inv, plan, i, key);
            && Removes(inv, r.inv, {key}) && r.inv.doms == inv.doms
            && (r.ok ==> key !in r.inv.vols && key.pool in inv.pools)
            && (forall j :: |inv.log| <= j < |r.inv.log| ==> r.inv.log[j] == VolDeleted(key, inv.doms.Keys))
  {
  }

  /** Every listed volume is gone after success; every deletion saw the domains of the start. */
  lemma {:induction false} RemoveVolsEffect(inv: Inventory, plan: Plan, i: nat, keys: seq<VolKey>)
    ensures var r := RemoveVols(inv, plan, i, keys);
            && Removes(inv, r.inv, set k | k in keys) && r.inv.doms == inv.doms
            && (r.ok ==> forall k :: k in keys ==> k !in r.inv.vols && k.pool in inv.pools)
            && (forall j :: |inv.log| <= j < |r.inv.log| ==>
                  r.inv.log[j].VolDeleted? && r.inv.log[j].doms == inv.doms.Keys)
    decreases |keys|
  {
    hide RemoveVol;
    if keys != [] {
      var r := RemoveVol(inv, plan, i, keys[0]);
      RemoveVolEffect(inv, plan, i, keys[0]);
      if r.ok {
        RemoveVolsEffect(r.inv, plan, i + 1, keys[1..]);
        var e := RemoveVols(r.inv, plan, i + 1, keys[1..]).inv;
        RemovesTransitive(inv, r.inv, e, {keys[0]}, set k | k in keys[1..]);
        assert {keys[0]} + (set k | k in keys[1..]) == set k | k in keys;
        forall j | |inv.log| <= j < |e.log| ensures e.log[j].VolDeleted? && e.log[j].doms == inv.doms.Keys {
          if j < |r.inv.log| {
            assert e.log[j] == r.inv.log[j];
          }
        }
      } else {
        RemovesMore(inv, r.inv, {keys[0]}, set k | k in keys);
      }
    }
  }

  function Undefined(a: Inventory, b: Inventory, vmName: string): set<VolKey> {
    if vmName in a.doms && vmName !in b.doms then {NvramKey(vmName)} else {}
  }

  lemma {:induction false} RemoveDomainEffect(inv: Inventory, plan: Plan, vmName: string)
    ensures var d := RemoveDomain(inv, plan, vmName);
            && Removes(inv, d.inv, Undefined(inv, d.inv, vmName)) && d.inv.log == inv.log
            && Undefined(inv, d.inv, vmName) !! d.inv.vols.Keys
            && d.inv.doms - {vmName} == inv.doms - {vmName}
            && (d.verdict.Done? ==> vmName !in d.inv.doms)
            && (vmName !in inv.doms ==> d.inv == inv)
  {
  }

  /** Effect of one call, whatever fails in it. */
  lemma {:induction false} CallEffect(inv: Inventory, rec: Record, vmName: string, plan: Plan)
    ensures var d := Call(inv, rec, vmName, plan);
            && Removes(inv, d.inv, Targets(rec) + Undefined(inv, d.inv, vmName))
            && Undefined(inv, d.inv, vmName) !! d.inv.vols.Keys
            && d.inv.doms - {vmName} == inv.doms - {vmName}
            && (vmName !in inv.doms ==> vmName !in d.inv.doms)
            && (d.verdict.Done? ==> vmName !in d.inv.doms && Targets(rec) !! d.inv.vols.Keys)
            && (d.verdict.Done? ==> forall k :: k in Targets(rec) ==> k.pool in inv.pools)
  {
    hide RemoveVol, RemoveDomain, RemoveVols, VolTargets, NvramTarget, Removes;
    var t := NvramTarget(rec);
    var n := RemoveVol(inv, plan, 0, t);
    RemoveVolEffect(inv, plan, 0, t);
    var d := RemoveDomain(n.inv, plan, vmName);
    RemoveDomainEffect(n.inv, plan, vmName);
    var u := Undefined(n.inv, d.inv, vmName);
    RemovesTransitive(inv, n.inv, d.inv, {t}, u);
    var r := RemoveVols(d.inv, plan, 1, VolTargets(rec));
    RemoveVolsEffect(d.inv, plan, 1, VolTargets(rec));
    RemovesTransitive(inv, d.inv, r.inv, {t} + u, set k | k in VolTargets(rec));
    var e := Call(inv, rec, vmName, plan).inv;
    RemovesRefl(inv);
    RemovesMore(inv, inv, {}, Targets(rec) + Undefined(inv, e, vmName));
    RemovesMore(inv, n.inv, {t}, Targets(rec) + Undefined(inv, n.inv, vmName));
    RemovesMore(inv, d.inv, {t} + u, Targets(rec) + u);
    assert {t} + u + (set k | k in VolTargets(rec)) == Targets(rec) + u;
    RemovedStays(inv, n.inv, {t}, t);
    RemovedStays(d.inv, r.inv, (set k | k in VolTargets(rec)), t);
    RemovedStays(n.inv, d.inv, u, t);
    RemovedStays(d.inv, r.inv, (set k | k in VolTargets(rec)), NvramKey(vmName));
    SamePools(inv, n.inv, {t});
    SamePools(n.inv, d.inv, u);
  }

  lemma {:induction false} RemovesRefl(a: Inventory)
    ensures Removes(a, a, {})
  {
  }

  lemma {:induction false} RemovedStays(a: Inventory, b: Inventory, keys: set<VolKey>, k: VolKey)
    requires Removes(a, b, keys)
    ensures k !in a.vols ==> k !in b.vols
  {
  }

  lemma {:induction false} SamePools(a: Inventory, b: Inventory, keys: set<VolKey>)
    requires Removes(a, b, keys)
    ensures b.pools == a.pools
  {
  }

  // ---------------------------------------------------------------- ordering

  /** In every call, with any failures: what is deleted while the machine's domain is defined is its NVRAM
      volume and nothing else; main, ISO, additional and cidata volumes go only after the domain. */
  lemma {:induction false} Ordering(inv: Inventory, rec: Record, vmName: string, plan: Plan, i: nat)
    requires var d := Call(inv, rec, vmName, plan); |inv.log| <= i < |d.inv.log|
    ensures var e := Call(inv, rec, vmName, plan).inv.log[i];
            e.VolDeleted? && (vmName in e.doms ==> e.key == NvramTarget(rec))
  {
    hide RemoveVol, RemoveDomain, RemoveVols, VolTargets, NvramTarget;
    var n := RemoveVol(inv, plan, 0, NvramTarget(rec));
    RemoveVolEffect(inv, plan, 0, NvramTarget(rec));
    var d := RemoveDomain(n.inv, plan, vmName);
    RemoveDomainEffect(n.inv, plan, vmName);
    RemoveVolsEffect(d.inv, plan, 1, VolTargets(rec));
    var r := RemoveVols(d.inv, plan, 1, VolTargets(rec));
    if i < |n.inv.log| {
      assert n.inv.log[i] == VolDeleted(NvramTarget(rec), inv.doms.Keys);
    }
  }

  // ---------------------------------------------------------------- repeated calls

  /** Calls until one returns nil. */
  function Teardown(inv: Inventory, rec: Record, vmName: string, steps: seq<Turn>): D
    decreases |steps|
  {
    if steps == [] then D(inv, Retry)
    else if steps[0].PowerOff? then Teardown(PoweredOff(inv, vmName), rec, vmName, steps[1..])
    else
      var d := Call(inv, rec, vmName, steps[0].plan);
      if d.verdict.Done? then d else Teardown(d.inv, rec, vmName, steps[1..])
  }

  /** Ordering over every run: however often Deprovision is called and wherever the calls fail, nothing but
      the machine's NVRAM volume is ever deleted while its domain is defined. */
  lemma {:induction false} OrderingAlways(inv: Inventory, rec: Record, vmName: string, steps: seq<Turn>, i: nat)
    requires var d := Teardown(inv, rec, vmName, steps); |inv.log| <= i < |d.inv.log|
    ensures var e := Teardown(inv, rec, vmName, steps).inv.log[i];
            e.VolDeleted? && (vmName in e.doms ==> e.key == NvramTarget(rec))
    decreases |steps|
  {
    hide Call, NvramTarget, PoweredOff;
    if steps[0].PowerOff? {
      assert PoweredOff(inv, vmName).log == inv.log by { PoweredOffLog(inv, vmName); }
      OrderingAlways(PoweredOff(inv, vmName), rec, vmName, steps[1..], i);
    } else {
      var d := Call(inv, rec, vmName, steps[0].plan);
      if i < |d.inv.log| {
        Ordering(inv, rec, vmName, steps[0].plan, i);
        if !d.verdict.Done? {
          LogGrows(d.inv, rec, vmName, steps[1..]);
        }
      } else {
        OrderingAlways(d.inv, rec, vmName, steps[1..], i);
      }
    }
  }

  lemma {:induction false} PoweredOffLog(inv: Inventory, vmName: string)
    ensures PoweredOff(inv, vmName).log == inv.log
  {
  }

  lemma {:induction false} LogGrows(inv: Inventory, rec: Record, vmName: string, steps: seq<Turn>)
    ensures inv.log <= Teardown(inv, rec, vmName, steps).inv.log
    decreases |steps|
  {
    hide Call, Targets, PoweredOff;
    if steps != [] {
      if steps[0].PowerOff? {
        PoweredOffLog(inv, vmName);
        LogGrows(PoweredOff(inv, vmName), rec, vmName, steps[1..]);
      } else {
        var d := Call(inv, rec, vmName, steps[0].plan);
        CallEffect(inv, rec, vmName, steps[0].plan);
        LogGrows(d.inv, rec, vmName, steps[1..]);
      }
    }
  }

  /** What a completed teardown has cleared: the recorded targets, and with a domain its NVRAM file. */
  function Cleared(inv: Inventory, rec: Record, vmName: string): set<VolKey> {
    Targets(rec) + if vmName in inv.doms then {NvramKey(vmName)} else {}
  }

  lemma {:induction false} TeardownKeys(inv: Inventory, rec: Record, vmName: string, steps: seq<Turn>)
    requires Teardown(inv, rec, vmName, steps).verdict.Done?
    ensures var e := Teardown(inv, rec, vmName, steps).inv;
            && (forall k :: k in e.vols ==> k in inv.vols && e.vols[k] == inv.vols[k])
            && (forall k :: k in inv.vols && k !in e.vols ==> k in Cleared(inv, rec, vmName))
            && Cleared(inv, rec, vmName) !! e.vols.Keys
            && e.doms == inv.doms - {vmName} && e.pools == inv.pools
            && (forall k :: k in Targets(rec) ==> k.pool in inv.pools)
    decreases |steps|
  {
    hide Call, Targets;
    if steps[0].PowerOff? {
      var i := PoweredOff(inv, vmName);
      assert i.doms - {vmName} == inv.doms - {vmName};
      TeardownKeys(i, rec, vmName, steps[1..]);
    } else {
      var d := Call(inv, rec, vmName, steps[0].plan);
      CallEffect(inv, rec, vmName, steps[0].plan);
      if d.verdict.Done? {
        assert d.inv.doms == d.inv.doms - {vmName};
      } else {
        TeardownKeys(d.inv, rec, vmName, steps[1..]);
      }
    }
  }

  /** Exact effect of a completed teardown, for any record, any failures and any number of calls. */
  lemma {:induction false} TeardownEffect(inv: Inventory, rec: Record, vmName: string, steps: seq<Turn>)
    requires Teardown(inv, rec, vmName, steps).verdict.Done?
    ensures var e := Teardown(inv, rec, vmName, steps).inv;
            && e.vols == inv.vols - Cleared(inv, rec, vmName)
            && e.doms == inv.doms - {vmName}
            && e.pools == inv.pools
  {
    hide Teardown, Cleared;
    TeardownKeys(inv, rec, vmName, steps);
  }

  // ---------------------------------------------------------------- progress

  function DomRank(doms: map<string, DomState>, vmName: string): nat {
    if vmName !in doms then 0
    else match doms[vmName]
      case Shutoff => 1
      case _ => 2
  }

  /** What is left to do. */
  function Measure(inv: Inventory, rec: Record, vmName: string): nat {
    DomRank(inv.doms, vmName) + |Targets(rec) * inv.vols.Keys|
  }

  lemma {:induction false} SubsetSize(a: set<VolKey>, b: set<VolKey>)
    requires a <= b
    ensures |a| <= |b|
  {
    assert b == a + (b - a);
  }

  lemma {:induction false} RankNeverIncreases(inv: Inventory, plan: Plan, vmName: string)
    ensures DomRank(RemoveDomain(inv, plan, vmName).inv.doms, vmName) <= DomRank(inv.doms, vmName)
  {
  }

  /** No call and no settling ever adds work. */
  lemma {:induction false} MeasureNeverIncreases(inv: Inventory, rec: Record, vmName: string, plan: Plan)
    ensures Measure(Call(inv, rec, vmName, plan).inv, rec, vmName) <= Measure(inv, rec, vmName)
    ensures Measure(PoweredOff(inv, vmName), rec, vmName) <= Measure(inv, rec, vmName)
  {
    hide RemoveVol, RemoveDomain, RemoveVols, VolTargets, NvramTarget, Targets;
    var n := RemoveVol(inv, plan, 0, NvramTarget(rec)).inv;
    RemoveVolEffect(inv, plan, 0, NvramTarget(rec));
    RankNeverIncreases(n, plan, vmName);
    RemoveVolsEffect(RemoveDomain(n, plan, vmName).inv, plan, 1, VolTargets(rec));
    CallEffect(inv, rec, vmName, plan);
    SubsetSize(Targets(rec) * Call(inv, rec, vmName, plan).inv.vols.Keys, Targets(rec) * inv.vols.Keys);
  }

  /** A call that returns nil leaves nothing to do. */
  lemma {:induction false} DoneMeansZero(inv: Inventory, rec: Record, vmName: string, plan: Plan)
    requires Call(inv, rec, vmName, plan).verdict.Done?
    ensures Measure(Call(inv, rec, vmName, plan).inv, rec, vmName) == 0
  {
    CallEffect(inv, rec, vmName, plan);
    hide Call, Targets;
    assert Targets(rec) * Call(inv, rec, vmName, plan).inv.vols.Keys == {};
  }

  ghost predicate AllGood(plan: Plan) {
    forall op, i :: plan(op, i) == Good
  }

  predicate PoolsThere(inv: Inventory, rec: Record) {
    forall k :: k in Targets(rec) ==> k.pool in inv.pools
  }

  lemma {:induction false} RemoveVolsSucceeds(inv: Inventory, plan: Plan, i: nat, keys: seq<VolKey>)
    requires AllGood(plan) && forall k :: k in keys ==> k.pool in inv.pools
    ensures RemoveVols(inv, plan, i, keys).ok
    decreases |keys|
  {
    if keys != [] {
      RemoveVolsSucceeds(RemoveVol(inv, plan, i, keys[0]).inv, plan, i + 1, keys[1..]);
    }
  }

  /** A failure-free call: from a domain that is shut off or gone it returns nil, from a running one it
      asks for a retry and leaves the domain shut off.  It needs every pool it looks into, the pool
      "nvram" always. */
  lemma {:induction false} GoodCall(inv: Inventory, rec: Record, vmName: string, plan: Plan)
    requires AllGood(plan) && vmName != "" && PoolsThere(inv, rec)
    ensures var d := Call(inv, rec, vmName, plan);
            && d.inv.pools == inv.pools
            && (vmName !in inv.doms || inv.doms[vmName].Shutoff? ==> d.verdict.Done?)
            && (vmName in inv.doms && inv.doms[vmName].Running? ==>
                  d.verdict.Retry? && vmName in d.inv.doms && d.inv.doms[vmName].Shutoff?)
            && (vmName in inv.doms && inv.doms[vmName].Shutdown? ==>
                  d.verdict.Retry? && vmName in d.inv.doms && d.inv.doms[vmName].Shutdown?)
  {
    hide RemoveVols, VolTargets, NvramTarget;
    assert NvramTarget(rec) in Targets(rec);
    var n := RemoveVol(inv, plan, 0, NvramTarget(rec));
    var d := RemoveDomain(n.inv, plan, vmName);
    assert d.inv.pools == inv.pools;
    RemoveVolsSucceeds(d.inv, plan, 1, VolTargets(rec));
    RemoveVolsEffect(d.inv, plan, 1, VolTargets(rec));
  }

  /** From a running domain the second call returns nil; with a domain that is shutting down, the first
      one after it has. */
  lemma {:induction false} TeardownCompletes(inv: Inventory, rec: Record, vmName: string, plan: Plan)
    requires AllGood(plan) && vmName != "" && PoolsThere(inv, rec)
    requires Removable(inv.doms, vmName)
    ensures Teardown(inv, rec, vmName, [Try(plan), PowerOff, Try(plan)]).verdict.Done?
    ensures vmName in inv.doms && !inv.doms[vmName].Shutdown? ==>
              Teardown(inv, rec, vmName, [Try(plan), Try(plan)]).verdict.Done?
  {
    hide Call, Targets, AllGood;
    GoodCall(inv, rec, vmName, plan);
    var d := Call(inv, rec, vmName, plan);
    var three, two := [Try(plan), PowerOff, Try(plan)], [Try(plan), Try(plan)];
    assert three[1..] == [PowerOff, Try(plan)] && [PowerOff, Try(plan)][1..] == [Try(plan)]
           && two[1..] == [Try(plan)];
    if !d.verdict.Done? {
      GoodCall(d.inv, rec, vmName, plan);
      var i := PoweredOff(d.inv, vmName);
      GoodCall(i, rec, vmName, plan);
      assert Teardown(i, rec, vmName, [Try(plan)]).verdict.Done?;
      assert Teardown(d.inv, rec, vmName, [PowerOff, Try(plan)]) == Teardown(i, rec, vmName, [Try(plan)]);
    }
  }

  /** The states a teardown makes progress in. */
  predicate Removable(doms: map<string, DomState>, vmName: string) {
    vmName in doms ==> doms[vmName].Running? || doms[vmName].Shutoff? || doms[vmName].Shutdown?
  }

  lemma {:induction false} RemovableKept(inv: Inventory, rec: Record, vmName: string, plan: Plan)
    requires Removable(inv.doms, vmName)
    ensures Removable(Call(inv, rec, vmName, plan).inv.doms, vmName) && Removable(PoweredOff(inv, vmName).doms, vmName)
    ensures Call(inv, rec, vmName, plan).inv.pools == inv.pools
  {
    hide RemoveVol, RemoveVols, VolTargets, NvramTarget, NvramKey;
    var n := RemoveVol(inv, plan, 0, NvramTarget(rec));
    RemoveVolEffect(inv, plan, 0, NvramTarget(rec));
    var d := RemoveDomain(n.inv, plan, vmName);
    RemoveVolsEffect(d.inv, plan, 1, VolTargets(rec));
    hide Removes;
    CallPools(inv, rec, vmName, plan);
  }

  lemma {:induction false} CallPools(inv: Inventory, rec: Record, vmName: string, plan: Plan)
    ensures Call(inv, rec, vmName, plan).inv.pools == inv.pools
  {
    CallEffect(inv, rec, vmName, plan);
    hide Call, Targets;
  }

  /** No history of failed calls, failing wherever and however they like, can keep a teardown from
      completing: two failure-free calls with the shutdown in between finish it. */
  lemma {:induction false} NeverStuck(inv: Inventory, rec: Record, vmName: string, steps: seq<Turn>, plan: Plan)
    requires AllGood(plan) && vmName != "" && PoolsThere(inv, rec) && Removable(inv.doms, vmName)
    ensures Teardown(inv, rec, vmName, steps + [Try(plan), PowerOff, Try(plan)]).verdict.Done?
    decreases |steps|
  {
    hide Call, Targets, AllGood, PoweredOff;
    var last := [Try(plan), PowerOff, Try(plan)];
    if steps == [] {
      assert [] + last == last;
      TeardownCompletes(inv, rec, vmName, plan);
    } else {
      assert (steps + last)[1..] == steps[1..] + last;
      if steps[0].PowerOff? {
        RemovableKept(inv, rec, vmName, plan);
        PoweredOffPools(inv, vmName);
        NeverStuck(PoweredOff(inv, vmName), rec, vmName, steps[1..], plan);
      } else {
        RemovableKept(inv, rec, vmName, steps[0].plan);
        var d := Call(inv, rec, vmName, steps[0].plan);
        if !d.verdict.Done? {
          NeverStuck(d.inv, rec, vmName, steps[1..], plan);
        }
      }
    }
  }

  lemma {:induction false} PoweredOffPools(inv: Inventory, vmName: string)
    ensures PoweredOff(inv, vmName).pools == inv.pools
  {
  }

  /** No call returns nil while the pool "nvram" is missing, or while the domain is in a state other than
      shut off: a paused or crashed one stops the teardown for good. */
  lemma {:induction false} NeverDone(inv: Inventory, rec: Record, vmName: string, plan: Plan)
    requires "nvram" !in inv.pools || (vmName in inv.doms && !inv.doms[vmName].Shutoff?)
    ensures !Call(inv, rec, vmName, plan).verdict.Done?
  {
    hide RemoveVols, VolTargets;
  }

  lemma {:induction false} PausedForever(inv: Inventory, rec: Record, vmName: string, steps: seq<Turn>)
    requires vmName in inv.doms && inv.doms[vmName] !in {Running, Shutdown, Shutoff}
    ensures var d := Teardown(inv, rec, vmName, steps);
            !d.verdict.Done? && vmName in d.inv.doms && d.inv.doms[vmName] == inv.doms[vmName]
    decreases |steps|
  {
    hide RemoveVols, VolTargets;
    if steps != [] {
      if steps[0].PowerOff? {
        PausedForever(inv, rec, vmName, steps[1..]);
      } else {
        var d := Call(inv, rec, vmName, steps[0].plan);
        assert d.inv.doms == inv.doms && !d.verdict.Done?;
        PausedForever(d.inv, rec, vmName, steps[1..]);
      }
    }
  }

  lemma {:induction false} NamelessNeverDone(inv: Inventory, rec: Record, steps: seq<Turn>)
    ensures !Teardown(inv, rec, "", steps).verdict.Done?
    decreases |steps|
  {
    hide RemoveVols, RemoveVol, VolTargets;
    if steps != [] {
      NamelessNeverDone(if steps[0].PowerOff? then PoweredOff(inv, "") else inv, rec, steps[1..]);
    }
  }

  /** A teardown can complete exactly when the request has a name, every pool it looks into exists, the pool
      "nvram" always among them, and the domain, if there is one, is running, shutting down or shut off. */
  lemma {:induction false} TeardownPossible(inv: Inventory, rec: Record, vmName: string)
    ensures (exists steps :: Teardown(inv, rec, vmName, steps).verdict.Done?)
            <==> vmName != "" && PoolsThere(inv, rec) && Removable(inv.doms, vmName)
  {
    hide Teardown, PoolsThere;
    if steps :| Teardown(inv, rec, vmName, steps).verdict.Done? {
      if vmName == "" {
        NamelessNeverDone(inv, rec, steps);
      }
      TeardownPools(inv, rec, vmName, steps);
      if !Removable(inv.doms, vmName) {
        PausedForever(inv, rec, vmName, steps);
      }
    }
    if vmName != "" && PoolsThere(inv, rec) && Removable(inv.doms, vmName) {
      var plan: Plan := (_, _) => Good;
      TeardownCompletes(inv, rec, vmName, plan);
    }
  }

  lemma {:induction false} TeardownPools(inv: Inventory, rec: Record, vmName: string, steps: seq<Turn>)
    requires Teardown(inv, rec, vmName, steps).verdict.Done?
    ensures PoolsThere(inv, rec)
  {
    hide Teardown, Targets;
    TeardownKeys(inv, rec, vmName, steps);
  }

  lemma {:induction false} NothingToRemove(inv: Inventory, plan: Plan, i: nat, keys: seq<VolKey>)
    requires forall k :: k in keys ==> k !in inv.vols
    ensures RemoveVols(inv, plan, i, keys).inv == inv
    decreases |keys|
  {
    if keys != [] {
      NothingToRemove(inv, plan, i + 1, keys[1..]);
    }
  }

  /** Once a call has returned nil, every further one, with any failures, changes nothing at all. */
  lemma {:induction false} AfterDone(inv: Inventory, rec: Record, vmName: string, plan: Plan, later: Plan)
    requires Call(inv, rec, vmName, plan).verdict.Done?
    ensures var e := Call(inv, rec, vmName, plan).inv; Call(e, rec, vmName, later).inv == e
  {
    CallEffect(inv, rec, vmName, plan);
    var e := Call(inv, rec, vmName, plan).inv;
    hide RemoveVols, VolTargets, NvramTarget, RemoveDomain;
    assert NvramTarget(rec) in Targets(rec);
    assert forall k :: k in VolTargets(rec) ==> k in Targets(rec);
    NothingToRemove(e, later, 1, VolTargets(rec));
    RemoveDomainEffect(e, later, vmName);
  }
}
