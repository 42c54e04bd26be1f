/** Many machines on one host: their provisioning and teardown steps, interleaved in any way and failing
    anywhere, never meet. */
module Fleets {
  import opened Libvirt
  import opened Provision
  import opened VolNames
  import opened Retry
  import opened Deprovision
  import opened Lifecycle

  // ---------------------------------------------------------------- what an action may touch

  /** Only volumes in `keys`, the domain `vm` and the two image pools may differ, and every new log entry
      is about one of the keys. */
  ghost predicate Touches(a: Inventory, b: Inventory, keys: set<VolKey>, vm: string) {
    && b.vols - keys == a.vols - keys
    && b.doms - {vm} == a.doms - {vm}
    && a.pools <= b.pools <= a.pools + {"isos", "config"}
    && a.log <= b.log && forall i :: |a.log| <= i < |b.log| ==> b.log[i].key in keys
  }

  lemma {:induction false} TouchesTransitive(a: Inventory, b: Inventory, c: Inventory, keys: set<VolKey>, vm: string)
    requires Touches(a, b, keys, vm) && Touches(b, c, keys, vm)
    ensures Touches(a, c, keys, vm)
  {
    forall i | |a.log| <= i < |c.log| ensures c.log[i].key in keys {
      if i < |b.log| {
        assert c.log[i] == b.log[i];
      }
    }
  }

  lemma {:induction false} OneVolTouches(a: Inventory, b: Inventory, key: VolKey, keys: set<VolKey>, vm: string)
    requires OnlyVol(a, b, key) && key in keys && a.pools <= b.pools <= a.pools + {"isos", "config"}
    ensures Touches(a, b, keys, vm)
  {
    SameOutside(a.vols, b.vols, {key}, keys);
  }

  lemma {:induction false} RemovesTouches(a: Inventory, b: Inventory, removed: set<VolKey>, keys: set<VolKey>,
                                          vm: string)
    requires Removes(a, b, removed) && removed <= keys && b.doms - {vm} == a.doms - {vm}
    ensures Touches(a, b, keys, vm)
  {
    assert forall k :: k in b.vols - keys <==> k in a.vols - keys;
  }

  lemma {:induction false} ImageTouches(inv: Inventory, plan: Plan, key: VolKey, content: string, keys: set<VolKey>,
                                        vm: string)
    requires key in keys && key.pool in {"isos", "config"}
    ensures var prior := RemoveOld(inv, plan, 0, key).inv;
            Touches(inv, prior, keys, vm) && Touches(inv, CreateFrom(prior, plan, 0, key, content).inv, keys, vm)
  {
    hide *;
    var prior := RemoveOld(inv, plan, 0, key).inv;
    RemoveOldEffect(inv, plan, 0, key);
    OneVolTouches(inv, prior, key, keys, vm);
    CreateFromEffect(prior, plan, 0, key, content);
    OneVolTouches(prior, CreateFrom(prior, plan, 0, key, content).inv, key, keys, vm);
    TouchesTransitive(inv, prior, CreateFrom(prior, plan, 0, key, content).inv, keys, vm);
  }

  lemma {:induction false} CreateVolumeTouches(inv: Inventory, plan: Plan, i: nat, key: VolKey, vol: Vol,
                                               keys: set<VolKey>, vm: string)
    requires key in keys
    ensures Touches(inv, CreateVolume(inv, plan, i, key, vol).inv, keys, vm)
  {
    CreateVolEffect(inv, plan(Create, i), key, vol);
    var r := CreateVolume(inv, plan, i, key, vol);
    OneVolTouches(inv, r.inv, key, keys, vm);
  }

  lemma {:induction false} DisksTouch(m: Machine, inv: Inventory, plan: Plan, i: nat, keys: set<VolKey>)
    requires i <= |m.disks| && forall j :: 0 <= j < |m.disks| ==> DiskKey(m, j) in keys
    ensures Touches(inv, CreateDisks(m, inv, plan, i).inv, keys, m.vmName)
    decreases |m.disks| - i
  {
    hide CreateVolume, DiskKey;
    if i < |m.disks| {
      var r := CreateVolume(inv, plan, i, DiskKey(m, i), DiskVol(m.disks[i]));
      CreateVolumeTouches(inv, plan, i, DiskKey(m, i), DiskVol(m.disks[i]), keys, m.vmName);
      if r.ok {
        DisksTouch(m, r.inv, plan, i + 1, keys);
        TouchesTransitive(inv, r.inv, CreateDisks(m, r.inv, plan, i + 1).inv, keys, m.vmName);
      }
    }
  }

  lemma {:induction false} AllDiskKeys(m: Machine, i: nat)
    requires i < |m.disks|
    ensures DiskKey(m, i) in AllKeys(m)
  {
    DiskVolsKeys(m, |m.disks|, DiskKey(m, i));
    assert DiskKey(m, i) in StepKeys(m, 4);
  }

  lemma {:induction false} StartTouches(inv: Inventory, reply: Reply, vm: string, keys: set<VolKey>)
    requires vm in inv.doms && NvramKey(vm) in keys
    ensures Touches(inv, StartDomain(inv, reply, vm).inv, keys, vm)
  {
    hide NvramKey;
    assert inv.doms[vm := Running] - {vm} == inv.doms - {vm};
    assert inv.vols[NvramKey(vm) := Empty] - keys == inv.vols - keys;
  }

  lemma {:induction false} DefineTouches(inv: Inventory, reply: Reply, vm: string, keys: set<VolKey>)
    ensures var d := DefineDomain(inv, reply, vm);
            Touches(inv, d.inv, keys, vm) && (d.ok ==> vm in d.inv.doms)
  {
    if vm !in inv.doms {
      assert inv.doms[vm := Shutoff] - {vm} == inv.doms - {vm};
    }
  }

  lemma {:induction false} VMTouches(m: Machine, s: St, plan: Plan)
    ensures Touches(s.inv, CreateVM(m, s, plan).st.inv, AllKeys(m), m.vmName)
  {
    NvramIsStepKey(m);
    StepKeysAll(m, 6);
    var keys := AllKeys(m);
    hide AllKeys, KnownTypes, GetVol, StartDomain, DefineDomain, Touches;
    TouchesNothing(s.inv, keys, m.vmName);
    var d := DefineDomain(s.inv, plan(Define, 0), m.vmName);
    DefineTouches(s.inv, plan(Define, 0), m.vmName, keys);
    if d.ok {
      StartTouches(d.inv, plan(Start, 0), m.vmName, keys);
      TouchesTransitive(s.inv, d.inv, StartDomain(d.inv, plan(Start, 0), m.vmName).inv, keys, m.vmName);
    }
  }

  lemma {:induction false} TouchesNothing(inv: Inventory, keys: set<VolKey>, vm: string)
    ensures Touches(inv, inv, keys, vm)
  {
  }

  lemma {:induction false} StartVMTouches(m: Machine, s: St, plan: Plan)
    requires s.rec.vmName == m.vmName
    ensures Touches(s.inv, StartVM(s, plan).st.inv, AllKeys(m), m.vmName)
  {
    NvramIsStepKey(m);
    StepKeysAll(m, 6);
    hide AllKeys, StartDomain, Touches;
    TouchesNothing(s.inv, AllKeys(m), m.vmName);
    if s.rec.vmName in s.inv.doms {
      StartTouches(s.inv, plan(Start, 0), m.vmName, AllKeys(m));
    }
  }

  /** One attempt at a step touches the machine's own volumes and domain only, and keeps the record. */
  lemma {:induction false} AttemptTouches(m: Machine, pc: nat, s: St, plan: Plan)
    requires pc < STEPS && s.rec == RecordAt(m, pc)
    ensures var r := Attempt(m, pc, s, plan);
            && Touches(s.inv, r.st.inv, AllKeys(m), m.vmName)
            && r.st.rec == RecordAt(m, if r.ok then pc + 1 else pc)
  {
    AttemptRecord(m, pc, s, plan);
    StepKeysAll(m, pc);
    forall i | 0 <= i < |m.disks| ensures DiskKey(m, i) in AllKeys(m) {
      AllDiskKeys(m, i);
    }
    var keys := AllKeys(m);
    TouchesNothing(s.inv, keys, m.vmName);
    hide AllKeys, Touches, RecordAt, CreateVM, StartVM, CreateFrom, RemoveOld, CreateVolume, CreateDisks, IsoName;
    hide CidataName, MainName, DiskKey, DiskRecs;
    match pc {
      case 2 =>
        assert s.rec.schematic == m.schematic by { RecordFields(m, pc); }
        ImageTouches(s.inv, plan, IsoKey(m), m.iso, keys, m.vmName);
      case 3 => CreateVolumeTouches(s.inv, plan, 0, MainKey(m), MainVol(m), keys, m.vmName);
      case 4 => DisksTouch(m, s.inv, plan, 0, keys);
      case 5 => ImageTouches(s.inv, plan, CidataKey(m), m.cidata, keys, m.vmName);
      case 6 => VMTouches(m, s, plan);
      case 7 =>
        RecordFields(m, pc);
        StartVMTouches(m, s, plan);
      case _ =>
    }
  }

  /** Whatever the record says at a step, teardown looks at the machine's own volumes and at the NVRAM
      volume of no machine. */
  lemma {:induction false} TargetsWithin(m: Machine, pc: nat)
    requires pc <= STEPS
    ensures Targets(RecordAt(m, pc)) <= AllKeys(m) + {NvramKey("")}
  {
    if m.pool == "" {
      assert VolTargets(RecordAt(m, pc)) == [];
      assert |NvramKey(m.vmName).name| > 0;
      assert NvramTarget(RecordAt(m, pc)) == NvramAt(m, pc);
    } else {
      TargetsAt(m, pc);
    }
    NvramIsStepKey(m);
    hide Targets, StepKeys, RecordAt, NvramKey;
    assert RecordedKeys(m, pc) <= AllKeys(m);
  }

  /** What an action of the machine may do to the inventory. */
  ghost predicate Within(m: Machine, a: Inventory, b: Inventory) {
    Touches(a, b, AllKeys(m) + {NvramKey("")}, m.vmName) && (NvramKey("") !in a.vols ==> NvramKey("") !in b.vols)
  }

  lemma {:induction false} CallTouches(m: Machine, pc: nat, inv: Inventory, plan: Plan)
    requires pc <= STEPS
    ensures Within(m, inv, Call(inv, RecordAt(m, pc), m.vmName, plan).inv)
  {
    var rec := RecordAt(m, pc);
    CallEffect(inv, rec, m.vmName, plan);
    TargetsWithin(m, pc);
    NvramIsStepKey(m);
    StepKeysAll(m, 6);
    var e := Call(inv, rec, m.vmName, plan).inv;
    hide Call, Targets, AllKeys, RecordAt, NvramKey;
    RemovesTouches(inv, e, Targets(rec) + Undefined(inv, e, m.vmName), AllKeys(m) + {NvramKey("")}, m.vmName);
  }

  // ---------------------------------------------------------------- what an action depends on

  /** The two inventories look alike to a machine: same pools, same volumes under its keys, same domain. */
  ghost predicate Alike(a: Inventory, b: Inventory, keys: set<VolKey>, vm: string) {
    && a.pools == b.pools
    && (forall k :: k in keys ==> (k in a.vols <==> k in b.vols))
    && (forall k :: k in keys && k in a.vols && k in b.vols ==> a.vols[k] == b.vols[k])
    && (vm in a.doms <==> vm in b.doms)
    && (vm in a.doms && vm in b.doms ==> a.doms[vm] == b.doms[vm])
  }

  lemma {:induction false} AlikeDelete(a: Inventory, b: Inventory, keys: set<VolKey>, vm: string, reply: Reply,
                                       key: VolKey)
    requires Alike(a, b, keys, vm)
    ensures var r, t := DeleteVol(a, reply, key), DeleteVol(b, reply, key);
            r.ok == t.ok && Alike(r.inv, t.inv, keys, vm)
  {
  }

  lemma {:induction false} AlikeCreate(a: Inventory, b: Inventory, keys: set<VolKey>, vm: string, plan: Plan, i: nat,
                                       key: VolKey, vol: Vol)
    requires Alike(a, b, keys, vm) && key in keys
    ensures var r, t := CreateVol(a, plan(Create, i), key, vol), CreateVol(b, plan(Create, i), key, vol);
            r.ok == t.ok && Alike(r.inv, t.inv, keys, vm)
    ensures var r, t := CreateVolume(a, plan, i, key, vol), CreateVolume(b, plan, i, key, vol);
            r.ok == t.ok && Alike(r.inv, t.inv, keys, vm)
  {
  }

  lemma {:induction false} AlikeFound(a: Inventory, b: Inventory, keys: set<VolKey>, vm: string, plan: Plan, i: nat,
                                      key: VolKey)
    requires Alike(a, b, keys, vm) && key in keys
    ensures GetVol(a, plan, i, key) == GetVol(b, plan, i, key)
  {
  }

  lemma {:induction false} AlikeRemoveOld(a: Inventory, b: Inventory, keys: set<VolKey>, vm: string, plan: Plan,
                                          i: nat, key: VolKey)
    requires Alike(a, b, keys, vm) && key in keys
    ensures var r, t := RemoveOld(a, plan, i, key), RemoveOld(b, plan, i, key);
            r.ok == t.ok && Alike(r.inv, t.inv, keys, vm)
    ensures var r, t := RemoveVol(a, plan, i, key), RemoveVol(b, plan, i, key);
            r.ok == t.ok && Alike(r.inv, t.inv, keys, vm)
  {
    AlikeFound(a, b, keys, vm, plan, i, key);
    AlikeDelete(a, b, keys, vm, plan(Delete, i), key);
    hide GetVol, DeleteVol, Alike;
  }

  lemma {:induction false} AlikeWrite(a: Inventory, b: Inventory, keys: set<VolKey>, vm: string, key: VolKey,
                                      content: string)
    requires Alike(a, b, keys, vm) && key in keys
    ensures Alike(a.(vols := a.vols[key := Uploaded(content)], log := a.log + [VolWritten(key)]),
                  b.(vols := b.vols[key := Uploaded(content)], log := b.log + [VolWritten(key)]), keys, vm)
  {
  }

  lemma {:induction false} AlikePool(a: Inventory, b: Inventory, keys: set<VolKey>, vm: string, plan: Plan, i: nat,
                                     pool: string)
    requires Alike(a, b, keys, vm)
    ensures var r, t := PoolFor(a, plan, i, pool), PoolFor(b, plan, i, pool);
            r.ok == t.ok && Alike(r.inv, t.inv, keys, vm)
  {
  }

  lemma {:induction false} AlikeCreateFrom(a: Inventory, b: Inventory, keys: set<VolKey>, vm: string, plan: Plan,
                                           i: nat, key: VolKey, content: string)
    requires Alike(a, b, keys, vm) && key in keys
    ensures var r, t := CreateFrom(a, plan, i, key, content), CreateFrom(b, plan, i, key, content);
            r.ok == t.ok && Alike(r.inv, t.inv, keys, vm)
  {
    hide Alike, PoolFor, CreateVol, DeleteVol;
    AlikePool(a, b, keys, vm, plan, i, key.pool);
    var p, q := PoolFor(a, plan, i, key.pool).inv, PoolFor(b, plan, i, key.pool).inv;
    AlikeCreate(p, q, keys, vm, plan, i, key, Empty);
    var c, d := CreateVol(p, plan(Create, i), key, Empty).inv, CreateVol(q, plan(Create, i), key, Empty).inv;
    AlikeWrite(c, d, keys, vm, key, content);
    AlikeDelete(c, d, keys, vm, plan(Undo, i), key);
    AlikeDelete(c.(vols := c.vols[key := Uploaded(content)], log := c.log + [VolWritten(key)]),
                d.(vols := d.vols[key := Uploaded(content)], log := d.log + [VolWritten(key)]),
                keys, vm, plan(Undo, i), key);
  }

  lemma {:induction false} AlikeImage(a: Inventory, b: Inventory, keys: set<VolKey>, vm: string, plan: Plan,
                                      key: VolKey, content: string)
    requires Alike(a, b, keys, vm) && key in keys
    ensures var r, t := RemoveOld(a, plan, 0, key), RemoveOld(b, plan, 0, key);
            r.ok == t.ok && Alike(r.inv, t.inv, keys, vm)
    ensures var r := CreateFrom(RemoveOld(a, plan, 0, key).inv, plan, 0, key, content);
            var t := CreateFrom(RemoveOld(b, plan, 0, key).inv, plan, 0, key, content);
            r.ok == t.ok && Alike(r.inv, t.inv, keys, vm)
  {
    hide *;
    AlikeRemoveOld(a, b, keys, vm, plan, 0, key);
    AlikeCreateFrom(RemoveOld(a, plan, 0, key).inv, RemoveOld(b, plan, 0, key).inv, keys, vm, plan, 0, key, content);
  }

  lemma {:induction false} AlikeDisks(m: Machine, a: Inventory, b: Inventory, keys: set<VolKey>, vm: string,
                                      plan: Plan, i: nat)
    requires Alike(a, b, keys, vm) && i <= |m.disks| && forall j :: 0 <= j < |m.disks| ==> DiskKey(m, j) in keys
    ensures var r, t := CreateDisks(m, a, plan, i), CreateDisks(m, b, plan, i);
            r.ok == t.ok && Alike(r.inv, t.inv, keys, vm)
    decreases |m.disks| - i
  {
    hide Alike, CreateVolume, DiskKey, CreateVol;
    if i < |m.disks| {
      AlikeCreate(a, b, keys, vm, plan, i, DiskKey(m, i), DiskVol(m.disks[i]));
      var r := CreateVolume(a, plan, i, DiskKey(m, i), DiskVol(m.disks[i]));
      var t := CreateVolume(b, plan, i, DiskKey(m, i), DiskVol(m.disks[i]));
      if r.ok {
        AlikeDisks(m, r.inv, t.inv, keys, vm, plan, i + 1);
      }
    }
  }

  lemma {:induction false} AlikeRemoveVols(a: Inventory, b: Inventory, keys: set<VolKey>, vm: string, plan: Plan,
                                           i: nat, targets: seq<VolKey>)
    requires Alike(a, b, keys, vm) && forall k :: k in targets ==> k in keys
    ensures var r, t := RemoveVols(a, plan, i, targets), RemoveVols(b, plan, i, targets);
            r.ok == t.ok && Alike(r.inv, t.inv, keys, vm)
    decreases |targets|
  {
    hide Alike, RemoveVol, RemoveOld;
    if targets != [] {
      AlikeRemoveOld(a, b, keys, vm, plan, i, targets[0]);
      var r, t := RemoveVol(a, plan, i, targets[0]), RemoveVol(b, plan, i, targets[0]);
      if r.ok {
        AlikeRemoveVols(r.inv, t.inv, keys, vm, plan, i + 1, targets[1..]);
      }
    }
  }

  lemma {:induction false} AlikeDefine(a: Inventory, b: Inventory, keys: set<VolKey>, vm: string, reply: Reply)
    requires Alike(a, b, keys, vm)
    ensures var r, t := DefineDomain(a, reply, vm), DefineDomain(b, reply, vm);
            r.ok == t.ok && Alike(r.inv, t.inv, keys, vm) && (r.ok ==> vm in r.inv.doms && vm in t.inv.doms)
  {
  }

  lemma {:induction false} AlikeStart(a: Inventory, b: Inventory, keys: set<VolKey>, vm: string, reply: Reply)
    requires Alike(a, b, keys, vm) && NvramKey(vm) in keys && vm in a.doms
    ensures vm in b.doms
    ensures var r, t := StartDomain(a, reply, vm), StartDomain(b, reply, vm);
            r.result == t.result && Alike(r.inv, t.inv, keys, vm)
  {
    hide NvramKey;
  }

  lemma {:induction false} AlikeRemoveDomain(a: Inventory, b: Inventory, keys: set<VolKey>, vm: string, plan: Plan)
    requires Alike(a, b, keys, vm)
    ensures var r, t := RemoveDomain(a, plan, vm), RemoveDomain(b, plan, vm);
            r.verdict == t.verdict && Alike(r.inv, t.inv, keys, vm)
  {
    hide NvramKey;
  }

  lemma {:induction false} AlikeVM(m: Machine, s: St, t: St, plan: Plan, keys: set<VolKey>)
    requires Alike(s.inv, t.inv, keys, m.vmName) && s.rec == t.rec && NvramKey(m.vmName) in keys
    requires s.rec.vmVolName != "" ==> VolKey(m.pool, s.rec.vmVolName) in keys
    ensures var r, u := CreateVM(m, s, plan), CreateVM(m, t, plan);
            r.ok == u.ok && r.st.rec == u.st.rec && Alike(r.st.inv, u.st.inv, keys, m.vmName)
  {
    hide Alike, StartDomain, DefineDomain, GetVol, KnownTypes, NvramKey;
    if s.rec.vmVolName != "" {
      AlikeFound(s.inv, t.inv, keys, m.vmName, plan, 0, VolKey(m.pool, s.rec.vmVolName));
      AlikeDefine(s.inv, t.inv, keys, m.vmName, plan(Define, 0));
      var d, e := DefineDomain(s.inv, plan(Define, 0), m.vmName), DefineDomain(t.inv, plan(Define, 0), m.vmName);
      if d.ok {
        AlikeStart(d.inv, e.inv, keys, m.vmName, plan(Start, 0));
      }
    }
  }

  lemma {:induction false} AlikeStartVM(m: Machine, s: St, t: St, plan: Plan, keys: set<VolKey>)
    requires Alike(s.inv, t.inv, keys, m.vmName) && s.rec == t.rec && s.rec.vmName == m.vmName
             && NvramKey(m.vmName) in keys
    ensures var r, u := StartVM(s, plan), StartVM(t, plan);
            r.ok == u.ok && r.st.rec == u.st.rec && Alike(r.st.inv, u.st.inv, keys, m.vmName)
  {
    assert s.rec.vmName in s.inv.doms <==> s.rec.vmName in t.inv.doms;
    hide Alike, StartDomain, NvramKey;
    if s.rec.vmName in s.inv.doms {
      AlikeStart(s.inv, t.inv, keys, m.vmName, plan(Start, 0));
    }
  }

  lemma {:induction false} AlikeVolumeSteps(m: Machine, pc: nat, s: St, t: St, plan: Plan, keys: set<VolKey>)
    requires 2 <= pc <= 5 && s.rec.schematic == m.schematic && t.rec == s.rec && StepKeys(m, pc) <= keys
    requires Alike(s.inv, t.inv, keys, m.vmName)
    ensures var r, u := Attempt(m, pc, s, plan), Attempt(m, pc, t, plan);
            r.ok == u.ok && r.st.rec == u.st.rec && Alike(r.st.inv, u.st.inv, keys, m.vmName)
  {
    if pc == 4 {
      forall i | 0 <= i < |m.disks| ensures DiskKey(m, i) in keys {
        StepKeyShape(m, 4, DiskKey(m, i));
      }
    }
    hide Alike, CreateFrom, RemoveOld, CreateVolume, CreateVol, RemoveVol, CreateDisks, IsoName, CidataName, MainName;
    hide DiskKey, DiskRecs, NvramKey, DiskVols;
    match pc {
      case 2 => AlikeImage(s.inv, t.inv, keys, m.vmName, plan, IsoKey(m), m.iso);
      case 3 => AlikeCreate(s.inv, t.inv, keys, m.vmName, plan, 0, MainKey(m), MainVol(m));
      case 4 => AlikeDisks(m, s.inv, t.inv, keys, m.vmName, plan, 0);
      case _ => AlikeImage(s.inv, t.inv, keys, m.vmName, plan, CidataKey(m), m.cidata);
    }
  }

  /** An attempt sees nothing but the machine's own keys and domain, and the pools. */
  lemma {:induction false} AlikeAttempt(m: Machine, pc: nat, s: St, t: St, plan: Plan, keys: set<VolKey>)
    requires pc < STEPS && s.rec == RecordAt(m, pc) && t.rec == s.rec && AllKeys(m) <= keys
    requires Alike(s.inv, t.inv, keys, m.vmName)
    ensures var r, u := Attempt(m, pc, s, plan), Attempt(m, pc, t, plan);
            r.ok == u.ok && r.st.rec == u.st.rec && Alike(r.st.inv, u.st.inv, keys, m.vmName)
  {
    RecordFields(m, pc);
    StepKeysAll(m, pc);
    if 2 <= pc <= 5 {
      hide *;
      AlikeVolumeSteps(m, pc, s, t, plan, keys);
    } else {
      NvramIsStepKey(m);
      StepKeysAll(m, 6);
      assert MainKey(m) in keys by { StepKeysAll(m, 3); }
      hide AllKeys, Alike, RecordAt, CreateVM, StartVM, MainName, NvramKey;
      if pc == 6 {
        AlikeVM(m, s, t, plan, keys);
      } else if pc == 7 {
        AlikeStartVM(m, s, t, plan, keys);
      }
    }
  }

  lemma {:induction false} AlikeCall(a: Inventory, b: Inventory, rec: Record, vm: string, plan: Plan, keys: set<VolKey>)
    requires Alike(a, b, keys, vm) && Targets(rec) <= keys
    ensures var r, t := Call(a, rec, vm, plan), Call(b, rec, vm, plan);
            r.verdict == t.verdict && Alike(r.inv, t.inv, keys, vm)
  {
    assert NvramTarget(rec) in Targets(rec) && forall k :: k in VolTargets(rec) ==> k in Targets(rec);
    hide Alike, RemoveVol, RemoveOld, RemoveVols, RemoveDomain, NvramTarget, VolTargets, Targets;
    AlikeRemoveOld(a, b, keys, vm, plan, 0, NvramTarget(rec));
    var n, o := RemoveVol(a, plan, 0, NvramTarget(rec)), RemoveVol(b, plan, 0, NvramTarget(rec));
    AlikeRemoveDomain(n.inv, o.inv, keys, vm, plan);
    AlikeRemoveVols(RemoveDomain(n.inv, plan, vm).inv, RemoveDomain(o.inv, plan, vm).inv, keys, vm, plan, 1,
        VolTargets(rec));
  }

  // ---------------------------------------------------------------- many machines

  datatype Unit = Unit(pc: nat, rec: Record)

  datatype Fleet = Fleet(inv: Inventory, units: map<string, Unit>)

  /** One attempt at the machine's next step, one Deprovision call for it, or its guest powering off. */
  datatype Action = Prov(vm: string, plan: Plan) | Deprov(vm: string, plan: Plan) | GuestOff(vm: string)

  /** Machines under their names, with dash-free schematics and disk types, no disk of one meeting another. */
  predicate Named(ms: map<string, Machine>) {
    && (forall v :: v in ms ==> ms[v].vmName == v && v != "" && DashFree(ms[v]))
    && (forall v, w :: v in ms && w in ms && v != w ==> !Meets(ms[v], ms[w]))
  }

  predicate Tracks(ms: map<string, Machine>, f: Fleet) {
    && f.units.Keys == ms.Keys
    && forall v :: v in ms ==> f.units[v].pc <= STEPS && f.units[v].rec == RecordAt(ms[v], f.units[v].pc)
  }

  function Act(ms: map<string, Machine>, f: Fleet, a: Action): Fleet
    requires Tracks(ms, f) && a.vm in ms
  {
    var u := f.units[a.vm];
    match a
    case Prov(vm, plan) =>
      if u.pc >= STEPS then f
      else
        var r := Attempt(ms[vm], u.pc, St(f.inv, u.rec), plan);
        Fleet(r.st.inv, f.units[vm := Unit(if r.ok then u.pc + 1 else u.pc, r.st.rec)])
    case Deprov(vm, plan) => f.(inv := Call(f.inv, u.rec, vm, plan).inv)
    case GuestOff(vm) => f.(inv := PoweredOff(f.inv, vm))
  }

  predicate Known(ms: map<string, Machine>, acts: seq<Action>) {
    forall i :: 0 <= i < |acts| ==> acts[i].vm in ms
  }

  lemma {:induction false} TracksUpdate(ms: map<string, Machine>, f: Fleet, inv: Inventory, vm: string, u: Unit)
    requires Tracks(ms, f) && vm in ms && u.pc <= STEPS && u.rec == RecordAt(ms[vm], u.pc)
    ensures Tracks(ms, Fleet(inv, f.units[vm := u]))
  {
    hide RecordAt;
  }

  lemma {:induction false} TracksAnyInventory(ms: map<string, Machine>, f: Fleet, inv: Inventory)
    requires Tracks(ms, f)
    ensures Tracks(ms, f.(inv := inv))
  {
    hide RecordAt;
  }

  lemma {:induction false} ProvTracks(ms: map<string, Machine>, f: Fleet, vm: string, plan: Plan)
    requires Tracks(ms, f) && vm in ms && f.units[vm].pc < STEPS
    ensures Tracks(ms, Act(ms, f, Prov(vm, plan)))
  {
    var u := f.units[vm];
    AttemptRecord(ms[vm], u.pc, St(f.inv, u.rec), plan);
    hide RecordAt, Attempt, Tracks;
    var r := Attempt(ms[vm], u.pc, St(f.inv, u.rec), plan);
    TracksUpdate(ms, f, r.st.inv, vm, Unit(if r.ok then u.pc + 1 else u.pc, r.st.rec));
  }

  lemma {:induction false} ActTracks(ms: map<string, Machine>, f: Fleet, a: Action)
    requires Named(ms) && Tracks(ms, f) && a.vm in ms
    ensures Tracks(ms, Act(ms, f, a))
  {
    var u := f.units[a.vm];
    hide Named, RecordAt, Attempt, Call, PoweredOff, Tracks;
    if a.Prov? && u.pc < STEPS {
      ProvTracks(ms, f, a.vm, a.plan);
    } else {
      TracksAnyInventory(ms, f, Act(ms, f, a).inv);
    }
  }

  function Acts(ms: map<string, Machine>, f: Fleet, acts: seq<Action>): (g: Fleet)
    requires Named(ms) && Tracks(ms, f) && Known(ms, acts)
    ensures Tracks(ms, g)
    decreases |acts|
  {
    if acts == [] then f
    else
      ActTracks(ms, f, acts[0]);
      Acts(ms, Act(ms, f, acts[0]), acts[1..])
  }

  lemma {:induction false} ProvTouches(m: Machine, pc: nat, inv: Inventory, plan: Plan)
    requires pc < STEPS && m.vmName != ""
    ensures Within(m, inv, Attempt(m, pc, St(inv, RecordAt(m, pc)), plan).st.inv)
  {
    hide Attempt, AllKeys, NvramKey, RecordAt;
    AttemptTouches(m, pc, St(inv, RecordAt(m, pc)), plan);
    NamelessNowhere(m);
    var t := Attempt(m, pc, St(inv, RecordAt(m, pc)), plan).st;
    MoreKeys(inv, t.inv, AllKeys(m), AllKeys(m) + {NvramKey("")}, m.vmName);
  }

  lemma {:induction false} PowerOffTouches(m: Machine, inv: Inventory)
    ensures Within(m, inv, PoweredOff(inv, m.vmName))
  {
    hide AllKeys, NvramKey;
    assert PoweredOff(inv, m.vmName).doms - {m.vmName} == inv.doms - {m.vmName};
  }

  lemma {:induction false} WithinItself(m: Machine, inv: Inventory)
    ensures Within(m, inv, inv)
  {
    hide AllKeys, NvramKey;
  }

  lemma {:induction false} ActTouches(ms: map<string, Machine>, f: Fleet, a: Action)
    requires Named(ms) && Tracks(ms, f) && a.vm in ms
    ensures Within(ms[a.vm], f.inv, Act(ms, f, a).inv) && ms[a.vm].vmName == a.vm
    ensures forall v :: v in ms && v != a.vm ==> Act(ms, f, a).units[v] == f.units[v]
  {
    var m, u := ms[a.vm], f.units[a.vm];
    assert m.vmName == a.vm && a.vm != "";
    hide Named, RecordAt, Attempt, Call, PoweredOff, AllKeys, NvramKey, Within;
    match a {
      case Prov(_, plan) =>
        if u.pc < STEPS {
          ProvTouches(m, u.pc, f.inv, plan);
        } else {
          WithinItself(m, f.inv);
        }
      case Deprov(_, plan) => CallTouches(m, u.pc, f.inv, plan);
      case GuestOff(_) => PowerOffTouches(m, f.inv);
    }
  }

  lemma {:induction false} MoreKeys(a: Inventory, b: Inventory, keys: set<VolKey>, more: set<VolKey>, vm: string)
    requires Touches(a, b, keys, vm) && keys <= more
    ensures Touches(a, b, more, vm)
    ensures forall k :: k !in keys && k !in a.vols ==> k !in b.vols
  {
    SameOutside(a.vols, b.vols, keys, more);
    assert forall k :: k !in keys ==> (k in b.vols <==> k in b.vols - keys);
  }

  lemma {:induction false} NamelessNowhere(m: Machine)
    requires m.vmName != ""
    ensures NvramKey("") !in AllKeys(m)
  {
    KeyStep(m, NvramKey(""));
    forall p {
      NamelessElsewhere(m, p);
    }
    hide AllKeys, StepKeys;
  }

  /** The other machines' steps, seen by machine b. */
  lemma {:induction false} OthersAlike(ms: map<string, Machine>, f: Fleet, a: Action, b: string)
    requires Named(ms) && Tracks(ms, f) && a.vm in ms && b in ms && a.vm != b
    ensures var g := Act(ms, f, a);
            && g.units[b] == f.units[b]
            && Alike(f.inv, g.inv.(pools := f.inv.pools), AllKeys(ms[b]), b)
            && f.inv.pools <= g.inv.pools <= f.inv.pools + {"isos", "config"}
            && f.inv.log <= g.inv.log
            && forall i :: |f.inv.log| <= i < |g.inv.log| ==> g.inv.log[i].key !in AllKeys(ms[b])
  {
    ActTouches(ms, f, a);
    ShareExactly(ms[a.vm], ms[b]);
    NamelessNowhere(ms[b]);
    var g, keys := Act(ms, f, a), AllKeys(ms[a.vm]) + {NvramKey("")};
    hide Act, AllKeys, NvramKey, Tracks;
    TouchedElsewhere(f.inv, g.inv, keys, AllKeys(ms[b]), a.vm, b);
  }

  lemma {:induction false} TouchedElsewhere(a: Inventory, b: Inventory, keys: set<VolKey>, own: set<VolKey>,
                                            vm: string, other: string)
    requires Touches(a, b, keys, vm) && keys !! own && vm != other
    ensures Alike(a, b.(pools := a.pools), own, other)
  {
    forall k | k in own
      ensures k in a.vols <==> k in b.vols
      ensures k in a.vols && k in b.vols ==> a.vols[k] == b.vols[k]
    {
      KeptOutside(a, b, keys, vm, k);
    }
    assert other in a.doms <==> other in a.doms - {vm};
    assert other in b.doms <==> other in b.doms - {vm};
    assert other in a.doms && other in b.doms ==> a.doms[other] == (a.doms - {vm})[other] == (b.doms - {vm})[other];
  }

  lemma {:induction false} AlikeTransitive(a: Inventory, b: Inventory, c: Inventory, keys: set<VolKey>, vm: string)
    requires Alike(a, b, keys, vm) && Alike(b, c, keys, vm)
    ensures Alike(a, c, keys, vm)
  {
  }

  lemma {:induction false} AlikePools(a: Inventory, b: Inventory, p: set<string>, q: set<string>, keys: set<VolKey>,
                                      vm: string)
    requires Alike(a, b.(pools := a.pools), keys, vm)
    ensures Alike(a.(pools := p), b.(pools := p), keys, vm)
  {
  }

  /** Isolation: however the provisioning and teardown steps of other machines interleave and fail, a
      machine's volumes with their contents, its domain and its record stay as they are, and no call that
      creates, writes or deletes one of its volumes is ever made. */
  lemma {:induction false} Isolation(ms: map<string, Machine>, f: Fleet, acts: seq<Action>, b: string)
    requires Named(ms) && Tracks(ms, f) && Known(ms, acts) && b in ms
    requires forall i :: 0 <= i < |acts| ==> acts[i].vm != b
    ensures var g := Acts(ms, f, acts);
            && g.units[b] == f.units[b]
            && Alike(f.inv, g.inv.(pools := f.inv.pools), AllKeys(ms[b]), b)
            && f.inv.log <= g.inv.log
            && forall i :: |f.inv.log| <= i < |g.inv.log| ==> g.inv.log[i].key !in AllKeys(ms[b])
    decreases |acts|
  {
    hide Act, AllKeys, Tracks, Named;
    if acts != [] {
      ActTracks(ms, f, acts[0]);
      OthersAlike(ms, f, acts[0], b);
      var h := Act(ms, f, acts[0]);
      Isolation(ms, h, acts[1..], b);
      var g := Acts(ms, h, acts[1..]);
      AlikePools(h.inv, g.inv, f.inv.pools, h.inv.pools, AllKeys(ms[b]), b);
      AlikeTransitive(f.inv, h.inv.(pools := f.inv.pools), g.inv.(pools := f.inv.pools), AllKeys(ms[b]), b);
      forall i | |f.inv.log| <= i < |g.inv.log| ensures g.inv.log[i].key !in AllKeys(ms[b]) {
        if i < |h.inv.log| {
          assert g.inv.log[i] == h.inv.log[i];
        }
      }
    }
  }

  // ---------------------------------------------------------------- each machine as if alone

  /** The actions of one machine. */
  function Own(acts: seq<Action>, b: string): seq<Action>
    decreases |acts|
  {
    if acts == [] then []
    else (if acts[0].vm == b then [acts[0]] else []) + Own(acts[1..], b)
  }

  lemma {:induction false} OwnKnown(ms: map<string, Machine>, acts: seq<Action>, b: string)
    requires Known(ms, acts)
    ensures Known(ms, Own(acts, b))
    decreases |acts|
  {
    if acts != [] {
      OwnKnown(ms, acts[1..], b);
    }
  }

  /** Both image pools exist, and no NVRAM volume without a machine stands where teardown can find it. */
  predicate PoolsReady(inv: Inventory) {
    "isos" in inv.pools && "config" in inv.pools && ("nvram" in inv.pools ==> NvramKey("") !in inv.vols)
  }

  function SeenBy(m: Machine): set<VolKey> {
    AllKeys(m) + {NvramKey("")}
  }

  /** Without the pool of the NVRAM volumes a call ends at its first lookup. */
  lemma {:induction false} CallWithoutNvram(inv: Inventory, rec: Record, vm: string, plan: Plan)
    requires "nvram" !in inv.pools
    ensures Call(inv, rec, vm, plan).inv == inv
  {
  }

  /** Where the pools are ready, no action touches the NVRAM volume without a machine. */
  lemma {:induction false} StrayKept(ms: map<string, Machine>, f: Fleet, a: Action)
    requires Named(ms) && Tracks(ms, f) && a.vm in ms && PoolsReady(f.inv) && NvramKey("") in f.inv.vols
    ensures var g := Act(ms, f, a).inv;
            NvramKey("") in g.vols && g.vols[NvramKey("")] == f.inv.vols[NvramKey("")]
  {
    var m, u := ms[a.vm], f.units[a.vm];
    assert m.vmName != "";
    hide Named, RecordAt, Attempt, Call, AllKeys, NvramKey;
    match a {
      case Prov(_, plan) =>
        if u.pc < STEPS {
          AttemptTouches(m, u.pc, St(f.inv, u.rec), plan);
          NamelessNowhere(m);
          KeptOutside(f.inv, Act(ms, f, a).inv, AllKeys(m), m.vmName, NvramKey(""));
        }
      case Deprov(_, plan) => CallWithoutNvram(f.inv, u.rec, a.vm, plan);
      case GuestOff(_) =>
    }
  }

  lemma {:induction false} ActSettled(ms: map<string, Machine>, f: Fleet, a: Action)
    requires Named(ms) && Tracks(ms, f) && a.vm in ms && PoolsReady(f.inv)
    ensures var g := Act(ms, f, a).inv;
            && PoolsReady(g) && g.pools == f.inv.pools
            && (NvramKey("") in g.vols <==> NvramKey("") in f.inv.vols)
            && (NvramKey("") in f.inv.vols ==> g.vols[NvramKey("")] == f.inv.vols[NvramKey("")])
  {
    ActTouches(ms, f, a);
    hide Act, AllKeys, NvramKey, Named, Tracks;
    if NvramKey("") in f.inv.vols {
      StrayKept(ms, f, a);
    }
  }

  lemma {:induction false} KeptOutside(a: Inventory, b: Inventory, keys: set<VolKey>, vm: string, k: VolKey)
    requires Touches(a, b, keys, vm) && k !in keys
    ensures k in b.vols <==> k in a.vols
    ensures k in a.vols ==> b.vols[k] == a.vols[k]
  {
    assert k in a.vols <==> k in a.vols - keys;
    assert k in b.vols <==> k in b.vols - keys;
    assert k in a.vols && k in b.vols ==> a.vols[k] == (a.vols - keys)[k] == (b.vols - keys)[k];
  }

  lemma {:induction false} AlikePoweredOff(a: Inventory, b: Inventory, keys: set<VolKey>, vm: string)
    requires Alike(a, b, keys, vm)
    ensures Alike(PoweredOff(a, vm), PoweredOff(b, vm), keys, vm)
  {
  }

  /** Machine b's own action does the same in two fleets that look alike to it. */
  lemma {:induction false} OwnAlike(ms: map<string, Machine>, f: Fleet, g: Fleet, a: Action)
    requires Named(ms) && Tracks(ms, f) && Tracks(ms, g) && a.vm in ms
    requires f.units[a.vm] == g.units[a.vm] && Alike(f.inv, g.inv, SeenBy(ms[a.vm]), a.vm)
    ensures var f', g' := Act(ms, f, a), Act(ms, g, a);
            f'.units[a.vm] == g'.units[a.vm] && Alike(f'.inv, g'.inv, SeenBy(ms[a.vm]), a.vm)
  {
    var m, u := ms[a.vm], f.units[a.vm];
    if a.GuestOff? {
      hide AllKeys, NvramKey, Safe, RecordAt;
      AlikePoweredOff(f.inv, g.inv, SeenBy(m), a.vm);
      return;
    }
    match a {
      case Prov(_, plan) =>
        if u.pc < STEPS {
          hide Attempt, AllKeys, NvramKey, RecordAt, Alike, Safe;
          AlikeAttempt(m, u.pc, St(f.inv, u.rec), St(g.inv, u.rec), plan, SeenBy(m));
        }
      case Deprov(_, plan) =>
        hide Call, AllKeys, NvramKey, RecordAt, Alike, Safe, Targets;
        TargetsWithin(m, u.pc);
        AlikeCall(f.inv, g.inv, u.rec, a.vm, plan, SeenBy(m));
    }
  }

  lemma {:induction false} OtherSeen(ms: map<string, Machine>, f: Fleet, a: Action, b: string)
    requires Named(ms) && Tracks(ms, f) && a.vm in ms && b in ms && a.vm != b && PoolsReady(f.inv)
    ensures Act(ms, f, a).units[b] == f.units[b] && Alike(Act(ms, f, a).inv, f.inv, SeenBy(ms[b]), b)
  {
    OthersAlike(ms, f, a, b);
    ActSettled(ms, f, a);
    hide Act, AllKeys, NvramKey, Tracks, Named;
  }

  lemma {:induction false} AloneStep(ms: map<string, Machine>, f: Fleet, g: Fleet, acts: seq<Action>, b: string)
    requires Named(ms) && Tracks(ms, f) && Tracks(ms, g) && Known(ms, acts) && Known(ms, Own(acts, b)) && b in ms
    requires PoolsReady(f.inv) && f.units[b] == g.units[b] && Alike(f.inv, g.inv, SeenBy(ms[b]), b)
    ensures var f', g' := Acts(ms, f, acts), Acts(ms, g, Own(acts, b));
            f'.units[b] == g'.units[b] && Alike(f'.inv, g'.inv, SeenBy(ms[b]), b)
    decreases |acts|
  {
    hide Act, Tracks, Named, SeenBy, Alike, PoolsReady;
    if acts != [] {
      var a := acts[0];
      ActTracks(ms, f, a);
      ActSettled(ms, f, a);
      OwnKnown(ms, acts[1..], b);
      if a.vm == b {
        ActTracks(ms, g, a);
        OwnAlike(ms, f, g, a);
        AloneStep(ms, Act(ms, f, a), Act(ms, g, a), acts[1..], b);
        assert Own(acts, b)[1..] == Own(acts[1..], b);
      } else {
        OtherSeen(ms, f, a, b);
        AlikeTransitive(Act(ms, f, a).inv, f.inv, g.inv, SeenBy(ms[b]), b);
        assert Own(acts, b) == Own(acts[1..], b);
        AloneStep(ms, Act(ms, f, a), g, acts[1..], b);
      }
    }
  }

  /** Noninterference: after any interleaving of all machines' steps, with any failures, each machine is
      where its own steps alone, with the same failures, would have brought it: same step and record,
      same volumes with the same contents, same domain. */
  lemma {:induction false} Noninterference(ms: map<string, Machine>, f: Fleet, acts: seq<Action>, b: string)
    requires Named(ms) && Tracks(ms, f) && Known(ms, acts) && b in ms && PoolsReady(f.inv)
    ensures Known(ms, Own(acts, b))
    ensures var g, alone := Acts(ms, f, acts), Acts(ms, f, Own(acts, b));
            g.units[b] == alone.units[b] && Alike(g.inv, alone.inv, AllKeys(ms[b]), b)
  {
    OwnKnown(ms, acts, b);
    AloneStep(ms, f, f, acts, b);
    hide Acts, Own, Tracks, Named, AllKeys;
  }
}
