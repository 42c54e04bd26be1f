/** The provider's procedures over the libvirt connection and the machine's MachineSpec, which they update
    in place, each proved to do what its specification function says. */
module Provider {
  import opened Libvirt
  import opened Provision
  import opened VolNames
  import opened Retry
  import opened Deprovision
  import Disks
  import Wire

  /** Removing a list of volumes can be done in two parts. */
  lemma {:induction false} RemoveVolsSplit(inv: Inventory, plan: Plan, i: nat, a: seq<VolKey>, b: seq<VolKey>)
    ensures var r := RemoveVols(inv, plan, i, a);
            RemoveVols(inv, plan, i, a + b) == if r.ok then RemoveVols(r.inv, plan, i + |a|, b) else r
    decreases |a|
  {
    hide RemoveVol;
    if a == [] {
      assert a + b == b;
    } else {
      assert (a + b)[1..] == a[1..] + b;
      RemoveVolsSplit(RemoveVol(inv, plan, i, a[0]).inv, plan, i + 1, a[1..], b);
    }
  }

  lemma {:induction false} RemoveOneVol(inv: Inventory, plan: Plan, i: nat, key: VolKey, b: seq<VolKey>)
    ensures var r := RemoveVol(inv, plan, i, key);
            RemoveVols(inv, plan, i, [key] + b) == if r.ok then RemoveVols(r.inv, plan, i + 1, b) else r
  {
    assert ([key] + b)[1..] == b;
  }

  class Session {
    var inv: Inventory
    var rec: Record

    constructor (inv: Inventory, rec: Record)
      ensures this.inv == inv && this.rec == rec
    {
      this.inv := inv;
      this.rec := rec;
    }

    // -------------------------------------------------------------- volumes

    /** Look the pool up, then the volume. */
    method LookupVol(plan: Plan, i: nat, key: VolKey) returns (found: Found)
      ensures found == GetVol(inv, plan, i, key)
      ensures !found.LookupFails? ==> key.pool in inv.pools && (found.Present? <==> key in inv.vols)
    {
      if !plan(Lookup, i).Good? || key.pool !in inv.pools {
        return LookupFails;
      }
      return if key in inv.vols then Present else Absent;
    }

    method StorageVolDelete(reply: Reply, key: VolKey) returns (ok: bool)
      modifies this`inv
      ensures R(inv, ok) == DeleteVol(old(inv), reply, key)
    {
      if reply.Fails? {
        return false;
      }
      inv := inv.(vols := inv.vols - {key}, log := inv.log + [VolDeleted(key, inv.doms.Keys)]);
      return reply.Good?;
    }

    method StorageVolCreateXML(reply: Reply, key: VolKey, vol: Vol) returns (ok: bool)
      modifies this`inv
      ensures R(inv, ok) == CreateVol(old(inv), reply, key, vol)
    {
      if reply.Fails? || key in inv.vols {
        return false;
      }
      inv := inv.(vols := inv.vols[key := vol], log := inv.log + [VolCreated(key)]);
      return reply.Good?;
    }

    method CreateVolumeIfAbsent(plan: Plan, i: nat, key: VolKey, vol: Vol) returns (ok: bool)
      modifies this`inv
      ensures R(inv, ok) == CreateVolume(old(inv), plan, i, key, vol)
      ensures OnlyVol(old(inv), inv, key) && (key in old(inv).vols ==> inv == old(inv))
      ensures ok ==> key in inv.vols && (key !in old(inv).vols ==> inv.vols[key] == vol)
    {
      CreateVolumeEffect(inv, plan, i, key, vol);
      var found := LookupVol(plan, i, key);
      if found.Present? {
        return true;
      }
      if !plan(PoolLookup, i).Good? || key.pool !in inv.pools {
        return false;
      }
      ok := StorageVolCreateXML(plan(Op.Create, i), key, vol);
    }

    method Create(plan: Plan, i: nat, key: VolKey, vol: Vol) returns (ok: bool)
      modifies this`inv
      ensures R(inv, ok) == ManagerCreate(old(inv), plan, i, key, vol)
    {
      ok := CreateVolumeIfAbsent(plan, i, key, vol);
      ok := ok && plan(Path, i).Good?;
    }

    method CreateOrGetPool(plan: Plan, i: nat, pool: string) returns (ok: bool)
      modifies this`inv
      ensures R(inv, ok) == PoolFor(old(inv), plan, i, pool)
      ensures inv == old(inv).(pools := inv.pools) && old(inv).pools <= inv.pools <= old(inv).pools + {pool}
      ensures ok ==> pool in inv.pools
    {
      if !plan(PoolGet, i).Good? {
        return false;
      }
      if pool in inv.pools {
        return true;
      }
      if plan(PoolCreate, i).Fails? {
        return false;
      }
      inv := inv.(pools := inv.pools + {pool});
      return plan(PoolCreate, i).Good?;
    }

    method CreateFromImage(plan: Plan, i: nat, key: VolKey, content: string) returns (ok: bool)
      modifies this`inv
      ensures R(inv, ok) == CreateFrom(old(inv), plan, i, key, content)
      ensures OnlyVol(old(inv), inv, key)
      ensures ok ==> key !in old(inv).vols && inv.vols == old(inv).vols[key := Uploaded(content)]
      ensures !ok && !plan(Op.Create, i).Lost? && !plan(Upload, i).Good? && !plan(Undo, i).Fails? ==>
                inv.vols == old(inv).vols
    {
      CreateFromEffect(inv, plan, i, key, content);
      CreateFromExactly(inv, plan, i, key, content);
      ok := CreateOrGetPool(plan, i, key.pool);
      if !ok {
        return;
      }
      ok := StorageVolCreateXML(plan(Op.Create, i), key, Empty);
      if !ok {
        return;
      }
      var up := plan(Upload, i);
      if !up.Fails? {
        inv := inv.(vols := inv.vols[key := Uploaded(content)], log := inv.log + [VolWritten(key)]);
      }
      if !up.Good? {
        var ignored := StorageVolDelete(plan(Undo, i), key);
        return false;
      }
      return plan(Path, i).Good?;
    }

    method DeleteOldVersion(plan: Plan, i: nat, key: VolKey) returns (ok: bool)
      modifies this`inv
      ensures R(inv, ok) == RemoveOld(old(inv), plan, i, key)
    {
      var found := LookupVol(plan, i, key);
      if found.Present? {
        ok := StorageVolDelete(plan(Delete, i), key);
      } else {
        ok := true;
      }
    }

    // -------------------------------------------------------------- provisioning steps

    method ProvisionImage(plan: Plan, key: VolKey, built: bool, content: string) returns (ok: bool)
      modifies this`inv
      ensures var prior := RemoveOld(old(inv), plan, 0, key);
              if prior.ok && built then R(inv, ok) == CreateFrom(prior.inv, plan, 0, key, content)
              else inv == prior.inv && !ok
    {
      ok := DeleteOldVersion(plan, 0, key);
      if !ok || !built {
        return false;
      }
      ok := CreateFromImage(plan, 0, key, content);
    }

    /** The disk loop: on the first failure it returns with the volumes made so far and no record of them. */
    method AddDisks(m: Machine, plan: Plan) returns (ok: bool)
      modifies this
      ensures Res(St(inv, rec), ok) == ProvisionAdditionalDisks(m, old(St(inv, rec)), plan)
    {
      hide CreateVolume;
      if |m.disks| > 0 {
        var additionalDisks: seq<DiskRec> := [];
        for idx := 0 to |m.disks|
          invariant rec == old(rec)
          invariant additionalDisks == DiskRecs(m, idx)
          invariant CreateDisks(m, inv, plan, idx) == CreateDisks(m, old(inv), plan, 0)
        {
          var d := m.disks[idx];
          var volName := DiskVolName(m.vmName, idx, d.typ);
          ok := CreateVolumeIfAbsent(plan, idx, VolKey(m.pool, volName), Blank(d.typ, Capacity(d.size)));
          if !ok {
            return;
          }
          additionalDisks := additionalDisks + [DiskRec(d.typ, volName)];
        }
        rec := rec.(disks := additionalDisks);
      }
      ok := true;
    }

    /** Assembles the disk list, in which no two devices have the same name, then defines and starts. */
    method MakeVM(m: Machine, plan: Plan) returns (ok: bool, devices: seq<string>)
      modifies this
      ensures Res(St(inv, rec), ok) == CreateVM(m, old(St(inv, rec)), plan)
      ensures ok ==> |devices| == 3 + |old(rec.disks)|
      ensures ok ==> forall i, j :: 0 <= i < j < |devices| ==> devices[i] != devices[j]
    {
      hide Disks.Devices, Disks.KnownType;
      devices := [];
      if rec.vmVolName == "" {
        return false, devices;
      }
      var found := LookupVol(plan, 0, VolKey(m.pool, rec.vmVolName));
      if !found.Present? {
        return false, devices;
      }
      var types := seq(|rec.disks|, i requires 0 <= i < |rec.disks| reads this => rec.disks[i].typ);
      var assembled, bad := Disks.AssembleDevices(types);
      SameTypes(rec.disks, types);
      if assembled.None? {
        return false, devices;
      }
      devices := assembled.value;
      forall i, j | 0 <= i < j < |devices| ensures devices[i] != devices[j] {
        Disks.DevicesDistinct(types, i, j);
      }
      ok := DefineAndStart(plan, m.vmName);
      if ok {
        rec := rec.(vmName := m.vmName, vmNvramName := m.vmName + "_VARS.fd");
      }
    }

    method DefineAndStart(plan: Plan, name: string) returns (ok: bool)
      modifies this`inv
      ensures var d := DefineDomain(old(inv), plan(Define, 0), name);
              if !d.ok then !ok && inv == d.inv
              else var r := StartDomain(d.inv, plan(Start, 0), name); inv == r.inv && (ok <==> r.result.DidStart?)
    {
      var reply := plan(Define, 0);
      if reply.Fails? {
        return false;
      }
      if name !in inv.doms {
        inv := inv.(doms := inv.doms[name := Shutoff]);
      }
      if !reply.Good? {
        return false;
      }
      var result := DomainCreate(plan(Start, 0), name);
      ok := result.DidStart?;
    }

    method DomainCreate(reply: Reply, name: string) returns (result: Started)
      requires name in inv.doms
      modifies this`inv
      ensures S(inv, result) == StartDomain(old(inv), reply, name)
      ensures inv.doms - {name} == old(inv).doms - {name} && name in inv.doms
      ensures !result.StartFails? ==>
                Active(inv.doms[name]) && (result.AlreadyRunning? <==> Active(old(inv).doms[name]))
    {
      if reply.Fails? {
        return StartFails;
      }
      if Active(inv.doms[name]) {
        return AlreadyRunning;
      }
      var key := NvramKey(name);
      var vols := inv.vols;
      if "nvram" in inv.pools && key !in vols {
        vols := vols[key := Empty];
      }
      inv := inv.(doms := inv.doms[name := Running], vols := vols);
      return if reply.Good? then DidStart else StartFails;
    }

    /** Runs step pc once, whatever earlier attempts left behind: success brings inventory and record to
        exactly the state the step is for, failure to one that a later attempt can start from. */
    method RunStep(m: Machine, pc: nat, plan: Plan, ghost base: Inventory) returns (ok: bool)
      requires pc < STEPS
      modifies this
      ensures Safe(m) && InProgress(m, base, pc, old(St(inv, rec))) ==>
                if ok then Exact(m, base, pc + 1, St(inv, rec)) else InProgress(m, base, pc, St(inv, rec))
      ensures Res(St(inv, rec), ok) == Attempt(m, pc, old(St(inv, rec)), plan)
    {
      hide Attempt, InProgress, Exact, Safe;
      if Safe(m) && InProgress(m, base, pc, St(inv, rec)) {
        AttemptStep(m, base, pc, St(inv, rec), plan);
      }
      ok := DoStep(m, pc, plan);
    }

    method DoStep(m: Machine, pc: nat, plan: Plan) returns (ok: bool)
      requires pc < STEPS
      modifies this
      ensures Res(St(inv, rec), ok) == Attempt(m, pc, old(St(inv, rec)), plan)
    {
      hide RemoveOld, CreateFrom, ManagerCreate, CreateDisks, StartDomain, IsoName, CidataName, MainName;
      hide ProvisionAdditionalDisks, CreateVM;
      if pc == 0 {
        ok := !plan(UuidLookup, 0).Good?;
      } else if pc == 1 {
        ok := plan(Schematic, 0).Good?;
        if ok {
          rec := rec.(schematic := m.schematic);
        }
      } else if pc == 2 {
        if !plan(Acquire, 0).Good? || !plan(Open, 0).Good? {
          return false;
        }
        var isoName := IsoName(m.vmName, rec.schematic);
        ok := ProvisionImage(plan, VolKey("isos", isoName), true, m.iso);
        if ok {
          rec := rec.(isoVolName := isoName);
        }
      } else if pc == 3 {
        var volName := MainName(m.vmName);
        ok := Create(plan, 0, VolKey(m.pool, volName), MainVol(m));
        if ok {
          rec := rec.(poolName := m.pool, vmVolName := volName);
        }
      } else if pc == 4 {
        ok := AddDisks(m, plan);
      } else if pc == 5 {
        var volName := CidataName(m.vmName);
        ok := ProvisionImage(plan, VolKey("config", volName), plan(BuildIso, 0).Good?, m.cidata);
        if ok {
          rec := rec.(cidataVolName := volName);
        }
      } else if pc == 6 {
        var devices;
        ok, devices := MakeVM(m, plan);
      } else {
        if !plan(DomLookup, 0).Good? || rec.vmName !in inv.doms {
          return false;
        }
        var result := DomainCreate(plan(Start, 0), rec.vmName);
        ok := !result.StartFails?;
      }
    }

    // -------------------------------------------------------------- teardown

    method RemoveVolume(plan: Plan, i: nat, key: VolKey) returns (ok: bool)
      modifies this`inv
      ensures R(inv, ok) == RemoveVol(old(inv), plan, i, key)
    {
      var found := LookupVol(plan, i, key);
      if found.LookupFails? {
        return false;
      }
      if found.Absent? {
        return true;
      }
      ok := StorageVolDelete(plan(Delete, i), key);
    }

    method RemoveAdditionalDisks(plan: Plan, first: nat, pool: string) returns (ok: bool)
      modifies this`inv
      ensures R(inv, ok) == RemoveVols(old(inv), plan, first, DiskTargets(pool, rec.disks))
    {
      hide RemoveVol;
      for idx := 0 to |rec.disks|
        invariant RemoveVols(inv, plan, first + idx, DiskTargets(pool, rec.disks[idx..]))
               == RemoveVols(old(inv), plan, first, DiskTargets(pool, rec.disks))
      {
        var key := VolKey(pool, rec.disks[idx].volName);
        assert rec.disks[idx..][1..] == rec.disks[idx + 1..];
        RemoveOneVol(inv, plan, first + idx, key, DiskTargets(pool, rec.disks[idx + 1..]));
        ok := RemoveVolume(plan, first + idx, key);
        if !ok {
          return;
        }
      }
      ok := true;
    }

    method RemoveVMDomain(plan: Plan, vmName: string) returns (verdict: Verdict)
      modifies this`inv
      ensures D(inv, verdict) == RemoveDomain(old(inv), plan, vmName)
    {
      if !plan(DomLookup, 0).Good? {
        return Error;
      }
      if vmName !in inv.doms {
        return Done;
      }
      if !plan(DomGetState, 0).Good? {
        return Error;
      }
      var state := inv.doms[vmName];
      if state == Running {
        if plan(Destroy, 0).Fails? {
          return Error;
        }
        inv := inv.(doms := inv.doms[vmName := Shutoff]);
        return if plan(Destroy, 0).Good? then Retry else Error;
      } else if state == DomState.Shutdown {
        return Retry;
      } else if state == Shutoff {
        if plan(Undefine, 0).Fails? {
          return Error;
        }
        inv := inv.(doms := inv.doms - {vmName}, vols := inv.vols - {NvramKey(vmName)});
        return if plan(Undefine, 0).Good? then Done else Error;
      }
      return Retry;
    }

    /** One call of Deprovision: it removes nothing but the recorded volumes, the domain and its NVRAM file;
        after nil all of these are gone; and of what it deletes while the domain is defined, only the NVRAM
        volume is. */
    method DeprovisionOnce(vmName: string, plan: Plan) returns (verdict: Verdict)
      modifies this`inv
      ensures D(inv, verdict) == Call(old(inv), rec, vmName, plan)
      ensures Removes(old(inv), inv, Targets(rec) + Undefined(old(inv), inv, vmName))
      ensures inv.doms - {vmName} == old(inv).doms - {vmName}
      ensures verdict.Done? ==> vmName !in inv.doms && Targets(rec) !! inv.vols.Keys
      ensures forall i :: |old(inv).log| <= i < |inv.log| ==>
                inv.log[i].VolDeleted? && (vmName in inv.log[i].doms ==> inv.log[i].key == NvramTarget(rec))
    {
      ghost var before := inv;
      CallEffect(inv, rec, vmName, plan);
      forall i | |before.log| <= i < |Call(before, rec, vmName, plan).inv.log|
        ensures var e := Call(before, rec, vmName, plan).inv.log[i];
                e.VolDeleted? && (vmName in e.doms ==> e.key == NvramTarget(rec))
      {
        Ordering(before, rec, vmName, plan, i);
      }
      hide Call, Removes, Targets, NvramTarget;
      verdict := DoDeprovision(vmName, plan);
    }

    method DoDeprovision(vmName: string, plan: Plan) returns (verdict: Verdict)
      modifies this`inv
      ensures D(inv, verdict) == Call(old(inv), rec, vmName, plan)
    {
      hide RemoveVol, RemoveVols, RemoveDomain;
      if vmName == "" {
        return Retry;
      }
      var nvramName := if rec.vmNvramName != "" then rec.vmNvramName else rec.vmName + "_VARS.fd";
      var ok := RemoveVolume(plan, 0, VolKey("nvram", nvramName));
      if !ok {
        return Error;
      }
      verdict := RemoveVMDomain(plan, vmName);
      if !verdict.Done? {
        return;
      }
      ok := RemoveRecordedVols(plan);
      return if ok then Done else Error;
    }

    /** One recorded volume, skipped when it has no name; `rest` is what is still to come. */
    method RemoveNamed(plan: Plan, i: nat, pool: string, name: string, ghost rest: seq<VolKey>)
      returns (ok: bool, next: nat)
      modifies this`inv
      ensures RemoveVols(old(inv), plan, i, NamedTarget(pool, name) + rest)
           == if ok then RemoveVols(inv, plan, next, rest) else R(inv, false)
    {
      if name == "" {
        assert [] + rest == rest;
        return true, i;
      }
      RemoveOneVol(inv, plan, i, VolKey(pool, name), rest);
      ok := RemoveVolume(plan, i, VolKey(pool, name));
      next := i + 1;
    }

    /** The rest of that call, after the domain: main, ISO, additional disks and cidata, in this order. */
    method RemoveRecordedVols(plan: Plan) returns (ok: bool)
      modifies this`inv
      ensures R(inv, ok) == RemoveVols(old(inv), plan, 1, VolTargets(rec))
    {
      if rec.poolName == "" {
        return true;
      }
      hide *;
      VolTargetsParts(rec);
      ghost var last := DiskTargets(rec.poolName, rec.disks) + (NamedTarget("config", rec.cidataVolName) + []);
      var i: nat;
      ok, i := RemoveNamed(plan, 1, rec.poolName, rec.vmVolName, NamedTarget("isos", rec.isoVolName) + last);
      if !ok {
        return;
      }
      ok, i := RemoveNamed(plan, i, "isos", rec.isoVolName, last);
      if !ok {
        return;
      }
      ok := RemoveDisksAndCidata(plan, i);
    }

    method RemoveDisksAndCidata(plan: Plan, first: nat) returns (ok: bool)
      modifies this`inv
      ensures R(inv, ok)
           == RemoveVols(old(inv), plan, first,
                         DiskTargets(rec.poolName, rec.disks) + (NamedTarget("config", rec.cidataVolName) + []))
    {
      hide *;
      RemoveVolsSplit(inv, plan, first, DiskTargets(rec.poolName, rec.disks),
                      NamedTarget("config", rec.cidataVolName) + []);
      DiskTargetCount(rec.poolName, rec.disks);
      ok := RemoveAdditionalDisks(plan, first, rec.poolName);
      if !ok {
        return;
      }
      var i: nat;
      ok, i := RemoveNamed(plan, first + |rec.disks|, "config", rec.cidataVolName, []);
      RemoveNone(inv, plan, i);
    }
  }

  function NamedTarget(pool: string, name: string): seq<VolKey> {
    if name == "" then [] else [VolKey(pool, name)]
  }

  lemma {:induction false} VolTargetsParts(rec: Record)
    requires rec.poolName != ""
    ensures VolTargets(rec)
         == NamedTarget(rec.poolName, rec.vmVolName)
            + (NamedTarget("isos", rec.isoVolName)
               + (DiskTargets(rec.poolName, rec.disks) + (NamedTarget("config", rec.cidataVolName) + [])))
  {
    hide DiskTargets;
  }

  lemma {:induction false} RemoveNone(inv: Inventory, plan: Plan, i: nat)
    ensures RemoveVols(inv, plan, i, []) == R(inv, true)
  {
  }

  lemma {:induction false} SameTypes(ds: seq<DiskRec>, types: seq<string>)
    requires |types| == |ds| && forall k :: 0 <= k < |ds| ==> types[k] == ds[k].typ
    ensures KnownTypes(ds) <==> forall k :: 0 <= k < |types| ==> Disks.KnownType(types[k])
  {
    hide Disks.KnownType;
  }

  lemma {:induction false} DiskTargetCount(pool: string, ds: seq<DiskRec>)
    ensures |DiskTargets(pool, ds)| == |ds|
    decreases |ds|
  {
    if ds != [] {
      DiskTargetCount(pool, ds[1..]);
    }
  }
}
