/** libvirt as the provider sees it: pools, volumes by (pool, name), domains by name, and calls any of
    which may fail, with or without having taken effect. */
module Libvirt {
  datatype VolKey = VolKey(pool: string, name: string)

  /** A thin volume of some format and capacity, an uploaded image, or a volume without its content. */
  datatype Vol = Blank(format: string, capacity: nat) | Uploaded(content: string) | Empty

  datatype DomState = NoState | Running | Blocked | Paused | Shutdown | Shutoff | Crashed | PMSuspended

  /** What was done to the inventory, in order; a deletion notes the domains defined at that moment. */
  datatype Event =
    | VolCreated(key: VolKey)
    | VolWritten(key: VolKey)
    | VolDeleted(key: VolKey, doms: set<string>)

  datatype Inventory = Inventory(
    pools: set<string>, vols: map<VolKey, Vol>, doms: map<string, DomState>, log: seq<Event>)

  datatype Op =
    | UuidLookup | Schematic | Acquire | Open | Lookup | PoolLookup | PoolGet | PoolCreate | Create | Upload | Undo
    | Path | Delete | BuildIso | Define | DomLookup | DomGetState | Start | Destroy | Undefine

  /** Lost: the call took effect, but its caller sees an error. */
  datatype Reply = Good | Fails | Lost

  /** The replies of one attempt, by call and position of the call in the attempt. */
  type Plan = (Op, nat) -> Reply

  datatype R = R(inv: Inventory, ok: bool)

  datatype Found = Present | Absent | LookupFails

  /** getVol, in both places: no volume is told apart from no pool and from a failed call. */
  function GetVol(inv: Inventory, plan: Plan, i: nat, key: VolKey): Found {
    if !plan(Lookup, i).Good? || key.pool !in inv.pools then LookupFails
    else if key in inv.vols then Present
    else Absent
  }

  function DeleteVol(inv: Inventory, reply: Reply, key: VolKey): R {
    if reply.Fails? then R(inv, false)
    else R(inv.(vols := inv.vols - {key}, log := inv.log + [VolDeleted(key, inv.doms.Keys)]), reply.Good?)
  }

  /** StorageVolCreateXML refuses an existing name. */
  function CreateVol(inv: Inventory, reply: Reply, key: VolKey, vol: Vol): R {
    if reply.Fails? || key in inv.vols then R(inv, false)
    else R(inv.(vols := inv.vols[key := vol], log := inv.log + [VolCreated(key)]), reply.Good?)
  }

  /** createVolume of volumes.go: an existing volume is success; a failed lookup counts as absent. */
  function CreateVolume(inv: Inventory, plan: Plan, i: nat, key: VolKey, vol: Vol): R {
    if GetVol(inv, plan, i, key).Present? then R(inv, true)
    else if !plan(PoolLookup, i).Good? || key.pool !in inv.pools then R(inv, false)
    else CreateVol(inv, plan(Create, i), key, vol)
  }

  /** Manager.Create of pool.go: the same, and the path of the volume, found or created. */
  function ManagerCreate(inv: Inventory, plan: Plan, i: nat, key: VolKey, vol: Vol): R {
    var r := CreateVolume(inv, plan, i, key, vol);
    R(r.inv, r.ok && plan(Path, i).Good?)
  }

  /** createOrGetPool. */
  function PoolFor(inv: Inventory, plan: Plan, i: nat, pool: string): R {
    if !plan(PoolGet, i).Good? then R(inv, false)
    else if pool in inv.pools then R(inv, true)
    else if plan(PoolCreate, i).Fails? then R(inv, false)
    else R(inv.(pools := inv.pools + {pool}), plan(PoolCreate, i).Good?)
  }

  /** CreateFrom: create, upload, and on a failed upload try to delete again, ignoring how that goes. */
  function CreateFrom(inv: Inventory, plan: Plan, i: nat, key: VolKey, content: string): R {
    var p := PoolFor(inv, plan, i, key.pool);
    if !p.ok then p
    else
      var c := CreateVol(p.inv, plan(Create, i), key, Empty);
      if !c.ok then c
      else
        var up := plan(Upload, i);
        var w := if up.Fails? then c.inv
                 else c.inv.(vols := c.inv.vols[key := Uploaded(content)], log := c.inv.log + [VolWritten(key)]);
        if up.Good? then R(w, plan(Path, i).Good?) else R(DeleteVol(w, plan(Undo, i), key).inv, false)
  }

  /** "If volume exists, delete old version": a lookup that fails counts as no old version. */
  function RemoveOld(inv: Inventory, plan: Plan, i: nat, key: VolKey): R {
    if GetVol(inv, plan, i, key).Present? then DeleteVol(inv, plan(Delete, i), key) else R(inv, true)
  }

  // ---------------------------------------------------------------- domains

  /** The NVRAM file libvirt keeps for a UEFI domain, as the pool "nvram" lists it. */
  function NvramKey(vmName: string): VolKey {
    VolKey("nvram", vmName + "_VARS.fd")
  }

  /** DomainDefineXML: a new domain is shut off, a redefined one keeps its state. */
  function DefineDomain(inv: Inventory, reply: Reply, name: string): R {
    if reply.Fails? then R(inv, false)
    else R(if name in inv.doms then inv else inv.(doms := inv.doms[name := Shutoff]), reply.Good?)
  }

  datatype Started = DidStart | AlreadyRunning | StartFails

  datatype S = S(inv: Inventory, result: Started)

  /** A domain that libvirt refuses to start: whatever is neither shut off nor crashed is active. */
  predicate Active(state: DomState) {
    !state.Shutoff? && !state.Crashed?
  }

  /** DomainCreate; the first start brings the NVRAM file into its pool, on hosts that have one. */
  function StartDomain(inv: Inventory, reply: Reply, name: string): S
    requires name in inv.doms
  {
    if reply.Fails? then S(inv, StartFails)
    else if Active(inv.doms[name]) then S(inv, AlreadyRunning)
    else
      var key := NvramKey(name);
      S(inv.(doms := inv.doms[name := Running],
             vols := if "nvram" in inv.pools && key !in inv.vols then inv.vols[key := Empty] else inv.vols),
        if reply.Good? then DidStart else StartFails)
  }

  function DestroyDomain(inv: Inventory, reply: Reply, name: string): R {
    if reply.Fails? then R(inv, false) else R(inv.(doms := inv.doms[name := Shutoff]), reply.Good?)
  }

  /** DomainUndefineFlags with the NVRAM flag: the domain goes and its NVRAM file with it. */
  function UndefineDomain(inv: Inventory, reply: Reply, name: string): R {
    if reply.Fails? then R(inv, false)
    else R(inv.(doms := inv.doms - {name}, vols := inv.vols - {NvramKey(name)}), reply.Good?)
  }

  /** Between two attempts or calls the guest may power off, by itself or because it was asked to. */
  datatype Turn = Try(plan: Plan) | PowerOff

  function PoweredOff(inv: Inventory, name: string): Inventory {
    if name in inv.doms && (inv.doms[name].Running? || inv.doms[name].Shutdown?)
    then inv.(doms := inv.doms[name := Shutoff]) else inv
  }

  // ---------------------------------------------------------------- effects of the volume calls

  /** Nothing but the volume `key` may differ, and only a volume key is in the new log entries. */
  ghost predicate OnlyVol(a: Inventory, b: Inventory, key: VolKey) {
    && b.vols - {key} == a.vols - {key} && b.doms == a.doms
    && a.log <= b.log && forall i :: |a.log| <= i < |b.log| ==> b.log[i].key == key
  }

  lemma {:induction false} OnlyVolTransitive(a: Inventory, b: Inventory, c: Inventory, key: VolKey)
    requires OnlyVol(a, b, key) && OnlyVol(b, c, key)
    ensures OnlyVol(a, c, key)
  {
    forall i | |a.log| <= i < |c.log| ensures c.log[i].key == key {
      if i < |b.log| {
        assert c.log[i] == b.log[i];
      }
    }
  }

  lemma {:induction false} DeleteEffect(inv: Inventory, reply: Reply, key: VolKey)
    ensures var r := DeleteVol(inv, reply, key);
            OnlyVol(inv, r.inv, key) && r.inv.pools == inv.pools && (r.ok ==> key !in r.inv.vols)
  {
    assert (inv.vols - {key}) - {key} == inv.vols - {key};
  }

  lemma {:induction false} CreateVolEffect(inv: Inventory, reply: Reply, key: VolKey, vol: Vol)
    ensures var r := CreateVol(inv, reply, key, vol);
            && OnlyVol(inv, r.inv, key) && r.inv.pools == inv.pools
            && (r.ok ==> key !in inv.vols && r.inv.vols == inv.vols[key := vol])
            && (key in r.inv.vols && key !in inv.vols ==> r.inv.vols[key] == vol)
            && (key in inv.vols ==> r.inv == inv)
  {
    if key !in inv.vols {
      assert inv.vols[key := vol] - {key} == inv.vols - {key};
    }
  }

  /** createVolume is idempotent: a volume it finds is kept as it is, whatever its format and size, one it
      creates has the wanted shape, and after success one is there, whatever failed before. */
  lemma {:induction false} CreateVolumeEffect(inv: Inventory, plan: Plan, i: nat, key: VolKey, vol: Vol)
    ensures var r := CreateVolume(inv, plan, i, key, vol);
            && OnlyVol(inv, r.inv, key) && r.inv.pools == inv.pools
            && (key in inv.vols ==> r.inv == inv)
            && (key !in inv.vols ==> r.inv.vols == inv.vols || r.inv.vols == inv.vols[key := vol])
            && (r.ok ==> key in r.inv.vols && key.pool in inv.pools)
  {
    CreateVolEffect(inv, plan(Create, i), key, vol);
  }

  /** When createVolume succeeds: the volume is found, or it is not there and can be made.  A failed lookup of
      a volume that is there makes it try to create one, which libvirt refuses. */
  lemma {:induction false} CreateVolumeExactly(inv: Inventory, plan: Plan, i: nat, key: VolKey, vol: Vol)
    ensures var r := CreateVolume(inv, plan, i, key, vol);
            && (r.ok <==> key.pool in inv.pools &&
                          if key in inv.vols then plan(Lookup, i).Good?
                          else plan(PoolLookup, i).Good? && plan(Create, i).Good?)
            && r.inv.vols == (if key !in inv.vols && key.pool in inv.pools && plan(PoolLookup, i).Good?
                                 && !plan(Create, i).Fails?
                              then inv.vols[key := vol] else inv.vols)
            && r.inv.doms == inv.doms && r.inv.pools == inv.pools
  {
  }

  /** CreateFrom touches one volume, and after success it holds the content. */
  lemma {:induction false} CreateFromEffect(inv: Inventory, plan: Plan, i: nat, key: VolKey, content: string)
    ensures var r := CreateFrom(inv, plan, i, key, content);
            && OnlyVol(inv, r.inv, key)
            && inv.pools <= r.inv.pools <= inv.pools + {key.pool}
            && (r.ok ==>
                  key !in inv.vols && r.inv.vols == inv.vols[key := Uploaded(content)] && key.pool in r.inv.pools)
  {
    hide OnlyVol;
    var p := PoolFor(inv, plan, i, key.pool);
    OnlyVolPools(inv, p.inv, key);
    if p.ok {
      var c := CreateVol(p.inv, plan(Create, i), key, Empty);
      CreateVolEffect(p.inv, plan(Create, i), key, Empty);
      OnlyVolTransitive(inv, p.inv, c.inv, key);
      if c.ok {
        var w := c.inv.(vols := c.inv.vols[key := Uploaded(content)], log := c.inv.log + [VolWritten(key)]);
        WriteEffect(c.inv, key, content);
        OnlyVolTransitive(inv, c.inv, w, key);
        DeleteEffect(w, plan(Undo, i), key);
        OnlyVolTransitive(inv, w, DeleteVol(w, plan(Undo, i), key).inv, key);
        DeleteEffect(c.inv, plan(Undo, i), key);
        OnlyVolTransitive(inv, c.inv, DeleteVol(c.inv, plan(Undo, i), key).inv, key);
        assert inv.vols[key := Empty][key := Uploaded(content)] == inv.vols[key := Uploaded(content)];
      }
    }
  }

  /** Manager.Create makes or finds the volume whatever becomes of the path, without which it fails. */
  lemma {:induction false} ManagerCreateExactly(inv: Inventory, plan: Plan, i: nat, key: VolKey, vol: Vol)
    ensures var r := ManagerCreate(inv, plan, i, key, vol);
            && (r.ok <==> plan(Path, i).Good? && key.pool in inv.pools &&
                          if key in inv.vols then plan(Lookup, i).Good?
                          else plan(PoolLookup, i).Good? && plan(Create, i).Good?)
            && r.inv.vols == (if key !in inv.vols && key.pool in inv.pools && plan(PoolLookup, i).Good?
                                 && !plan(Create, i).Fails?
                              then inv.vols[key := vol] else inv.vols)
            && r.inv.doms == inv.doms && r.inv.pools == inv.pools
  {
  }

  /** createOrGetPool succeeds when the pool is looked up, and found or made; nothing but the pool changes. */
  lemma {:induction false} PoolForExactly(inv: Inventory, plan: Plan, i: nat, pool: string)
    ensures var r := PoolFor(inv, plan, i, pool);
            && (r.ok <==> plan(PoolGet, i).Good? && (pool in inv.pools || plan(PoolCreate, i).Good?))
            && r.inv == inv.(pools := r.inv.pools)
            && (r.inv.pools == inv.pools + {pool} <==>
                  pool in inv.pools || (plan(PoolGet, i).Good? && !plan(PoolCreate, i).Fails?))
            && (r.inv.pools == inv.pools || r.inv.pools == inv.pools + {pool})
  {
    if pool in inv.pools {
      assert inv.pools + {pool} == inv.pools;
    }
  }

  /** What CreateFrom leaves, however it ends: nothing without its pool or when the creation is refused; an
      empty volume when the creation is reported as failed although it took effect; after a failed upload
      nothing, unless the undo fails, too, and then the volume as the upload left it; and after a failed path
      lookup the whole image. */
  lemma {:induction false} CreateFromExactly(inv: Inventory, plan: Plan, i: nat, key: VolKey, content: string)
    ensures var r := CreateFrom(inv, plan, i, key, content);
            var pool := plan(PoolGet, i).Good? && (key.pool in inv.pools || plan(PoolCreate, i).Good?);
            var made, create, upload := pool && key !in inv.vols, plan(Create, i), plan(Upload, i);
            && (r.ok <==> made && create.Good? && upload.Good? && plan(Path, i).Good?)
            && (!made || create.Fails? ==> r.inv.vols == inv.vols)
            && (made && create.Lost? ==> r.inv.vols == inv.vols[key := Empty])
            && (made && create.Good? && !upload.Good? && !plan(Undo, i).Fails? ==> r.inv.vols == inv.vols)
            && (made && create.Good? && upload.Fails? && plan(Undo, i).Fails? ==> r.inv.vols == inv.vols[key := Empty])
            && (made && create.Good? && upload.Lost? && plan(Undo, i).Fails? ==>
                  r.inv.vols == inv.vols[key := Uploaded(content)])
            && (made && create.Good? && upload.Good? ==> r.inv.vols == inv.vols[key := Uploaded(content)])
            && r.inv.doms == inv.doms
            && r.inv.pools == inv.pools + (if plan(PoolGet, i).Good? && key.pool !in inv.pools
                                              && !plan(PoolCreate, i).Fails? then {key.pool} else {})
  {
    PoolForExactly(inv, plan, i, key.pool);
    hide PoolFor;
    var vols := inv.vols;
    if key !in vols {
      assert vols[key := Empty] - {key} == vols;
      assert vols[key := Empty][key := Uploaded(content)] == vols[key := Uploaded(content)];
      assert vols[key := Uploaded(content)] - {key} == vols;
    }
  }

  lemma {:induction false} OnlyVolPools(a: Inventory, b: Inventory, key: VolKey)
    requires b == a.(pools := b.pools)
    ensures OnlyVol(a, b, key)
  {
  }

  lemma {:induction false} WriteEffect(inv: Inventory, key: VolKey, content: string)
    ensures OnlyVol(inv, inv.(vols := inv.vols[key := Uploaded(content)], log := inv.log + [VolWritten(key)]), key)
  {
    assert inv.vols[key := Uploaded(content)] - {key} == inv.vols - {key};
  }

  /** An old version is deleted only when it is found; a failed lookup passes for none. */
  lemma {:induction false} RemoveOldExactly(inv: Inventory, plan: Plan, i: nat, key: VolKey)
    ensures var r := RemoveOld(inv, plan, i, key);
            var found := plan(Lookup, i).Good? && key.pool in inv.pools && key in inv.vols;
            && (r.ok <==> !found || plan(Delete, i).Good?)
            && r.inv.vols == (if found && !plan(Delete, i).Fails? then inv.vols - {key} else inv.vols)
            && r.inv.doms == inv.doms && r.inv.pools == inv.pools
  {
  }

  lemma {:induction false} RemoveOldEffect(inv: Inventory, plan: Plan, i: nat, key: VolKey)
    ensures var r := RemoveOld(inv, plan, i, key);
            OnlyVol(inv, r.inv, key) && r.inv.pools == inv.pools
  {
    DeleteEffect(inv, plan(Delete, i), key);
  }
}
