/** What provisioning leaves and when its steps and a teardown call succeed, in literal terms: names, sizes and
    replies spelled out. */
module Outcomes {
  import opened Names
  import opened Libvirt
  import opened Provision
  import opened VolNames
  import opened Retry
  import opened Deprovision

  // ---------------------------------------------------------------- the inventory of a completed run

  /** Sizes below 2^34 GiB do not wrap. */
  lemma {:induction false} CapacityInBytes(size: nat)
    ensures Capacity(size) == (size * 1_073_741_824) % 18_446_744_073_709_551_616
    ensures size < 17_179_869_184 ==> Capacity(size) == size * 1_073_741_824
  {
  }

  /** Every volume of a step that is over is among those made, as that step made it. */
  lemma {:induction false} MadeAt(m: Machine, pools: set<string>, pc: nat, q: nat, k: VolKey)
    requires Safe(m) && q < pc <= 8 && k in StepVols(m, pools, q)
    ensures k in Made(m, pools, pc) && Made(m, pools, pc)[k] == StepVols(m, pools, q)[k]
    decreases pc
  {
    assert Made(m, pools, pc) == Made(m, pools, pc - 1) + StepVols(m, pools, pc - 1);
    StepVolsInKeys(m, pools, q);
    StepVolsInKeys(m, pools, pc - 1);
    hide Made, StepVols, StepKeys, Safe;
    if q < pc - 1 {
      MadeAt(m, pools, pc - 1, q, k);
      if k in StepVols(m, pools, pc - 1) {
        OwnKey(m, q, pc - 1, k);
      }
    }
  }

  lemma {:induction false} StepVolsInKeys(m: Machine, pools: set<string>, q: nat)
    ensures StepVols(m, pools, q).Keys <= StepKeys(m, q)
  {
  }

  lemma {:induction false} FixedVolumes(m: Machine, pools: set<string>)
    requires Safe(m)
    ensures var made := Made(m, pools, 8);
            && IsoKey(m) in made && made[IsoKey(m)] == Uploaded(m.iso)
            && MainKey(m) in made && made[MainKey(m)] == MainVol(m)
            && CidataKey(m) in made && made[CidataKey(m)] == Uploaded(m.cidata)
            && ("nvram" in pools ==> NvramKey(m.vmName) in made && made[NvramKey(m.vmName)] == Empty)
  {
    assert IsoKey(m) in StepVols(m, pools, 2) && MainKey(m) in StepVols(m, pools, 3);
    assert CidataKey(m) in StepVols(m, pools, 5);
    assert "nvram" in pools ==> NvramKey(m.vmName) in StepVols(m, pools, 6);
    hide Made, Safe, IsoKey, MainKey, CidataKey, NvramKey;
    MadeAt(m, pools, 8, 2, IsoKey(m));
    MadeAt(m, pools, 8, 3, MainKey(m));
    MadeAt(m, pools, 8, 5, CidataKey(m));
    if "nvram" in pools {
      MadeAt(m, pools, 8, 6, NvramKey(m.vmName));
    }
  }

  lemma {:induction false} DiskVolume(m: Machine, pools: set<string>, i: nat)
    requires Safe(m) && i < |m.disks|
    ensures DiskKey(m, i) in Made(m, pools, 8) && Made(m, pools, 8)[DiskKey(m, i)] == DiskVol(m.disks[i])
  {
    DiskVolsAt(m, |m.disks|, i);
    assert StepVols(m, pools, 4) == DiskVols(m, |m.disks|);
    hide Made, Safe, DiskKey, DiskVols;
    MadeAt(m, pools, 8, 4, DiskKey(m, i));
  }

  /** The keys of a machine's volumes, spelled out. */
  predicate OwnVolume(m: Machine, nvram: bool, k: VolKey) {
    || k == VolKey("isos", m.vmName + "-" + m.schematic + "-nocloud-amd64.iso")
    || k == VolKey(m.pool, m.vmName + "-volume")
    || (exists i :: 0 <= i < |m.disks| && k == VolKey(m.pool, m.vmName + "-" + Decimal(i) + "-" + m.disks[i].typ))
    || k == VolKey("config", "user-data-" + m.vmName + ".iso")
    || (nvram && k == VolKey("nvram", m.vmName + "_VARS.fd"))
  }

  lemma {:induction false} MadeIsOwn(m: Machine, pools: set<string>, k: VolKey)
    requires k in Made(m, pools, 8)
    ensures OwnVolume(m, "nvram" in pools, k)
  {
    MadeIn(m, pools, 8, k);
    var q :| 0 <= q < 8 && k in StepVols(m, pools, q);
    StepVolsInKeys(m, pools, q);
    StepKeyShape(m, q, k);
    if q == 4 {
      var i :| 0 <= i < |m.disks| && k == DiskKey(m, i);
    }
  }

  lemma {:induction false} MadeIn(m: Machine, pools: set<string>, pc: nat, k: VolKey)
    requires pc <= 8 && k in Made(m, pools, pc)
    ensures exists q :: 0 <= q < pc && k in StepVols(m, pools, q)
  {
    if k !in StepVols(m, pools, pc - 1) {
      MadeIn(m, pools, pc - 1, k);
    }
  }

  /** The volumes of a completed run: the ISO and the cidata with their contents, a raw main volume and every
      additional disk with its own type, of the requested GiB in bytes, the NVRAM file on hosts with that pool,
      and beside these exactly what was there before. */
  lemma {:induction false} CompletedVolumes(m: Machine, base: Inventory, turns: seq<Turn>)
    requires Fresh(m, base) && Run(m, Begin(base), turns).pc == STEPS
    ensures var v := Run(m, Begin(base), turns).st.inv.vols;
            var iso := VolKey("isos", m.vmName + "-" + m.schematic + "-nocloud-amd64.iso");
            var main := VolKey(m.pool, m.vmName + "-volume");
            var cidata := VolKey("config", "user-data-" + m.vmName + ".iso");
            && iso in v && v[iso] == Uploaded(m.iso)
            && main in v && v[main] == Blank("raw", (m.diskSize * 1_073_741_824) % 18_446_744_073_709_551_616)
            && cidata in v && v[cidata] == Uploaded(m.cidata)
            && ("nvram" in base.pools ==> VolKey("nvram", m.vmName + "_VARS.fd") in v)
            && (forall i :: 0 <= i < |m.disks| ==>
                  var disk := VolKey(m.pool, m.vmName + "-" + Decimal(i) + "-" + m.disks[i].typ);
                  disk in v && v[disk] == Blank(m.disks[i].typ,
                                                (m.disks[i].size * 1_073_741_824) % 18_446_744_073_709_551_616))
            && (forall k :: k in base.vols ==> k in v)
            && (forall k :: k in v ==>
                  OwnVolume(m, "nvram" in base.pools, k) || (k in base.vols && v[k] == base.vols[k]))
  {
    CompletedIsSafe(m, base, turns);
    CompletedRun(m, base, turns);
    FixedVolumes(m, base.pools);
    hide Run, Made, Fresh, Safe, OwnVolume, Disks.KnownType;
    forall i | 0 <= i < |m.disks|
      ensures DiskKey(m, i) in Made(m, base.pools, 8) && Made(m, base.pools, 8)[DiskKey(m, i)] == DiskVol(m.disks[i])
    {
      DiskVolume(m, base.pools, i);
    }
    forall k | k in Made(m, base.pools, 8) ensures OwnVolume(m, "nvram" in base.pools, k) {
      MadeIsOwn(m, base.pools, k);
    }
  }

  /** The rest of the state of a completed run: the record names all of it, the domain runs, and the two image
      pools exist. */
  lemma {:induction false} CompletedRecord(m: Machine, base: Inventory, turns: seq<Turn>)
    requires Fresh(m, base) && Run(m, Begin(base), turns).pc == STEPS
    ensures var s := Run(m, Begin(base), turns).st;
            && s.inv.doms == base.doms[m.vmName := Running]
            && s.inv.pools == base.pools + {"isos", "config"}
            && s.rec.schematic == m.schematic && s.rec.poolName == m.pool
            && s.rec.isoVolName == m.vmName + "-" + m.schematic + "-nocloud-amd64.iso"
            && s.rec.vmVolName == m.vmName + "-volume"
            && s.rec.cidataVolName == "user-data-" + m.vmName + ".iso"
            && s.rec.vmName == m.vmName && s.rec.vmNvramName == m.vmName + "_VARS.fd"
            && |s.rec.disks| == |m.disks|
            && forall i :: 0 <= i < |m.disks| ==>
                 s.rec.disks[i] == DiskRec(m.disks[i].typ, m.vmName + "-" + Decimal(i) + "-" + m.disks[i].typ)
  {
    CompletedRun(m, base, turns);
    hide Run, Made, Fresh;
    assert base.pools + {"isos"} + {"config"} == base.pools + {"isos", "config"};
    forall i | 0 <= i < |m.disks|
      ensures |DiskRecs(m, |m.disks|)| == |m.disks|
      ensures DiskRecs(m, |m.disks|)[i] == DiskRec(m.disks[i].typ, DiskVolName(m.vmName, i, m.disks[i].typ))
    {
      DiskRecsAt(m, |m.disks|, i);
    }
  }

  // ---------------------------------------------------------------- when a step succeeds

  /** The replies that making an image needs: a failed lookup of an old version does no harm. */
  predicate ImageAnswered(pools: set<string>, plan: Plan, pool: string) {
    && plan(PoolGet, 0).Good? && (pool in pools || plan(PoolCreate, 0).Good?)
    && plan(Op.Create, 0).Good? && plan(Upload, 0).Good? && plan(Path, 0).Good?
  }

  predicate DiskAnswered(m: Machine, pools: set<string>, plan: Plan, i: nat) {
    m.pool in pools && plan(PoolLookup, i).Good? && plan(Op.Create, i).Good?
  }

  /** The replies an attempt at step pc needs, from the state in which the step before has just succeeded. */
  predicate Answered(m: Machine, pools: set<string>, pc: nat, plan: Plan) {
    match pc
    case 0 => !plan(UuidLookup, 0).Good?
    case 1 => plan(Schematic, 0).Good?
    case 2 => plan(Acquire, 0).Good? && plan(Open, 0).Good? && ImageAnswered(pools, plan, "isos")
    case 3 => m.pool in pools && plan(PoolLookup, 0).Good? && plan(Op.Create, 0).Good? && plan(Path, 0).Good?
    case 4 => forall i :: 0 <= i < |m.disks| ==> DiskAnswered(m, pools, plan, i)
    case 5 => plan(BuildIso, 0).Good? && ImageAnswered(pools, plan, "config")
    case 6 => m.pool in pools && plan(Lookup, 0).Good? && KnownTypes(DiskRecs(m, |m.disks|))
              && plan(Define, 0).Good? && plan(Op.Start, 0).Good?
    case _ => plan(DomLookup, 0).Good? && !plan(Op.Start, 0).Fails?
  }

  lemma {:induction false} ImageSucceeds(inv: Inventory, plan: Plan, key: VolKey, content: string)
    requires key !in inv.vols
    ensures var prior := RemoveOld(inv, plan, 0, key);
            prior.ok && (CreateFrom(prior.inv, plan, 0, key, content).ok <==> ImageAnswered(inv.pools, plan, key.pool))
  {
    CreateFromExactly(inv, plan, 0, key, content);
    hide CreateFrom;
  }

  lemma {:induction false} DisksSucceed(m: Machine, inv: Inventory, plan: Plan, i: nat)
    requires i <= |m.disks| && forall j :: i <= j < |m.disks| ==> DiskKey(m, j) !in inv.vols
    ensures CreateDisks(m, inv, plan, i).ok <==>
              forall j :: i <= j < |m.disks| ==> DiskAnswered(m, inv.pools, plan, j)
    decreases |m.disks| - i
  {
    if i < |m.disks| {
      var r := CreateVolume(inv, plan, i, DiskKey(m, i), DiskVol(m.disks[i]));
      CreateVolumeExactly(inv, plan, i, DiskKey(m, i), DiskVol(m.disks[i]));
      CreateVolumeEffect(inv, plan, i, DiskKey(m, i), DiskVol(m.disks[i]));
      assert DiskKey(m, i).pool == m.pool;
      assert r.ok <==> DiskAnswered(m, inv.pools, plan, i);
      hide CreateVolume, DiskKey, DiskAnswered;
      if r.ok {
        forall j | i < j < |m.disks| ensures DiskKey(m, j) !in r.inv.vols {
          if DiskKey(m, j) == DiskKey(m, i) {
            DiskKeysDistinct(m, i, j);
          }
        }
        DisksSucceed(m, r.inv, plan, i + 1);
      }
    }
  }

  /** Between two steps the next one's volumes are not there. */
  lemma {:induction false} NothingYet(m: Machine, base: Inventory, pc: nat, s: St)
    requires Safe(m) && Fresh(m, base) && pc < STEPS && Exact(m, base, pc, s)
    ensures StepKeys(m, pc) !! s.inv.vols.Keys
    ensures pc == 6 ==> m.vmName !in s.inv.doms && MainKey(m) in s.inv.vols
    ensures pc == 7 ==> m.vmName in s.inv.doms && s.inv.doms[m.vmName].Running?
    ensures s.rec == RecordAt(m, pc)
  {
    StepKeysNew(m, base, pc);
    MainMade(m, base);
    hide Made, StepKeys, AllKeys, Safe, RecordAt, MainKey;
  }

  lemma {:induction false} DiskIsStepKey(m: Machine, i: nat)
    requires i < |m.disks|
    ensures DiskKey(m, i) in StepKeys(m, 4)
  {
    DiskVolsKeys(m, |m.disks|, DiskKey(m, i));
  }

  lemma {:induction false} DisksSucceedExactly(m: Machine, s: St, plan: Plan)
    requires StepKeys(m, 4) !! s.inv.vols.Keys
    ensures ProvisionAdditionalDisks(m, s, plan).ok <==> Answered(m, s.inv.pools, 4, plan)
  {
    forall i | 0 <= i < |m.disks| ensures DiskKey(m, i) !in s.inv.vols {
      DiskIsStepKey(m, i);
    }
    hide StepKeys, CreateDisks, DiskKey;
    DisksSucceed(m, s.inv, plan, 0);
  }

  /** createVM needs the main volume to be found, known disk types, and both libvirt calls. */
  lemma {:induction false} VMSucceeds(m: Machine, s: St, plan: Plan)
    requires s.rec == RecordAt(m, 6) && MainKey(m) in s.inv.vols && m.vmName !in s.inv.doms
    ensures CreateVM(m, s, plan).ok <==> Answered(m, s.inv.pools, 6, plan)
  {
    assert MainName(m.vmName)[|m.vmName|] == '-';
    hide KnownTypes, NvramKey, IsoName, CidataName, DiskRecs;
  }

  /** When a step's first attempt succeeds: exactly when each of the calls it needs is answered. */
  lemma {:induction false} SucceedsExactly(m: Machine, base: Inventory, pc: nat, s: St, plan: Plan)
    requires Safe(m) && Fresh(m, base) && pc < STEPS && Exact(m, base, pc, s)
    ensures Attempt(m, pc, s, plan).ok <==> Answered(m, s.inv.pools, pc, plan)
  {
    NothingYet(m, base, pc, s);
    RecordFields(m, pc);
    hide Exact, Fresh, Safe, RecordAt, RemoveOld, CreateFrom, CreateVolume, CreateVM, ProvisionAdditionalDisks;
    hide DiskVols;
    hide KnownTypes, DiskRecs, ImageAnswered, IsoName, CidataName, MainName, NvramKey;
    match pc {
      case 2 =>
        assert IsoKey(m) in StepKeys(m, 2);
        ImageSucceeds(s.inv, plan, IsoKey(m), m.iso);
      case 3 =>
        assert MainKey(m) in StepKeys(m, 3);
        CreateVolumeExactly(s.inv, plan, 0, MainKey(m), MainVol(m));
      case 4 => DisksSucceedExactly(m, s, plan);
      case 5 =>
        assert CidataKey(m) in StepKeys(m, 5);
        ImageSucceeds(s.inv, plan, CidataKey(m), m.cidata);
      case 6 => VMSucceeds(m, s, plan);
      case _ =>
    }
  }

  // ---------------------------------------------------------------- what a step leaves

  /** The volumes after an image was to be made: an old one that still stands is not overwritten. */
  function ImageLeft(inv: Inventory, plan: Plan, key: VolKey, content: string): map<VolKey, Vol> {
    var pool := plan(PoolGet, 0).Good? && (key.pool in inv.pools || plan(PoolCreate, 0).Good?);
    if !pool || key in inv.vols || plan(Op.Create, 0).Fails? then inv.vols
    else if plan(Op.Create, 0).Lost? then inv.vols[key := Empty]
    else if plan(Upload, 0).Good? then inv.vols[key := Uploaded(content)]
    else if !plan(Undo, 0).Fails? then inv.vols
    else inv.vols[key := if plan(Upload, 0).Fails? then Empty else Uploaded(content)]
  }

  /** The volumes after the disk loop from disk i on, where none of them was: those up to the first failure, and
      that one, too, if its creation took effect all the same. */
  function DisksLeft(m: Machine, inv: Inventory, plan: Plan, i: nat, vols: map<VolKey, Vol>): map<VolKey, Vol>
    requires i <= |m.disks|
    decreases |m.disks| - i
  {
    if i == |m.disks| || m.pool !in inv.pools || !plan(PoolLookup, i).Good? || plan(Op.Create, i).Fails? then vols
    else
      var more := vols[VolKey(m.pool, m.vmName + "-" + Decimal(i) + "-" + m.disks[i].typ)
                       := Blank(m.disks[i].typ, Capacity(m.disks[i].size))];
      if plan(Op.Create, i).Lost? then more else DisksLeft(m, inv, plan, i + 1, more)
  }

  lemma {:induction false} DiskLoopLeaves(m: Machine, inv: Inventory, start: Inventory, plan: Plan, i: nat)
    requires i <= |m.disks| && forall j :: i <= j < |m.disks| ==> DiskKey(m, j) !in inv.vols
    requires start.pools == inv.pools
    ensures var r := CreateDisks(m, inv, plan, i);
            r.inv.vols == DisksLeft(m, start, plan, i, inv.vols) && r.inv.doms == inv.doms && r.inv.pools == inv.pools
    decreases |m.disks| - i
  {
    if i < |m.disks| {
      var r := CreateVolume(inv, plan, i, DiskKey(m, i), DiskVol(m.disks[i]));
      CreateVolumeExactly(inv, plan, i, DiskKey(m, i), DiskVol(m.disks[i]));
      assert DiskKey(m, i).pool == m.pool;
      hide CreateVolume;
      if r.ok {
        forall j | i < j < |m.disks| ensures DiskKey(m, j) !in r.inv.vols {
          if DiskKey(m, j) == DiskKey(m, i) {
            DiskKeysDistinct(m, i, j);
          }
        }
        hide DiskKey;
        DiskLoopLeaves(m, r.inv, start, plan, i + 1);
      }
    }
  }

  /** The volumes that the first attempt at a step leaves, whether it succeeds or fails. */
  function VolumesLeft(m: Machine, inv: Inventory, pc: nat, plan: Plan): map<VolKey, Vol> {
    match pc
    case 2 => if plan(Acquire, 0).Good? && plan(Open, 0).Good? then ImageLeft(inv, plan, IsoKey(m), m.iso) else inv.vols
    case 3 => if m.pool in inv.pools && plan(PoolLookup, 0).Good? && !plan(Op.Create, 0).Fails?
              then inv.vols[MainKey(m) := MainVol(m)] else inv.vols
    case 4 => DisksLeft(m, inv, plan, 0, inv.vols)
    case 5 => if plan(BuildIso, 0).Good? then ImageLeft(inv, plan, CidataKey(m), m.cidata) else inv.vols
    case 6 => if "nvram" in inv.pools && Starts(m, inv.pools, plan)
              then inv.vols[NvramKey(m.vmName) := Empty] else inv.vols
    case _ => inv.vols
  }

  predicate Defines(m: Machine, pools: set<string>, plan: Plan) {
    m.pool in pools && plan(Lookup, 0).Good? && KnownTypes(DiskRecs(m, |m.disks|)) && !plan(Define, 0).Fails?
  }

  predicate Starts(m: Machine, pools: set<string>, plan: Plan) {
    Defines(m, pools, plan) && plan(Define, 0).Good? && !plan(Op.Start, 0).Fails?
  }

  /** ... and the domains: createVM defines its own, shut off, and then starts it. */
  function DomainsLeft(m: Machine, inv: Inventory, pc: nat, plan: Plan): map<string, DomState> {
    if pc != 6 || !Defines(m, inv.pools, plan) then inv.doms
    else inv.doms[m.vmName := if Starts(m, inv.pools, plan) then Running else Shutoff]
  }

  lemma {:induction false} ImageLeaves(inv: Inventory, plan: Plan, key: VolKey, content: string)
    requires key !in inv.vols
    ensures RemoveOld(inv, plan, 0, key) == R(inv, true)
    ensures var r := CreateFrom(inv, plan, 0, key, content).inv;
            r.vols == ImageLeft(inv, plan, key, content) && r.doms == inv.doms
  {
    CreateFromExactly(inv, plan, 0, key, content);
    hide CreateFrom;
  }

  lemma {:induction false} DisksLeave(m: Machine, s: St, plan: Plan)
    requires StepKeys(m, 4) !! s.inv.vols.Keys
    ensures var i := ProvisionAdditionalDisks(m, s, plan).st.inv;
            i.vols == DisksLeft(m, s.inv, plan, 0, s.inv.vols) && i.doms == s.inv.doms
  {
    forall i | 0 <= i < |m.disks| ensures DiskKey(m, i) !in s.inv.vols {
      DiskIsStepKey(m, i);
    }
    hide StepKeys, CreateDisks, DiskKey;
    DiskLoopLeaves(m, s.inv, s.inv, plan, 0);
  }

  lemma {:induction false} VMLeaves(m: Machine, s: St, plan: Plan)
    requires s.rec == RecordAt(m, 6) && MainKey(m) in s.inv.vols && m.vmName !in s.inv.doms
    requires NvramKey(m.vmName) !in s.inv.vols
    ensures var i := CreateVM(m, s, plan).st.inv;
            i.vols == VolumesLeft(m, s.inv, 6, plan) && i.doms == DomainsLeft(m, s.inv, 6, plan)
  {
    assert MainName(m.vmName)[|m.vmName|] == '-';
    hide KnownTypes, NvramKey, IsoName, CidataName, DiskRecs;
  }

  /** The volumes after an image step, from any state: nothing happens without the image; an old version that is
      found is deleted; if its deletion is reported as failed, or cidata cannot be built, that is all. */
  function RenewLeft(m: Machine, inv: Inventory, pc: nat, plan: Plan, key: VolKey, content: string): map<VolKey, Vol> {
    if pc == 2 && (!plan(Acquire, 0).Good? || !plan(Open, 0).Good?) then inv.vols
    else
      var found := plan(Lookup, 0).Good? && key.pool in inv.pools && key in inv.vols;
      var cleared := if found && !plan(Delete, 0).Fails? then inv.vols - {key} else inv.vols;
      if (found && !plan(Delete, 0).Good?) || (pc == 5 && !plan(BuildIso, 0).Good?) then cleared
      else ImageLeft(inv.(vols := cleared), plan, key, content)
  }

  /** What any attempt at an image step leaves, a repeated one included, for every pattern of replies. */
  lemma {:induction false} RenewsExactly(m: Machine, pc: nat, s: St, plan: Plan)
    requires (pc == 2 || pc == 5) && s.rec.schematic == m.schematic
    ensures var r := Attempt(m, pc, s, plan).st;
            var key, content := if pc == 2 then IsoKey(m) else CidataKey(m), if pc == 2 then m.iso else m.cidata;
            && r.inv.vols == RenewLeft(m, s.inv, pc, plan, key, content)
            && r.inv.doms == s.inv.doms && s.inv.pools <= r.inv.pools <= s.inv.pools + {key.pool}
  {
    hide RemoveOld, CreateFrom, IsoName, CidataName, ImageLeft;
    var key, content := if pc == 2 then IsoKey(m) else CidataKey(m), if pc == 2 then m.iso else m.cidata;
    RemoveOldExactly(s.inv, plan, 0, key);
    var prior := RemoveOld(s.inv, plan, 0, key).inv;
    ImageFrom(prior, plan, key, content);
    SameImage(prior, s.inv.(vols := prior.vols), plan, key, content);
  }

  lemma {:induction false} ImageFrom(inv: Inventory, plan: Plan, key: VolKey, content: string)
    ensures var r := CreateFrom(inv, plan, 0, key, content).inv;
            && r.vols == ImageLeft(inv, plan, key, content) && r.doms == inv.doms
            && inv.pools <= r.pools <= inv.pools + {key.pool}
  {
    CreateFromExactly(inv, plan, 0, key, content);
    hide CreateFrom;
  }

  lemma {:induction false} SameImage(a: Inventory, b: Inventory, plan: Plan, key: VolKey, content: string)
    requires a.vols == b.vols && a.pools == b.pools
    ensures ImageLeft(a, plan, key, content) == ImageLeft(b, plan, key, content)
  {
  }

  /** What the first attempt at any step leaves, for every pattern of replies. */
  lemma {:induction false} LeavesExactly(m: Machine, base: Inventory, pc: nat, s: St, plan: Plan)
    requires Safe(m) && Fresh(m, base) && pc < STEPS && Exact(m, base, pc, s)
    ensures var i := Attempt(m, pc, s, plan).st.inv;
            i.vols == VolumesLeft(m, s.inv, pc, plan) && i.doms == DomainsLeft(m, s.inv, pc, plan)
  {
    NothingYet(m, base, pc, s);
    RecordFields(m, pc);
    NvramIsStepKey(m);
    hide Exact, Fresh, Safe, RecordAt, RemoveOld, CreateFrom, ManagerCreate, CreateVM, ProvisionAdditionalDisks;
    hide DiskVols;
    hide KnownTypes, DiskRecs, ImageLeft, DisksLeft, IsoName, CidataName, MainName, NvramKey;
    match pc {
      case 2 =>
        assert IsoKey(m) in StepKeys(m, 2);
        ImageLeaves(s.inv, plan, IsoKey(m), m.iso);
      case 3 =>
        assert MainKey(m) in StepKeys(m, 3);
        ManagerCreateExactly(s.inv, plan, 0, MainKey(m), MainVol(m));
      case 4 => DisksLeave(m, s, plan);
      case 5 =>
        assert CidataKey(m) in StepKeys(m, 5);
        ImageLeaves(s.inv, plan, CidataKey(m), m.cidata);
      case 6 => VMLeaves(m, s, plan);
      case _ =>
    }
  }

  // ---------------------------------------------------------------- what a teardown call returns

  function First(keys: seq<VolKey>, n: nat): set<VolKey>
    requires n <= |keys|
  {
    set k | k in keys[..n]
  }

  /** The replies that removing the j-th volume needs, after those before it. */
  predicate Passable(inv: Inventory, plan: Plan, i: nat, keys: seq<VolKey>, j: nat)
    requires j < |keys|
  {
    && plan(Lookup, i + j).Good? && keys[j].pool in inv.pools
    && (keys[j] in inv.vols && keys[j] !in First(keys, j) ==> plan(Delete, i + j).Good?)
  }

  /** The deletion of the j-th volume takes effect and is reported as failed. */
  predicate LostDelete(inv: Inventory, plan: Plan, i: nat, keys: seq<VolKey>, j: nat)
    requires j < |keys|
  {
    && plan(Lookup, i + j).Good? && keys[j].pool in inv.pools
    && keys[j] in inv.vols && keys[j] !in First(keys, j) && plan(Delete, i + j).Lost?
  }

  lemma {:induction false} FirstCons(keys: seq<VolKey>, n: nat)
    requires keys != [] && n < |keys|
    ensures First(keys, n + 1) == {keys[0]} + First(keys[1..], n)
  {
    assert keys[..n + 1] == [keys[0]] + keys[1..][..n];
  }

  lemma {:induction false} PassableShift(inv: Inventory, after: Inventory, plan: Plan, i: nat, keys: seq<VolKey>,
                                         j: nat)
    requires j + 1 < |keys| && after.vols == inv.vols - {keys[0]} && after.pools == inv.pools
    ensures Passable(after, plan, i + 1, keys[1..], j) <==> Passable(inv, plan, i, keys, j + 1)
    ensures LostDelete(after, plan, i + 1, keys[1..], j) <==> LostDelete(inv, plan, i, keys, j + 1)
  {
    FirstCons(keys, j);
    hide First;
  }

  lemma {:induction false} RemoveFirst(inv: Inventory, plan: Plan, i: nat, keys: seq<VolKey>)
    requires keys != []
    ensures var r := RemoveVol(inv, plan, i, keys[0]);
            && (r.ok <==> Passable(inv, plan, i, keys, 0))
            && (r.ok || LostDelete(inv, plan, i, keys, 0) ==> r.inv.vols == inv.vols - {keys[0]})
            && (!r.ok && !LostDelete(inv, plan, i, keys, 0) ==> r.inv.vols == inv.vols)
            && r.inv.doms == inv.doms && r.inv.pools == inv.pools
  {
    assert First(keys, 0) == {};
    if keys[0] !in inv.vols {
      assert inv.vols - {keys[0]} == inv.vols;
    }
  }

  /** How many volumes are removed before the first failure. */
  function Passed(inv: Inventory, plan: Plan, i: nat, keys: seq<VolKey>, j: nat): (n: nat)
    requires j <= |keys|
    ensures j <= n <= |keys|
    ensures forall k :: j <= k < n ==> Passable(inv, plan, i, keys, k)
    ensures n < |keys| ==> !Passable(inv, plan, i, keys, n)
    decreases |keys| - j
  {
    if j < |keys| && Passable(inv, plan, i, keys, j) then Passed(inv, plan, i, keys, j + 1) else j
  }

  lemma {:induction false} PassedShift(inv: Inventory, after: Inventory, plan: Plan, i: nat, keys: seq<VolKey>, j: nat)
    requires j < |keys| && after.vols == inv.vols - {keys[0]} && after.pools == inv.pools
    ensures Passed(after, plan, i + 1, keys[1..], j) + 1 == Passed(inv, plan, i, keys, j + 1)
    decreases |keys| - j
  {
    hide Passable;
    if j + 1 < |keys| {
      PassableShift(inv, after, plan, i, keys, j);
      PassedShift(inv, after, plan, i, keys, j + 1);
    }
  }

  /** The removal loops delete in order up to the first failure: exactly the volumes before it are gone, and the
      failing one only if its deletion took effect all the same. */
  lemma {:induction false} RemovesInOrder(inv: Inventory, plan: Plan, i: nat, keys: seq<VolKey>)
    ensures var r, n := RemoveVols(inv, plan, i, keys), Passed(inv, plan, i, keys, 0);
            && (r.ok <==> n == |keys|) && r.inv.doms == inv.doms && r.inv.pools == inv.pools
            && r.inv.vols
               == inv.vols - First(keys, if n < |keys| && LostDelete(inv, plan, i, keys, n) then n + 1 else n)
    decreases |keys|
  {
    hide RemoveVol, First, Passable, LostDelete;
    if keys == [] {
      NoFirst(inv, keys);
    } else {
      var r := RemoveVol(inv, plan, i, keys[0]);
      RemoveFirst(inv, plan, i, keys);
      NoFirst(inv, keys);
      FirstCons(keys, 0);
      NoFirst(inv, keys[1..]);
      if r.ok {
        RemovesInOrder(r.inv, plan, i + 1, keys[1..]);
        PassedShift(inv, r.inv, plan, i, keys, 0);
        var n := Passed(r.inv, plan, i + 1, keys[1..], 0);
        if n + 1 < |keys| {
          PassableShift(inv, r.inv, plan, i, keys, n);
          FirstCons(keys, n + 1);
        }
        FirstCons(keys, n);
      }
    }
  }

  lemma {:induction false} NoFirst(inv: Inventory, keys: seq<VolKey>)
    ensures First(keys, 0) == {} && inv.vols - First(keys, 0) == inv.vols
  {
  }

  /** The inventory once the NVRAM volume is gone and the domain is undefined. */
  function Cleared(inv: Inventory, nvram: VolKey, vmName: string): (r: Inventory)
    ensures r.pools == inv.pools
  {
    inv.(vols := inv.vols - {nvram} - (if vmName in inv.doms then {NvramKey(vmName)} else {}),
         doms := inv.doms - {vmName})
  }

  /** When one call returns nil: exactly when each of its calls is answered, on a domain that is absent or shut
      off.  When it asks to be called again: without a name, and with a domain that is not shut off, once a
      running one has been destroyed.  In all other cases it fails. */
  lemma {:induction false} VerdictExactly(inv: Inventory, rec: Record, vmName: string, plan: Plan)
    ensures var verdict, nvram, targets := Call(inv, rec, vmName, plan).verdict, NvramTarget(rec), VolTargets(rec);
            var known := Passable(inv, plan, 0, [nvram], 0) && plan(DomLookup, 0).Good?
                         && (vmName in inv.doms ==> plan(DomGetState, 0).Good?);
            && (verdict.Done? <==>
                  && vmName != "" && known
                  && (vmName in inv.doms ==> inv.doms[vmName].Shutoff? && plan(Undefine, 0).Good?)
                  && forall j :: 0 <= j < |targets| ==> Passable(Cleared(inv, nvram, vmName), plan, 1, targets, j))
            && (verdict.Retry? <==>
                  vmName == ""
                  || (known && vmName in inv.doms && !inv.doms[vmName].Shutoff?
                      && (inv.doms[vmName].Running? ==> plan(Destroy, 0).Good?)))
  {
    var nvram, targets := NvramTarget(rec), VolTargets(rec);
    hide RemoveVol, RemoveDomain, RemoveVols, VolTargets, NvramTarget, Passable, Cleared;
    RemoveFirst(inv, plan, 0, [nvram]);
    var n := RemoveVol(inv, plan, 0, nvram);
    DomainVerdict(inv, n.inv, nvram, plan, vmName);
    var d := RemoveDomain(n.inv, plan, vmName);
    if n.ok && d.verdict.Done? {
      VolumesPass(d.inv, Cleared(inv, nvram, vmName), plan, targets);
    }
  }

  lemma {:induction false} DomainVerdict(inv: Inventory, n: Inventory, nvram: VolKey, plan: Plan, vmName: string)
    requires n.doms == inv.doms && n.pools == inv.pools
    ensures var d, there := RemoveDomain(n, plan, vmName), vmName in inv.doms;
            var known := plan(DomLookup, 0).Good? && (there ==> plan(DomGetState, 0).Good?);
            && (d.verdict.Done? <==> known && (there ==> inv.doms[vmName].Shutoff? && plan(Undefine, 0).Good?))
            && (d.verdict.Retry? <==>
                  known && there && !inv.doms[vmName].Shutoff?
                  && (inv.doms[vmName].Running? ==> plan(Destroy, 0).Good?))
            && (d.verdict.Done? && n.vols == inv.vols - {nvram} ==>
                  d.inv.vols == Cleared(inv, nvram, vmName).vols && d.inv.pools == inv.pools)
  {
    hide NvramKey;
    assert n.vols - {} == n.vols;
  }

  lemma {:induction false} VolumesPass(a: Inventory, b: Inventory, plan: Plan, targets: seq<VolKey>)
    requires a.vols == b.vols && a.pools == b.pools
    ensures RemoveVols(a, plan, 1, targets).ok <==> forall j :: 0 <= j < |targets| ==> Passable(b, plan, 1, targets, j)
  {
    hide RemoveVols, Passable;
    RemovesInOrder(a, plan, 1, targets);
    SamePassable(a, b, plan, 1, targets);
  }

  /** The domains after one call that finds the NVRAM volume gone or deletes it. */
  function DomainsAfter(inv: Inventory, plan: Plan, vmName: string): map<string, DomState> {
    if !plan(DomLookup, 0).Good? || vmName !in inv.doms || !plan(DomGetState, 0).Good? then inv.doms
    else if inv.doms[vmName].Running? && !plan(Destroy, 0).Fails? then inv.doms[vmName := Shutoff]
    else if inv.doms[vmName].Shutoff? && !plan(Undefine, 0).Fails? then inv.doms - {vmName}
    else inv.doms
  }

  /** What one call leaves, whatever fails: up to a failed removal of the NVRAM volume nothing else happens; the
      domain is destroyed or undefined next; and the recorded volumes go, in order and up to the first failure,
      only once it is gone. */
  lemma {:induction false} CallLeaves(inv: Inventory, rec: Record, vmName: string, plan: Plan)
    requires vmName != ""
    ensures var e, nvram, targets := Call(inv, rec, vmName, plan).inv, NvramTarget(rec), VolTargets(rec);
            var passed := Passable(inv, plan, 0, [nvram], 0);
            var gone := plan(DomLookup, 0).Good?
                        && (vmName in inv.doms ==> plan(DomGetState, 0).Good? && inv.doms[vmName].Shutoff?
                                                   && plan(Undefine, 0).Good?);
            && e.pools == inv.pools
            && e.doms == (if passed then DomainsAfter(inv, plan, vmName) else inv.doms)
            && (!passed ==>
                  e.vols == if LostDelete(inv, plan, 0, [nvram], 0) then inv.vols - {nvram} else inv.vols)
            && (passed && !gone ==>
                  e.vols == inv.vols - {nvram}
                            - (if vmName in inv.doms && vmName !in e.doms then {NvramKey(vmName)} else {}))
            && (passed && gone ==>
                  var c := Cleared(inv, nvram, vmName);
                  var n := Passed(c, plan, 1, targets, 0);
                  e.vols == c.vols - First(targets, if n < |targets| && LostDelete(c, plan, 1, targets, n)
                                                    then n + 1 else n))
  {
    var nvram, targets := NvramTarget(rec), VolTargets(rec);
    hide RemoveVol, RemoveDomain, RemoveVols, VolTargets, NvramTarget, Passable, LostDelete, Cleared, First;
    hide DomainsAfter;
    RemoveFirst(inv, plan, 0, [nvram]);
    var n := RemoveVol(inv, plan, 0, nvram);
    DomainVerdict(inv, n.inv, nvram, plan, vmName);
    DomainLeaves(inv, n.inv, plan, vmName);
    var d := RemoveDomain(n.inv, plan, vmName);
    if n.ok && d.verdict.Done? {
      var c := Cleared(inv, nvram, vmName);
      RemovesInOrder(d.inv, plan, 1, targets);
      SamePassed(d.inv, c, plan, 1, targets, 0);
      SamePassable(d.inv, c, plan, 1, targets);
    }
  }

  lemma {:induction false} DomainLeaves(inv: Inventory, n: Inventory, plan: Plan, vmName: string)
    requires n.doms == inv.doms && n.pools == inv.pools
    ensures var e := RemoveDomain(n, plan, vmName).inv;
            && e.doms == DomainsAfter(inv, plan, vmName) && e.pools == inv.pools
            && e.vols == n.vols - (if vmName in inv.doms && vmName !in e.doms then {NvramKey(vmName)} else {})
  {
    hide NvramKey;
    assert n.vols - {} == n.vols;
  }

  lemma {:induction false} SamePassed(a: Inventory, b: Inventory, plan: Plan, i: nat, keys: seq<VolKey>, j: nat)
    requires a.vols == b.vols && a.pools == b.pools && j <= |keys|
    ensures Passed(a, plan, i, keys, j) == Passed(b, plan, i, keys, j)
    ensures forall k :: 0 <= k < |keys| ==> LostDelete(a, plan, i, keys, k) == LostDelete(b, plan, i, keys, k)
    decreases |keys| - j
  {
    hide First;
    if j < |keys| {
      SamePassed(a, b, plan, i, keys, j + 1);
    }
  }

  lemma {:induction false} SamePassable(a: Inventory, b: Inventory, plan: Plan, i: nat, keys: seq<VolKey>)
    requires a.vols == b.vols && a.pools == b.pools
    ensures (forall j :: 0 <= j < |keys| ==> Passable(a, plan, i, keys, j)) <==>
              (forall j :: 0 <= j < |keys| ==> Passable(b, plan, i, keys, j))
    ensures Passed(a, plan, i, keys, 0) == |keys| <==> forall j :: 0 <= j < |keys| ==> Passable(a, plan, i, keys, j)
  {
    forall j | 0 <= j < |keys| ensures Passable(a, plan, i, keys, j) <==> Passable(b, plan, i, keys, j) {
    }
    hide Passable;
  }

  /** The volumes of a complete record, in the order in which they are removed: main, ISO, additional disks in
      their order, cidata; and before them all the NVRAM volume, by its recorded name or the machine's. */
  lemma {:induction false} TargetsInOrder(rec: Record)
    requires rec.poolName != "" && rec.vmVolName != "" && rec.isoVolName != "" && rec.cidataVolName != ""
    ensures var t := VolTargets(rec);
            && |t| == |rec.disks| + 3
            && t[0] == VolKey(rec.poolName, rec.vmVolName) && t[1] == VolKey("isos", rec.isoVolName)
            && (forall i :: 0 <= i < |rec.disks| ==> t[2 + i] == VolKey(rec.poolName, rec.disks[i].volName))
            && t[|rec.disks| + 2] == VolKey("config", rec.cidataVolName)
    ensures NvramTarget(rec) ==
            VolKey("nvram", if rec.vmNvramName != "" then rec.vmNvramName else rec.vmName + "_VARS.fd")
  {
    DiskTargetAt(rec.poolName, rec.disks);
    hide DiskTargets;
  }

  lemma {:induction false} DiskTargetAt(pool: string, ds: seq<DiskRec>)
    ensures var t := DiskTargets(pool, ds);
            |t| == |ds| && forall i :: 0 <= i < |ds| ==> t[i] == VolKey(pool, ds[i].volName)
    decreases |ds|
  {
    if ds != [] {
      DiskTargetAt(pool, ds[1..]);
    }
  }
}
