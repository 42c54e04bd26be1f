/** ProvisionSteps as a machine of re-runnable steps over the inventory and the machine's record. */
module Provision {
  import opened Names
  import opened Libvirt
  import Disks
  import Wire

  const GIB: nat := 1024 * 1024 * 1024

  datatype DiskData = DiskData(typ: string, size: nat)

  /** What is fixed for one machine request: its id, schematic and provider data, and the two images. */
  datatype Machine = Machine(vmName: string, schematic: string, pool: string, disks: seq<DiskData>, diskSize: nat,
                             iso: string, cidata: string)

  datatype DiskRec = DiskRec(typ: string, volName: string)

  /** The fields of MachineSpec that provisioning writes and teardown reads. */
  datatype Record = Record(
    schematic: string, isoVolName: string, poolName: string, vmVolName: string, disks: seq<DiskRec>,
    cidataVolName: string, vmName: string, vmNvramName: string)

  const EMPTY_RECORD := Record("", "", "", "", [], "", "", "")

  datatype St = St(inv: Inventory, rec: Record)
  datatype Res = Res(st: St, ok: bool)

  // ---------------------------------------------------------------- names

  function MainName(vmName: string): string { vmName + "-volume" }

  function DiskVolName(vmName: string, idx: nat, typ: string): string { vmName + "-" + Decimal(idx) + "-" + typ }

  function IsoName(vmName: string, schematic: string): string { vmName + "-" + schematic + "-nocloud-amd64.iso" }

  function CidataName(vmName: string): string { "user-data-" + vmName + ".iso" }

  function MainKey(m: Machine): VolKey { VolKey(m.pool, MainName(m.vmName)) }

  function DiskKey(m: Machine, i: nat): VolKey
    requires i < |m.disks|
  {
    VolKey(m.pool, DiskVolName(m.vmName, i, m.disks[i].typ))
  }

  function IsoKey(m: Machine): VolKey { VolKey("isos", IsoName(m.vmName, m.schematic)) }

  function CidataKey(m: Machine): VolKey { VolKey("config", CidataName(m.vmName)) }

  /** Sizes are GiB in a uint64. */
  function Capacity(size: nat): nat { (size * GIB) % Wire.TWO64 }

  function MainVol(m: Machine): Vol { Blank("raw", Capacity(m.diskSize)) }

  function DiskVol(d: DiskData): Vol { Blank(d.typ, Capacity(d.size)) }

  function DiskRecs(m: Machine, n: nat): seq<DiskRec>
    requires n <= |m.disks|
  {
    if n == 0 then []
    else DiskRecs(m, n - 1) + [DiskRec(m.disks[n - 1].typ, DiskVolName(m.vmName, n - 1, m.disks[n - 1].typ))]
  }

  // ---------------------------------------------------------------- the steps

  function ProvisionISO(m: Machine, s: St, plan: Plan): Res {
    var key := VolKey("isos", IsoName(m.vmName, s.rec.schematic));
    if !plan(Acquire, 0).Good? || !plan(Open, 0).Good? then Res(s, false)
    else
      var prior := RemoveOld(s.inv, plan, 0, key);
      if !prior.ok then Res(s.(inv := prior.inv), false)
      else
        var r := CreateFrom(prior.inv, plan, 0, key, m.iso);
        Res(St(r.inv, if r.ok then s.rec.(isoVolName := key.name) else s.rec), r.ok)
  }

  function ProvisionVMVolume(m: Machine, s: St, plan: Plan): Res {
    var r := ManagerCreate(s.inv, plan, 0, MainKey(m), MainVol(m));
    Res(St(r.inv, if r.ok then s.rec.(poolName := m.pool, vmVolName := MainName(m.vmName)) else s.rec), r.ok)
  }

  /** The loop from disk i on; the first failure returns, and volumes already created stay. */
  function CreateDisks(m: Machine, inv: Inventory, plan: Plan, i: nat): R
    requires i <= |m.disks|
    decreases |m.disks| - i
  {
    if i == |m.disks| then R(inv, true)
    else
      var r := CreateVolume(inv, plan, i, DiskKey(m, i), DiskVol(m.disks[i]));
      if !r.ok then r else CreateDisks(m, r.inv, plan, i + 1)
  }

  function ProvisionAdditionalDisks(m: Machine, s: St, plan: Plan): Res {
    if m.disks == [] then Res(s, true)
    else
      var r := CreateDisks(m, s.inv, plan, 0);
      Res(St(r.inv, if r.ok then s.rec.(disks := DiskRecs(m, |m.disks|)) else s.rec), r.ok)
  }

  function ProvisionCidata(m: Machine, s: St, plan: Plan): Res {
    var key := CidataKey(m);
    var prior := RemoveOld(s.inv, plan, 0, key);
    if !prior.ok || !plan(BuildIso, 0).Good? then Res(s.(inv := prior.inv), false)
    else
      var r := CreateFrom(prior.inv, plan, 0, key, m.cidata);
      Res(St(r.inv, if r.ok then s.rec.(cidataVolName := key.name) else s.rec), r.ok)
  }

  predicate KnownTypes(ds: seq<DiskRec>) {
    forall i :: 0 <= i < |ds| ==> Disks.KnownType(ds[i].typ)
  }

  /** Define, then start: a domain that already runs is an error here. */
  function CreateVM(m: Machine, s: St, plan: Plan): Res {
    var key := VolKey(m.pool, s.rec.vmVolName);
    if s.rec.vmVolName == "" || !GetVol(s.inv, plan, 0, key).Present? || !KnownTypes(s.rec.disks)
    then Res(s, false)
    else
      var d := DefineDomain(s.inv, plan(Define, 0), m.vmName);
      if !d.ok then Res(s.(inv := d.inv), false)
      else
        var r := StartDomain(d.inv, plan(Start, 0), m.vmName);
        if !r.result.DidStart? then Res(s.(inv := r.inv), false)
        else Res(St(r.inv, s.rec.(vmName := m.vmName, vmNvramName := NvramKey(m.vmName).name)), true)
  }

  /** ... and success here. */
  function StartVM(s: St, plan: Plan): Res {
    if !plan(DomLookup, 0).Good? || s.rec.vmName !in s.inv.doms then Res(s, false)
    else
      var r := StartDomain(s.inv, plan(Start, 0), s.rec.vmName);
      Res(s.(inv := r.inv), !r.result.StartFails?)
  }

  const STEPS: nat := 8

  /** One attempt at step pc.  A UUID is free exactly when looking it up fails. */
  function Attempt(m: Machine, pc: nat, s: St, plan: Plan): Res
    requires pc < STEPS
  {
    match pc
    case 0 => Res(s, !plan(UuidLookup, 0).Good?)
    case 1 => if plan(Schematic, 0).Good? then Res(s.(rec := s.rec.(schematic := m.schematic)), true) else Res(s, false)
    case 2 => ProvisionISO(m, s, plan)
    case 3 => ProvisionVMVolume(m, s, plan)
    case 4 => ProvisionAdditionalDisks(m, s, plan)
    case 5 => ProvisionCidata(m, s, plan)
    case 6 => CreateVM(m, s, plan)
    case _ => StartVM(s, plan)
  }

  datatype Progress = Progress(pc: nat, st: St)

  /** Steps run in order; a failed one is re-run with whatever it left behind. */
  function Run(m: Machine, p: Progress, turns: seq<Turn>): Progress
    requires p.pc <= STEPS
    ensures Run(m, p, turns).pc <= STEPS
    decreases |turns|
  {
    if turns == [] || p.pc == STEPS then p
    else Run(m, Next(m, p, turns[0]), turns[1..])
  }

  function Next(m: Machine, p: Progress, turn: Turn): (q: Progress)
    requires p.pc < STEPS
    ensures q.pc <= STEPS
  {
    match turn
    case PowerOff => p.(st := p.st.(inv := PoweredOff(p.st.inv, m.vmName)))
    case Try(plan) =>
      var r := Attempt(m, p.pc, p.st, plan);
      Progress(if r.ok then p.pc + 1 else p.pc, r.st)
  }

  // ---------------------------------------------------------------- what each step is for

  function DiskVols(m: Machine, n: nat): (vs: map<VolKey, Vol>)
    requires n <= |m.disks|
  {
    if n == 0 then map[] else DiskVols(m, n - 1)[DiskKey(m, n - 1) := DiskVol(m.disks[n - 1])]
  }

  /** The volumes step pc makes. */
  function StepVols(m: Machine, pools: set<string>, pc: nat): map<VolKey, Vol> {
    match pc
    case 2 => map[IsoKey(m) := Uploaded(m.iso)]
    case 3 => map[MainKey(m) := MainVol(m)]
    case 4 => DiskVols(m, |m.disks|)
    case 5 => map[CidataKey(m) := Uploaded(m.cidata)]
    case 6 => if "nvram" in pools then map[NvramKey(m.vmName) := Empty] else map[]
    case _ => map[]
  }

  /** The volume keys step pc may touch. */
  function StepKeys(m: Machine, pc: nat): set<VolKey> {
    match pc
    case 2 => {IsoKey(m)}
    case 3 => {MainKey(m)}
    case 4 => DiskVols(m, |m.disks|).Keys
    case 5 => {CidataKey(m)}
    case 6 => {NvramKey(m.vmName)}
    case _ => {}
  }

  /** The volumes of the steps before pc. */
  function Made(m: Machine, pools: set<string>, pc: nat): map<VolKey, Vol> {
    if pc == 0 then map[] else Made(m, pools, pc - 1) + StepVols(m, pools, pc - 1)
  }

  function RecordAt(m: Machine, pc: nat): Record {
    Record(if pc > 1 then m.schematic else "",
           if pc > 2 then IsoName(m.vmName, m.schematic) else "",
           if pc > 3 then m.pool else "",
           if pc > 3 then MainName(m.vmName) else "",
           if pc > 4 then DiskRecs(m, |m.disks|) else [],
           if pc > 5 then CidataName(m.vmName) else "",
           if pc > 6 then m.vmName else "",
           if pc > 6 then NvramKey(m.vmName).name else "")
  }

  function PoolsAt(pools: set<string>, pc: nat): set<string> {
    pools + (if pc > 2 then {"isos"} else {}) + (if pc > 5 then {"config"} else {})
  }

  function DomsAt(m: Machine, doms: map<string, DomState>, pc: nat): map<string, DomState> {
    if pc > 6 then doms[m.vmName := Running] else doms
  }
}
