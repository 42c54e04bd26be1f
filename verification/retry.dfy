/** Retry equivalence: however often steps fail, at whichever call and with or without effect, a run that
    completes leaves what a failure-free run leaves. */
module Retry {
  import opened Names
  import opened Libvirt
  import opened Provision
  import opened VolNames
  import Disks

  /** The machine's names are unused. */
  predicate Fresh(m: Machine, base: Inventory) {
    AllKeys(m) !! base.vols.Keys && m.vmName !in base.doms
  }

  /** The state between step pc - 1 and step pc when nothing of step pc has been done. */
  predicate Exact(m: Machine, base: Inventory, pc: nat, s: St) {
    && s.inv.vols == base.vols + Made(m, base.pools, pc)
    && s.inv.doms == DomsAt(m, base.doms, pc)
    && s.inv.pools == PoolsAt(base.pools, pc)
    && s.rec == RecordAt(m, pc)
  }

  /** The domain while createVM is being tried. */
  predicate DomInProgress(m: Machine, base: Inventory, inv: Inventory) {
    && inv.doms - {m.vmName} == base.doms
    && (m.vmName !in inv.doms ==> NvramKey(m.vmName) !in inv.vols)
    && (m.vmName in inv.doms ==>
          inv.doms[m.vmName].Shutoff?
          || (inv.doms[m.vmName].Running? && ("nvram" in base.pools ==> NvramKey(m.vmName) in inv.vols)))
  }

  /** Volumes of step pc may already be there.  Those that are not written anew must be the wanted ones. */
  predicate VolsInProgress(m: Machine, base: Inventory, pc: nat, inv: Inventory) {
    && inv.vols - StepKeys(m, pc) == base.vols + Made(m, base.pools, pc)
    && (pc == 3 || pc == 4 || pc == 6 ==>
          var w := StepVols(m, base.pools, pc);
          forall k :: k in StepKeys(m, pc) && k in inv.vols ==> k in w && inv.vols[k] == w[k])
  }

  /** The domain once createVM has succeeded: its guest may have powered off since. */
  predicate DomStands(m: Machine, base: Inventory, doms: map<string, DomState>) {
    m.vmName in doms && (doms[m.vmName].Running? || doms[m.vmName].Shutoff?) && doms - {m.vmName} == base.doms
  }

  /** The state at step pc after any number of failed attempts. */
  predicate InProgress(m: Machine, base: Inventory, pc: nat, s: St) {
    && VolsInProgress(m, base, pc, s.inv)
    && (if pc < 6 then s.inv.doms == base.doms
        else if pc == 6 then DomInProgress(m, base, s.inv)
        else DomStands(m, base, s.inv.doms))
    && PoolsAt(base.pools, pc) <= s.inv.pools <= PoolsAt(base.pools, pc + 1)
    && s.rec == RecordAt(m, pc)
  }

  // ---------------------------------------------------------------- maps

  lemma {:induction false} MadeKeys(m: Machine, pools: set<string>, pc: nat, k: VolKey)
    requires pc <= 8 && k in Made(m, pools, pc)
    ensures exists q :: 0 <= q < pc && k in StepKeys(m, q)
  {
    if k in StepVols(m, pools, pc - 1) {
      assert k in StepKeys(m, pc - 1);
    } else {
      MadeKeys(m, pools, pc - 1, k);
    }
  }

  lemma {:induction false} StepKeysAll(m: Machine, pc: nat)
    ensures StepKeys(m, pc) <= AllKeys(m)
  {
  }

  /** Keys of step pc are neither in the old inventory nor made by earlier steps. */
  lemma {:induction false} StepKeysNew(m: Machine, base: Inventory, pc: nat)
    requires Safe(m) && Fresh(m, base) && pc <= 8
    ensures StepKeys(m, pc) !! (base.vols + Made(m, base.pools, pc)).Keys
  {
    hide Made, StepKeys, AllKeys;
    StepKeysAll(m, pc);
    forall k | k in StepKeys(m, pc) ensures k !in base.vols + Made(m, base.pools, pc) {
      assert k in AllKeys(m);
      if k in Made(m, base.pools, pc) {
        MadeKeys(m, base.pools, pc, k);
        var q :| 0 <= q < pc && k in StepKeys(m, q);
        OwnKey(m, pc, q, k);
      }
    }
  }

  lemma {:induction false} NvramIsStepKey(m: Machine)
    ensures StepKeys(m, 6) == {NvramKey(m.vmName)}
  {
  }

  lemma {:induction false} ExactIsInProgress(m: Machine, base: Inventory, pc: nat, s: St)
    requires Safe(m) && Fresh(m, base) && pc <= 8 && Exact(m, base, pc, s)
    ensures InProgress(m, base, pc, s)
  {
    BoundaryVols(m, base, pc, s);
    assert m.vmName !in base.doms;
    hide VolsInProgress, Safe, Fresh, Made, RecordAt, NvramKey;
    if pc >= 6 {
      assert base.doms - {m.vmName} == base.doms == base.doms[m.vmName := Running] - {m.vmName};
    }
  }

  lemma {:induction false} BoundaryVols(m: Machine, base: Inventory, pc: nat, s: St)
    requires Safe(m) && Fresh(m, base) && pc <= 8 && Exact(m, base, pc, s)
    ensures VolsInProgress(m, base, pc, s.inv) && (pc == 6 ==> NvramKey(m.vmName) !in s.inv.vols)
  {
    StepKeysNew(m, base, pc);
    NvramIsStepKey(m);
    hide Made, StepKeys, StepVols, AllKeys, RecordAt, NvramKey, Safe, Fresh;
    assert s.inv.vols - StepKeys(m, pc) == s.inv.vols;
  }

  /** With the step's own volumes in place, the state of the volumes is the next exact one. */
  lemma {:induction false} StepDone(m: Machine, base: Inventory, pc: nat, vols: map<VolKey, Vol>)
    requires pc < 8
    requires vols - StepKeys(m, pc) == base.vols + Made(m, base.pools, pc)
    requires var w := StepVols(m, base.pools, pc);
             forall k :: k in StepKeys(m, pc) ==> (k in vols <==> k in w) && (k in w ==> vols[k] == w[k])
    requires StepVols(m, base.pools, pc).Keys <= StepKeys(m, pc)
    ensures vols == base.vols + Made(m, base.pools, pc + 1)
  {
    var w := StepVols(m, base.pools, pc);
    assert Made(m, base.pools, pc + 1) == Made(m, base.pools, pc) + w;
    hide Made, StepKeys, StepVols;
    Reassemble(vols, StepKeys(m, pc), base.vols, Made(m, base.pools, pc), w);
  }

  /** A map is what it is outside `keys` together with what it is on them. */
  lemma {:induction false} Reassemble(vols: map<VolKey, Vol>, keys: set<VolKey>, a: map<VolKey, Vol>,
                                      b: map<VolKey, Vol>, w: map<VolKey, Vol>)
    requires vols - keys == a + b && w.Keys <= keys
    requires forall k :: k in keys ==> (k in vols <==> k in w) && (k in w ==> vols[k] == w[k])
    ensures vols == a + (b + w)
  {
    assert a + (b + w) == (vols - keys) + w;
  }

  // ---------------------------------------------------------------- the steps

  /** A step on one key that, when it succeeds, has just written the key's volume. */
  lemma {:induction false} OneKeyStep(m: Machine, base: Inventory, pc: nat, a: Inventory, b: Inventory, key: VolKey,
                                      vol: Vol, ok: bool)
    requires pc < 8 && StepKeys(m, pc) == {key} && StepVols(m, base.pools, pc) == map[key := vol]
    requires VolsInProgress(m, base, pc, a) && OnlyVol(a, b, key)
    requires pc == 3 ==> key in b.vols ==> b.vols[key] == vol
    requires pc != 4 && pc != 6
    requires ok ==> key in b.vols && b.vols[key] == vol
    ensures VolsInProgress(m, base, pc, b)
    ensures ok ==> b.vols == base.vols + Made(m, base.pools, pc + 1)
  {
    hide Made, StepKeys, StepVols;
    if ok {
      StepDone(m, base, pc, b.vols);
    }
  }

  lemma {:induction false} IsoStep(m: Machine, base: Inventory, s: St, plan: Plan)
    requires InProgress(m, base, 2, s)
    ensures var r := ProvisionISO(m, s, plan);
            if r.ok then Exact(m, base, 3, r.st) else InProgress(m, base, 2, r.st)
  {
    hide OnlyVol, RemoveOld, CreateFrom, Made, VolsInProgress;
    var key := IsoKey(m);
    var prior := RemoveOld(s.inv, plan, 0, key).inv;
    RemoveOldEffect(s.inv, plan, 0, key);
    OneKeyStep(m, base, 2, s.inv, prior, key, Uploaded(m.iso), false);
    var r := CreateFrom(prior, plan, 0, key, m.iso);
    CreateFromEffect(prior, plan, 0, key, m.iso);
    OneKeyStep(m, base, 2, prior, r.inv, key, Uploaded(m.iso), r.ok);
    SameDoms(s.inv, prior, key);
    SameDoms(prior, r.inv, key);
  }

  lemma {:induction false} SameDoms(a: Inventory, b: Inventory, key: VolKey)
    requires OnlyVol(a, b, key)
    ensures a.doms == b.doms
  {
  }

  lemma {:induction false} CidataStep(m: Machine, base: Inventory, s: St, plan: Plan)
    requires InProgress(m, base, 5, s)
    ensures var r := ProvisionCidata(m, s, plan);
            if r.ok then Exact(m, base, 6, r.st) else InProgress(m, base, 5, r.st)
  {
    hide OnlyVol, RemoveOld, CreateFrom, Made, VolsInProgress;
    var key := CidataKey(m);
    var prior := RemoveOld(s.inv, plan, 0, key).inv;
    RemoveOldEffect(s.inv, plan, 0, key);
    OneKeyStep(m, base, 5, s.inv, prior, key, Uploaded(m.cidata), false);
    var r := CreateFrom(prior, plan, 0, key, m.cidata);
    CreateFromEffect(prior, plan, 0, key, m.cidata);
    OneKeyStep(m, base, 5, prior, r.inv, key, Uploaded(m.cidata), r.ok);
    SameDoms(s.inv, prior, key);
    SameDoms(prior, r.inv, key);
  }

  lemma {:induction false} MainStep(m: Machine, base: Inventory, s: St, plan: Plan)
    requires InProgress(m, base, 3, s)
    ensures var r := ProvisionVMVolume(m, s, plan);
            if r.ok then Exact(m, base, 4, r.st) else InProgress(m, base, 3, r.st)
  {
    hide OnlyVol, CreateVolume, Made;
    var key := MainKey(m);
    var r := CreateVolume(s.inv, plan, 0, key, MainVol(m));
    assert key in s.inv.vols ==> s.inv.vols[key] == MainVol(m);
    CreateVolumeEffect(s.inv, plan, 0, key, MainVol(m));
    hide VolsInProgress;
    OneKeyStep(m, base, 3, s.inv, r.inv, key, MainVol(m), r.ok);
    SameDoms(s.inv, r.inv, key);
  }

  lemma {:induction false} DiskVolsAt(m: Machine, n: nat, i: nat)
    requires Safe(m) && i < n <= |m.disks|
    ensures DiskKey(m, i) in DiskVols(m, n) && DiskVols(m, n)[DiskKey(m, i)] == DiskVol(m.disks[i])
  {
    hide DiskKey;
    if i < n - 1 {
      DiskVolsAt(m, n - 1, i);
      if DiskKey(m, i) == DiskKey(m, n - 1) {
        DiskKeysDistinct(m, i, n - 1);
      }
    }
  }

  /** Disk volumes that are there are the wanted ones, and those below i are there. */
  predicate DisksInProgress(m: Machine, vols: map<VolKey, Vol>, i: nat)
    requires i <= |m.disks|
  {
    && (forall j :: 0 <= j < |m.disks| && DiskKey(m, j) in vols ==> vols[DiskKey(m, j)] == DiskVol(m.disks[j]))
    && (forall j :: 0 <= j < i ==> DiskKey(m, j) in vols)
  }

  lemma {:induction false} DiskAdded(m: Machine, a: map<VolKey, Vol>, b: map<VolKey, Vol>, i: nat, ok: bool)
    requires Safe(m) && i < |m.disks| && DisksInProgress(m, a, i) && b - {DiskKey(m, i)} == a - {DiskKey(m, i)}
    requires DiskKey(m, i) in b ==> b[DiskKey(m, i)] == DiskVol(m.disks[i])
    requires ok ==> DiskKey(m, i) in b
    ensures DisksInProgress(m, b, if ok then i + 1 else i)
    ensures b - DiskVols(m, |m.disks|).Keys == a - DiskVols(m, |m.disks|).Keys
  {
    var key := DiskKey(m, i);
    DiskVolsAt(m, |m.disks|, i);
    hide DiskKey, DiskVols;
    forall j | 0 <= j < |m.disks| && j != i
      ensures DiskKey(m, j) != key
      ensures DiskKey(m, j) in b <==> DiskKey(m, j) in a
      ensures DiskKey(m, j) in b ==> b[DiskKey(m, j)] == a[DiskKey(m, j)]
    {
      if DiskKey(m, j) == key {
        DiskKeysDistinct(m, i, j);
      }
      assert DiskKey(m, j) in b <==> DiskKey(m, j) in b - {key};
      assert DiskKey(m, j) in a <==> DiskKey(m, j) in a - {key};
      assert DiskKey(m, j) in b ==> b[DiskKey(m, j)] == (b - {key})[DiskKey(m, j)];
    }
    SameOutside(a, b, {key}, DiskVols(m, |m.disks|).Keys);
  }

  lemma {:induction false} SameOutside(a: map<VolKey, Vol>, b: map<VolKey, Vol>, small: set<VolKey>, large: set<VolKey>)
    requires b - small == a - small && small <= large
    ensures b - large == a - large
  {
    assert a - large == (a - small) - large;
    assert b - large == (b - small) - large;
  }

  /** The disk loop from i on. */
  lemma {:induction false} DiskLoop(m: Machine, inv: Inventory, plan: Plan, i: nat)
    requires Safe(m) && i <= |m.disks| && DisksInProgress(m, inv.vols, i)
    ensures var r := CreateDisks(m, inv, plan, i);
            && r.inv.vols - DiskVols(m, |m.disks|).Keys == inv.vols - DiskVols(m, |m.disks|).Keys
            && r.inv.doms == inv.doms && r.inv.pools == inv.pools
            && DisksInProgress(m, r.inv.vols, if r.ok then |m.disks| else 0)
            && (r.ok && i < |m.disks| ==> m.pool in inv.pools)
    decreases |m.disks| - i
  {
    hide CreateVolume, DiskVols;
    if i < |m.disks| {
      var r := CreateVolume(inv, plan, i, DiskKey(m, i), DiskVol(m.disks[i]));
      CreateVolumeEffect(inv, plan, i, DiskKey(m, i), DiskVol(m.disks[i]));
      DiskAdded(m, inv.vols, r.inv.vols, i, r.ok);
      hide OnlyVol, DisksInProgress;
      SameDoms(inv, r.inv, DiskKey(m, i));
      if r.ok {
        DiskLoop(m, r.inv, plan, i + 1);
      } else {
        DisksFewer(m, r.inv.vols, i);
      }
    }
  }

  lemma {:induction false} DisksFewer(m: Machine, vols: map<VolKey, Vol>, i: nat)
    requires i <= |m.disks| && DisksInProgress(m, vols, i)
    ensures DisksInProgress(m, vols, 0)
  {
  }

  lemma {:induction false} DisksStep(m: Machine, base: Inventory, s: St, plan: Plan)
    requires Safe(m) && InProgress(m, base, 4, s)
    ensures var r := ProvisionAdditionalDisks(m, s, plan);
            if r.ok then Exact(m, base, 5, r.st) else InProgress(m, base, 4, r.st)
  {
    DisksBefore(m, base, s.inv);
    DiskLoop(m, s.inv, plan, 0);
    var r := CreateDisks(m, s.inv, plan, 0);
    DisksAfter(m, base, r.inv, if r.ok then |m.disks| else 0);
    assert m.disks == [] ==> r == R(s.inv, true);
    hide Made, DiskVols, DiskKey, CreateDisks, DisksInProgress, VolsInProgress, StepKeys, IsoName, CidataName;
    hide MainName, DiskRecs, NvramKey;
  }

  lemma {:induction false} DisksBefore(m: Machine, base: Inventory, inv: Inventory)
    requires Safe(m) && VolsInProgress(m, base, 4, inv)
    ensures DisksInProgress(m, inv.vols, 0)
    ensures inv.vols - DiskVols(m, |m.disks|).Keys == base.vols + Made(m, base.pools, 4)
  {
    var w, n := DiskVols(m, |m.disks|), |m.disks|;
    forall j | 0 <= j < n ensures DiskKey(m, j) in w && w[DiskKey(m, j)] == DiskVol(m.disks[j]) {
      DiskVolsAt(m, n, j);
    }
    hide Made, DiskVols, DiskKey;
  }

  lemma {:induction false} DisksAfter(m: Machine, base: Inventory, inv: Inventory, i: nat)
    requires Safe(m) && i <= |m.disks| && DisksInProgress(m, inv.vols, i)
    requires inv.vols - DiskVols(m, |m.disks|).Keys == base.vols + Made(m, base.pools, 4)
    ensures VolsInProgress(m, base, 4, inv)
    ensures i == |m.disks| ==> inv.vols == base.vols + Made(m, base.pools, 5)
  {
    var w, n := DiskVols(m, |m.disks|), |m.disks|;
    forall k | k in w
      ensures k in inv.vols ==> inv.vols[k] == w[k]
      ensures i == n ==> k in inv.vols
    {
      DiskVolsKeys(m, n, k);
      var j :| 0 <= j < n && k == DiskKey(m, j);
      DiskVolsAt(m, n, j);
    }
    hide Made, DiskVols, DiskKey, DisksInProgress;
    if i == n {
      StepDone(m, base, 4, inv.vols);
    }
  }

  /** createVM changes one volume and one domain at most, and on success records both. */
  lemma {:induction false} CreateVMEffect(m: Machine, s: St, plan: Plan)
    ensures var r, key := CreateVM(m, s, plan), NvramKey(m.vmName);
            && r.st.inv.vols - {key} == s.inv.vols - {key}
            && (key in s.inv.vols ==> r.st.inv.vols == s.inv.vols)
            && (key !in s.inv.vols && key in r.st.inv.vols ==>
                  r.st.inv.vols[key] == Empty && m.vmName in r.st.inv.doms && "nvram" in s.inv.pools)
            && r.st.inv.doms - {m.vmName} == s.inv.doms - {m.vmName}
            && r.st.inv.pools == s.inv.pools
            && (m.vmName in s.inv.doms ==> m.vmName in r.st.inv.doms)
            && (m.vmName in r.st.inv.doms
                && !(m.vmName in s.inv.doms && r.st.inv.doms[m.vmName] == s.inv.doms[m.vmName])
                ==> r.st.inv.doms[m.vmName].Shutoff?
                    || (r.st.inv.doms[m.vmName].Running? && ("nvram" in s.inv.pools ==> key in r.st.inv.vols)))
            && (r.ok ==> m.vmName in r.st.inv.doms && r.st.inv.doms[m.vmName].Running?
                         && ("nvram" in s.inv.pools ==> key in r.st.inv.vols))
            && r.st.rec == if r.ok then s.rec.(vmName := m.vmName, vmNvramName := key.name) else s.rec
  {
    hide NvramKey, KnownTypes, GetVol;
    var d := DefineDomain(s.inv, plan(Define, 0), m.vmName).inv;
    assert d.doms - {m.vmName} == s.inv.doms - {m.vmName} && d.vols == s.inv.vols;
  }

  lemma {:induction false} VMStep(m: Machine, base: Inventory, s: St, plan: Plan)
    requires InProgress(m, base, 6, s)
    ensures var r := CreateVM(m, s, plan);
            if r.ok then Exact(m, base, 7, r.st) else InProgress(m, base, 6, r.st)
  {
    hide Made, NvramKey, MainName, IsoName, CidataName, DiskRecs, CreateVM;
    var r := CreateVM(m, s, plan);
    CreateVMEffect(m, s, plan);
    if r.ok {
      StepDone(m, base, 6, r.st.inv.vols);
      assert r.st.inv.doms == base.doms[m.vmName := Running];
    }
  }

  lemma {:induction false} StartStep(m: Machine, base: Inventory, s: St, plan: Plan)
    requires InProgress(m, base, 7, s)
    ensures var r := StartVM(s, plan);
            if r.ok then Exact(m, base, 8, r.st) else InProgress(m, base, 7, r.st)
  {
    NvramMade(m, base);
    hide Made, NvramKey, MainName, IsoName, CidataName, DiskRecs;
    assert s.inv.vols - {} == s.inv.vols;
    StepDone(m, base, 7, s.inv.vols);
    var r := StartVM(s, plan).st;
    assert r.inv.vols == s.inv.vols;
    assert r.inv.vols - {} == r.inv.vols;
    assert r.inv.doms - {m.vmName} == base.doms;
  }

  lemma {:induction false} NvramMade(m: Machine, base: Inventory)
    ensures "nvram" in base.pools ==> NvramKey(m.vmName) in Made(m, base.pools, 7)
  {
    assert Made(m, base.pools, 7) == Made(m, base.pools, 6) + StepVols(m, base.pools, 6);
  }

  lemma {:induction false} SmallStep(m: Machine, base: Inventory, pc: nat, s: St, plan: Plan)
    requires pc < 2 && InProgress(m, base, pc, s)
    ensures var r := Attempt(m, pc, s, plan);
            if r.ok then Exact(m, base, pc + 1, r.st) else r.st == s
  {
    hide Made, MainName, IsoName, CidataName, DiskRecs;
    assert s.inv.vols - {} == s.inv.vols;
    StepDone(m, base, pc, s.inv.vols);
  }

  /** One attempt at any step, from whatever earlier attempts left: success gives exactly the state the
      step is for, failure something a later attempt can start from. */
  lemma {:induction false} AttemptStep(m: Machine, base: Inventory, pc: nat, s: St, plan: Plan)
    requires Safe(m) && pc < STEPS && InProgress(m, base, pc, s)
    ensures var r := Attempt(m, pc, s, plan);
            if r.ok then Exact(m, base, pc + 1, r.st) else InProgress(m, base, pc, r.st)
  {
    if pc < 2 {
      SmallStep(m, base, pc, s, plan);
    } else {
      hide InProgress, Exact, ProvisionISO, ProvisionVMVolume, ProvisionAdditionalDisks, ProvisionCidata, CreateVM;
      hide StartVM;
      match pc
      case 2 => IsoStep(m, base, s, plan);
      case 3 => MainStep(m, base, s, plan);
      case 4 => DisksStep(m, base, s, plan);
      case 5 => CidataStep(m, base, s, plan);
      case 6 => VMStep(m, base, s, plan);
      case 7 => StartStep(m, base, s, plan);
    }
  }

  lemma {:induction false} RecordFields(m: Machine, pc: nat)
    ensures pc > 1 ==> RecordAt(m, pc).schematic == m.schematic
    ensures pc > 3 ==> RecordAt(m, pc).vmVolName == MainName(m.vmName)
    ensures pc > 6 ==> RecordAt(m, pc).vmName == m.vmName
  {
  }

  lemma {:induction false} AttemptRecord(m: Machine, pc: nat, s: St, plan: Plan)
    requires pc < STEPS && s.rec == RecordAt(m, pc)
    ensures var r := Attempt(m, pc, s, plan); r.st.rec == RecordAt(m, if r.ok then pc + 1 else pc)
  {
    hide IsoName, CidataName, MainName, NvramKey, RemoveOld, CreateFrom, CreateVolume, CreateDisks, GetVol;
    hide StartDomain, DefineDomain, KnownTypes;
    assert m.disks == [] ==> DiskRecs(m, |m.disks|) == [];
    hide DiskRecs;
  }

  // ---------------------------------------------------------------- runs

  /** A guest that powers off leaves a step where it was. */
  lemma {:induction false} PowerOffKeeps(m: Machine, base: Inventory, pc: nat, s: St)
    requires Fresh(m, base) && InProgress(m, base, pc, s)
    ensures var t := s.(inv := PoweredOff(s.inv, m.vmName)); InProgress(m, base, pc, t) && !Stuck(m, pc, t)
  {
    hide Made, StepKeys, StepVols, AllKeys, RecordAt, NvramKey;
    var t := PoweredOff(s.inv, m.vmName);
    assert t.doms - {m.vmName} == s.inv.doms - {m.vmName};
    assert t.vols == s.inv.vols;
  }

  lemma {:induction false} NextInProgress(m: Machine, base: Inventory, p: Progress, turn: Turn)
    requires Safe(m) && Fresh(m, base) && p.pc < STEPS && InProgress(m, base, p.pc, p.st)
    ensures var q := Next(m, p, turn);
            InProgress(m, base, q.pc, q.st) && (q.pc > p.pc ==> Exact(m, base, q.pc, q.st))
  {
    hide InProgress, Exact, Attempt, Fresh;
    match turn {
      case PowerOff => PowerOffKeeps(m, base, p.pc, p.st);
      case Try(plan) =>
        AttemptStep(m, base, p.pc, p.st, plan);
        var r := Attempt(m, p.pc, p.st, plan);
        if r.ok {
          ExactIsInProgress(m, base, p.pc + 1, r.st);
        }
    }
  }

  /** At every moment of a run the state is that of its step, and at the end exactly. */
  lemma {:induction false} RunInProgress(m: Machine, base: Inventory, p: Progress, turns: seq<Turn>)
    requires Safe(m) && Fresh(m, base) && p.pc <= STEPS && InProgress(m, base, p.pc, p.st)
    ensures var q := Run(m, p, turns);
            InProgress(m, base, q.pc, q.st) && (p.pc < STEPS && q.pc == STEPS ==> Exact(m, base, STEPS, q.st))
    decreases |turns|
  {
    hide InProgress, Exact, Next, Fresh;
    if turns != [] && p.pc < STEPS {
      NextInProgress(m, base, p, turns[0]);
      var q := Next(m, p, turns[0]);
      RunInProgress(m, base, q, turns[1..]);
      if q.pc == STEPS {
        NextMoves(m, p, turns[0]);
      }
    }
  }

  lemma {:induction false} NextMoves(m: Machine, p: Progress, turn: Turn)
    requires p.pc < STEPS
    ensures p.pc <= Next(m, p, turn).pc <= p.pc + 1
  {
    hide Attempt;
  }

  function Begin(base: Inventory): Progress {
    Progress(0, St(base, EMPTY_RECORD))
  }

  lemma {:induction false} StartInProgress(m: Machine, base: Inventory)
    ensures InProgress(m, base, 0, Begin(base).st)
  {
    assert base.vols - {} == base.vols;
    assert base.vols + map[] == base.vols;
  }

  // ---------------------------------------------------------------- when runs complete

  predicate Completable(m: Machine, base: Inventory) {
    m.pool in base.pools + {"isos"} && forall i :: 0 <= i < |m.disks| ==> Disks.KnownType(m.disks[i].typ)
  }

  lemma {:induction false} DiskRecsAt(m: Machine, n: nat, i: nat)
    requires i < n <= |m.disks|
    ensures |DiskRecs(m, n)| == n
    ensures DiskRecs(m, n)[i] == DiskRec(m.disks[i].typ, DiskVolName(m.vmName, i, m.disks[i].typ))
  {
    if i < n - 1 {
      DiskRecsAt(m, n - 1, i);
    } else if n > 1 {
      DiskRecsAt(m, n - 1, 0);
    }
  }

  lemma {:induction false} DiskRecsTypes(m: Machine)
    ensures KnownTypes(DiskRecs(m, |m.disks|)) <==> forall i :: 0 <= i < |m.disks| ==> Disks.KnownType(m.disks[i].typ)
  {
    hide Disks.KnownType;
    var n := |m.disks|;
    forall i | 0 <= i < n ensures |DiskRecs(m, n)| == n && DiskRecs(m, n)[i].typ == m.disks[i].typ {
      DiskRecsAt(m, n, i);
    }
    assert n == 0 ==> DiskRecs(m, n) == [];
  }

  lemma {:induction false} PoolNeeded(m: Machine, base: Inventory, s: St, plan: Plan)
    requires InProgress(m, base, 3, s) && Attempt(m, 3, s, plan).ok
    ensures m.pool in base.pools + {"isos"}
  {
    hide Made, MainName, IsoName, CidataName, DiskRecs, CreateVolume;
    CreateVolumeEffect(s.inv, plan, 0, MainKey(m), MainVol(m));
  }

  lemma {:induction false} CompletionNeeds(m: Machine, base: Inventory, p: Progress, turns: seq<Turn>)
    requires Safe(m) && Fresh(m, base) && p.pc <= 3 && InProgress(m, base, p.pc, p.st)
    requires Run(m, p, turns).pc == STEPS
    ensures m.pool in base.pools + {"isos"}
    decreases |turns|
  {
    hide InProgress, Exact, Attempt, Fresh;
    if turns != [] {
      NextInProgress(m, base, p, turns[0]);
      NextMoves(m, p, turns[0]);
      var q := Next(m, p, turns[0]);
      if q.pc == 4 {
        PoolNeeded(m, base, p.st, turns[0].plan);
      } else {
        CompletionNeeds(m, base, q, turns[1..]);
      }
    }
  }

  /** The replies of an attempt in which nothing fails; a free UUID shows as a failed lookup. */
  function Happy(op: Op, i: nat): Reply {
    if op.UuidLookup? then Fails else Good
  }

  function AllHappy(n: nat): (turns: seq<Turn>)
    ensures |turns| == n && KeepsRunning(turns)
  {
    seq(n, i => Try(Happy))
  }

  /** The guest does not power off. */
  predicate KeepsRunning(turns: seq<Turn>) {
    forall i :: 0 <= i < |turns| ==> turns[i].Try?
  }

  lemma {:induction false} AllHappySplit(n: nat)
    ensures AllHappy(n + 1) == AllHappy(n) + [Try(Happy)]
    ensures AllHappy(n + 1)[0] == Try(Happy) && AllHappy(n + 1)[1..] == AllHappy(n)
  {
  }

  lemma {:induction false} HappyDisks(m: Machine, inv: Inventory, i: nat)
    requires i <= |m.disks| && m.pool in inv.pools
    ensures CreateDisks(m, inv, Happy, i).ok
    decreases |m.disks| - i
  {
    if i < |m.disks| {
      HappyDisks(m, CreateVolume(inv, Happy, i, DiskKey(m, i), DiskVol(m.disks[i])).inv, i + 1);
    }
  }

  lemma {:induction false} MainMade(m: Machine, base: Inventory)
    ensures MainKey(m) in Made(m, base.pools, 6)
  {
    assert Made(m, base.pools, 6) == Made(m, base.pools, 5) + StepVols(m, base.pools, 5);
    assert Made(m, base.pools, 5) == Made(m, base.pools, 4) + StepVols(m, base.pools, 4);
    assert Made(m, base.pools, 4) == Made(m, base.pools, 3) + StepVols(m, base.pools, 3);
  }

  /** With the image's pool there, or its volume not, a failure-free attempt renews it; otherwise it makes
      the pool. */
  lemma {:induction false} HappyImage(inv: Inventory, key: VolKey, content: string)
    ensures var prior := RemoveOld(inv, Happy, 0, key);
            var r := CreateFrom(prior.inv, Happy, 0, key, content);
            prior.ok && key.pool in r.inv.pools && (key !in inv.vols || key.pool in inv.pools ==> r.ok)
  {
  }

  predicate ImageReady(m: Machine, pc: nat, inv: Inventory) {
    && (pc == 2 ==> IsoKey(m) !in inv.vols || "isos" in inv.pools)
    && (pc == 5 ==> CidataKey(m) !in inv.vols || "config" in inv.pools)
  }

  lemma {:induction false} HappyImages(m: Machine, base: Inventory, pc: nat, s: St)
    requires InProgress(m, base, pc, s) && (pc == 2 || pc == 5)
    ensures ImageReady(m, pc, s.inv) ==> Attempt(m, pc, s, Happy).ok
    ensures ImageReady(m, pc, Attempt(m, pc, s, Happy).st.inv)
  {
    hide Made, IsoName, CidataName, DiskRecs, AllKeys, CreateFrom, RemoveOld;
    if pc == 2 {
      HappyImage(s.inv, IsoKey(m), m.iso);
    } else {
      HappyImage(s.inv, CidataKey(m), m.cidata);
    }
  }

  lemma {:induction false} HappyVM(m: Machine, s: St)
    requires s.rec.vmVolName != "" && VolKey(m.pool, s.rec.vmVolName) in s.inv.vols && m.pool in s.inv.pools
    requires KnownTypes(s.rec.disks) && (m.vmName in s.inv.doms ==> !Active(s.inv.doms[m.vmName]))
    ensures CreateVM(m, s, Happy).ok
  {
    hide KnownTypes;
  }

  lemma {:induction false} HappyVolumes(m: Machine, base: Inventory, pc: nat, s: St)
    requires Completable(m, base) && InProgress(m, base, pc, s) && (pc == 3 || pc == 4)
    ensures Attempt(m, pc, s, Happy).ok
  {
    hide Made, IsoName, CidataName, DiskRecs, CreateDisks, Disks.KnownType;
    if pc == 3 {
      HappyMain(m, s);
    } else {
      HappyDisks(m, s.inv, 0);
    }
  }

  lemma {:induction false} HappyMain(m: Machine, s: St)
    requires m.pool in s.inv.pools
    ensures ProvisionVMVolume(m, s, Happy).ok
  {
  }

  /** createVM was left with its domain running: an attempt's start took effect and reported a failure. */
  predicate Stuck(m: Machine, pc: nat, s: St) {
    pc == 6 && m.vmName in s.inv.doms && s.inv.doms[m.vmName].Running?
  }

  lemma {:induction false} MainStands(m: Machine, base: Inventory, s: St)
    requires InProgress(m, base, 6, s)
    ensures MainKey(m) in s.inv.vols
  {
    MainMade(m, base);
    hide Made, StepKeys, DiskRecs;
    assert MainKey(m) in s.inv.vols - StepKeys(m, 6);
  }

  lemma {:induction false} HappyCreate(m: Machine, base: Inventory, s: St)
    requires Completable(m, base) && InProgress(m, base, 6, s) && !Stuck(m, 6, s)
    ensures Attempt(m, 6, s, Happy).ok
  {
    DiskRecsTypes(m);
    MainStands(m, base, s);
    assert MainName(m.vmName)[|m.vmName|] == '-';
    hide Made, IsoName, CidataName, MainName, DiskRecs, KnownTypes, CreateVM, Disks.KnownType, VolsInProgress;
    hide DomInProgress;
    HappyVM(m, s);
  }

  lemma {:induction false} HappyStart(m: Machine, base: Inventory, s: St)
    requires InProgress(m, base, 7, s)
    ensures Attempt(m, 7, s, Happy).ok
  {
    hide Made, IsoName, CidataName, MainName, DiskRecs, VolsInProgress, NvramKey;
  }

  /** From whatever earlier attempts left, a failure-free attempt succeeds, if it ever can. */
  lemma {:induction false} HappyAttempt(m: Machine, base: Inventory, pc: nat, s: St)
    requires Completable(m, base) && pc < STEPS && InProgress(m, base, pc, s)
    requires !Stuck(m, pc, s) && ImageReady(m, pc, s.inv)
    ensures Attempt(m, pc, s, Happy).ok
  {
    hide InProgress, Completable, ProvisionISO, ProvisionVMVolume, ProvisionAdditionalDisks, ProvisionCidata;
    hide CreateVM, StartVM, Stuck, ImageReady;
    if pc == 2 || pc == 5 {
      HappyImages(m, base, pc, s);
    } else if pc == 3 || pc == 4 {
      HappyVolumes(m, base, pc, s);
    } else if pc == 6 {
      HappyCreate(m, base, s);
    } else if pc == 7 {
      HappyStart(m, base, s);
    }
  }

  lemma {:induction false} BoundaryReady(m: Machine, base: Inventory, pc: nat, s: St)
    requires Safe(m) && Fresh(m, base) && pc <= STEPS && Exact(m, base, pc, s)
    ensures InProgress(m, base, pc, s) && ImageReady(m, pc, s.inv) && !Stuck(m, pc, s)
  {
    ExactIsInProgress(m, base, pc, s);
    StepKeysNew(m, base, pc);
    hide Made, InProgress, IsoName, CidataName, DiskRecs, AllKeys;
  }

  lemma {:induction false} HappyStep(m: Machine, pc: nat, s: St, n: nat)
    requires pc < STEPS
    ensures var r := Attempt(m, pc, s, Happy);
            Run(m, Progress(pc, s), AllHappy(n + 1)) == Run(m, Progress(if r.ok then pc + 1 else pc, r.st), AllHappy(n))
  {
    AllHappySplit(n);
    hide Attempt, AllHappy;
  }

  /** k failure-free attempts from a step boundary reach the k-th boundary after it. */
  lemma {:induction false} HappyRun(m: Machine, base: Inventory, p: Progress, k: nat)
    requires Safe(m) && Fresh(m, base) && Completable(m, base) && p.pc + k <= STEPS && Exact(m, base, p.pc, p.st)
    ensures var q := Run(m, p, AllHappy(k)); q.pc == p.pc + k && Exact(m, base, q.pc, q.st)
    decreases k
  {
    hide Exact, Attempt, Fresh, Completable, Safe;
    if k > 0 {
      hide *;
      BoundaryReady(m, base, p.pc, p.st);
      HappyAttempt(m, base, p.pc, p.st);
      AttemptStep(m, base, p.pc, p.st, Happy);
      HappyRun(m, base, Progress(p.pc + 1, Attempt(m, p.pc, p.st, Happy).st), k - 1);
      HappyStep(m, p.pc, p.st, k - 1);
    }
  }

  lemma {:induction false} RunAppend(m: Machine, p: Progress, a: seq<Turn>, b: seq<Turn>)
    requires p.pc <= STEPS
    ensures Run(m, p, a + b) == Run(m, Run(m, p, a), b)
    decreases |a|
  {
    hide Next;
    if a == [] {
      assert a + b == b;
    } else if p.pc < STEPS {
      assert (a + b)[1..] == a[1..] + b;
      RunAppend(m, Next(m, p, a[0]), a[1..], b);
    }
  }

  lemma {:induction false} RunStops(m: Machine, p: Progress, turns: seq<Turn>)
    requires p.pc == STEPS
    ensures Run(m, p, turns) == p
  {
  }

  lemma {:induction false} RunOne(m: Machine, p: Progress, turn: Turn)
    requires p.pc < STEPS
    ensures Run(m, p, [turn]) == Next(m, p, turn)
  {
    hide Next;
    assert [turn][1..] == [];
  }

  /** Failure-free attempts resume any run that is not stuck: one for each step left, and one more for an
      image whose pool is gone. */
  lemma {:induction false} HappyResume(m: Machine, base: Inventory, pc: nat, s: St)
    requires Safe(m) && Fresh(m, base) && Completable(m, base) && pc <= STEPS && InProgress(m, base, pc, s)
    requires !Stuck(m, pc, s)
    ensures Run(m, Progress(pc, s), AllHappy(STEPS - pc + 1)).pc == STEPS
  {
    if pc < STEPS {
      var n: nat := STEPS - pc;
      AllHappySplit(n);
      hide *;
      var r := Attempt(m, pc, s, Happy);
      AttemptStep(m, base, pc, s, Happy);
      if r.ok {
        FromBoundary(m, base, pc, s);
        RunAppend(m, Progress(pc, s), AllHappy(n), [Try(Happy)]);
        RunStops(m, Run(m, Progress(pc, s), AllHappy(n)), [Try(Happy)]);
      } else {
        NotReady(m, base, pc, s);
        HappyAttempt(m, base, pc, r.st);
        AttemptStep(m, base, pc, r.st, Happy);
        FromBoundary(m, base, pc, r.st);
        HappyStep(m, pc, s, n);
      }
    }
  }

  lemma {:induction false} FromBoundary(m: Machine, base: Inventory, pc: nat, s: St)
    requires Safe(m) && Fresh(m, base) && Completable(m, base) && pc < STEPS
    requires var r := Attempt(m, pc, s, Happy); r.ok && Exact(m, base, pc + 1, r.st)
    ensures Run(m, Progress(pc, s), AllHappy(STEPS - pc)).pc == STEPS
  {
    hide *;
    HappyStep(m, pc, s, STEPS - pc - 1);
    HappyRun(m, base, Progress(pc + 1, Attempt(m, pc, s, Happy).st), STEPS - pc - 1);
  }

  lemma {:induction false} NotReady(m: Machine, base: Inventory, pc: nat, s: St)
    requires Completable(m, base) && pc < STEPS && InProgress(m, base, pc, s) && !Stuck(m, pc, s)
    requires !Attempt(m, pc, s, Happy).ok
    ensures (pc == 2 || pc == 5) && ImageReady(m, pc, Attempt(m, pc, s, Happy).st.inv)
    ensures !Stuck(m, pc, Attempt(m, pc, s, Happy).st)
  {
    if pc == 2 || pc == 5 {
      hide InProgress, Attempt;
      HappyImages(m, base, pc, s);
    } else {
      hide InProgress, Attempt, Stuck;
      HappyAttempt(m, base, pc, s);
    }
  }

  /** A start of createVM that takes effect and reports a failure is not recovered from while the guest keeps
      running: defining succeeds, starting says that the domain already runs, and here that is an error. */
  lemma {:induction false} StuckWhileRunning(m: Machine, s: St, turns: seq<Turn>)
    requires Stuck(m, 6, s) && KeepsRunning(turns)
    ensures var q := Run(m, Progress(6, s), turns); q.pc == 6 && Stuck(m, 6, q.st)
    decreases |turns|
  {
    hide GetVol, KnownTypes, NvramKey;
    if turns != [] {
      StuckWhileRunning(m, Attempt(m, 6, s, turns[0].plan).st, turns[1..]);
    }
  }

  /** A guest that powers off sets every interrupted run free. */
  lemma {:induction false} PowerOffResumes(m: Machine, base: Inventory, pc: nat, s: St)
    requires Safe(m) && Fresh(m, base) && Completable(m, base) && pc <= STEPS && InProgress(m, base, pc, s)
    ensures Run(m, Progress(pc, s), [PowerOff] + AllHappy(STEPS - pc + 1)).pc == STEPS
  {
    hide Attempt, InProgress, Fresh, Completable, Safe, PoweredOff, Stuck;
    if pc < STEPS {
      PowerOffKeeps(m, base, pc, s);
      HappyResume(m, base, pc, s.(inv := PoweredOff(s.inv, m.vmName)));
      RunOne(m, Progress(pc, s), PowerOff);
      RunAppend(m, Progress(pc, s), [PowerOff], AllHappy(STEPS - pc + 1));
    }
  }

  /** Exactly when an interrupted run can still complete: without the guest powering off, unless it is stuck;
      after the guest has powered off, always. */
  lemma {:induction false} ResumesExactly(m: Machine, base: Inventory, pc: nat, s: St)
    requires Fresh(m, base) && Completable(m, base) && pc <= STEPS && InProgress(m, base, pc, s)
    ensures (exists turns :: KeepsRunning(turns) && Run(m, Progress(pc, s), turns).pc == STEPS) <==> !Stuck(m, pc, s)
    ensures !Stuck(m, pc, s) ==> Run(m, Progress(pc, s), AllHappy(STEPS - pc + 1)).pc == STEPS
    ensures Run(m, Progress(pc, s), [PowerOff] + AllHappy(STEPS - pc + 1)).pc == STEPS
  {
    CompletableIsSafe(m, base);
    hide Run, InProgress, Fresh, Completable;
    PowerOffResumes(m, base, pc, s);
    if Stuck(m, pc, s) {
      forall turns | KeepsRunning(turns) ensures Run(m, Progress(pc, s), turns).pc != STEPS {
        StuckWhileRunning(m, s, turns);
      }
    } else {
      HappyResume(m, base, pc, s);
      assert exists turns :: KeepsRunning(turns) && Run(m, Progress(pc, s), turns).pc == STEPS;
    }
  }

  lemma {:induction false} KnownTypesAreSafe(m: Machine)
    requires forall i :: 0 <= i < |m.disks| ==> Disks.KnownType(m.disks[i].typ)
    ensures Safe(m)
  {
    forall i | 0 <= i < |m.disks| ensures DiskKey(m, i) != IsoKey(m) {
      assert NoDash("nvme") && NoDash("sata");
      IsoVersusDisk(m.vmName, m.schematic, m.vmName, i, m.disks[i].typ);
    }
  }

  lemma {:induction false} CompletableIsSafe(m: Machine, base: Inventory)
    requires Completable(m, base)
    ensures Safe(m)
  {
    KnownTypesAreSafe(m);
  }

  /** The replies of an attempt whose start of the domain takes effect and reports a failure. */
  function LostStart(op: Op, i: nat): Reply {
    if op == Op.Start then Lost else Happy(op, i)
  }

  lemma {:induction false} PoolAtSix(m: Machine, base: Inventory, s: St)
    requires Completable(m, base) && InProgress(m, base, 6, s)
    ensures m.pool in s.inv.pools && KnownTypes(s.rec.disks)
  {
    DiskRecsTypes(m);
    hide Made, IsoName, CidataName, MainName, DiskRecs, KnownTypes, Disks.KnownType, VolsInProgress, DomInProgress;
    hide NvramKey;
  }

  lemma {:induction false} LostVM(m: Machine, s: St)
    requires s.rec.vmVolName != "" && VolKey(m.pool, s.rec.vmVolName) in s.inv.vols && m.pool in s.inv.pools
    requires KnownTypes(s.rec.disks) && (m.vmName in s.inv.doms ==> !Active(s.inv.doms[m.vmName]))
    ensures var r := CreateVM(m, s, LostStart); !r.ok && Stuck(m, 6, r.st)
  {
    hide KnownTypes;
  }

  lemma {:induction false} LostStartSticks(m: Machine, base: Inventory, s: St)
    requires Completable(m, base) && InProgress(m, base, 6, s) && !Stuck(m, 6, s)
    ensures var r := Attempt(m, 6, s, LostStart); !r.ok && Stuck(m, 6, r.st)
  {
    MainStands(m, base, s);
    PoolAtSix(m, base, s);
    assert MainName(m.vmName)[|m.vmName|] == '-';
    hide Made, IsoName, CidataName, MainName, DiskRecs, KnownTypes, VolsInProgress, DomInProgress, CreateVM;
    LostVM(m, s);
  }

  /** Every machine that can be provisioned can also get stuck, by one lost reply, until its guest powers off. */
  lemma {:induction false} OneLostReplySticks(m: Machine, base: Inventory)
    requires Fresh(m, base) && Completable(m, base)
    ensures var q := Run(m, Begin(base), AllHappy(6) + [Try(LostStart)]);
            && q.pc == 6 && Stuck(m, 6, q.st)
            && !(exists more :: KeepsRunning(more) && Run(m, q, more).pc == STEPS)
            && Run(m, q, [PowerOff] + AllHappy(3)).pc == STEPS
  {
    CompletableIsSafe(m, base);
    StartExact(m, base);
    hide Exact, InProgress, Fresh, Completable, Attempt, Stuck;
    HappyRun(m, base, Begin(base), 6);
    var p := Run(m, Begin(base), AllHappy(6));
    BoundaryReady(m, base, 6, p.st);
    LostStartSticks(m, base, p.st);
    AttemptStep(m, base, 6, p.st, LostStart);
    RunAppend(m, Begin(base), AllHappy(6), [Try(LostStart)]);
    RunOne(m, p, Try(LostStart));
    ResumesExactly(m, base, 6, Attempt(m, 6, p.st, LostStart).st);
  }

  // ---------------------------------------------------------------- completed runs

  /** A run that completes has known disk types, so no further condition on names is needed. */
  lemma {:induction false} CompletedTypes(m: Machine, p: Progress, turns: seq<Turn>)
    requires p.pc <= 6 && p.st.rec == RecordAt(m, p.pc) && Run(m, p, turns).pc == STEPS
    ensures KnownTypes(DiskRecs(m, |m.disks|))
    decreases |turns|
  {
    hide Attempt, KnownTypes, DiskRecs, RecordAt;
    if turns != [] {
      if turns[0].Try? {
        AttemptRecord(m, p.pc, p.st, turns[0].plan);
      }
      if Next(m, p, turns[0]).pc == 7 {
        CreatedTypes(m, p.st, turns[0].plan);
      } else {
        CompletedTypes(m, Next(m, p, turns[0]), turns[1..]);
      }
    }
  }

  lemma {:induction false} CreatedTypes(m: Machine, s: St, plan: Plan)
    requires s.rec == RecordAt(m, 6) && Attempt(m, 6, s, plan).ok
    ensures KnownTypes(DiskRecs(m, |m.disks|))
  {
    hide KnownTypes, DiskRecs;
  }

  lemma {:induction false} CompletedIsSafe(m: Machine, base: Inventory, turns: seq<Turn>)
    requires Run(m, Begin(base), turns).pc == STEPS
    ensures Safe(m) && forall i :: 0 <= i < |m.disks| ==> Disks.KnownType(m.disks[i].typ)
  {
    hide Run, KnownTypes;
    CompletedTypes(m, Begin(base), turns);
    DiskRecsTypes(m);
    KnownTypesAreSafe(m);
  }

  /** Where every completed run ends. */
  lemma {:induction false} CompletedRun(m: Machine, base: Inventory, turns: seq<Turn>)
    requires Fresh(m, base) && Run(m, Begin(base), turns).pc == STEPS
    ensures Exact(m, base, STEPS, Run(m, Begin(base), turns).st)
  {
    hide Run, Made, Safe;
    CompletedIsSafe(m, base, turns);
    StartInProgress(m, base);
    RunInProgress(m, base, Begin(base), turns);
  }

  /** Retry equivalence: any two runs from the same unused names that complete, with any failures
      anywhere, end with the same volumes and contents, pools, domains and record. */
  lemma {:induction false} RetryEquivalence(m: Machine, base: Inventory, turns: seq<Turn>, turns': seq<Turn>)
    requires Fresh(m, base)
    requires Run(m, Begin(base), turns).pc == STEPS && Run(m, Begin(base), turns').pc == STEPS
    ensures var s, t := Run(m, Begin(base), turns).st, Run(m, Begin(base), turns').st;
            s.rec == t.rec && s.inv.vols == t.inv.vols && s.inv.pools == t.inv.pools && s.inv.doms == t.inv.doms
  {
    hide Run, Made;
    CompletedRun(m, base, turns);
    CompletedRun(m, base, turns');
  }

  /** Provisioning can complete exactly when the storage pool exists, or is the one that provisionISO
      creates, and every additional disk has a type createVM knows; and then eight failure-free attempts do it. */
  lemma {:induction false} CompletesExactly(m: Machine, base: Inventory)
    requires Fresh(m, base)
    ensures Completable(m, base) <==> exists turns :: Run(m, Begin(base), turns).pc == STEPS
    ensures Completable(m, base) ==> Run(m, Begin(base), AllHappy(8)).pc == STEPS
  {
    hide Run, Made, InProgress, Attempt, Fresh, Safe;
    StartInProgress(m, base);
    StartExact(m, base);
    if Completable(m, base) {
      CompletableIsSafe(m, base);
      HappyRun(m, base, Begin(base), STEPS);
    }
    if turns :| Run(m, Begin(base), turns).pc == STEPS {
      CompletedIsSafe(m, base, turns);
      CompletionNeeds(m, base, Begin(base), turns);
    }
  }

  lemma {:induction false} StartExact(m: Machine, base: Inventory)
    ensures Exact(m, base, 0, Begin(base).st)
  {
    assert base.vols + map[] == base.vols;
    assert base.pools + {} + {} == base.pools;
  }
}
