/** Provisioning and teardown together: when teardown restores the inventory, what it leaves behind when
    it does not, and that machines never touch each other. */
module Lifecycle {
  import opened Names
  import opened Libvirt
  import opened Provision
  import opened VolNames
  import opened Retry
  import opened Deprovision
  import Disks

  // ---------------------------------------------------------------- what the record covers

  lemma {:induction false} DiskTargetsAre(pool: string, ds: seq<DiskRec>, k: VolKey)
    ensures k in DiskTargets(pool, ds) <==> exists i :: 0 <= i < |ds| && k == VolKey(pool, ds[i].volName)
    decreases |ds|
  {
    if ds != [] {
      DiskTargetsAre(pool, ds[1..], k);
      if k in DiskTargets(pool, ds[1..]) {
        var i :| 0 <= i < |ds| - 1 && k == VolKey(pool, ds[1..][i].volName);
        assert ds[i + 1] == ds[1..][i];
      }
      if i :| 1 <= i < |ds| && k == VolKey(pool, ds[i].volName) {
        assert ds[1..][i - 1] == ds[i];
      }
    }
  }

  /** The recorded disks are the disks that were made. */
  lemma {:induction false} DiskTargetsMade(m: Machine, k: VolKey)
    ensures k in DiskTargets(m.pool, DiskRecs(m, |m.disks|)) <==> k in StepKeys(m, 4)
  {
    var n := |m.disks|;
    DiskTargetsAre(m.pool, DiskRecs(m, n), k);
    DiskVolsKeys(m, n, k);
    forall i | 0 <= i < n
      ensures |DiskRecs(m, n)| == n && VolKey(m.pool, DiskRecs(m, n)[i].volName) == DiskKey(m, i)
    {
      DiskRecsAt(m, n, i);
    }
    assert n == 0 ==> DiskRecs(m, n) == [];
  }

  /** The volume keys, NVRAM aside, that the record names at step pc. */
  function RecordedKeys(m: Machine, pc: nat): set<VolKey> {
    if pc < 4 then {}
    else
      StepKeys(m, 2) + StepKeys(m, 3)
      + (if pc > 4 then StepKeys(m, 4) else {})
      + (if pc > 5 then StepKeys(m, 5) else {})
  }

  /** The NVRAM name teardown uses: until createVM has succeeded the record has no machine name, and the
      name it makes from that belongs to no machine. */
  function NvramAt(m: Machine, pc: nat): VolKey {
    NvramKey(if pc > 6 then m.vmName else "")
  }

  lemma {:induction false} TargetsAt(m: Machine, pc: nat)
    requires m.pool != "" && pc <= 8
    ensures Targets(RecordAt(m, pc)) == RecordedKeys(m, pc) + {NvramAt(m, pc)}
  {
    var rec := RecordAt(m, pc);
    assert MainName(m.vmName)[|m.vmName|] == '-' && CidataName(m.vmName)[0] == 'u';
    assert |IsoName(m.vmName, m.schematic)| > 0 && |NvramKey(m.vmName).name| > 0;
    assert NvramTarget(rec) == NvramAt(m, pc);
    forall k ensures k in Targets(rec) <==> k in RecordedKeys(m, pc) + {NvramAt(m, pc)} {
      DiskTargetsMade(m, k);
      hide DiskRecs, DiskVols, IsoName, CidataName, MainName, NvramKey;
      VolTargetsAt(m, pc, k);
    }
  }

  lemma {:induction false} InParts(rec: Record, k: VolKey)
    requires rec.poolName != "" && rec.vmVolName != "" && rec.isoVolName != ""
    ensures k in VolTargets(rec) <==>
              || k == VolKey(rec.poolName, rec.vmVolName)
              || k == VolKey("isos", rec.isoVolName)
              || k in DiskTargets(rec.poolName, rec.disks)
              || (rec.cidataVolName != "" && k == VolKey("config", rec.cidataVolName))
  {
    hide DiskTargets;
  }

  lemma {:induction false} VolTargetsAt(m: Machine, pc: nat, k: VolKey)
    requires m.pool != "" && pc <= 8
    ensures k in VolTargets(RecordAt(m, pc)) <==> k in RecordedKeys(m, pc)
  {
    assert MainName(m.vmName)[|m.vmName|] == '-' && CidataName(m.vmName)[0] == 'u';
    assert |IsoName(m.vmName, m.schematic)| > 0;
    DiskTargetsMade(m, k);
    hide DiskRecs, DiskVols, IsoName, CidataName, MainName, NvramKey;
    assert DiskTargets(m.pool, []) == [];
    if pc >= 4 {
      InParts(RecordAt(m, pc), k);
      hide VolTargets, DiskTargets;
    }
  }

  // ---------------------------------------------------------------- restoring

  /** Volumes that provisioning may have made by step pc and that the record does not name yet. */
  function Unrecorded(m: Machine, pc: nat): set<VolKey> {
    if pc < 4 then StepKeys(m, 2) + StepKeys(m, 3)
    else if pc < 6 then StepKeys(m, pc)
    else {}
  }

  lemma {:induction false} KeyKinds(m: Machine, pc: nat, k: VolKey)
    requires Safe(m) && pc <= 8 && k in Unrecorded(m, pc)
    ensures k !in RecordedKeys(m, pc) && k != NvramKey(m.vmName) && k != NvramAt(m, pc)
    ensures k in AllKeys(m)
  {
    var q :| 2 <= q <= 5 && k in StepKeys(m, q) && (pc < 4 ==> q < 4) && (pc >= 4 ==> q == pc);
    if k in RecordedKeys(m, pc) {
      var r :| 2 <= r <= 5 && k in StepKeys(m, r) && r != q;
      OwnKey(m, q, r, k);
    }
    assert NvramKey(m.vmName) in StepKeys(m, 6);
    if k == NvramKey(m.vmName) {
      OwnKey(m, q, 6, k);
    }
    NamelessElsewhere(m, q);
  }

  /** Which volumes of the old inventory a teardown clears: none, or the NVRAM volume of no machine. */
  lemma {:induction false} BaseCleared(m: Machine, base: Inventory, pc: nat, doms: map<string, DomState>, k: VolKey)
    requires Safe(m) && Fresh(m, base) && pc <= 8 && k in base.vols
    requires k in ClearedAt(m, pc, doms)
    ensures pc <= 6 && k == NvramKey("")
  {
    assert NvramKey(m.vmName) in AllKeys(m);
    assert RecordedKeys(m, pc) <= AllKeys(m);
  }

  /** Volumes standing at step pc, and whether a teardown clears them. */
  lemma {:induction false} StandingVolumes(m: Machine, base: Inventory, pc: nat, s: St, k: VolKey)
    requires Safe(m) && Fresh(m, base) && pc <= 8 && InProgress(m, base, pc, s) && k in s.inv.vols
    ensures k in base.vols ==> s.inv.vols[k] == base.vols[k]
    ensures k in base.vols || k in Unrecorded(m, pc) || k in RecordedKeys(m, pc)
            || (k == NvramKey(m.vmName) && (pc > 6 || m.vmName in s.inv.doms))
  {
    StepKeysNew(m, base, pc);
    hide Made, StepKeys, StepVols, AllKeys, RecordAt, NvramKey;
    if k !in StepKeys(m, pc) {
      assert k in s.inv.vols - StepKeys(m, pc) && s.inv.vols[k] == (s.inv.vols - StepKeys(m, pc))[k];
      if k in Made(m, base.pools, pc) {
        MadeKeys(m, base.pools, pc, k);
        var q :| 0 <= q < pc && k in StepKeys(m, q);
        StepRange(m, q, k);
        StepKeysAll(m, q);
        assert k in AllKeys(m);
        NvramIsStepKey(m);
      }
    } else {
      StepRange(m, pc, k);
      NvramIsStepKey(m);
    }
  }

  lemma {:induction false} BaseStands(m: Machine, base: Inventory, pc: nat, s: St, k: VolKey)
    requires Safe(m) && Fresh(m, base) && pc <= 8 && InProgress(m, base, pc, s) && k in base.vols
    ensures k in s.inv.vols
  {
    StepKeysNew(m, base, pc);
    hide Made, StepKeys, StepVols, AllKeys, RecordAt, NvramKey;
    assert k in base.vols + Made(m, base.pools, pc);
    assert k in s.inv.vols - StepKeys(m, pc);
  }

  /** Provision, then deprovision until it returns nil, at any moment and with any failures: the volumes
      are what they were before if and only if nothing had been made that the record does not name, and
      the NVRAM pool holds no volume of the nameless machine.  The domains always are. */
  lemma {:induction false} RestoresExactly(m: Machine, base: Inventory, pc: nat, s: St, steps: seq<Turn>)
    requires Safe(m) && Fresh(m, base) && m.pool != "" && pc <= 8 && InProgress(m, base, pc, s)
    requires Teardown(s.inv, s.rec, m.vmName, steps).verdict.Done?
    ensures var e := Teardown(s.inv, s.rec, m.vmName, steps).inv;
            && e.doms == base.doms
            && (e.vols == base.vols <==>
                  Unrecorded(m, pc) !! s.inv.vols.Keys && (pc > 6 || NvramKey("") !in base.vols))
  {
    TeardownEffect(s.inv, s.rec, m.vmName, steps);
    TargetsAt(m, pc);
    var c := ClearedAt(m, pc, s.inv.doms);
    assert Teardown(s.inv, s.rec, m.vmName, steps).inv.vols == s.inv.vols - c;
    DomsRestored(m, base, pc, s);
    hide Teardown, Targets, RecordedKeys, InProgress, Fresh, Safe, Unrecorded, NvramKey, ClearedAt;
    ClearsExactly(m, base, pc, s);
  }

  /** What a teardown that starts at step pc clears. */
  function ClearedAt(m: Machine, pc: nat, doms: map<string, DomState>): set<VolKey> {
    RecordedKeys(m, pc) + {NvramAt(m, pc)} + (if m.vmName in doms then {NvramKey(m.vmName)} else {})
  }

  lemma {:induction false} ClearsExactly(m: Machine, base: Inventory, pc: nat, s: St)
    requires Safe(m) && Fresh(m, base) && pc <= 8 && InProgress(m, base, pc, s)
    ensures s.inv.vols - ClearedAt(m, pc, s.inv.doms) == base.vols <==>
              Unrecorded(m, pc) !! s.inv.vols.Keys && (pc > 6 || NvramKey("") !in base.vols)
  {
    var c := ClearedAt(m, pc, s.inv.doms);
    if Unrecorded(m, pc) !! s.inv.vols.Keys && (pc > 6 || NvramKey("") !in base.vols) {
      hide RecordedKeys, InProgress, Fresh, Safe, Unrecorded, NvramKey;
      forall k ensures k in s.inv.vols && k !in c <==> k in base.vols {
        if k in s.inv.vols {
          StandingVolumes(m, base, pc, s, k);
        }
        if k in base.vols {
          BaseStands(m, base, pc, s, k);
          if k in c {
            BaseCleared(m, base, pc, s.inv.doms, k);
          }
        }
      }
      forall k | k in base.vols ensures k in s.inv.vols && s.inv.vols[k] == base.vols[k] {
        BaseStands(m, base, pc, s, k);
        StandingVolumes(m, base, pc, s, k);
      }
    } else if k :| k in Unrecorded(m, pc) && k in s.inv.vols {
      hide RecordedKeys, InProgress, Fresh, Safe, Unrecorded, NvramKey;
      KeyKinds(m, pc, k);
      assert k in s.inv.vols - c;
      UnrecordedNotInBase(m, base, pc, k);
    } else {
      hide RecordedKeys, InProgress, Fresh, Safe, Unrecorded, NvramKey;
      assert NvramKey("") in c;
    }
  }

  lemma {:induction false} UnrecordedNotInBase(m: Machine, base: Inventory, pc: nat, k: VolKey)
    requires Safe(m) && Fresh(m, base) && pc <= 8 && k in Unrecorded(m, pc)
    ensures k !in base.vols
  {
    KeyKinds(m, pc, k);
    hide AllKeys;
  }

  lemma {:induction false} DomsRestored(m: Machine, base: Inventory, pc: nat, s: St)
    requires Fresh(m, base) && InProgress(m, base, pc, s)
    ensures s.inv.doms - {m.vmName} == base.doms
  {
    hide Made, StepKeys, StepVols, AllKeys, RecordAt, VolsInProgress;
  }

  /** At every step boundary from provisionVMVolume on, teardown is the inverse of provisioning: volumes
      and domains return to what they were, and only the pools "isos" and "config" may have been added. */
  lemma {:induction false} TeardownIsInverse(m: Machine, base: Inventory, pc: nat, s: St, steps: seq<Turn>)
    requires Safe(m) && Fresh(m, base) && m.pool != "" && 4 <= pc <= 8 && Exact(m, base, pc, s)
    requires Teardown(s.inv, s.rec, m.vmName, steps).verdict.Done?
    ensures var e := Teardown(s.inv, s.rec, m.vmName, steps).inv;
            && e.doms == base.doms
            && (e.vols == base.vols <==> pc > 6 || NvramKey("") !in base.vols)
            && e.pools == PoolsAt(base.pools, pc)
  {
    hide Teardown, Safe, Fresh, Made;
    ExactIsInProgress(m, base, pc, s);
    RestoresExactly(m, base, pc, s, steps);
    TeardownEffect(s.inv, s.rec, m.vmName, steps);
    BoundaryHasNoneOfStep(m, base, pc, s);
  }

  lemma {:induction false} BoundaryHasNoneOfStep(m: Machine, base: Inventory, pc: nat, s: St)
    requires Safe(m) && Fresh(m, base) && 4 <= pc <= 8 && Exact(m, base, pc, s)
    ensures Unrecorded(m, pc) !! s.inv.vols.Keys
  {
    StepKeysNew(m, base, pc);
    hide Made, StepKeys;
  }

  /** The whole life of a machine: after a completed run, with any failures on the way, a completed
      teardown, with any failures on the way, has removed every trace of it but the two pools. */
  lemma {:induction false} WholeLife(m: Machine, base: Inventory, turns: seq<Turn>, steps: seq<Turn>)
    requires Fresh(m, base) && m.pool != "" && Run(m, Begin(base), turns).pc == STEPS
    requires var s := Run(m, Begin(base), turns).st; Teardown(s.inv, s.rec, m.vmName, steps).verdict.Done?
    ensures var s := Run(m, Begin(base), turns).st;
            var e := Teardown(s.inv, s.rec, m.vmName, steps).inv;
            e.vols == base.vols && e.doms == base.doms && e.pools == base.pools + {"isos", "config"}
  {
    hide Run, Teardown, Safe, Fresh, Exact;
    CompletedIsSafe(m, base, turns);
    CompletedRun(m, base, turns);
    TeardownIsInverse(m, base, STEPS, Run(m, Begin(base), turns).st, steps);
    assert base.pools + {"isos"} + {"config"} == base.pools + {"isos", "config"};
  }

  /** Teardown before provisionVMVolume has succeeded returns nil early and leaves the ISO volume, and a
      main volume whose path lookup failed. */
  lemma {:induction false} EarlyTeardownLeaks(m: Machine, base: Inventory, pc: nat, s: St, steps: seq<Turn>, k: VolKey)
    requires Safe(m) && Fresh(m, base) && m.pool != "" && pc < 4 && InProgress(m, base, pc, s)
    requires Teardown(s.inv, s.rec, m.vmName, steps).verdict.Done?
    requires k in s.inv.vols && (k == IsoKey(m) || k == MainKey(m))
    ensures k in Teardown(s.inv, s.rec, m.vmName, steps).inv.vols
  {
    UnrecordedStays(m, base, pc, s, steps, k);
  }

  /** Additional disks created by an attempt that failed later in its loop stay, too. */
  lemma {:induction false} HalfMadeDisksLeak(m: Machine, base: Inventory, s: St, steps: seq<Turn>, i: nat)
    requires Safe(m) && Fresh(m, base) && m.pool != "" && InProgress(m, base, 4, s)
    requires Teardown(s.inv, s.rec, m.vmName, steps).verdict.Done?
    requires i < |m.disks| && DiskKey(m, i) in s.inv.vols
    ensures DiskKey(m, i) in Teardown(s.inv, s.rec, m.vmName, steps).inv.vols
  {
    DiskVolsKeys(m, |m.disks|, DiskKey(m, i));
    UnrecordedStays(m, base, 4, s, steps, DiskKey(m, i));
  }

  lemma {:induction false} UnrecordedStays(m: Machine, base: Inventory, pc: nat, s: St, steps: seq<Turn>, k: VolKey)
    requires Safe(m) && Fresh(m, base) && m.pool != "" && pc <= 8 && InProgress(m, base, pc, s)
    requires Teardown(s.inv, s.rec, m.vmName, steps).verdict.Done?
    requires k in s.inv.vols && k in Unrecorded(m, pc)
    ensures k in Teardown(s.inv, s.rec, m.vmName, steps).inv.vols
  {
    TeardownEffect(s.inv, s.rec, m.vmName, steps);
    TargetsAt(m, pc);
    KeyKinds(m, pc, k);
    hide Teardown, Targets, RecordedKeys, Unrecorded, Safe, Fresh, NvramKey, VolsInProgress, AllKeys;
  }

  // ---------------------------------------------------------------- runs that reach the leaks

  lemma {:induction false} TargetPools(m: Machine, base: Inventory, pc: nat, s: St, k: VolKey)
    requires Completable(m, base) && InProgress(m, base, pc, s) && "nvram" in base.pools && (pc == 3 || pc == 4)
    requires k in RecordedKeys(m, pc) + {NvramAt(m, pc)}
    ensures k.pool in s.inv.pools
  {
    NvramPool(m, pc);
    hide RecordAt, VolsInProgress, IsoName, MainName, NvramKey, NvramAt, Disks.KnownType, DiskVols;
  }

  /** While no domain is defined, a teardown can complete as soon as its pools exist. */
  lemma {:induction false} TeardownExists(m: Machine, base: Inventory, pc: nat, s: St)
    requires Fresh(m, base) && Completable(m, base) && InProgress(m, base, pc, s)
    requires m.vmName != "" && m.pool != "" && "nvram" in base.pools && (pc == 3 || pc == 4)
    ensures exists steps :: Teardown(s.inv, s.rec, m.vmName, steps).verdict.Done?
  {
    TargetsAt(m, pc);
    TeardownPossible(s.inv, s.rec, m.vmName);
    assert m.vmName !in s.inv.doms;
    assert s.rec == RecordAt(m, pc);
    assert Removable(s.inv.doms, m.vmName);
    hide InProgress, Fresh, Completable, Teardown, Targets, RecordedKeys, NvramAt;
    forall k | k in Targets(s.rec) ensures k.pool in s.inv.pools {
      TargetPools(m, base, pc, s, k);
    }
  }

  lemma {:induction false} NvramPool(m: Machine, pc: nat)
    ensures NvramAt(m, pc).pool == "nvram"
  {
  }

  lemma {:induction false} IsoStands(m: Machine, base: Inventory, s: St)
    requires Exact(m, base, 3, s)
    ensures IsoKey(m) in s.inv.vols
  {
    assert Made(m, base.pools, 3) == Made(m, base.pools, 2) + StepVols(m, base.pools, 2);
    hide Made, RecordAt;
  }

  /** Three failure-free attempts, and then a teardown: it can return nil, and the ISO volume stays. */
  lemma {:induction false} EarlyLeakReached(m: Machine, base: Inventory)
    requires Fresh(m, base) && Completable(m, base) && m.vmName != "" && m.pool != "" && "nvram" in base.pools
    ensures var q := Run(m, Begin(base), AllHappy(3));
            && q.pc == 3
            && exists steps :: var d := Teardown(q.st.inv, q.st.rec, m.vmName, steps);
                 d.verdict.Done? && IsoKey(m) in d.inv.vols && IsoKey(m) !in base.vols
  {
    CompletableIsSafe(m, base);
    StartExact(m, base);
    StepKeysAll(m, 2);
    assert IsoKey(m) in AllKeys(m);
    assert IsoKey(m) !in base.vols;
    hide Run, Teardown, Safe, Fresh, Exact, InProgress, Completable, AllKeys, IsoKey;
    HappyRun(m, base, Begin(base), 3);
    var s := Run(m, Begin(base), AllHappy(3)).st;
    ExactIsInProgress(m, base, 3, s);
    TeardownExists(m, base, 3, s);
    IsoStands(m, base, s);
    var steps :| Teardown(s.inv, s.rec, m.vmName, steps).verdict.Done?;
    EarlyTeardownLeaks(m, base, 3, s, steps, IsoKey(m));
  }

  /** The replies of an attempt in which the creation of the second disk fails. */
  function SecondDiskFails(op: Op, i: nat): Reply {
    if op == Op.Create && i == 1 then Fails else Happy(op, i)
  }

  lemma {:induction false} SecondDiskStops(m: Machine, s: St)
    requires |m.disks| >= 2 && m.pool in s.inv.pools && DiskKey(m, 0) !in s.inv.vols && DiskKey(m, 1) !in s.inv.vols
    ensures var r := Attempt(m, 4, s, SecondDiskFails); !r.ok && DiskKey(m, 0) in r.st.inv.vols
  {
    DiskKeysDistinctFirst(m);
    hide DiskKey, DiskVol;
    var plan: Plan := SecondDiskFails;
    var first := CreateVolume(s.inv, plan, 0, DiskKey(m, 0), DiskVol(m.disks[0]));
    assert first.ok && first.inv.vols == s.inv.vols[DiskKey(m, 0) := DiskVol(m.disks[0])];
    var second := CreateVolume(first.inv, plan, 1, DiskKey(m, 1), DiskVol(m.disks[1]));
    assert second == R(first.inv, false);
    assert CreateDisks(m, s.inv, plan, 0) == CreateDisks(m, first.inv, plan, 1) == second;
  }

  lemma {:induction false} DiskKeysDistinctFirst(m: Machine)
    requires |m.disks| >= 2
    ensures DiskKey(m, 0) != DiskKey(m, 1)
  {
    if DiskKey(m, 0) == DiskKey(m, 1) {
      DiskKeysDistinct(m, 0, 1);
    }
  }

  lemma {:induction false} NoDiskYet(m: Machine, base: Inventory, s: St, i: nat)
    requires Safe(m) && Fresh(m, base) && Exact(m, base, 4, s) && i < |m.disks|
    ensures DiskKey(m, i) !in s.inv.vols && DiskKey(m, i) in AllKeys(m)
  {
    StepKeysNew(m, base, 4);
    DiskVolsKeys(m, |m.disks|, DiskKey(m, i));
    assert DiskKey(m, i) in StepKeys(m, 4);
    hide Made, DiskKey, DiskVols;
  }

  /** Four failure-free attempts, one that fails at the second disk, and then a teardown: it can return nil,
      and the first disk stays. */
  lemma {:induction false} HalfMadeLeakReached(m: Machine, base: Inventory)
    requires Fresh(m, base) && Completable(m, base) && m.vmName != "" && m.pool != "" && "nvram" in base.pools
    requires |m.disks| >= 2
    ensures var q := Run(m, Begin(base), AllHappy(4) + [Try(SecondDiskFails)]);
            && q.pc == 4
            && exists steps :: var d := Teardown(q.st.inv, q.st.rec, m.vmName, steps);
                 d.verdict.Done? && DiskKey(m, 0) in d.inv.vols && DiskKey(m, 0) !in base.vols
  {
    CompletableIsSafe(m, base);
    StartExact(m, base);
    hide Teardown, Safe, Exact, InProgress, AllKeys, DiskKey, Attempt, AllHappy, Disks.KnownType;
    HappyRun(m, base, Begin(base), 4);
    var p := Run(m, Begin(base), AllHappy(4));
    ExactIsInProgress(m, base, 4, p.st);
    NoDiskYet(m, base, p.st, 0);
    NoDiskYet(m, base, p.st, 1);
    assert m.pool in p.st.inv.pools by { PoolsFromFour(m, base, p.st); }
    SecondDiskStops(m, p.st);
    AttemptStep(m, base, 4, p.st, SecondDiskFails);
    RunAppend(m, Begin(base), AllHappy(4), [Try(SecondDiskFails)]);
    var s := Attempt(m, 4, p.st, SecondDiskFails).st;
    RunOne(m, p, Try(SecondDiskFails));
    assert Run(m, p, [Try(SecondDiskFails)]) == Progress(4, s);
    TeardownExists(m, base, 4, s);
    var steps :| Teardown(s.inv, s.rec, m.vmName, steps).verdict.Done?;
    HalfMadeDisksLeak(m, base, s, steps, 0);
  }

  lemma {:induction false} PoolsFromFour(m: Machine, base: Inventory, s: St)
    requires Completable(m, base) && Exact(m, base, 4, s)
    ensures m.pool in s.inv.pools
  {
    hide Made, RecordAt, Disks.KnownType;
  }
}
