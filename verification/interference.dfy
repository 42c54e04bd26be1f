/** How far the machines of one host are independent of each other, exactly: they share the pools `isos` and
    `config`, which the first to need them makes, and an NVRAM volume without a machine, which the first
    teardown deletes. */
module Interference {
  import opened Libvirt
  import opened Provision
  import opened VolNames
  import opened Retry
  import opened Deprovision
  import opened Fleets

  /** Every machine of the host before its first step. */
  function Start(ms: map<string, Machine>, base: Inventory): Fleet {
    Fleet(base, map v | v in ms :: Unit(0, EMPTY_RECORD))
  }

  lemma {:induction false} StartTracks(ms: map<string, Machine>, base: Inventory)
    ensures Tracks(ms, Start(ms, base))
  {
  }

  /** acts and b's own actions among them bring b to the same place. */
  ghost predicate EndsAlike(ms: map<string, Machine>, f: Fleet, acts: seq<Action>, own: seq<Action>, b: string)
    requires Named(ms) && Tracks(ms, f) && Known(ms, acts) && Known(ms, own) && b in ms
  {
    var g, alone := Acts(ms, f, acts), Acts(ms, f, own);
    g.units[b] == alone.units[b] && Alike(g.inv, alone.inv, AllKeys(ms[b]), b)
  }

  /** Whatever the other machines do, and whatever fails, b ends where its own actions alone bring it. */
  ghost predicate Independent(ms: map<string, Machine>, f: Fleet, b: string)
    requires Named(ms) && Tracks(ms, f) && b in ms
  {
    forall acts, own :: Known(ms, acts) && Known(ms, own) && own == Own(acts, b) ==> EndsAlike(ms, f, acts, own, b)
  }

  // ---------------------------------------------------------------- one machine after the other

  lemma {:induction false} ActsAppend(ms: map<string, Machine>, f: Fleet, x: seq<Action>, y: seq<Action>)
    requires Named(ms) && Tracks(ms, f) && Known(ms, x) && Known(ms, y)
    ensures Known(ms, x + y) && Acts(ms, f, x + y) == Acts(ms, Acts(ms, f, x), y)
    decreases |x|
  {
    hide Act, Named, Tracks;
    if x == [] {
      assert x + y == y;
    } else {
      assert (x + y)[1..] == x[1..] + y;
      ActTracks(ms, f, x[0]);
      ActsAppend(ms, Act(ms, f, x[0]), x[1..], y);
    }
  }

  predicate AllOf(acts: seq<Action>, vm: string) {
    forall i :: 0 <= i < |acts| ==> acts[i].vm == vm
  }

  lemma {:induction false} OwnLast(x: seq<Action>, y: seq<Action>, a: string, b: string)
    requires AllOf(x, a) && AllOf(y, b) && a != b
    ensures Own(x + y, b) == y
    decreases |x| + |y|
  {
    if x != [] {
      assert (x + y)[1..] == x[1..] + y;
      OwnLast(x[1..], y, a, b);
    } else if y != [] {
      assert x + y == y && x + y[1..] == y[1..];
      OwnLast(x, y[1..], a, b);
    }
  }

  /** b after a, and b alone, in one host. */
  lemma {:induction false} AfterOther(ms: map<string, Machine>, f: Fleet, x: seq<Action>, y: seq<Action>, a: string,
                                      b: string)
    requires Named(ms) && Tracks(ms, f) && a in ms && b in ms && a != b && AllOf(x, a) && AllOf(y, b)
    requires Independent(ms, f, b)
    ensures var g, alone := Acts(ms, Acts(ms, f, x), y), Acts(ms, f, y);
            && g.units[b] == alone.units[b]
            && (b in g.inv.doms && b in alone.inv.doms ==> g.inv.doms[b] == alone.inv.doms[b])
  {
    hide Acts, Named, Tracks, Own, AllKeys;
    ActsAppend(ms, f, x, y);
    OwnLast(x, y, a, b);
    assert EndsAlike(ms, f, x + y, y, b);
  }

  /** The attempts of one machine. */
  function Provs(vm: string, turns: seq<Turn>): (acts: seq<Action>)
    requires KeepsRunning(turns)
    ensures AllOf(acts, vm)
  {
    seq(|turns|, i requires 0 <= i < |turns| => Prov(vm, turns[i].plan))
  }

  lemma {:induction false} ProvRun(ms: map<string, Machine>, f: Fleet, vm: string, plan: Plan, rest: seq<Turn>)
    requires Named(ms) && Tracks(ms, f) && vm in ms
    ensures var g := Act(ms, f, Prov(vm, plan));
            && Tracks(ms, g)
            && Run(ms[vm], Progress(f.units[vm].pc, St(f.inv, f.units[vm].rec)), [Try(plan)] + rest)
               == Run(ms[vm], Progress(g.units[vm].pc, St(g.inv, g.units[vm].rec)), rest)
  {
    var u := f.units[vm];
    hide Attempt, Named, RecordAt, Tracks;
    ActTracks(ms, f, Prov(vm, plan));
    assert ([Try(plan)] + rest)[0] == Try(plan) && ([Try(plan)] + rest)[1..] == rest;
    if u.pc == STEPS {
      RunStops(ms[vm], Progress(u.pc, St(f.inv, u.rec)), rest);
    }
  }

  /** A machine that acts alone runs as it would without a fleet. */
  lemma {:induction false} ProvsRun(ms: map<string, Machine>, f: Fleet, vm: string, turns: seq<Turn>)
    requires Named(ms) && Tracks(ms, f) && vm in ms && KeepsRunning(turns)
    ensures var g := Acts(ms, f, Provs(vm, turns));
            var q := Run(ms[vm], Progress(f.units[vm].pc, St(f.inv, f.units[vm].rec)), turns);
            g.inv == q.st.inv && g.units[vm] == Unit(q.pc, q.st.rec)
    decreases |turns|
  {
    hide Act, Attempt, Named, RecordAt;
    if turns != [] {
      assert Provs(vm, turns)[1..] == Provs(vm, turns[1..]);
      assert turns == [turns[0]] + turns[1..];
      ProvRun(ms, f, vm, turns[0].plan, turns[1..]);
      ProvsRun(ms, Act(ms, f, Prov(vm, turns[0].plan)), vm, turns[1..]);
    }
  }

  lemma {:induction false} PoolsGrow(ms: map<string, Machine>, f: Fleet, acts: seq<Action>)
    requires Named(ms) && Tracks(ms, f) && Known(ms, acts)
    ensures f.inv.pools <= Acts(ms, f, acts).inv.pools
    decreases |acts|
  {
    hide Act, Named, Tracks, AllKeys;
    if acts != [] {
      ActTracks(ms, f, acts[0]);
      ActTouches(ms, f, acts[0]);
      PoolsGrow(ms, Act(ms, f, acts[0]), acts[1..]);
    }
  }

  /** b before its first step, on a host where its names are free and where it can complete. */
  ghost predicate Ready(ms: map<string, Machine>, f: Fleet, b: string)
    requires b in ms
  {
    && Tracks(ms, f) && f.units[b] == Unit(0, EMPTY_RECORD)
    && Fresh(ms[b], f.inv) && Completable(ms[b], f.inv)
  }

  lemma {:induction false} StillReady(ms: map<string, Machine>, f: Fleet, x: seq<Action>, a: string, b: string)
    requires Named(ms) && a in ms && b in ms && a != b && AllOf(x, a) && Ready(ms, f, b)
    ensures Ready(ms, Acts(ms, f, x), b)
  {
    assert ms[b].vmName == b;
    Isolation(ms, f, x, b);
    PoolsGrow(ms, f, x);
    hide Acts, Tracks, AllKeys, Named;
  }

  // ---------------------------------------------------------------- the pools

  /** The replies of an attempt in which only the making of a pool fails. */
  function NoPool(op: Op, i: nat): Reply {
    if op == PoolCreate then Fails else Happy(op, i)
  }

  lemma {:induction false} NoPoolImage(inv: Inventory, key: VolKey, content: string)
    ensures var prior := RemoveOld(inv, NoPool, 0, key);
            prior.ok && (CreateFrom(prior.inv, NoPool, 0, key, content).ok <==>
                         key.pool in inv.pools)
  {
  }

  predicate ImageStep(pc: nat, pool: string) {
    (pc == 2 && pool == "isos") || (pc == 5 && pool == "config")
  }

  /** Whether the pool is there shows in how far b gets. */
  lemma {:induction false} PoolTells(m: Machine, base: Inventory, pc: nat, pool: string)
    requires Fresh(m, base) && Completable(m, base) && ImageStep(pc, pool)
    ensures Run(m, Begin(base), AllHappy(pc) + [Try(NoPool)]).pc == if pool in base.pools then pc + 1 else pc
  {
    hide Exact, Fresh, Completable, Attempt;
    CompletableIsSafe(m, base);
    StartExact(m, base);
    HappyRun(m, base, Begin(base), pc);
    var p := Run(m, Begin(base), AllHappy(pc));
    RunAppend(m, Begin(base), AllHappy(pc), [Try(NoPool)]);
    NoPoolAttempt(m, base, pc, pool, p.st);
    RunOne(m, p, Try(NoPool));
  }

  lemma {:induction false} NoPoolAttempt(m: Machine, base: Inventory, pc: nat, pool: string, s: St)
    requires ImageStep(pc, pool) && Exact(m, base, pc, s)
    ensures Attempt(m, pc, s, NoPool).ok <==> pool in base.pools
  {
    hide Made, IsoName, CidataName, DiskRecs, RemoveOld, CreateFrom;
    NoPoolImage(s.inv, VolKey(pool, if pc == 2 then IsoKey(m).name else CidataKey(m).name),
                if pc == 2 then m.iso else m.cidata);
  }

  lemma {:induction false} PoolLeft(m: Machine, base: Inventory, pc: nat, pool: string)
    requires Fresh(m, base) && Completable(m, base) && ImageStep(pc, pool)
    ensures pool in Run(m, Begin(base), AllHappy(pc + 1)).st.inv.pools
  {
    hide Fresh, Completable, Run, Made, RecordAt;
    CompletableIsSafe(m, base);
    StartExact(m, base);
    HappyRun(m, base, Begin(base), pc + 1);
  }

  /** b meets a pool that a has made. */
  lemma {:induction false} PoolShared(ms: map<string, Machine>, f: Fleet, a: string, b: string, pc: nat, pool: string)
    requires Named(ms) && a in ms && b in ms && a != b && Ready(ms, f, a) && Ready(ms, f, b)
    requires ImageStep(pc, pool) && Independent(ms, f, b)
    ensures pool in f.inv.pools
  {
    var x, y := Provs(a, AllHappy(pc + 1)), Provs(b, AllHappy(pc) + [Try(NoPool)]);
    var g := Acts(ms, f, x);
    StillReady(ms, f, x, a, b);
    hide Acts, Named, Independent, Fresh, Completable, Provs;
    AfterOther(ms, f, x, y, a, b);
    ProvsRun(ms, f, a, AllHappy(pc + 1));
    PoolLeft(ms[a], f.inv, pc, pool);
    ProvsRun(ms, f, b, AllHappy(pc) + [Try(NoPool)]);
    ProvsRun(ms, g, b, AllHappy(pc) + [Try(NoPool)]);
    PoolTells(ms[b], f.inv, pc, pool);
    PoolTells(ms[b], g.inv, pc, pool);
  }

  // ---------------------------------------------------------------- the NVRAM volume of no machine

  /** The replies of a call in which every deletion of a volume fails. */
  function NoDelete(op: Op, i: nat): Reply {
    if op == Delete then Fails else Good
  }

  function AllGoodReply(op: Op, i: nat): Reply { Good }

  /** Six steps and a start that is reported as failed: b's domain runs, its record does not name it yet. */
  lemma {:induction false} LostRun(m: Machine, base: Inventory)
    requires Fresh(m, base) && Completable(m, base)
    ensures var q := Run(m, Begin(base), AllHappy(6) + [Try(LostStart)]);
            q.pc == 6 && InProgress(m, base, 6, q.st) && Stuck(m, 6, q.st)
  {
    hide Exact, InProgress, Fresh, Completable, Attempt, Stuck;
    CompletableIsSafe(m, base);
    StartExact(m, base);
    HappyRun(m, base, Begin(base), 6);
    var p := Run(m, Begin(base), AllHappy(6));
    BoundaryReady(m, base, 6, p.st);
    LostStartSticks(m, base, p.st);
    AttemptStep(m, base, 6, p.st, LostStart);
    RunAppend(m, Begin(base), AllHappy(6), [Try(LostStart)]);
    RunOne(m, p, Try(LostStart));
  }

  lemma {:induction false} StrayThere(m: Machine, base: Inventory, s: St)
    requires m.vmName != "" && InProgress(m, base, 6, s)
    ensures NvramKey("") in s.inv.vols <==> NvramKey("") in base.vols
    ensures base.pools <= s.inv.pools
  {
    var k := NvramKey("");
    NamelessNowhere(m);
    StepKeysAll(m, 6);
    if k in Made(m, base.pools, 6) {
      MadeKeys(m, base.pools, 6, k);
      var q :| 0 <= q < 6 && k in StepKeys(m, q);
      StepKeysAll(m, q);
    }
    hide Made, StepKeys, AllKeys, NvramKey, RecordAt;
    assert k in s.inv.vols <==> k in s.inv.vols - StepKeys(m, 6);
  }

  /** Teardown stops at a stray NVRAM volume that cannot be deleted; without one it stops the domain. */
  lemma {:induction false} StrayStops(inv: Inventory, rec: Record, vm: string)
    requires vm != "" && rec.vmName == "" && rec.vmNvramName == "" && "nvram" in inv.pools
    requires vm in inv.doms && inv.doms[vm].Running?
    ensures var doms := Call(inv, rec, vm, NoDelete).inv.doms;
            vm in doms && doms[vm] == if NvramKey("") in inv.vols then Running else Shutoff
  {
    hide RemoveVols, VolTargets;
  }

  lemma {:induction false} StrayMeetsCall(m: Machine, base: Inventory)
    requires m.vmName != "" && Fresh(m, base) && Completable(m, base) && "nvram" in base.pools
    ensures var q := Run(m, Begin(base), AllHappy(6) + [Try(LostStart)]);
            var doms := Call(q.st.inv, q.st.rec, m.vmName, NoDelete).inv.doms;
            m.vmName in doms && doms[m.vmName] == if NvramKey("") in base.vols then Running else Shutoff
  {
    hide Run, Fresh, Completable, InProgress, Stuck, Call, NvramKey;
    LostRun(m, base);
    var q := Run(m, Begin(base), AllHappy(6) + [Try(LostStart)]);
    StrayThere(m, base, q.st);
    StuckAtSix(m, base, q.st);
    StrayStops(q.st.inv, q.st.rec, m.vmName);
  }

  lemma {:induction false} OneCall(ms: map<string, Machine>, f: Fleet, vm: string, plan: Plan)
    requires Named(ms) && Tracks(ms, f) && vm in ms
    ensures Acts(ms, f, [Deprov(vm, plan)]).inv == Call(f.inv, f.units[vm].rec, vm, plan).inv
  {
    hide Named, Call, Tracks;
    ActTracks(ms, f, Deprov(vm, plan));
    assert [Deprov(vm, plan)][1..] == [];
  }

  /** b provisions until its start is reported as failed, and is then torn down. */
  function StrayActs(b: string): (acts: seq<Action>)
    ensures AllOf(acts, b)
  {
    Provs(b, AllHappy(6) + [Try(LostStart)]) + [Deprov(b, NoDelete)]
  }

  lemma {:induction false} OwnActsKnown(ms: map<string, Machine>, acts: seq<Action>, b: string)
    requires AllOf(acts, b) && b in ms
    ensures Known(ms, acts)
  {
  }

  /** Whether the stray volume is there shows in b's domain. */
  lemma {:induction false} StrayTells(ms: map<string, Machine>, f: Fleet, b: string)
    requires Named(ms) && b in ms && Ready(ms, f, b) && "nvram" in f.inv.pools
    ensures Known(ms, StrayActs(b))
    ensures var g := Acts(ms, f, StrayActs(b));
            b in g.inv.doms && g.inv.doms[b] == if NvramKey("") in f.inv.vols then Running else Shutoff
  {
    var m, turns := ms[b], AllHappy(6) + [Try(LostStart)];
    var x := Provs(b, turns);
    assert m.vmName == b && b != "";
    OwnActsKnown(ms, StrayActs(b), b);
    hide Acts, Run, Named, Provs, Fresh, Completable, Call, NvramKey, Tracks;
    ActsAppend(ms, f, x, [Deprov(b, NoDelete)]);
    ProvsRun(ms, f, b, turns);
    OneCall(ms, Acts(ms, f, x), b, NoDelete);
    StrayMeetsCall(m, f.inv);
  }

  lemma {:induction false} StuckAtSix(m: Machine, base: Inventory, s: St)
    requires InProgress(m, base, 6, s) && Stuck(m, 6, s)
    ensures s.rec.vmName == "" && s.rec.vmNvramName == ""
    ensures m.vmName in s.inv.doms && s.inv.doms[m.vmName].Running?
  {
    hide VolsInProgress, DomInProgress;
  }

  /** One call for a machine that has not begun deletes the stray volume. */
  lemma {:induction false} StrayDeleted(inv: Inventory, vm: string)
    requires vm != "" && vm !in inv.doms && "nvram" in inv.pools
    ensures var e := Call(inv, EMPTY_RECORD, vm, AllGoodReply).inv; NvramKey("") !in e.vols && e.pools == inv.pools
  {
    assert VolTargets(EMPTY_RECORD) == [];
    assert NvramTarget(EMPTY_RECORD) == NvramKey("");
  }

  lemma {:induction false} AfterStray(ms: map<string, Machine>, f: Fleet, a: string, b: string)
    requires Named(ms) && a in ms && b in ms && a != b && Ready(ms, f, a) && Ready(ms, f, b)
    requires "nvram" in f.inv.pools
    ensures var g := Acts(ms, f, [Deprov(a, AllGoodReply)]);
            Ready(ms, g, b) && NvramKey("") !in g.inv.vols && "nvram" in g.inv.pools
  {
    assert ms[a].vmName == a && a != "";
    StillReady(ms, f, [Deprov(a, AllGoodReply)], a, b);
    OneCall(ms, f, a, AllGoodReply);
    StrayDeleted(f.inv, a);
    hide Acts, Named, Completable, NvramKey, Call, AllKeys, Tracks;
  }

  lemma {:induction false} StrayShared(ms: map<string, Machine>, f: Fleet, a: string, b: string)
    requires Named(ms) && a in ms && b in ms && a != b && Ready(ms, f, a) && Ready(ms, f, b)
    requires "nvram" in f.inv.pools && Independent(ms, f, b)
    ensures NvramKey("") !in f.inv.vols
  {
    var x := [Deprov(a, AllGoodReply)];
    hide Acts, Named, Independent, Fresh, Completable, StrayActs, NvramKey, Tracks, AllKeys, Call;
    AfterStray(ms, f, a, b);
    StrayTells(ms, f, b);
    StrayTells(ms, Acts(ms, f, x), b);
    AfterOther(ms, f, x, StrayActs(b), a, b);
  }

  // ---------------------------------------------------------------- exactly

  /** The machines of a host are independent of each other exactly when the image pools exist and teardown
      cannot find an NVRAM volume without a machine. */
  lemma {:induction false} IndependentExactly(ms: map<string, Machine>, base: Inventory, a: string, b: string)
    requires Named(ms) && a in ms && b in ms && a != b
    requires Fresh(ms[a], base) && Completable(ms[a], base) && Fresh(ms[b], base) && Completable(ms[b], base)
    ensures Tracks(ms, Start(ms, base)) && (Independent(ms, Start(ms, base), b) <==> PoolsReady(base))
  {
    var f := Start(ms, base);
    StartTracks(ms, base);
    hide Acts, Named, Fresh, Completable, AllKeys, NvramKey, Own, Known, Tracks;
    if PoolsReady(base) {
      forall acts, own | Known(ms, acts) && Known(ms, own) && own == Own(acts, b)
        ensures EndsAlike(ms, f, acts, own, b)
      {
        Noninterference(ms, f, acts, b);
      }
    }
    if Independent(ms, f, b) {
      PoolShared(ms, f, a, b, 2, "isos");
      PoolShared(ms, f, a, b, 5, "config");
      if "nvram" in base.pools {
        StrayShared(ms, f, a, b);
      }
    }
  }
}
