/** Exactly when cleanup can take the temp file of a download that is younger than MaxAge. */
module CacheAging {
  import opened Wire
  import opened Cache

  /** The download of the key goes on with this temp file in every state of the run. */
  predicate StaysLive(s: State, run: seq<Label>, maxAge: int, key: string, temp: string)
    requires Runs(s, run, maxAge)
    decreases |run|
  {
    && key in s.flights && HasLiveTemp(s.flights[key]) && s.flights[key].temp == temp
    && (run == [] || StaysLive(Next(s, run[0], maxAge), run[1..], maxAge, key, temp))
  }

  /** From s, where the temp file is about to be created, some run removes it under the live download within
      less than maxAge. */
  ghost predicate EarlyRemoval(s: State, key: string, temp: string, maxAge: int)
    requires Enabled(s, CreateTemp(key, temp))
  {
    var s1 := Next(s, CreateTemp(key, temp), maxAge);
    exists run :: Runs(s1, run, maxAge) && StaysLive(s1, run, maxAge, key, temp)
                  && temp !in After(s1, run, maxAge).dir && After(s1, run, maxAge).now - s.now < maxAge
  }

  // ---------------------------------------------------------------- only when its age counts from the past

  lemma {:induction false} LiveBorn(s: State, run: seq<Label>, maxAge: int, key: string, temp: string)
    requires Inv(s, maxAge) && Runs(s, run, maxAge) && StaysLive(s, run, maxAge, key, temp)
    ensures var t := After(s, run, maxAge);
            && key in t.flights && HasLiveTemp(t.flights[key]) && t.flights[key].temp == temp
            && t.flights[key].born == s.flights[key].born && t.now >= s.now
    decreases |run|
  {
    if run != [] {
      var n := Next(s, run[0], maxAge);
      StepBorn(s, run[0], maxAge, key);
      hide Next, Inv, Enabled;
      InvKept(s, run[0], maxAge);
      Unmoved(s, run[0], maxAge);
      LiveBorn(n, run[1..], maxAge, key, temp);
    }
  }

  lemma {:induction false} StepBorn(s: State, l: Label, maxAge: int, key: string)
    requires Inv(s, maxAge) && Enabled(s, l) && key in s.flights && HasLiveTemp(s.flights[key])
    requires key in Next(s, l, maxAge).flights && HasLiveTemp(Next(s, l, maxAge).flights[key])
    ensures Next(s, l, maxAge).flights[key].born == s.flights[key].born
  {
    TempOrigin(s, l, maxAge, key);
    assert l.CreateTemp? ==> l.key in s.flights && s.flights[l.key].Fetching?;
    hide Next, Inv, Enabled;
  }

  // ---------------------------------------------------------------- and whenever it does

  lemma {:induction false} RunsAppend(s: State, a: seq<Label>, b: seq<Label>, maxAge: int, key: string, temp: string)
    requires Runs(s, a, maxAge) && StaysLive(s, a, maxAge, key, temp)
    requires var t := After(s, a, maxAge); Runs(t, b, maxAge) && StaysLive(t, b, maxAge, key, temp)
    ensures Runs(s, a + b, maxAge) && StaysLive(s, a + b, maxAge, key, temp)
    ensures After(s, a + b, maxAge) == After(After(s, a, maxAge), b, maxAge)
    decreases |a|
  {
    hide Next, Enabled;
    if a == [] {
      assert a + b == b;
    } else {
      assert (a + b)[0] == a[0] && (a + b)[1..] == a[1..] + b;
      RunsAppend(Next(s, a[0], maxAge), a[1..], b, maxAge, key, temp);
    }
  }

  lemma {:induction false} OneStep(s: State, l: Label, maxAge: int, key: string, temp: string)
    requires Enabled(s, l)
    ensures Runs(s, [l], maxAge) && After(s, [l], maxAge) == Next(s, l, maxAge)
    ensures Live(s, key, temp) && Live(Next(s, l, maxAge), key, temp) ==> StaysLive(s, [l], maxAge, key, temp)
  {
    assert [l][1..] == [];
    hide Next, Enabled;
  }

  predicate Live(s: State, key: string, temp: string) {
    key in s.flights && HasLiveTemp(s.flights[key]) && s.flights[key].temp == temp
  }

  /** ReadDir: every name once. */
  lemma {:induction false} Listing(keys: set<string>) returns (names: seq<string>)
    ensures Distinct(names) && forall n :: n in names <==> n in keys
    decreases keys
  {
    if keys == {} {
      names := [];
    } else {
      var k :| k in keys;
      var rest := Listing(keys - {k});
      names := [k] + rest;
    }
  }

  /** The rest of a cleanup that manages to remove nothing: it only stamps. */
  lemma {:induction false} Drain(s: State, maxAge: int, key: string, temp: string) returns (run: seq<Label>)
    requires s.sweep.Some? && s.sweep.value.Listing? && Live(s, key, temp) && Refs(s.refs, temp) <= 0
    ensures Runs(s, run, maxAge) && StaysLive(s, run, maxAge, key, temp)
    ensures var t := After(s, run, maxAge);
            && t == s.(sweep := None, lastUsed := t.lastUsed)
            && (temp in s.lastUsed ==> temp in t.lastUsed && t.lastUsed[temp] == s.lastUsed[temp])
            && (temp !in s.lastUsed && temp in s.sweep.value.todo ==>
                  temp in t.lastUsed && t.lastUsed[temp] == s.sweep.value.at)
    decreases |s.sweep.value.todo|
  {
    if s.sweep.value.todo == [] {
      run := [SweepEnd];
      OneStep(s, SweepEnd, maxAge, key, temp);
    } else {
      var l := SweepEntry(false);
      var n := Next(s, l, maxAge);
      OneStep(s, l, maxAge, key, temp);
      var rest := Drain(n, maxAge, key, temp);
      hide Next, Enabled, Runs, After, StaysLive;
      RunsAppend(s, [l], rest, maxAge, key, temp);
      run := [l] + rest;
    }
  }

  /** A cleanup that starts at some moment and lists the directory. */
  lemma {:induction false} Relist(s: State, maxAge: int, key: string, temp: string, names: seq<string>)
    requires s.sweep.None? && Live(s, key, temp) && Distinct(names) && forall n :: n in names <==> n in s.dir
    ensures var run := [SweepStart] + [SweepList(names)];
            && Runs(s, run, maxAge) && StaysLive(s, run, maxAge, key, temp)
            && After(s, run, maxAge) == s.(sweep := Some(Cache.Listing(s.now, names)))
  {
    var a := s.(sweep := Some(Started(s.now)));
    assert Next(s, SweepStart, maxAge) == a;
    OneStep(s, SweepStart, maxAge, key, temp);
    assert Next(a, SweepList(names), maxAge) == s.(sweep := Some(Cache.Listing(s.now, names)));
    OneStep(a, SweepList(names), maxAge, key, temp);
    hide Next, Enabled, Runs, After, StaysLive;
    RunsAppend(s, [SweepStart], [SweepList(names)], maxAge, key, temp);
  }

  lemma {:induction false} TakeFirst(s: State, maxAge: int, key: string, temp: string)
    requires s.sweep.Some? && s.sweep.value.Listing? && s.sweep.value.todo != [] && s.sweep.value.todo[0] == temp
    requires Live(s, key, temp) && Refs(s.refs, temp) <= 0
    requires temp in s.dir && temp in s.lastUsed && s.sweep.value.at - s.lastUsed[temp] >= maxAge
    ensures Runs(s, [SweepEntry(true)], maxAge) && StaysLive(s, [SweepEntry(true)], maxAge, key, temp)
    ensures var t := After(s, [SweepEntry(true)], maxAge); temp !in t.dir && t.now == s.now
  {
    OneStep(s, SweepEntry(true), maxAge, key, temp);
    hide Runs, After, StaysLive;
  }

  /** A cleanup once the stamp is maxAge old, with the temp file first in its listing. */
  lemma {:induction false} TakeStamped(s: State, maxAge: int, key: string, temp: string) returns (run: seq<Label>)
    requires s.sweep.None? && Live(s, key, temp) && Refs(s.refs, temp) <= 0 && temp in s.dir && temp in s.lastUsed
    ensures Runs(s, run, maxAge) && StaysLive(s, run, maxAge, key, temp)
    ensures var t := After(s, run, maxAge);
            temp !in t.dir && (t.now == s.now || t.now == s.lastUsed[temp] + maxAge)
  {
    var due := s.lastUsed[temp] + maxAge;
    var d: nat := if due > s.now then due - s.now else 0;
    var s1 := s.(now := s.now + d);
    assert Next(s, Tick(d), maxAge) == s1;
    OneStep(s, Tick(d), maxAge, key, temp);
    var rest := Listing(s.dir.Keys - {temp});
    var names := [temp] + rest;
    hide Next, Enabled, Runs, After, StaysLive;
    Relist(s1, maxAge, key, temp, names);
    var list := [SweepStart] + [SweepList(names)];
    var s3 := s1.(sweep := Some(Cache.Listing(s1.now, names)));
    TakeFirst(s3, maxAge, key, temp);
    RunsAppend(s1, list, [SweepEntry(true)], maxAge, key, temp);
    RunsAppend(s, [Tick(d)], list + [SweepEntry(true)], maxAge, key, temp);
    run := [Tick(d)] + (list + [SweepEntry(true)]);
  }

  /** Nobody counts references under a temp file's name. */
  lemma {:induction false} TempUnused(s: State, maxAge: int, temp: string)
    requires Inv(s, maxAge) && IsTemp(temp)
    ensures Refs(s.refs, temp) <= 0
  {
    hide Present, Whole, Temps, Stamps, Listed;
    forall c | c in s.callers ensures s.callers[c].key != temp {
      assert IsKey(s.callers[c].key);
    }
    assert Users(s.callers, temp) == {};
  }

  /** A live temp file in the directory whose stamp, or the stamp it is about to get, is older than s.now can
      be taken by the time that stamp is maxAge old. */
  lemma {:induction false} TakeBorn(s: State, maxAge: int, key: string, temp: string) returns (run: seq<Label>)
    requires Live(s, key, temp) && Refs(s.refs, temp) <= 0 && temp in s.dir
    requires temp in s.lastUsed || Pending(s, temp)
    ensures Runs(s, run, maxAge) && StaysLive(s, run, maxAge, key, temp)
    ensures var t := After(s, run, maxAge); temp !in t.dir && (t.now == s.now || t.now == Born(s, temp) + maxAge)
  {
    if s.sweep.None? {
      run := TakeStamped(s, maxAge, key, temp);
    } else if s.sweep.value.Listing? {
      run := DrainAndTake(s, maxAge, key, temp);
    } else {
      var names := Listing(s.dir.Keys);
      var l := SweepList(names);
      assert Enabled(s, l);
      OneStep(s, l, maxAge, key, temp);
      var n := Next(s, l, maxAge);
      assert Born(n, temp) == Born(s, temp);
      var rest := DrainAndTake(n, maxAge, key, temp);
      hide Next, Enabled, Runs, After, StaysLive;
      RunsAppend(s, [l], rest, maxAge, key, temp);
      run := [l] + rest;
    }
  }

  lemma {:induction false} DrainAndTake(s: State, maxAge: int, key: string, temp: string) returns (run: seq<Label>)
    requires Live(s, key, temp) && Refs(s.refs, temp) <= 0 && temp in s.dir
    requires s.sweep.Some? && s.sweep.value.Listing? && (temp in s.lastUsed || temp in s.sweep.value.todo)
    ensures Runs(s, run, maxAge) && StaysLive(s, run, maxAge, key, temp)
    ensures var t := After(s, run, maxAge); temp !in t.dir && (t.now == s.now || t.now == Born(s, temp) + maxAge)
  {
    var a := Drain(s, maxAge, key, temp);
    var t := After(s, a, maxAge);
    assert t.lastUsed[temp] == Born(s, temp);
    var b := TakeStamped(t, maxAge, key, temp);
    hide Runs, After, StaysLive;
    RunsAppend(s, a, b, maxAge, key, temp);
    run := a + b;
  }

  /** What has just been created. */
  lemma {:induction false} JustCreated(s: State, key: string, temp: string, maxAge: int)
    requires Inv(s, maxAge) && Enabled(s, CreateTemp(key, temp))
    ensures var t := Next(s, CreateTemp(key, temp), maxAge);
            && Inv(t, maxAge) && Live(t, key, temp) && t.flights[key].born == Born(s, temp) && temp in t.dir
            && t.now == s.now && t.lastUsed == s.lastUsed && t.sweep == s.sweep && IsTemp(temp)
            && Born(t, temp) == Born(s, temp) && Pending(t, temp) == Pending(s, temp)
  {
    InvKept(s, CreateTemp(key, temp), maxAge);
    hide Inv, TempInUse;
  }

  /** A download's temp file can be lost before it is maxAge old if and only if its age counts from a moment
      before its creation: a stamp left under its name, or, without one, the start of a cleanup that has not
      listed the directory yet or still has the name to do, lies in the past. */
  lemma {:induction false} EarlyRemovalExactly(s: State, key: string, temp: string, maxAge: int)
    requires Inv(s, maxAge) && Enabled(s, CreateTemp(key, temp))
    ensures EarlyRemoval(s, key, temp, maxAge) <==>
              maxAge > 0 && (if temp in s.lastUsed then s.lastUsed[temp] < s.now
                             else Pending(s, temp) && s.sweep.value.at < s.now)
  {
    var s1 := Next(s, CreateTemp(key, temp), maxAge);
    JustCreated(s, key, temp, maxAge);
    TempUnused(s1, maxAge, temp);
    hide Next, Runs, After, StaysLive, Enabled;
    if EarlyRemoval(s, key, temp, maxAge) {
      var run :| Runs(s1, run, maxAge) && StaysLive(s1, run, maxAge, key, temp)
                 && temp !in After(s1, run, maxAge).dir && After(s1, run, maxAge).now - s.now < maxAge;
      LiveBorn(s1, run, maxAge, key, temp);
      InvAfter(s1, run, maxAge);
      LostWhenOld(After(s1, run, maxAge), key, maxAge);
    }
    if maxAge > 0 && (temp in s.lastUsed || Pending(s, temp)) && Born(s, temp) < s.now {
      hide Inv, Refs;
      var run := TakeBorn(s1, maxAge, key, temp);
    }
  }

  lemma {:induction false} LostWhenOld(s: State, key: string, maxAge: int)
    requires Inv(s, maxAge) && key in s.flights && HasLiveTemp(s.flights[key]) && s.flights[key].temp !in s.dir
    ensures s.now - s.flights[key].born >= maxAge
  {
    hide Counts, Flying, Present, Whole, Stamps, Listed;
  }

  // ---------------------------------------------------------------- a run that loses a young temp file

  /** The first five steps: a cleanup starts, a second passes, and only then the download opens its file. */
  function Before(): State {
    State(map["4" := 1], map[], map[], 1, map[0 := Waiting("4")], map["4" := Fetching], Some(Started(0)), map[])
  }

  function Nothing(): State {
    State(map[], map[], map[], 0, map[], map[], None, map[])
  }

  /** The states in between. */
  function Counting(): State { Nothing().(refs := map["4" := 1], callers := map[0 := Counted("4")]) }

  function Joined(): State { Counting().(callers := map[0 := Waiting("4")], flights := map["4" := Checking]) }

  function Missing(): State { Joined().(flights := map["4" := Fetching]) }

  function Sweeping(): State { Missing().(sweep := Some(Started(0))) }

  lemma {:induction false} Steps1(maxAge: int)
    ensures Enabled(Nothing(), Increment(0, "4")) && Next(Nothing(), Increment(0, "4"), maxAge) == Counting()
  {
  }

  lemma {:induction false} Steps2(maxAge: int)
    ensures Enabled(Counting(), Join(0)) && Next(Counting(), Join(0), maxAge) == Joined()
  {
    assert Next(Counting(), Join(0), maxAge).callers == map[0 := Waiting("4")];
  }

  lemma {:induction false} Steps3(maxAge: int)
    ensures Enabled(Joined(), Stat("4")) && Next(Joined(), Stat("4"), maxAge) == Missing()
  {
    assert Next(Joined(), Stat("4"), maxAge).flights == map["4" := Fetching];
  }

  lemma {:induction false} Steps45(maxAge: int)
    ensures Enabled(Missing(), SweepStart) && Next(Missing(), SweepStart, maxAge) == Sweeping()
    ensures Enabled(Sweeping(), Tick(1)) && Next(Sweeping(), Tick(1), maxAge) == Before()
  {
  }

  lemma {:induction false} BeforeReached(maxAge: int)
    ensures var run := [Increment(0, "4"), Join(0), Stat("4"), SweepStart, Tick(1)];
            Initial(Nothing()) && Runs(Nothing(), run, maxAge) && After(Nothing(), run, maxAge) == Before()
  {
    Steps1(maxAge);
    Steps2(maxAge);
    Steps3(maxAge);
    Steps45(maxAge);
    assert Initial(Nothing());
    assert Runs(Before(), [], maxAge) && After(Before(), [], maxAge) == Before();
    hide *;
    RunsCons(Sweeping(), Tick(1), [], maxAge);
    RunsCons(Missing(), SweepStart, [Tick(1)] + [], maxAge);
    RunsCons(Joined(), Stat("4"), [SweepStart] + ([Tick(1)] + []), maxAge);
    RunsCons(Counting(), Join(0), [Stat("4")] + ([SweepStart] + ([Tick(1)] + [])), maxAge);
    var rest := [Join(0)] + ([Stat("4")] + ([SweepStart] + ([Tick(1)] + [])));
    RunsCons(Nothing(), Increment(0, "4"), rest, maxAge);
    assert [Increment(0, "4")] + rest == [Increment(0, "4"), Join(0), Stat("4"), SweepStart, Tick(1)];
  }

  /** So "no download younger than MaxAge loses its temp file" is false of the code, for every MaxAge. */
  lemma {:induction false} YoungTempLost(maxAge: int)
    requires maxAge > 0
    ensures var run := [Increment(0, "4"), Join(0), Stat("4"), SweepStart, Tick(1)];
            && Initial(Nothing()) && Runs(Nothing(), run, maxAge)
            && var s := After(Nothing(), run, maxAge);
               Enabled(s, CreateTemp("4", "ap")) && EarlyRemoval(s, "4", "ap", maxAge)
  {
    BeforeReached(maxAge);
    var s := Before();
    assert Enabled(s, CreateTemp("4", "ap"));
    hide Next, Enabled, Runs, After;
    InitialInv(Nothing(), maxAge);
    InvAfter(Nothing(), [Increment(0, "4"), Join(0), Stat("4"), SweepStart, Tick(1)], maxAge);
    EarlyRemovalExactly(s, "4", "ap", maxAge);
  }
}
