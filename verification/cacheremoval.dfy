/** The other half of cleanup: where stamps come from, and that an image which nobody uses any more does go. */
module CacheRemoval {
  import opened Wire
  import opened Names
  import opened Cache

  // ---------------------------------------------------------------- stamps

  /** In every run, the release by an image's only user stamps it with the clock of that moment; any other
      release stamps nothing; and no release touches another image's stamp, the directory or another caller. */
  lemma {:induction false} ReleaseStamps(s: State, run: seq<Label>, maxAge: int, c: int)
    requires Initial(s) && Runs(s, run, maxAge) && Enabled(After(s, run, maxAge), Release(c))
    ensures var t := After(s, run, maxAge);
            var key, u := t.callers[c].key, Next(t, Release(c), maxAge);
            && u.lastUsed == (if Users(t.callers, key) == {c} then t.lastUsed[key := t.now] else t.lastUsed)
            && (key in u.refs <==> Users(t.callers, key) != {c})
            && Refs(u.refs, key) == |Users(t.callers, key) - {c}|
            && u.dir == t.dir && u.callers == t.callers - {c} && u.flights == t.flights
  {
    hide Runs, After, Present, Whole, Temps, Stamps, Listed, Flying, Initial;
    InitialInv(s, maxAge);
    InvAfter(s, run, maxAge);
    OneUser(After(s, run, maxAge), c);
  }

  lemma {:induction false} OneUser(s: State, c: int)
    requires Counts(s.refs, s.callers) && c in s.callers
    ensures var key := s.callers[c].key;
            && c in Users(s.callers, key)
            && (Users(s.callers, key) == {c} <==> Refs(s.refs, key) - 1 <= 0)
            && |Users(s.callers, key) - {c}| == Refs(s.refs, key) - 1
  {
    var u := Users(s.callers, s.callers[c].key);
    assert c in u;
    assert |u - {c}| == |u| - 1;
    if |u| == 1 {
      assert u - {c} == {};
      assert u == {c};
    }
  }

  /** A stamp is set by the release of the only user, to the time of the release, or by a cleanup that finds a
      file without one, to the time it started; it is taken away only together with its file, by a cleanup. */
  lemma {:induction false} StampOrigin(s: State, l: Label, maxAge: int, k: string)
    requires Enabled(s, l)
    ensures var t := Next(s, l, maxAge);
            && (k in t.lastUsed && (k !in s.lastUsed || s.lastUsed[k] != t.lastUsed[k]) ==>
                  || (l.Release? && s.callers[l.c].key == k && Refs(s.refs, k) <= 1 && t.lastUsed[k] == s.now)
                  || (l.SweepEntry? && s.sweep.value.todo[0] == k && Refs(s.refs, k) <= 0 && k !in s.lastUsed
                      && t.lastUsed[k] == s.sweep.value.at))
            && (k in s.lastUsed && k !in t.lastUsed ==>
                  l.SweepEntry? && s.sweep.value.todo[0] == k && k in s.dir && k !in t.dir)
  {
    if MovesStamps(l) {
      hide Born, TempInUse, Distinct;
    } else {
      hide Next, Enabled;
      Unmoved(s, l, maxAge);
    }
  }

  // ---------------------------------------------------------------- idle images

  /** Nobody uses the image, and if it is there, it was last released at r. */
  predicate Idle(s: State, key: string, r: int) {
    && IsKey(key) && key !in s.flights
    && (forall c :: c in s.callers ==> s.callers[c].key != key)
    && (key in s.dir ==> key in s.lastUsed && s.lastUsed[key] == r)
  }

  /** The last release makes an image idle. */
  lemma {:induction false} ReleasedIsIdle(s: State, maxAge: int, c: int)
    requires Inv(s, maxAge) && Enabled(s, Release(c)) && Users(s.callers, s.callers[c].key) == {c}
    ensures Idle(Next(s, Release(c), maxAge), s.callers[c].key, s.now)
  {
    hide Present, Whole, Temps, Stamps, Listed;
    var key := s.callers[c].key;
    OneUser(s, c);
    forall d | d in s.callers && d != c ensures s.callers[d].key != key {
      assert d !in Users(s.callers, key);
    }
  }

  lemma {:induction false} IdleUnused(s: State, key: string, r: int)
    requires Counts(s.refs, s.callers) && Idle(s, key, r)
    ensures Refs(s.refs, key) <= 0
  {
    assert forall c :: c !in Users(s.callers, key);
    assert Users(s.callers, key) == {};
  }

  lemma {:induction false} IdleBySweep(s: State, removable: bool, maxAge: int, key: string, r: int)
    requires Inv(s, maxAge) && Enabled(s, SweepEntry(removable)) && Idle(s, key, r)
    ensures Idle(Next(s, SweepEntry(removable), maxAge), key, r)
  {
    hide Counts, Flying, Present, Whole, Temps, Stamps, Listed, Distinct, IsKey, Refs;
    IdleUnused(s, key, r);
  }

  /** A flight for another key leaves an image's name alone. */
  lemma {:induction false} IdleByFlight(s: State, l: Label, maxAge: int, key: string, r: int)
    requires Inv(s, maxAge) && Enabled(s, l) && Idle(s, key, r) && FlightStep(l)
    ensures Idle(Next(s, l, maxAge), key, r)
  {
    hide Next, Enabled, Counts, Flying, Present, Whole, Temps, Stamps, Listed;
    Unmoved(s, l, maxAge);
    FlightDir(s, l, maxAge, key);
    FlightKeysStay(s, l, maxAge, key);
  }

  lemma {:induction false} FlightKeysStay(s: State, l: Label, maxAge: int, key: string)
    requires Enabled(s, l) && FlightStep(l) && key !in s.flights
    ensures l.key != key && key !in Next(s, l, maxAge).flights
  {
    hide Born, TempInUse;
  }

  /** An idle image stays idle until somebody acquires it. */
  lemma {:induction false} IdleKept(s: State, l: Label, maxAge: int, key: string, r: int)
    requires Inv(s, maxAge) && Enabled(s, l) && Idle(s, key, r) && !(l.Increment? && l.key == key)
    ensures Idle(Next(s, l, maxAge), key, r)
  {
    if FlightStep(l) {
      IdleByFlight(s, l, maxAge, key, r);
    } else if l.SweepEntry? {
      IdleBySweep(s, l.removable, maxAge, key, r);
    } else {
      hide Inv, Distinct;
    }
  }

  /** Nobody acquires the image in the run, no listing fails, and os.Remove succeeds on it. */
  predicate Undisturbed(s: State, run: seq<Label>, maxAge: int, key: string)
    requires Runs(s, run, maxAge)
    decreases |run|
  {
    run == [] ||
    (Quiet(s, run[0], key) && Undisturbed(Next(s, run[0], maxAge), run[1..], maxAge, key))
  }

  predicate Quiet(s: State, l: Label, key: string)
    requires Enabled(s, l)
  {
    && !(l.Increment? && l.key == key)
    && !l.SweepListFails?
    && (l.SweepEntry? && s.sweep.value.todo[0] == key ==> l.removable)
  }

  /** The image is gone, or the cleanup under way started late enough and has still to do it. */
  predicate Going(s: State, maxAge: int, key: string, r: int) {
    key !in s.dir
    || (s.sweep.Some? && s.sweep.value.at - r >= maxAge && (s.sweep.value.Started? || key in s.sweep.value.todo))
  }

  lemma {:induction false} GoingBySweep(s: State, l: Label, maxAge: int, key: string, r: int)
    requires Inv(s, maxAge) && Enabled(s, l) && Idle(s, key, r) && Quiet(s, l, key) && Going(s, maxAge, key, r)
    requires l.SweepEntry? || l.SweepList?
    ensures Going(Next(s, l, maxAge), maxAge, key, r)
  {
    hide Counts, Flying, Present, Whole, Temps, Stamps, Listed, Distinct, IsKey, Refs;
    IdleUnused(s, key, r);
    if l.SweepEntry? && key in s.sweep.value.todo && s.sweep.value.todo[0] != key {
      var todo := s.sweep.value.todo;
      assert todo == [todo[0]] + todo[1..];
    }
  }

  lemma {:induction false} GoingKept(s: State, l: Label, maxAge: int, key: string, r: int)
    requires Inv(s, maxAge) && Enabled(s, l) && Idle(s, key, r) && Quiet(s, l, key) && Going(s, maxAge, key, r)
    ensures Going(Next(s, l, maxAge), maxAge, key, r)
  {
    if l.SweepEntry? || l.SweepList? {
      GoingBySweep(s, l, maxAge, key, r);
    } else if FlightStep(l) {
      assert key !in s.flights;
      FlightKeysStay(s, l, maxAge, key);
      FlightDir(s, l, maxAge, key);
      SweepStays(s, l, maxAge);
      hide Next, Inv, Enabled, Idle;
    } else {
      hide Counts, Flying, Present, Whole, Temps, Stamps, Listed, Distinct, Idle, Refs;
    }
  }

  lemma {:induction false} SweepStays(s: State, l: Label, maxAge: int)
    requires Enabled(s, l) && FlightStep(l)
    ensures Next(s, l, maxAge).sweep == s.sweep
  {
    hide Born, TempInUse;
  }

  lemma {:induction false} GoingAfter(s: State, run: seq<Label>, maxAge: int, key: string, r: int)
    requires Inv(s, maxAge) && Runs(s, run, maxAge) && Undisturbed(s, run, maxAge, key)
    requires Idle(s, key, r) && Going(s, maxAge, key, r)
    ensures var t := After(s, run, maxAge); Idle(t, key, r) && Going(t, maxAge, key, r)
    decreases |run|
  {
    hide Inv, Next, Enabled, Idle, Going;
    if run != [] {
      InvKept(s, run[0], maxAge);
      IdleKept(s, run[0], maxAge, key, r);
      GoingKept(s, run[0], maxAge, key, r);
      GoingAfter(Next(s, run[0], maxAge), run[1..], maxAge, key, r);
    }
  }

  /** Nobody acquires the image in the run. */
  predicate NotAcquired(run: seq<Label>, key: string) {
    forall i :: 0 <= i < |run| ==> !(run[i].Increment? && run[i].key == key)
  }

  lemma {:induction false} IdleAfter(s: State, run: seq<Label>, maxAge: int, key: string, r: int)
    requires Inv(s, maxAge) && Runs(s, run, maxAge) && NotAcquired(run, key) && Idle(s, key, r)
    ensures Idle(After(s, run, maxAge), key, r)
    decreases |run|
  {
    hide Inv, Next, Enabled, Idle;
    if run != [] {
      InvKept(s, run[0], maxAge);
      IdleKept(s, run[0], maxAge, key, r);
      IdleAfter(Next(s, run[0], maxAge), run[1..], maxAge, key, r);
    }
  }

  /** Cleanup does remove: in every run, after an image's only user has released it and as long as nobody
      acquires it again, a cleanup that starts maxAge later or more, lists the directory and can remove the file
      has removed it when it is over, whatever other callers, downloads and earlier cleanups do. */
  lemma {:induction false} IdleImageGoes(s: State, before: seq<Label>, c: int, between: seq<Label>, sweep: seq<Label>,
                                         maxAge: int)
    requires Initial(s) && Runs(s, before, maxAge)
    requires var t := After(s, before, maxAge);
             && Enabled(t, Release(c)) && Users(t.callers, t.callers[c].key) == {c}
             && var u := Next(t, Release(c), maxAge);
                && Runs(u, between, maxAge) && NotAcquired(between, t.callers[c].key)
                && var v := After(u, between, maxAge);
                   && v.now - t.now >= maxAge && Enabled(v, SweepStart)
                   && var w := Next(v, SweepStart, maxAge);
                      Runs(w, sweep, maxAge) && Undisturbed(w, sweep, maxAge, t.callers[c].key)
    ensures var t := After(s, before, maxAge);
            var v := After(Next(t, Release(c), maxAge), between, maxAge);
            var e := After(Next(v, SweepStart, maxAge), sweep, maxAge);
            e.sweep.None? ==> t.callers[c].key !in e.dir
  {
    hide Runs, After, Undisturbed, Inv, Idle, Initial, NotAcquired;
    var t := After(s, before, maxAge);
    var key, r := t.callers[c].key, t.now;
    InitialInv(s, maxAge);
    InvAfter(s, before, maxAge);
    ReleasedIsIdle(t, maxAge, c);
    InvKept(t, Release(c), maxAge);
    var u := Next(t, Release(c), maxAge);
    IdleAfter(u, between, maxAge, key, r);
    InvAfter(u, between, maxAge);
    var v := After(u, between, maxAge);
    InvKept(v, SweepStart, maxAge);
    IdleKept(v, SweepStart, maxAge, key, r);
    var w := Next(v, SweepStart, maxAge);
    GoingAfter(w, sweep, maxAge, key, r);
  }
}
