/** The critical sections of images.go on the object they update, and the cleanup loop.  The step system
    in cache.dfy takes its transitions from the functions these methods are proved against. */
module ImageCaches {
  import opened Cache
  import opened Wire

  // ---------------------------------------------------------------- one whole cleanup

  /** A cleanup that nothing interrupts, over the names ReadDir returned. */
  function SweepAll(refs: map<string, int>, w: Swept, names: seq<string>, now: int, maxAge: int,
                    removable: set<string>): Swept
    decreases |names|
  {
    if names == [] then w
    else SweepAll(refs, SweepOne(refs, w, names[0], now, maxAge, names[0] in removable), names[1..], now, maxAge,
        removable)
  }

  /** A name cleanup is not given stays as it was. */
  lemma {:induction false} SweepAllOthers(refs: map<string, int>, w: Swept, names: seq<string>, now: int, maxAge: int,
                                          removable: set<string>, n: string)
    requires n !in names
    ensures var r := SweepAll(refs, w, names, now, maxAge, removable);
            && (n in r.dir <==> n in w.dir) && (n in r.lastUsed <==> n in w.lastUsed)
            && (n in r.dir ==> r.dir[n] == w.dir[n]) && (n in r.lastUsed ==> r.lastUsed[n] == w.lastUsed[n])
    decreases |names|
  {
    if names != [] {
      SweepAllOthers(refs, SweepOne(refs, w, names[0], now, maxAge, names[0] in removable), names[1..], now, maxAge,
          removable, n);
    }
  }

  lemma {:induction false} SweepOneKeeps(refs: map<string, int>, w: Swept, name: string, now: int, maxAge: int,
                                         removable: bool, n: string)
    requires n in w.lastUsed ==> w.lastUsed[n] <= now
    ensures var r := SweepOne(refs, w, name, now, maxAge, removable);
            && (n in r.lastUsed ==> r.lastUsed[n] <= now)
            && (n in r.dir ==> n in w.dir)
            && (n == name && n in r.dir && Refs(refs, n) <= 0 ==> n in r.lastUsed)
            && (n in r.dir && n in w.lastUsed ==> n in r.lastUsed)
  {
  }

  /** After one cleanup every idle file that is left carries a stamp no later than it. */
  lemma {:induction false} SweepAllStamps(refs: map<string, int>, w: Swept, names: seq<string>, now: int, maxAge: int,
                                          removable: set<string>, n: string)
    requires n in w.lastUsed ==> w.lastUsed[n] <= now
    ensures var r := SweepAll(refs, w, names, now, maxAge, removable);
            && (n in r.lastUsed ==> r.lastUsed[n] <= now)
            && (n in r.dir ==> n in w.dir)
            && (n in r.dir && Refs(refs, n) <= 0 && (n in names || n in w.lastUsed) ==> n in r.lastUsed)
    decreases |names|
  {
    if names != [] {
      hide SweepOne;
      var w' := SweepOne(refs, w, names[0], now, maxAge, names[0] in removable);
      SweepOneKeeps(refs, w, names[0], now, maxAge, names[0] in removable, n);
      SweepAllStamps(refs, w', names[1..], now, maxAge, removable, n);
    }
  }

  /** An idle file with an old stamp goes, if it can be removed. */
  lemma {:induction false} SweepAllRemoves(refs: map<string, int>, w: Swept, names: seq<string>, now: int, maxAge: int,
                                           removable: set<string>, n: string)
    requires n in names && n in removable && Refs(refs, n) <= 0
    requires n in w.dir ==> n in w.lastUsed && now - w.lastUsed[n] >= maxAge
    ensures n !in SweepAll(refs, w, names, now, maxAge, removable).dir
    decreases |names|
  {
    var w' := SweepOne(refs, w, names[0], now, maxAge, names[0] in removable);
    if n == names[0] {
      assert n !in w'.dir;
      SweepAllNeverAdds(refs, w', names[1..], now, maxAge, removable);
    } else {
      SweepAllRemoves(refs, w', names[1..], now, maxAge, removable, n);
    }
  }

  lemma {:induction false} SweepAllNeverAdds(refs: map<string, int>, w: Swept, names: seq<string>, now: int,
                                             maxAge: int, removable: set<string>)
    ensures SweepAll(refs, w, names, now, maxAge, removable).dir.Keys <= w.dir.Keys
    decreases |names|
  {
    if names != [] {
      SweepAllNeverAdds(refs, SweepOne(refs, w, names[0], now, maxAge, names[0] in removable), names[1..], now, maxAge,
          removable);
    }
  }

  predicate Lists(names: seq<string>, dir: map<string, Content>) {
    forall n :: n in dir ==> n in names
  }

  /** Convergence: two cleanups at least maxAge apart, nothing happening in between and the second able to
      remove what it tries to, leave only files that are in use. */
  lemma {:induction false} CleanupConverges(refs: map<string, int>, w: Swept, names1: seq<string>, names2: seq<string>,
                                            t1: int, t2: int, maxAge: int,
                                            removable1: set<string>, removable2: set<string>)
    requires forall n :: n in w.lastUsed ==> w.lastUsed[n] <= t1
    requires Lists(names1, w.dir) && t2 - t1 >= maxAge
    requires var w1 := SweepAll(refs, w, names1, t1, maxAge, removable1);
             Lists(names2, w1.dir) && forall n :: n in names2 ==> n in removable2
    ensures var w1 := SweepAll(refs, w, names1, t1, maxAge, removable1);
            forall n :: n in SweepAll(refs, w1, names2, t2, maxAge, removable2).dir ==> Refs(refs, n) > 0
  {
    hide SweepAll;
    var w1 := SweepAll(refs, w, names1, t1, maxAge, removable1);
    var w2 := SweepAll(refs, w1, names2, t2, maxAge, removable2);
    SweepAllNeverAdds(refs, w1, names2, t2, maxAge, removable2);
    forall n | n in w2.dir ensures Refs(refs, n) > 0 {
      if Refs(refs, n) <= 0 {
        SweepAllStamps(refs, w, names1, t1, maxAge, removable1, n);
        SweepAllRemoves(refs, w1, names2, t2, maxAge, removable2, n);
      }
    }
  }

  /** A failed Acquire and a matched Release both undo the increment. */
  lemma {:induction false} DropUndoesRetain(refs: map<string, int>, key: string)
    requires key in refs ==> refs[key] > 0
    ensures Drop(Retain(refs, key), key) == refs
  {
    var r := Drop(Retain(refs, key), key);
    assert r.Keys == refs.Keys;
  }

  // ---------------------------------------------------------------- the object

  /** How a download ends: at the request, in the copy, in the rename, or well; and whether the deferred
      removal of the temp file works. */
  datatype Transfer = FetchError | CopyError(removed: bool) | RenameError(removed: bool) | Complete

  /** The directory after a download. */
  function Downloaded(dir: map<string, Content>, key: string, temp: string, transfer: Transfer): map<string, Content> {
    match transfer
    case FetchError => dir
    case CopyError(removed) => if removed then dir else dir[temp := Partial]
    case RenameError(removed) => if removed then dir else dir[temp := Content.Complete(key)]
    case Complete => dir[key := Content.Complete(key)]
  }

  function Acquired(dir: map<string, Content>, key: string, temp: string, transfer: Transfer): map<string, Content> {
    if key in dir then dir else Downloaded(dir, key, temp, transfer)
  }

  // ---------------------------------------------------------------- the object's Acquire as steps

  /** The steps of a download, from the request to the end of the call. */
  function FetchSteps(c: int, key: string, temp: string, transfer: Transfer): seq<Label> {
    match transfer
    case FetchError => [FetchFails(key)] + [Share(key), Decrement(c)]
    case CopyError(removed) =>
      [CreateTemp(key, temp)] + ([CopyFails(key)] + [DropTemp(key, removed), Share(key), Decrement(c)])
    case RenameError(removed) =>
      [CreateTemp(key, temp)] + ([CopyDone(key)] + ([RenameFails(key)]
      + [DropTemp(key, removed), Share(key), Decrement(c)]))
    case Complete => [CreateTemp(key, temp)] + ([CopyDone(key)] + ([Rename(key)] + [Share(key)]))
  }

  /** The steps of a caller that finds no flight for the key. */
  function AloneSteps(c: int, key: string, temp: string, transfer: Transfer, cached: bool): seq<Label> {
    [Increment(c, key), Join(c), Stat(key)]
    + (if cached then [Share(key)] else FetchSteps(c, key, temp, transfer))
  }

  /** Nothing is in the way of caller c: no cleanup, no flight, a free temp name. */
  predicate Alone(s: State, c: int, key: string, temp: string) {
    && s.sweep.None? && c !in s.callers && IsKey(key) && key !in s.flights
    && (forall d :: d in s.callers ==> s.callers[d] != Waiting(key))
    && IsTemp(temp) && temp !in s.dir && !TempInUse(s, temp)
    && (key in s.refs ==> s.refs[key] > 0)
  }

  /** c in the middle of its flight, in state f, the directory being dir. */
  function Midway(s: State, c: int, key: string, f: Flight, dir: map<string, Content>): State {
    s.(refs := Retain(s.refs, key), callers := s.callers[c := Waiting(key)], flights := s.flights[key := f], dir := dir)
  }

  lemma {:induction false} AloneJoins(s: State, c: int, key: string, temp: string, maxAge: int)
    requires Alone(s, c, key, temp)
    ensures Enabled(s, Increment(c, key))
    ensures var t := Next(s, Increment(c, key), maxAge);
            Enabled(t, Join(c)) && Next(t, Join(c), maxAge) == Midway(s, c, key, Checking, s.dir)
  {
  }

  lemma {:induction false} AloneLooks(s: State, c: int, key: string, maxAge: int)
    ensures var t := Midway(s, c, key, Checking, s.dir);
            && Enabled(t, Stat(key))
            && Next(t, Stat(key), maxAge) == Midway(s, c, key, if key in s.dir then Succeeded else Fetching, s.dir)
  {
  }

  lemma {:induction false} AloneBegins(s: State, c: int, key: string, temp: string, rest: seq<Label>, maxAge: int)
    requires Alone(s, c, key, temp)
    requires Runs(Midway(s, c, key, if key in s.dir then Succeeded else Fetching, s.dir), rest, maxAge)
    ensures var run := [Increment(c, key), Join(c), Stat(key)] + rest;
            Runs(s, run, maxAge)
            && After(s, run, maxAge)
               == After(Midway(s, c, key, if key in s.dir then Succeeded else Fetching, s.dir), rest, maxAge)
  {
    hide *;
    AloneJoins(s, c, key, temp, maxAge);
    AloneLooks(s, c, key, maxAge);
    RunsCons(Midway(s, c, key, Checking, s.dir), Stat(key), rest, maxAge);
    RunsCons(Next(s, Increment(c, key), maxAge), Join(c), [Stat(key)] + rest, maxAge);
    RunsCons(s, Increment(c, key), [Join(c)] + ([Stat(key)] + rest), maxAge);
    assert [Increment(c, key), Join(c), Stat(key)] + rest == [Increment(c, key)] + ([Join(c)] + ([Stat(key)] + rest));
  }

  /** How it ends for c. */
  lemma {:induction false} AloneEnds(s: State, c: int, key: string, temp: string, dir: map<string, Content>, ok: bool,
                                     maxAge: int)
    requires Alone(s, c, key, temp)
    ensures var m := Midway(s, c, key, if ok then Succeeded else Aborted, dir);
            var run := if ok then [Share(key)] else [Share(key), Decrement(c)];
            && Runs(m, run, maxAge)
            && After(m, run, maxAge) == s.(dir := dir, refs := if ok then Retain(s.refs, key) else s.refs,
                                           callers := if ok then s.callers[c := Holding(key)] else s.callers)
  {
    var m := Midway(s, c, key, if ok then Succeeded else Aborted, dir);
    var n := Next(m, Share(key), maxAge);
    var p := if ok then Holding(key) else Failed(key);
    forall d | d in n.callers ensures n.callers[d] == s.callers[c := p][d] {
      assert d != c ==> m.callers[d] == s.callers[d] != Waiting(key);
    }
    assert n.callers == s.callers[c := if ok then Holding(key) else Failed(key)];
    assert n.flights == s.flights;
    if ok {
      RunsOne(m, Share(key), maxAge);
    } else {
      DropUndoesRetain(s.refs, key);
      assert s.callers[c := Failed(key)] - {c} == s.callers;
      RunsOne(n, Decrement(c), maxAge);
      RunsCons(m, Share(key), [Decrement(c)], maxAge);
      assert [Share(key)] + [Decrement(c)] == [Share(key), Decrement(c)];
    }
  }

  lemma {:induction false} AloneBreaks(s: State, c: int, key: string, temp: string, dir: map<string, Content>,
                                       removed: bool, maxAge: int)
    requires Alone(s, c, key, temp)
    ensures var m, run := Midway(s, c, key, Broken(temp), dir), [DropTemp(key, removed), Share(key), Decrement(c)];
            Runs(m, run, maxAge) && After(m, run, maxAge) == s.(dir := if removed then dir - {temp} else dir)
  {
    var m, d := Midway(s, c, key, Broken(temp), dir), if removed then dir - {temp} else dir;
    var n := Midway(s, c, key, Aborted, d);
    assert Enabled(m, DropTemp(key, removed)) && Next(m, DropTemp(key, removed), maxAge) == n;
    hide Next, Enabled, Runs, After, Midway, Alone;
    AloneEnds(s, c, key, temp, d, false, maxAge);
    RunsCons(m, DropTemp(key, removed), [Share(key), Decrement(c)], maxAge);
    assert [DropTemp(key, removed)] + [Share(key), Decrement(c)] == [DropTemp(key, removed), Share(key), Decrement(c)];
  }

  lemma {:induction false} AloneCreates(s: State, c: int, key: string, temp: string, maxAge: int)
    requires Alone(s, c, key, temp)
    ensures var m := Midway(s, c, key, Fetching, s.dir);
            && Enabled(m, CreateTemp(key, temp))
            && Next(m, CreateTemp(key, temp), maxAge)
               == Midway(s, c, key, Writing(temp, Born(m, temp)), s.dir[temp := Partial])
    ensures s.dir[temp := Partial] - {temp} == s.dir && s.dir[temp := Content.Complete(key)] - {temp} == s.dir
  {
  }

  lemma {:induction false} AloneCopies(s: State, c: int, key: string, temp: string, born: int, maxAge: int)
    ensures var m := Midway(s, c, key, Writing(temp, born), s.dir[temp := Partial]);
            && Enabled(m, CopyDone(key)) && Enabled(m, CopyFails(key))
            && Next(m, CopyDone(key), maxAge)
               == Midway(s, c, key, Written(temp, born), s.dir[temp := Content.Complete(key)])
            && Next(m, CopyFails(key), maxAge) == Midway(s, c, key, Broken(temp), s.dir[temp := Partial])
  {
    assert s.dir[temp := Partial][temp := Content.Complete(key)] == s.dir[temp := Content.Complete(key)];
  }

  lemma {:induction false} AloneRenames(s: State, c: int, key: string, temp: string, born: int, maxAge: int)
    requires temp !in s.dir
    ensures var dir := s.dir[temp := Content.Complete(key)];
            var m := Midway(s, c, key, Written(temp, born), dir);
            && Enabled(m, Rename(key)) && Enabled(m, RenameFails(key))
            && Next(m, Rename(key), maxAge) == Midway(s, c, key, Succeeded, s.dir[key := Content.Complete(key)])
            && Next(m, RenameFails(key), maxAge) == Midway(s, c, key, Broken(temp), dir)
  {
    assert s.dir[temp := Content.Complete(key)] - {temp} == s.dir;
  }

  lemma {:induction false} AloneFetchFails(s: State, c: int, key: string, maxAge: int)
    ensures var m := Midway(s, c, key, Fetching, s.dir);
            Enabled(m, FetchFails(key)) && Next(m, FetchFails(key), maxAge) == Midway(s, c, key, Aborted, s.dir)
  {
  }

  /** A download by a caller alone, from the request on. */
  lemma {:induction false} AloneDownloads(s: State, c: int, key: string, temp: string, transfer: Transfer, maxAge: int)
    requires Alone(s, c, key, temp)
    ensures var m, ok := Midway(s, c, key, Fetching, s.dir), transfer.Complete?;
            var run := FetchSteps(c, key, temp, transfer);
            && Runs(m, run, maxAge)
            && After(m, run, maxAge) == s.(dir := Downloaded(s.dir, key, temp, transfer),
                                           refs := if ok then Retain(s.refs, key) else s.refs,
                                           callers := if ok then s.callers[c := Holding(key)] else s.callers)
  {
    assert temp !in s.dir;
    AloneCreates(s, c, key, temp, maxAge);
    hide Next, Enabled, Runs, After, Midway, Alone, Born, Retain;
    var m := Midway(s, c, key, Fetching, s.dir);
    var born := Born(m, temp);
    var d1, d2 := s.dir[temp := Partial], s.dir[temp := Content.Complete(key)];
    var m1 := Midway(s, c, key, Writing(temp, born), d1);
    var m2 := Midway(s, c, key, Written(temp, born), d2);
    AloneCopies(s, c, key, temp, born, maxAge);
    AloneRenames(s, c, key, temp, born, maxAge);
    match transfer {
      case FetchError =>
        AloneFetchFails(s, c, key, maxAge);
        AloneEnds(s, c, key, temp, s.dir, false, maxAge);
        RunsCons(m, FetchFails(key), [Share(key), Decrement(c)], maxAge);
      case CopyError(removed) =>
        AloneBreaks(s, c, key, temp, d1, removed, maxAge);
        var rest := [DropTemp(key, removed), Share(key), Decrement(c)];
        RunsCons(m1, CopyFails(key), rest, maxAge);
        RunsCons(m, CreateTemp(key, temp), [CopyFails(key)] + rest, maxAge);
      case RenameError(removed) =>
        AloneBreaks(s, c, key, temp, d2, removed, maxAge);
        var rest := [DropTemp(key, removed), Share(key), Decrement(c)];
        RunsCons(m2, RenameFails(key), rest, maxAge);
        RunsCons(m1, CopyDone(key), [RenameFails(key)] + rest, maxAge);
        RunsCons(m, CreateTemp(key, temp), [CopyDone(key)] + ([RenameFails(key)] + rest), maxAge);
      case Complete =>
        AloneEnds(s, c, key, temp, s.dir[key := Content.Complete(key)], true, maxAge);
        RunsCons(m2, Rename(key), [Share(key)], maxAge);
        RunsCons(m1, CopyDone(key), [Rename(key)] + [Share(key)], maxAge);
        RunsCons(m, CreateTemp(key, temp), [CopyDone(key)] + ([Rename(key)] + [Share(key)]), maxAge);
    }
  }

  /** What Acquire does to a cache that nobody else uses at the moment is a run of the step system: its steps,
      one by one, leave the counts and the directory the method leaves. */
  lemma {:induction false} AcquireIsARun(s: State, c: int, key: string, temp: string, transfer: Transfer, maxAge: int)
    requires Alone(s, c, key, temp)
    ensures var cached := key in s.dir;
            var run, ok := AloneSteps(c, key, temp, transfer, cached), cached || transfer.Complete?;
            && Runs(s, run, maxAge)
            && After(s, run, maxAge) == s.(dir := Acquired(s.dir, key, temp, transfer),
                                           refs := if ok then Retain(s.refs, key) else s.refs,
                                           callers := if ok then s.callers[c := Holding(key)] else s.callers)
  {
    if key in s.dir {
      AloneEnds(s, c, key, temp, s.dir, true, maxAge);
      hide Runs, After, Alone, Retain;
      AloneBegins(s, c, key, temp, [Share(key)], maxAge);
    } else {
      AloneDownloads(s, c, key, temp, transfer, maxAge);
      hide Runs, After, Alone, Retain, FetchSteps;
      AloneBegins(s, c, key, temp, FetchSteps(c, key, temp, transfer), maxAge);
    }
  }

  datatype Entry = Entry(name: string, isDir: bool)

  /** The names of the files in a listing, in order. */
  function Files(entries: seq<Entry>): (names: seq<string>)
    ensures forall n :: n in names <==> Entry(n, false) in entries
    decreases |entries|
  {
    if entries == [] then []
    else if entries[0].isDir then Files(entries[1..])
    else [entries[0].name] + Files(entries[1..])
  }

  class ImageCache {
    var refs: map<string, int>
    var lastUsed: map<string, int>
    var dir: map<string, Content>   // files in CachePath
    const maxAge: int

    constructor (maxAge: int, dir: map<string, Content>)
      ensures refs == map[] && lastUsed == map[] && this.dir == dir && this.maxAge == maxAge
    {
      refs, lastUsed := map[], map[];
      this.dir, this.maxAge := dir, maxAge;
    }

    /** Temp file, copy, rename; the temp file is gone afterwards unless its removal failed too. */
    method Download(key: string, temp: string, transfer: Transfer) returns (ok: bool)
      requires temp !in dir && temp != key
      modifies `dir
      ensures ok == transfer.Complete?
      ensures dir == Downloaded(old(dir), key, temp, transfer)
      ensures ok ==> dir == old(dir)[key := Content.Complete(key)]
      ensures !ok && (transfer.FetchError? || transfer.removed) ==> dir == old(dir)
      ensures !ok && !transfer.FetchError? && !transfer.removed ==>
                dir == old(dir)[temp := if transfer.CopyError? then Partial else Content.Complete(key)]
    {
      if transfer.FetchError? {
        return false;
      }
      dir := dir[temp := Partial];
      if transfer.CopyError? {
        if transfer.removed {
          dir := dir - {temp};
        }
        return false;
      }
      dir := dir[temp := Content.Complete(key)];
      if transfer.RenameError? {
        if transfer.removed {
          dir := dir - {temp};
        }
        return false;
      }
      dir := (dir - {temp})[key := dir[temp]];
      return true;
    }

    /** Acquire by a caller that is alone: increment, look, download, and decrement if that failed. */
    method Acquire(key: string, temp: string, transfer: Transfer) returns (ok: bool)
      requires temp !in dir && temp != key
      requires key in refs ==> refs[key] > 0
      modifies `refs, `dir
      ensures ok <==> key in old(dir) || transfer.Complete?
      ensures refs == if ok then Retain(old(refs), key) else old(refs)
      ensures dir == Acquired(old(dir), key, temp, transfer)
      ensures ok ==> key in dir && forall n :: n in old(dir) ==> n in dir && dir[n] == old(dir)[n]
    {
      refs := refs[key := Refs(refs, key) + 1];
      ok := true;
      if key !in dir {
        ok := Download(key, temp, transfer);
      }
      if !ok {
        DropUndoesRetain(old(refs), key);
        refs := refs[key := Refs(refs, key) - 1];
        if refs[key] <= 0 {
          refs := refs - {key};
        }
      }
    }

    method Release(key: string, now: int)
      modifies `refs, `lastUsed
      ensures refs == Drop(old(refs), key) && lastUsed == Stamp(old(refs), old(lastUsed), key, now)
    {
      refs := refs[key := Refs(refs, key) - 1];
      if refs[key] <= 0 {
        refs := refs - {key};
        lastUsed := lastUsed[key := now];
      }
    }

    /** What ReadDir returned, if it did; `removable` are the files os.Remove succeeds on. */
    method Cleanup(now: int, listing: Option<seq<Entry>>, removable: set<string>)
      modifies `lastUsed, `dir
      ensures listing.None? ==> lastUsed == old(lastUsed) && dir == old(dir)
      ensures listing.Some? ==>
                Swept(lastUsed, dir)
                == SweepAll(refs, Swept(old(lastUsed), old(dir)), Files(listing.value), now, maxAge, removable)
      ensures listing.Some? ==>
                forall n :: n !in Files(listing.value) ==>
                  && (n in dir <==> n in old(dir)) && (n in lastUsed <==> n in old(lastUsed))
                  && (n in dir && n in old(dir) ==> dir[n] == old(dir)[n])
                  && (n in lastUsed && n in old(lastUsed) ==> lastUsed[n] == old(lastUsed)[n])
    {
      if listing.None? {
        return;
      }
      var entries := listing.value;
      ghost var w0 := Swept(lastUsed, dir);
      assert entries[0..] == entries;
      for i := 0 to |entries|
        invariant SweepAll(refs, Swept(lastUsed, dir), Files(entries[i..]), now, maxAge, removable)
               == SweepAll(refs, w0, Files(entries), now, maxAge, removable)
      {
        assert entries[i..][0] == entries[i] && entries[i..][1..] == entries[i + 1..];
        if entries[i].isDir {
          continue;
        }
        var key := entries[i].name;
        assert Files(entries[i..])[0] == key && Files(entries[i..])[1..] == Files(entries[i + 1..]);
        if Refs(refs, key) > 0 {
          continue;
        }
        if key !in lastUsed {
          lastUsed := lastUsed[key := now];
          continue;
        }
        if now - lastUsed[key] < maxAge {
          continue;
        }
        if key !in dir || key !in removable {
          continue;
        }
        dir := dir - {key};
        lastUsed := lastUsed - {key};
      }
      assert entries[|entries|..] == [];
      forall n | n !in Files(entries)
        ensures var r := SweepAll(refs, w0, Files(entries), now, maxAge, removable);
                && (n in r.dir <==> n in w0.dir) && (n in r.lastUsed <==> n in w0.lastUsed)
                && (n in r.dir ==> r.dir[n] == w0.dir[n]) && (n in r.lastUsed ==> r.lastUsed[n] == w0.lastUsed[n])
      {
        SweepAllOthers(refs, w0, Files(entries), now, maxAge, removable, n);
      }
    }
  }
}
