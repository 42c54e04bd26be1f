/** The image cache of images.go as a labelled step system: any number of callers and keys, at most
    one flight per key, a directory, a clock, and a cleanup that holds the lock while downloads, which
    do not take it, go on. */
module Cache {
  import opened Names
  import opened Wire

  // ---------------------------------------------------------------- names in the cache directory

  const DEFAULT_ARCH := "amd64"

  function CacheKey(schematicID: string, talosVersion: string, format: string): string {
    schematicID + "-" + talosVersion + "-nocloud" + "-" + format + "-" + DEFAULT_ARCH
  }

  function TempName(random: string): string { "download-" + random + ".tmp" }

  /** Distinct images have distinct keys, although versions contain dashes. */
  lemma {:induction false} CacheKeyInjective(s: string, v: string, f: string, s': string, v': string, f': string)
    requires NoDash(s) && NoDash(s') && NoDash(f) && NoDash(f')
    requires CacheKey(s, v, f) == CacheKey(s', v', f')
    ensures s == s' && v == v' && f == f'
  {
    var a, b := s + "-" + v + "-nocloud", s' + "-" + v' + "-nocloud";
    SplitLast(a + "-" + f, DEFAULT_ARCH, b + "-" + f', DEFAULT_ARCH);
    SplitLast(a, f, b, f');
    CancelSuffix(s + "-" + v, s' + "-" + v', "-nocloud");
    SplitFirst(s, v, s', v');
  }

  /** What every cache key looks like and no temp name does. */
  predicate IsKey(name: string) {
    |name| > 0 && name[|name| - 1] == '4'
  }

  predicate IsTemp(name: string) {
    |name| > 0 && name[|name| - 1] == 'p'
  }

  lemma {:induction false} NamesApart(s: string, v: string, f: string, random: string)
    ensures IsKey(CacheKey(s, v, f)) && IsTemp(TempName(random))
    ensures CacheKey(s, v, f) != TempName(random)
    ensures CacheKey(s, v, f) == s + "-" + v + "-nocloud-" + f + "-amd64"
    ensures TempName(random) == "download-" + random + ".tmp"
  {
    var k := CacheKey(s, v, f);
    assert k[|k| - 1] == DEFAULT_ARCH[4] == '4';
    var t := TempName(random);
    assert t[|t| - 1] == ".tmp"[3] == 'p';
  }

  // ---------------------------------------------------------------- the locked sections

  function Refs(refs: map<string, int>, key: string): int {
    if key in refs then refs[key] else 0
  }

  /** c.refs[key]++ */
  function Retain(refs: map<string, int>, key: string): map<string, int> {
    refs[key := Refs(refs, key) + 1]
  }

  /** c.refs[key]--, deleted when nothing is left. */
  function Drop(refs: map<string, int>, key: string): map<string, int> {
    if Refs(refs, key) - 1 <= 0 then refs - {key} else refs[key := Refs(refs, key) - 1]
  }

  /** Release stamps the image only when the last reference goes. */
  function Stamp(refs: map<string, int>, lastUsed: map<string, int>, key: string, now: int): map<string, int> {
    if Refs(refs, key) - 1 <= 0 then lastUsed[key := now] else lastUsed
  }

  datatype Content = Partial | Complete(key: string)

  datatype Swept = Swept(lastUsed: map<string, int>, dir: map<string, Content>)

  /** The body of cleanup's loop for one directory entry. */
  function SweepOne(refs: map<string, int>, w: Swept, name: string, now: int, maxAge: int, removable: bool): Swept {
    if Refs(refs, name) > 0 then w
    else if name !in w.lastUsed then w.(lastUsed := w.lastUsed[name := now])
    else if now - w.lastUsed[name] < maxAge then w
    else if name !in w.dir || !removable then w
    else Swept(w.lastUsed - {name}, w.dir - {name})
  }

  // ---------------------------------------------------------------- states

  datatype Phase =
    | Counted(key: string)   // has incremented, not yet in the flight
    | Waiting(key: string)   // in Do, as leader or as follower
    | Failed(key: string)    // the flight failed, not yet decremented
    | Holding(key: string)   // Acquire has returned the path

  /** A flight: the function running under singleflight for one key. */
  datatype Flight =
    | Checking                          // before Stat
    | Fetching                          // Stat found nothing; no temp file yet
    | Writing(temp: string, born: int)  // temp file open
    | Written(temp: string, born: int)  // copied and closed
    | Broken(temp: string)              // failed, deferred removal outstanding
    | Succeeded
    | Aborted

  datatype Sweep = Started(at: int) | Listing(at: int, todo: seq<string>)

  /** lastRelease is history: when a holder of the key last released it. */
  datatype State = State(
    refs: map<string, int>, lastUsed: map<string, int>, dir: map<string, Content>, now: int,
    callers: map<int, Phase>, flights: map<string, Flight>, sweep: Option<Sweep>,
    lastRelease: map<string, int>)

  datatype Label =
    | Increment(c: int, key: string)
    | Join(c: int)
    | Stat(key: string)
    | FetchFails(key: string)
    | CreateTemp(key: string, temp: string)
    | CopyDone(key: string)
    | CopyFails(key: string)
    | Rename(key: string)
    | RenameFails(key: string)
    | DropTemp(key: string, removed: bool)
    | Share(key: string)
    | Decrement(c: int)
    | Release(c: int)
    | SweepStart
    | SweepList(names: seq<string>)
    | SweepListFails
    | SweepEntry(removable: bool)
    | SweepEnd
    | Tick(d: nat)

  predicate HasTemp(f: Flight) {
    f.Writing? || f.Written? || f.Broken?
  }

  predicate TempInUse(s: State, temp: string) {
    exists k :: k in s.flights && HasTemp(s.flights[k]) && s.flights[k].temp == temp
  }

  predicate Distinct(names: seq<string>) {
    forall i, j :: 0 <= i < j < |names| ==> names[i] != names[j]
  }

  /** When a step can happen.  The lock is held from SweepStart to SweepEnd; O_EXCL and random names
      give CreateTemp a name that neither the directory nor another download has; a key is in Do at
      most once. */
  predicate Enabled(s: State, l: Label) {
    match l
    case Increment(c, key) => s.sweep.None? && c !in s.callers && IsKey(key)
    case Join(c) => c in s.callers && s.callers[c].Counted?
    case Stat(key) => key in s.flights && s.flights[key].Checking?
    case FetchFails(key) => key in s.flights && s.flights[key].Fetching?
    case CreateTemp(key, temp) => key in s.flights && s.flights[key].Fetching? && IsTemp(temp) && temp !in s.dir
      && !TempInUse(s, temp)
    case CopyDone(key) => key in s.flights && s.flights[key].Writing?
    case CopyFails(key) => key in s.flights && s.flights[key].Writing?
    case Rename(key) => key in s.flights && s.flights[key].Written? && s.flights[key].temp in s.dir
    case RenameFails(key) => key in s.flights && s.flights[key].Written?
    case DropTemp(key, _) => key in s.flights && s.flights[key].Broken?
    case Share(key) => key in s.flights && (s.flights[key].Succeeded? || s.flights[key].Aborted?)
    case Decrement(c) => s.sweep.None? && c in s.callers && s.callers[c].Failed?
    case Release(c) => s.sweep.None? && c in s.callers && s.callers[c].Holding?
    case SweepStart => s.sweep.None?
    case SweepList(names) => s.sweep.Some? && s.sweep.value.Started? && Distinct(names)
                             && (forall n :: n in names ==> n in s.dir) && (forall n :: n in s.dir ==> n in names)
    case SweepListFails => s.sweep.Some? && s.sweep.value.Started?
    case SweepEntry(_) => s.sweep.Some? && s.sweep.value.Listing? && s.sweep.value.todo != []
    case SweepEnd => s.sweep.Some? && s.sweep.value.Listing? && s.sweep.value.todo == []
    case Tick(_) => true
  }

  /** A cleanup under way that has not listed the directory yet, or still has the name to do. */
  predicate Pending(s: State, name: string) {
    s.sweep.Some? && (s.sweep.value.Started? || name in s.sweep.value.todo)
  }

  /** The moment cleanup counts a new temp file's age from: a stamp left under the same name, or the start of
      a cleanup that will still see it, or now. */
  function Born(s: State, temp: string): int {
    if temp in s.lastUsed then s.lastUsed[temp]
    else if Pending(s, temp) then s.sweep.value.at
    else s.now
  }

  function AfterFlight(p: Phase, key: string, ok: bool): Phase {
    if p == Waiting(key) then (if ok then Holding(key) else Failed(key)) else p
  }

  function SetFlight(s: State, key: string, f: Flight): State {
    s.(flights := s.flights[key := f])
  }

  function Next(s: State, l: Label, maxAge: int): State
    requires Enabled(s, l)
  {
    match l
    case Increment(c, key) =>
      s.(refs := Retain(s.refs, key), callers := s.callers[c := Counted(key)])
    case Join(c) =>
      var key := s.callers[c].key;
      s.(callers := s.callers[c := Waiting(key)],
         flights := if key in s.flights then s.flights else s.flights[key := Checking])
    case Stat(key) => SetFlight(s, key, if key in s.dir then Succeeded else Fetching)
    case FetchFails(key) => SetFlight(s, key, Aborted)
    case CreateTemp(key, temp) =>
      SetFlight(s, key, Writing(temp, Born(s, temp))).(dir := s.dir[temp := Partial])
    case CopyDone(key) =>
      var f := s.flights[key];
      SetFlight(s, key, Written(f.temp, f.born)).(
        dir := if f.temp in s.dir then s.dir[f.temp := Complete(key)] else s.dir)
    case CopyFails(key) => SetFlight(s, key, Broken(s.flights[key].temp))
    case Rename(key) =>
      var temp := s.flights[key].temp;
      SetFlight(s, key, Succeeded).(dir := (s.dir - {temp})[key := s.dir[temp]])
    case RenameFails(key) => SetFlight(s, key, Broken(s.flights[key].temp))
    case DropTemp(key, removed) =>
      SetFlight(s, key, Aborted).(dir := if removed then s.dir - {s.flights[key].temp} else s.dir)
    case Share(key) =>
      s.(callers := map c | c in s.callers :: AfterFlight(s.callers[c], key, s.flights[key].Succeeded?),
         flights := s.flights - {key})
    case Decrement(c) =>
      s.(refs := Drop(s.refs, s.callers[c].key), callers := s.callers - {c})
    case Release(c) =>
      var key := s.callers[c].key;
      s.(refs := Drop(s.refs, key), lastUsed := Stamp(s.refs, s.lastUsed, key, s.now),
         callers := s.callers - {c}, lastRelease := s.lastRelease[key := s.now])
    case SweepStart => s.(sweep := Some(Started(s.now)))
    case SweepList(names) => s.(sweep := Some(Listing(s.sweep.value.at, names)))
    case SweepListFails => s.(sweep := None)
    case SweepEntry(removable) =>
      var at, todo := s.sweep.value.at, s.sweep.value.todo;
      var w := SweepOne(s.refs, Swept(s.lastUsed, s.dir), todo[0], at, maxAge, removable);
      s.(lastUsed := w.lastUsed, dir := w.dir, sweep := Some(Listing(at, todo[1..])))
    case SweepEnd => s.(sweep := None)
    case Tick(d) => s.(now := s.now + d)
  }

  // ---------------------------------------------------------------- invariants

  /** The callers between their increment and their matching decrement. */
  function Users(callers: map<int, Phase>, key: string): set<int> {
    set c | c in callers && callers[c].key == key
  }

  ghost predicate Counts(refs: map<string, int>, callers: map<int, Phase>) {
    forall k :: Refs(refs, k) == |Users(callers, k)| && (k in refs ==> refs[k] > 0)
  }

  /** Every waiter has its flight and every flight a waiter; images are named by keys. */
  predicate Flying(s: State) {
    && (forall c :: c in s.callers ==> IsKey(s.callers[c].key))
    && (forall c :: c in s.callers && s.callers[c].Waiting? ==> s.callers[c].key in s.flights)
    && (forall k :: k in s.flights ==> IsKey(k) && exists c :: c in s.callers && s.callers[c] == Waiting(k))
  }

  /** Held images are there; an unfinished download's image is not, and has no stamp. */
  predicate Present(s: State) {
    && (forall c :: c in s.callers && s.callers[c].Holding? ==> s.callers[c].key in s.dir)
    && (forall k :: k in s.flights && s.flights[k].Succeeded? ==> k in s.dir)
    && (forall k :: k in s.flights && !s.flights[k].Checking? && !s.flights[k].Succeeded? ==> k !in s.dir)
  }

  /** An image file under a key is the complete image of that key. */
  predicate Whole(s: State) {
    && (forall k :: k in s.dir && IsKey(k) ==> s.dir[k] == Complete(k))
    && (forall k :: k in s.flights && s.flights[k].Written? && s.flights[k].temp in s.dir
          ==> s.dir[s.flights[k].temp] == Complete(k))
  }

  /** Live temp files have names of their own, and are missing only when older than maxAge. */
  predicate Temps(s: State, maxAge: int) {
    && (forall k :: k in s.flights && HasTemp(s.flights[k]) ==> IsTemp(s.flights[k].temp))
    && (forall j, k :: j in s.flights && k in s.flights && j != k && HasTemp(s.flights[j]) && HasTemp(s.flights[k])
          ==> s.flights[j].temp != s.flights[k].temp)
    && (forall k :: k in s.flights && HasLiveTemp(s.flights[k])
          ==> TempAged(s, s.flights[k].temp, s.flights[k].born, maxAge))
  }

  predicate TempAged(s: State, temp: string, born: int, maxAge: int) {
    && (temp in s.dir || s.now - born >= maxAge)
    && (temp in s.lastUsed ==> s.lastUsed[temp] >= born)
    && born <= s.now
    && (temp !in s.lastUsed && Pending(s, temp) ==> born <= s.sweep.value.at)
  }

  /** Stamps belong to present images, lie in the past, and are no older than the last release of an
      image that nobody uses. */
  predicate Stamps(s: State) {
    && (forall k :: k in s.lastUsed ==> s.lastUsed[k] <= s.now)
    && (forall k :: k in s.lastRelease ==> s.lastRelease[k] <= s.now)
    && (s.sweep.Some? ==>
          s.sweep.value.at <= s.now && forall k :: k in s.lastRelease ==> s.lastRelease[k] <= s.sweep.value.at)
    && (forall k :: k in s.lastUsed && IsKey(k) ==> k in s.dir)
    && (forall c :: c in s.callers && s.callers[c].Failed? ==> s.callers[c].key !in s.lastUsed)
    && (forall k :: k in s.lastUsed && k in s.lastRelease && IsKey(k) && Refs(s.refs, k) <= 0
          ==> s.lastUsed[k] >= s.lastRelease[k])
  }

  /** What is left of a listing is still in the directory, as far as images go, and without repeats. */
  predicate Listed(s: State) {
    s.sweep.Some? && s.sweep.value.Listing? ==>
      Distinct(s.sweep.value.todo) && forall n :: n in s.sweep.value.todo && IsKey(n) ==> n in s.dir
  }

  ghost predicate Inv(s: State, maxAge: int) {
    Counts(s.refs, s.callers) && Flying(s) && Present(s) && Whole(s) && Temps(s, maxAge) && Stamps(s) && Listed(s)
  }

  // ---------------------------------------------------------------- counting

  lemma {:induction false} UsersAdd(callers: map<int, Phase>, c: int, p: Phase, k: string)
    requires c !in callers
    ensures Users(callers[c := p], k) == if p.key == k then Users(callers, k) + {c} else Users(callers, k)
    ensures |Users(callers[c := p], k)| == |Users(callers, k)| + (if p.key == k then 1 else 0)
  {
    var u, u' := Users(callers, k), Users(callers[c := p], k);
    assert c !in u;
    assert forall d :: d in u' <==> d in u || (d == c && p.key == k);
    if p.key == k {
      assert u' == u + {c};
    } else {
      assert u' == u;
    }
  }

  lemma {:induction false} UsersRemove(callers: map<int, Phase>, c: int, k: string)
    requires c in callers
    ensures Users(callers - {c}, k) == Users(callers, k) - {c}
    ensures |Users(callers - {c}, k)| == |Users(callers, k)| - (if callers[c].key == k then 1 else 0)
  {
    var u := Users(callers, k);
    assert forall d :: d in Users(callers - {c}, k) <==> d in u && d != c;
    assert Users(callers - {c}, k) == u - {c};
    assert c in u <==> callers[c].key == k;
  }

  lemma {:induction false} UsersSame(a: map<int, Phase>, b: map<int, Phase>, k: string)
    requires a.Keys == b.Keys && forall c :: c in a ==> a[c].key == b[c].key
    ensures Users(a, k) == Users(b, k)
  {
    assert forall c :: c in a <==> c in b;
    assert forall c :: c in Users(a, k) <==> c in Users(b, k);
  }

  /** Steps other than Increment, Decrement and Release leave every caller on its key. */
  lemma {:induction false} SameUsers(s: State, l: Label, maxAge: int)
    requires Enabled(s, l) && !l.Increment? && !l.Decrement? && !l.Release?
    ensures var t := Next(s, l, maxAge);
            t.refs == s.refs && t.callers.Keys == s.callers.Keys
            && forall c :: c in s.callers ==> t.callers[c].key == s.callers[c].key
  {
    hide SweepOne, Born;
    if l.Join? || l.Share? {
      assert forall c :: c in Next(s, l, maxAge).callers <==> c in s.callers;
    }
  }

  lemma {:induction false} CountsAdd(refs: map<string, int>, callers: map<int, Phase>, c: int, p: Phase)
    requires Counts(refs, callers) && c !in callers
    ensures Counts(Retain(refs, p.key), callers[c := p])
  {
    hide Users;
    forall k {
      UsersAdd(callers, c, p, k);
    }
  }

  lemma {:induction false} CountsRemove(refs: map<string, int>, callers: map<int, Phase>, c: int)
    requires Counts(refs, callers) && c in callers
    ensures Counts(Drop(refs, callers[c].key), callers - {c})
  {
    hide Users;
    forall k {
      UsersRemove(callers, c, k);
    }
  }

  lemma {:induction false} CountsSame(refs: map<string, int>, a: map<int, Phase>, b: map<int, Phase>)
    requires Counts(refs, a) && a.Keys == b.Keys && forall c :: c in a ==> a[c].key == b[c].key
    ensures Counts(refs, b)
  {
    hide Users;
    forall k {
      UsersSame(a, b, k);
    }
  }

  /** refs[key] is the number of users in every reachable state. */
  lemma {:induction false} CountsKept(s: State, l: Label, maxAge: int)
    requires Enabled(s, l) && Counts(s.refs, s.callers)
    ensures var t := Next(s, l, maxAge); Counts(t.refs, t.callers)
  {
    if l.Increment? {
      CountsAdd(s.refs, s.callers, l.c, Counted(l.key));
      hide Counts, Retain;
    } else if l.Decrement? || l.Release? {
      CountsRemove(s.refs, s.callers, l.c);
      hide Counts, Drop, Stamp;
    } else {
      hide Counts, Next, Enabled;
      SameUsers(s, l, maxAge);
      CountsSame(s.refs, s.callers, Next(s, l, maxAge).callers);
    }
  }

  // ---------------------------------------------------------------- preservation, invariant by invariant

  predicate MovesCallers(l: Label) {
    l.Increment? || l.Join? || l.Share? || l.Decrement? || l.Release?
  }

  /** Steps inside a flight: it stays under its key, in its next state. */
  predicate FlightStep(l: Label) {
    || l.Stat? || l.FetchFails? || l.CreateTemp? || l.CopyDone? || l.CopyFails?
    || l.Rename? || l.RenameFails? || l.DropTemp?
  }

  predicate MovesDir(l: Label) {
    l.CreateTemp? || l.CopyDone? || l.Rename? || l.DropTemp? || l.SweepEntry?
  }

  predicate MovesStamps(l: Label) {
    l.Release? || l.SweepEntry?
  }

  /** What each kind of step leaves alone. */
  lemma {:induction false} Unmoved(s: State, l: Label, maxAge: int)
    requires Enabled(s, l)
    ensures var t := Next(s, l, maxAge);
            && (!MovesCallers(l) ==> t.callers == s.callers && t.refs == s.refs)
            && (!FlightStep(l) && !l.Join? && !l.Share? ==> t.flights == s.flights)
            && (FlightStep(l) ==>
                  l.key in s.flights && l.key in t.flights && t.flights == s.flights[l.key := t.flights[l.key]])
            && (!MovesDir(l) ==> t.dir == s.dir)
            && (!MovesStamps(l) ==> t.lastUsed == s.lastUsed && t.lastRelease == s.lastRelease)
            && t.now >= s.now && (!l.Tick? ==> t.now == s.now)
  {
    hide SweepOne, Born, TempInUse, Distinct, Retain, Drop, Stamp, AfterFlight;
  }

  /** The sweep keeps its time of start; only the listing fills its list. */
  lemma {:induction false} SweepTime(s: State, l: Label, maxAge: int)
    requires Enabled(s, l)
    ensures var t := Next(s, l, maxAge);
            && (t.sweep.Some? && !l.SweepStart? ==> s.sweep.Some? && t.sweep.value.at == s.sweep.value.at)
            && (l.SweepStart? && t.sweep.Some? ==> t.sweep.value.at == s.now)
            && (t.sweep.Some? && t.sweep.value.Listing? && !l.SweepEntry? && !l.SweepList? ==> t.sweep == s.sweep)
  {
    hide SweepOne, Born, TempInUse, Distinct, Retain, Drop, Stamp, AfterFlight;
  }

  /** A flight changes no image in the directory, but for the renaming that completes it. */
  lemma {:induction false} FlightDir(s: State, l: Label, maxAge: int, n: string)
    requires Enabled(s, l) && FlightStep(l) && Flying(s) && Temps(s, maxAge) && IsKey(n)
    ensures n in Next(s, l, maxAge).dir <==> n in s.dir || l == Rename(n)
  {
    if !MovesDir(l) {
      hide Next, Enabled, Temps, Flying;
      Unmoved(s, l, maxAge);
    } else {
      hide TempAged, Born, TempInUse;
    }
  }

  /** ... nor a file that it does not own. */
  lemma {:induction false} FlightKeepsTemp(s: State, l: Label, maxAge: int, temp: string)
    requires Enabled(s, l) && FlightStep(l) && temp in s.dir
    requires l.Rename? || l.DropTemp? ==> s.flights[l.key].temp != temp
    ensures temp in Next(s, l, maxAge).dir
  {
    hide Born, TempInUse;
  }

  lemma {:induction false} FlyingKeptByFlight(s: State, l: Label, maxAge: int)
    requires Enabled(s, l) && Flying(s) && (l.Join? || l.Share?)
    ensures Flying(Next(s, l, maxAge))
  {
    hide Retain, Drop, Stamp;
    var t := Next(s, l, maxAge);
    forall k | k in t.flights
      ensures IsKey(k) && exists c :: c in t.callers && t.callers[c] == Waiting(k)
    {
      if k in s.flights {
        var c :| c in s.callers && s.callers[c] == Waiting(k);
        assert c in t.callers && t.callers[c] == Waiting(k);
      } else {
        assert t.callers[l.c] == Waiting(k);
      }
    }
  }

  lemma {:induction false} FlyingKeptByCaller(s: State, l: Label, maxAge: int)
    requires Enabled(s, l) && Flying(s) && (l.Increment? || l.Decrement? || l.Release?)
    ensures Flying(Next(s, l, maxAge))
  {
    hide Retain, Drop, Stamp;
    var t := Next(s, l, maxAge);
    forall k | k in t.flights
      ensures IsKey(k) && exists c :: c in t.callers && t.callers[c] == Waiting(k)
    {
      var c :| c in s.callers && s.callers[c] == Waiting(k);
      assert c in t.callers && t.callers[c] == Waiting(k);
    }
  }

  lemma {:induction false} FlyingKept(s: State, l: Label, maxAge: int)
    requires Enabled(s, l) && Flying(s)
    ensures Flying(Next(s, l, maxAge))
  {
    if l.Join? || l.Share? {
      hide *;
      FlyingKeptByFlight(s, l, maxAge);
    } else if MovesCallers(l) {
      hide Next, Enabled, Flying;
      FlyingKeptByCaller(s, l, maxAge);
    } else {
      hide Next, Enabled;
      Unmoved(s, l, maxAge);
    }
  }

  /** In a flight or in hand, an image is counted, so cleanup passes it by. */
  lemma {:induction false} FlightIsCounted(s: State, k: string)
    requires Counts(s.refs, s.callers) && Flying(s) && k in s.flights
    ensures Refs(s.refs, k) > 0
  {
    var c :| c in s.callers && s.callers[c] == Waiting(k);
    assert c in Users(s.callers, k);
  }

  lemma {:induction false} CallerIsCounted(s: State, c: int)
    requires Counts(s.refs, s.callers) && c in s.callers
    ensures Refs(s.refs, s.callers[c].key) > 0
  {
    assert c in Users(s.callers, s.callers[c].key);
  }

  /** The effect of one cleanup entry: at most its own name goes, and only unused. */
  lemma {:induction false} SweepOneEffect(refs: map<string, int>, w: Swept, name: string, now: int, maxAge: int,
                                          removable: bool)
    ensures var r := SweepOne(refs, w, name, now, maxAge, removable);
            && (forall n :: n in r.dir ==> n in w.dir && r.dir[n] == w.dir[n])
            && (forall n :: n in w.dir && n !in r.dir ==>
                  n == name && n !in r.lastUsed && Refs(refs, n) <= 0 && n in w.lastUsed
                    && now - w.lastUsed[n] >= maxAge)
            && (forall n :: n in r.lastUsed && n in w.lastUsed ==> r.lastUsed[n] == w.lastUsed[n])
            && (forall n :: n in w.lastUsed && n !in r.lastUsed ==> n == name && n !in r.dir)
            && (forall n :: n in r.lastUsed && n !in w.lastUsed ==>
                  n == name && r.lastUsed[n] == now && Refs(refs, n) <= 0 && r.dir == w.dir)
  {
  }

  lemma {:induction false} PresentKeptBySweep(s: State, removable: bool, maxAge: int)
    requires Enabled(s, SweepEntry(removable)) && Counts(s.refs, s.callers) && Flying(s) && Present(s)
    ensures Present(Next(s, SweepEntry(removable), maxAge))
  {
    hide SweepOne, Distinct, Counts;
    SweepOneEffect(s.refs, Swept(s.lastUsed, s.dir), s.sweep.value.todo[0], s.sweep.value.at, maxAge, removable);
    var t := Next(s, SweepEntry(removable), maxAge);
    forall c | c in s.callers && s.callers[c].Holding? ensures s.callers[c].key in t.dir {
      CallerIsCounted(s, c);
    }
    forall k | k in s.flights ensures k in s.dir <==> k in t.dir {
      FlightIsCounted(s, k);
    }
  }

  /** A flight succeeds with its image there and goes on only without. */
  lemma {:induction false} FlightOutcome(s: State, l: Label, maxAge: int)
    requires Enabled(s, l) && FlightStep(l) && Present(s)
    ensures var f := Next(s, l, maxAge).flights[l.key];
            && !f.Checking?
            && (f.Succeeded? ==> l.key in s.dir || l.Rename?)
            && (!f.Succeeded? ==> l.key !in s.dir && !l.Rename?)
  {
    hide Born, TempInUse;
  }

  lemma {:induction false} PresentKeptInFlight(s: State, l: Label, maxAge: int)
    requires Enabled(s, l) && FlightStep(l) && Flying(s) && Present(s) && Temps(s, maxAge)
    ensures Present(Next(s, l, maxAge))
  {
    assert !MovesCallers(l);
    hide *;
    Unmoved(s, l, maxAge);
    FlightOutcome(s, l, maxAge);
    var t := Next(s, l, maxAge);
    forall k | k in s.flights ensures k in t.dir <==> k in s.dir || l == Rename(k) {
      FlightDir(s, l, maxAge, k) by {
        assert IsKey(k) by { KeyNames(s); }
      }
    }
    forall c | c in s.callers && s.callers[c].key in s.dir ensures s.callers[c].key in t.dir {
      KeyNames(s);
      FlightDir(s, l, maxAge, s.callers[c].key);
    }
    PresentAfterFlight(s, t, l);
  }

  lemma {:induction false} KeyNames(s: State)
    requires Flying(s)
    ensures forall k :: k in s.flights ==> IsKey(k)
    ensures forall c :: c in s.callers ==> IsKey(s.callers[c].key)
  {
    hide IsKey;
  }

  lemma {:induction false} PresentAfterFlight(s: State, t: State, l: Label)
    requires FlightStep(l) && Present(s) && t.callers == s.callers
    requires l.key in s.flights && l.key in t.flights && t.flights == s.flights[l.key := t.flights[l.key]]
    requires var f := t.flights[l.key];
             && !f.Checking?
             && (f.Succeeded? ==> l.key in s.dir || l.Rename?)
             && (!f.Succeeded? ==> l.key !in s.dir && !l.Rename?)
    requires forall k :: k in s.flights ==> (k in t.dir <==> k in s.dir || l == Rename(k))
    requires forall c :: c in s.callers && s.callers[c].key in s.dir ==> s.callers[c].key in t.dir
    ensures Present(t)
  {
  }

  lemma {:induction false} PresentKeptByCaller(s: State, l: Label, maxAge: int)
    requires Enabled(s, l) && MovesCallers(l) && Present(s)
    ensures Present(Next(s, l, maxAge))
  {
    hide Retain, Drop, Stamp;
  }

  lemma {:induction false} PresentKept(s: State, l: Label, maxAge: int)
    requires Enabled(s, l) && Counts(s.refs, s.callers) && Flying(s) && Present(s) && Temps(s, maxAge)
    ensures Present(Next(s, l, maxAge))
  {
    if l.SweepEntry? {
      hide *;
      PresentKeptBySweep(s, l.removable, maxAge);
    } else if FlightStep(l) {
      hide Next, Enabled, Present;
      PresentKeptInFlight(s, l, maxAge);
    } else if MovesCallers(l) {
      hide Next, Enabled, Present;
      PresentKeptByCaller(s, l, maxAge);
    } else {
      hide Next, Enabled, Counts, Flying, Temps;
      Unmoved(s, l, maxAge);
    }
  }

  lemma {:induction false} ImagesWhole(s: State, l: Label, maxAge: int, k: string)
    requires Enabled(s, l) && Flying(s) && Whole(s) && Temps(s, maxAge)
    requires k in Next(s, l, maxAge).dir && IsKey(k)
    ensures Next(s, l, maxAge).dir[k] == Complete(k)
  {
    if !MovesDir(l) {
      hide Next, Enabled, Flying, Temps;
      Unmoved(s, l, maxAge);
    } else {
      hide SweepOne, Born, Distinct, TempAged, TempInUse;
      if l.SweepEntry? {
        SweepOneEffect(s.refs, Swept(s.lastUsed, s.dir), s.sweep.value.todo[0], s.sweep.value.at, maxAge, l.removable);
      }
    }
  }

  /** A finished temp file either was finished by this step or was finished before. */
  lemma {:induction false} WrittenOrigin(s: State, l: Label, maxAge: int, k: string)
    requires Enabled(s, l)
    requires k in Next(s, l, maxAge).flights && Next(s, l, maxAge).flights[k].Written?
    ensures k in s.flights && HasTemp(s.flights[k]) && s.flights[k].temp == Next(s, l, maxAge).flights[k].temp
    ensures s.flights[k].Written? || l == CopyDone(k)
  {
    hide SweepOne, Born, Distinct, TempInUse, Retain, Drop, Stamp, AfterFlight;
  }

  lemma {:induction false} TempsWhole(s: State, l: Label, maxAge: int, k: string)
    requires Enabled(s, l) && Flying(s) && Whole(s) && Temps(s, maxAge)
    requires var t := Next(s, l, maxAge); k in t.flights && t.flights[k].Written? && t.flights[k].temp in t.dir
    ensures var t := Next(s, l, maxAge); t.dir[t.flights[k].temp] == Complete(k)
  {
    WrittenOrigin(s, l, maxAge, k);
    if !MovesDir(l) {
      hide Next, Enabled, Flying, Temps;
      Unmoved(s, l, maxAge);
    } else {
      hide SweepOne, Born, Distinct, TempAged;
      if l.SweepEntry? {
        SweepOneEffect(s.refs, Swept(s.lastUsed, s.dir), s.sweep.value.todo[0], s.sweep.value.at, maxAge, l.removable);
      }
    }
  }

  lemma {:induction false} WholeKept(s: State, l: Label, maxAge: int)
    requires Enabled(s, l) && Flying(s) && Whole(s) && Temps(s, maxAge)
    ensures Whole(Next(s, l, maxAge))
  {
    hide Next, Flying, Temps, Enabled;
    var t := Next(s, l, maxAge);
    forall k | k in t.dir && IsKey(k) ensures t.dir[k] == Complete(k) {
      ImagesWhole(s, l, maxAge, k);
    }
    forall k | k in t.flights && t.flights[k].Written? && t.flights[k].temp in t.dir
      ensures t.dir[t.flights[k].temp] == Complete(k)
    {
      TempsWhole(s, l, maxAge, k);
    }
  }

  lemma {:induction false} StampsOnlyKeys(s: State, c: int, maxAge: int, temp: string)
    requires Enabled(s, Release(c)) && Flying(s) && IsTemp(temp)
    ensures var t := Next(s, Release(c), maxAge);
            t.dir == s.dir && (temp in t.lastUsed <==> temp in s.lastUsed)
              && (temp in s.lastUsed ==> t.lastUsed[temp] == s.lastUsed[temp])
  {
    hide Retain, Drop;
  }

  lemma {:induction false} TempAgedKeptBySweep(s: State, removable: bool, maxAge: int, temp: string, born: int)
    requires Enabled(s, SweepEntry(removable)) && Stamps(s) && Listed(s) && TempAged(s, temp, born, maxAge)
    ensures TempAged(Next(s, SweepEntry(removable), maxAge), temp, born, maxAge)
  {
    hide SweepOne;
    var todo := s.sweep.value.todo;
    SweepOneEffect(s.refs, Swept(s.lastUsed, s.dir), todo[0], s.sweep.value.at, maxAge, removable);
    assert todo[0] in todo && forall n :: n in todo[1..] ==> n in todo;
    HeadOnce(todo);
  }

  lemma {:induction false} HeadOnce(names: seq<string>)
    requires Distinct(names) && names != []
    ensures names[0] !in names[1..]
  {
  }

  lemma {:induction false} PendingStep(s: State, l: Label, maxAge: int, temp: string)
    requires Enabled(s, l) && !l.SweepEntry? && Pending(Next(s, l, maxAge), temp)
    ensures var at := Next(s, l, maxAge).sweep.value.at;
            (Pending(s, temp) && at == s.sweep.value.at) || at == s.now
  {
    SweepTime(s, l, maxAge);
    if l.SweepList? {
      hide Distinct;
    } else if !l.SweepStart? {
      hide Next, Enabled;
      SweepStarts(s, l, maxAge);
    }
  }

  lemma {:induction false} SweepStarts(s: State, l: Label, maxAge: int)
    requires Enabled(s, l) && !l.SweepEntry? && !l.SweepList? && !l.SweepStart?
    ensures Next(s, l, maxAge).sweep.Some? ==> Next(s, l, maxAge).sweep == s.sweep
  {
    hide SweepOne, Born, TempInUse, Distinct, Retain, Drop, Stamp, AfterFlight;
  }

  /** One live temp file while a step happens that is not about it. */
  lemma {:induction false} TempAgedKept(s: State, l: Label, maxAge: int, temp: string, born: int)
    requires Enabled(s, l) && Flying(s) && Stamps(s) && Listed(s) && TempAged(s, temp, born, maxAge) && IsTemp(temp)
    requires l.Rename? || l.DropTemp? ==> s.flights[l.key].temp != temp
    ensures TempAged(Next(s, l, maxAge), temp, born, maxAge)
  {
    if l.SweepEntry? {
      hide *;
      TempAgedKeptBySweep(s, l.removable, maxAge, temp, born);
    } else {
      Unmoved(s, l, maxAge);
      if FlightStep(l) && temp in s.dir {
        FlightKeepsTemp(s, l, maxAge, temp);
      }
      if l.Release? {
        StampsOnlyKeys(s, l.c, maxAge, temp);
      }
      hide Next, Enabled, Flying, Listed, Stamps, Pending;
      if Pending(Next(s, l, maxAge), temp) {
        PendingStep(s, l, maxAge, temp);
      }
    }
  }

  predicate HasLiveTemp(f: Flight) {
    f.Writing? || f.Written?
  }

  /** A live temp file was either just created or was there before. */
  lemma {:induction false} TempOrigin(s: State, l: Label, maxAge: int, k: string)
    requires Enabled(s, l) && Temps(s, maxAge)
    requires k in Next(s, l, maxAge).flights && HasLiveTemp(Next(s, l, maxAge).flights[k])
    ensures var f := Next(s, l, maxAge).flights[k];
            if l.CreateTemp? && l.key == k then f == Writing(l.temp, Born(s, l.temp))
            else k in s.flights && HasLiveTemp(s.flights[k])
                 && s.flights[k].temp == f.temp && s.flights[k].born == f.born
                 && (l.Rename? || l.DropTemp? ==> s.flights[l.key].temp != f.temp)
  {
    hide SweepOne, Distinct, TempAged, Born, Retain, Drop, Stamp;
  }

  lemma {:induction false} TempCreated(s: State, key: string, temp: string, maxAge: int)
    requires Enabled(s, CreateTemp(key, temp)) && Stamps(s)
    ensures TempAged(Next(s, CreateTemp(key, temp), maxAge), temp, Born(s, temp), maxAge)
  {
    hide TempInUse;
  }

  lemma {:induction false} TempsKept(s: State, l: Label, maxAge: int)
    requires Enabled(s, l) && Flying(s) && Temps(s, maxAge) && Stamps(s) && Listed(s)
    ensures Temps(Next(s, l, maxAge), maxAge)
  {
    hide Next, Stamps, Flying, TempAged, Born;
    var t := Next(s, l, maxAge);
    TempNamesKept(s, l, maxAge);
    forall k | k in t.flights && HasLiveTemp(t.flights[k])
      ensures TempAged(t, t.flights[k].temp, t.flights[k].born, maxAge)
    {
      TempOrigin(s, l, maxAge, k);
      if l.CreateTemp? && l.key == k {
        TempCreated(s, k, l.temp, maxAge);
      } else {
        TempAgedKept(s, l, maxAge, t.flights[k].temp, t.flights[k].born);
      }
    }
  }

  /** The temp name a flight has after a step of its own is new, or the one it had. */
  lemma {:induction false} FlightTemp(s: State, l: Label, maxAge: int)
    requires Enabled(s, l) && FlightStep(l)
    ensures var f := Next(s, l, maxAge).flights[l.key];
            HasTemp(f) ==> || (l.CreateTemp? && f.temp == l.temp && IsTemp(l.temp) && !TempInUse(s, l.temp))
                           || (HasTemp(s.flights[l.key]) && f.temp == s.flights[l.key].temp)
  {
    hide Born, TempInUse;
  }

  /** Names: each live temp file keeps one flight. */
  lemma {:induction false} TempNamesKept(s: State, l: Label, maxAge: int)
    requires Enabled(s, l) && Temps(s, maxAge)
    ensures var t := Next(s, l, maxAge);
            && (forall k :: k in t.flights && HasTemp(t.flights[k]) ==> IsTemp(t.flights[k].temp))
            && (forall j, k :: (j in t.flights && k in t.flights && j != k
                                && HasTemp(t.flights[j]) && HasTemp(t.flights[k]))
                  ==> t.flights[j].temp != t.flights[k].temp)
  {
    if FlightStep(l) {
      Unmoved(s, l, maxAge);
      FlightTemp(s, l, maxAge);
      hide Next, Enabled, TempAged;
    } else if l.Join? || l.Share? {
      hide TempAged, AfterFlight;
    } else {
      hide Next, Enabled, TempAged;
      Unmoved(s, l, maxAge);
    }
  }

  /** Two callers on one key count for two. */
  lemma {:induction false} TwoUsers(s: State, c: int, d: int)
    requires Counts(s.refs, s.callers) && c in s.callers && d in s.callers && c != d
             && s.callers[c].key == s.callers[d].key
    ensures Refs(s.refs, s.callers[c].key) >= 2
  {
    var u := Users(s.callers, s.callers[c].key);
    assert c in u && d in u;
    assert |u - {c}| == |u| - 1 && d in u - {c};
  }

  lemma {:induction false} StampsKeptBySweep(s: State, removable: bool, maxAge: int)
    requires Enabled(s, SweepEntry(removable)) && Counts(s.refs, s.callers) && Flying(s) && Stamps(s) && Listed(s)
    ensures Stamps(Next(s, SweepEntry(removable), maxAge))
  {
    hide SweepOne, Distinct, Counts;
    SweepOneEffect(s.refs, Swept(s.lastUsed, s.dir), s.sweep.value.todo[0], s.sweep.value.at, maxAge, removable);
    var t := Next(s, SweepEntry(removable), maxAge);
    forall c | c in s.callers && s.callers[c].Failed? ensures s.callers[c].key !in t.lastUsed {
      CallerIsCounted(s, c);
    }
  }

  lemma {:induction false} StampsKeptByRelease(s: State, c: int, maxAge: int)
    requires Enabled(s, Release(c)) && Counts(s.refs, s.callers) && Flying(s) && Present(s) && Stamps(s)
    ensures Stamps(Next(s, Release(c), maxAge))
  {
    hide Counts;
    var t := Next(s, Release(c), maxAge);
    forall d | d in t.callers && t.callers[d].Failed? ensures t.callers[d].key !in t.lastUsed {
      if s.callers[d].key == s.callers[c].key {
        TwoUsers(s, c, d);
      }
    }
  }

  lemma {:induction false} StampsKeptByDecrement(s: State, c: int, maxAge: int)
    requires Enabled(s, Decrement(c)) && Counts(s.refs, s.callers) && Stamps(s)
    ensures Stamps(Next(s, Decrement(c), maxAge))
  {
    hide Counts;
  }

  lemma {:induction false} StampsWithFiles(s: State, t: State)
    requires Stamps(s) && t.now == s.now && t.lastUsed == s.lastUsed && t.lastRelease == s.lastRelease
    requires t.callers == s.callers && t.refs == s.refs
    requires t.sweep.Some? ==> s.sweep.Some? && t.sweep.value.at == s.sweep.value.at
    requires forall k :: k in s.dir && IsKey(k) ==> k in t.dir
    ensures Stamps(t)
  {
    hide IsKey;
  }

  /** Files that a flight removes are its own temp file, so no stamped image goes. */
  lemma {:induction false} StampsKeptByFlight(s: State, l: Label, maxAge: int)
    requires FlightStep(l) && Enabled(s, l) && Flying(s) && Temps(s, maxAge) && Stamps(s)
    ensures Stamps(Next(s, l, maxAge))
  {
    assert !MovesCallers(l) && !MovesStamps(l) && !l.SweepStart? && !l.Tick?;
    hide *;
    Unmoved(s, l, maxAge);
    SweepTime(s, l, maxAge);
    var t := Next(s, l, maxAge);
    forall k | k in s.dir && IsKey(k) ensures k in t.dir {
      FlightDir(s, l, maxAge, k);
    }
    StampsWithFiles(s, t);
  }

  lemma {:induction false} StampsKeptByShare(s: State, key: string, maxAge: int)
    requires Enabled(s, Share(key)) && Flying(s) && Present(s) && Stamps(s)
    ensures Stamps(Next(s, Share(key), maxAge))
  {
  }

  lemma {:induction false} StampsKeptQuietly(s: State, l: Label, maxAge: int)
    requires !FlightStep(l) && !MovesStamps(l) && !l.Share? && !l.Decrement? && Enabled(s, l) && Stamps(s)
    ensures Stamps(Next(s, l, maxAge))
  {
    if l.Increment? || l.Join? {
      hide Drop, Stamp;
    } else {
      Unmoved(s, l, maxAge);
      SweepTime(s, l, maxAge);
      hide Next, Enabled, IsKey;
    }
  }

  lemma {:induction false} StampsKept(s: State, l: Label, maxAge: int)
    requires Enabled(s, l) && Counts(s.refs, s.callers) && Flying(s) && Present(s) && Temps(s, maxAge) && Stamps(s)
             && Listed(s)
    ensures Stamps(Next(s, l, maxAge))
  {
    hide Next, Enabled, Counts, Flying, Present, Temps, Stamps, Listed;
    if l.SweepEntry? {
      StampsKeptBySweep(s, l.removable, maxAge);
    } else if l.Release? {
      StampsKeptByRelease(s, l.c, maxAge);
    } else if l.Decrement? {
      StampsKeptByDecrement(s, l.c, maxAge);
    } else if l.Share? {
      StampsKeptByShare(s, l.key, maxAge);
    } else if FlightStep(l) {
      StampsKeptByFlight(s, l, maxAge);
    } else {
      StampsKeptQuietly(s, l, maxAge);
    }
  }

  lemma {:induction false} ListedKept(s: State, l: Label, maxAge: int)
    requires Enabled(s, l) && Flying(s) && Listed(s) && Temps(s, maxAge)
    ensures Listed(Next(s, l, maxAge))
  {
    if l.SweepEntry? {
      hide SweepOne, Temps;
      SweepOneEffect(s.refs, Swept(s.lastUsed, s.dir), s.sweep.value.todo[0], s.sweep.value.at, maxAge, l.removable);
    } else if l.SweepList? {
      hide Temps;
    } else {
      Unmoved(s, l, maxAge);
      SweepTime(s, l, maxAge);
      if FlightStep(l) {
        forall n | IsKey(n) ensures n in s.dir ==> n in Next(s, l, maxAge).dir {
          FlightDir(s, l, maxAge, n);
        }
      }
      hide Next, Enabled, Temps, Distinct, IsKey;
    }
  }

  lemma {:induction false} InvKept(s: State, l: Label, maxAge: int)
    requires Enabled(s, l) && Inv(s, maxAge)
    ensures Inv(Next(s, l, maxAge), maxAge)
  {
    hide Next, Counts, Flying, Present, Whole, Temps, Stamps, Listed, Enabled;
    CountsKept(s, l, maxAge);
    FlyingKept(s, l, maxAge);
    PresentKept(s, l, maxAge);
    WholeKept(s, l, maxAge);
    TempsKept(s, l, maxAge);
    StampsKept(s, l, maxAge);
    ListedKept(s, l, maxAge);
  }

  // ---------------------------------------------------------------- runs

  /** A fresh process: nothing counted or stamped; the directory may hold whole images and leftover
      temp files of an earlier one. */
  predicate Initial(s: State) {
    && s.refs == map[] && s.lastUsed == map[] && s.callers == map[] && s.flights == map[] && s.sweep.None?
    && s.lastRelease == map[]
    && (forall k :: k in s.dir && IsKey(k) ==> s.dir[k] == Complete(k))
  }

  /** The labels happen in this order, each when it can. */
  predicate Runs(s: State, run: seq<Label>, maxAge: int)
    decreases |run|
  {
    run == [] || (Enabled(s, run[0]) && Runs(Next(s, run[0], maxAge), run[1..], maxAge))
  }

  function After(s: State, run: seq<Label>, maxAge: int): State
    requires Runs(s, run, maxAge)
    decreases |run|
  {
    if run == [] then s else After(Next(s, run[0], maxAge), run[1..], maxAge)
  }

  lemma {:induction false} RunsCons(s: State, l: Label, rest: seq<Label>, maxAge: int)
    requires Enabled(s, l) && Runs(Next(s, l, maxAge), rest, maxAge)
    ensures Runs(s, [l] + rest, maxAge) && After(s, [l] + rest, maxAge) == After(Next(s, l, maxAge), rest, maxAge)
  {
    hide Next, Enabled;
    assert ([l] + rest)[1..] == rest;
  }

  lemma {:induction false} RunsOne(s: State, l: Label, maxAge: int)
    requires Enabled(s, l)
    ensures Runs(s, [l], maxAge) && After(s, [l], maxAge) == Next(s, l, maxAge)
  {
    hide Next, Enabled;
    assert [l][1..] == [];
  }

  lemma {:induction false} InvAfter(s: State, run: seq<Label>, maxAge: int)
    requires Inv(s, maxAge) && Runs(s, run, maxAge)
    ensures Inv(After(s, run, maxAge), maxAge)
    decreases |run|
  {
    hide Inv, Next, Enabled;
    if run != [] {
      InvKept(s, run[0], maxAge);
      InvAfter(Next(s, run[0], maxAge), run[1..], maxAge);
    }
  }

  lemma {:induction false} InitialInv(s: State, maxAge: int)
    requires Initial(s)
    ensures Inv(s, maxAge)
  {
    forall k ensures Users(s.callers, k) == {} {
    }
  }

  /** Safety over every interleaving: the count of every image is the number of callers between their
      increment and their decrement, and every image somebody holds is in the directory, complete. */
  lemma {:induction false} CacheSafety(s: State, run: seq<Label>, maxAge: int)
    requires Initial(s) && Runs(s, run, maxAge)
    ensures var t := After(s, run, maxAge);
            && (forall k :: Refs(t.refs, k) == |Users(t.callers, k)|)
            && (forall c :: c in t.callers && t.callers[c].Holding? ==>
                  t.callers[c].key in t.dir && t.dir[t.callers[c].key] == Complete(t.callers[c].key))
  {
    hide Next, Enabled, Runs, After, Temps, Stamps, Listed;
    InitialInv(s, maxAge);
    InvAfter(s, run, maxAge);
  }

  /** Download atomicity: an image's name never shows an unfinished download, and a download in
      progress has lost its temp file only if that was at least maxAge old, counted from Born. */
  lemma {:induction false} DownloadAtomic(s: State, run: seq<Label>, maxAge: int, key: string)
    requires Initial(s) && Runs(s, run, maxAge)
    ensures var t := After(s, run, maxAge);
            && (key in t.dir && IsKey(key) ==> t.dir[key] == Complete(key))
            && (key in t.flights && HasLiveTemp(t.flights[key]) && t.now - t.flights[key].born < maxAge ==>
                  t.flights[key].temp in t.dir)
  {
    hide Next, Enabled, Runs, After, Stamps, Listed, Counts, Flying, Present;
    InitialInv(s, maxAge);
    InvAfter(s, run, maxAge);
  }

  /** Every waiter of a flight gets that flight's outcome: in every run, when a flight is shared, on success
      its waiters hold the complete image, on failure they have failed and there is no image, and nobody
      waits for it any more. */
  lemma {:induction false} SharedOutcome(s: State, run: seq<Label>, maxAge: int, key: string)
    requires Initial(s) && Runs(s, run, maxAge) && Enabled(After(s, run, maxAge), Share(key))
    ensures var t := After(s, run, maxAge);
            var u := Next(t, Share(key), maxAge);
            && key !in u.flights && u.callers.Keys == t.callers.Keys
            && (forall c :: c in u.callers ==> u.callers[c] != Waiting(key))
            && (forall c :: c in t.callers && t.callers[c] != Waiting(key) ==> u.callers[c] == t.callers[c])
            && (t.flights[key].Succeeded? ==>
                  key in u.dir && u.dir[key] == Complete(key)
                  && forall c :: c in t.callers && t.callers[c] == Waiting(key) ==> u.callers[c] == Holding(key))
            && (!t.flights[key].Succeeded? ==>
                  key !in u.dir
                  && forall c :: c in t.callers && t.callers[c] == Waiting(key) ==> u.callers[c] == Failed(key))
  {
    hide Runs, After, Temps, Stamps, Listed, Counts;
    InitialInv(s, maxAge);
    InvAfter(s, run, maxAge);
  }

  /** Cleanup age: in every run, a step that removes an image finds it unused, with a stamp at least
      maxAge old, and its last holder gone for at least maxAge. */
  lemma {:induction false} RemovalAge(s: State, run: seq<Label>, maxAge: int, l: Label, key: string)
    requires Initial(s) && Runs(s, run, maxAge) && Enabled(After(s, run, maxAge), l) && IsKey(key)
    requires var t := After(s, run, maxAge); key in t.dir && key !in Next(t, l, maxAge).dir
    ensures var t := After(s, run, maxAge);
            && l.SweepEntry? && Users(t.callers, key) == {}
            && key in t.lastUsed && t.now - t.lastUsed[key] >= maxAge
            && (key in t.lastRelease ==> t.now - t.lastRelease[key] >= maxAge)
  {
    InitialInv(s, maxAge);
    InvAfter(s, run, maxAge);
    hide *;
    RemovalStep(After(s, run, maxAge), l, maxAge, key);
  }

  lemma {:induction false} OnlySweepRemoves(s: State, l: Label, maxAge: int, key: string)
    requires Enabled(s, l) && IsKey(key) && key in s.dir && key !in Next(s, l, maxAge).dir && Flying(s)
             && Temps(s, maxAge)
    ensures l.SweepEntry?
  {
    hide Next, Enabled, Flying, Temps;
    Unmoved(s, l, maxAge);
    if FlightStep(l) {
      FlightDir(s, l, maxAge, key);
    }
  }

  lemma {:induction false} RemovalStep(s: State, l: Label, maxAge: int, key: string)
    requires Inv(s, maxAge) && Enabled(s, l) && IsKey(key) && key in s.dir && key !in Next(s, l, maxAge).dir
    ensures l.SweepEntry? && Users(s.callers, key) == {}
            && key in s.lastUsed && s.now - s.lastUsed[key] >= maxAge
            && (key in s.lastRelease ==> s.now - s.lastRelease[key] >= maxAge)
  {
    OnlySweepRemoves(s, l, maxAge, key);
    hide Counts, Flying, Present, Whole, Temps, Listed, SweepOne, Distinct;
    SweepOneEffect(s.refs, Swept(s.lastUsed, s.dir), s.sweep.value.todo[0], s.sweep.value.at, maxAge, l.removable);
    UnusedHasNoUsers(s, key);
  }

  lemma {:induction false} UnusedHasNoUsers(s: State, key: string)
    requires Counts(s.refs, s.callers) && Refs(s.refs, key) <= 0
    ensures Users(s.callers, key) == {}
  {
  }
}
