/** The values of the three messages of specs.proto, their encodings, and the laws of the codec:
    round trip, canonical form, merge, equality and size. */
module Messages {
  import opened Wire

  datatype DiskFields = DiskFields(typ: Bytes, volName: Bytes)

  datatype NicFields = NicFields(driver: Bytes, network: Bytes, bridge: Bytes, target: Bytes, physicalAddress: Bytes)

  type Disk = Msg<DiskFields>
  type Nic = Msg<NicFields>

  /** The repeated fields are lists of pointers, so an entry may be nil. */
  datatype SpecFields = SpecFields(
    uuid: Bytes, schematic: Bytes, talosVersion: Bytes, vmVolName: Bytes,
    disks: seq<Option<Disk>>, nics: seq<Option<Nic>>,
    cidataVolName: Bytes, isoVolName: Bytes, isoVolPath: Bytes, cidataVolPath: Bytes,
    vmVolPath: Bytes, vmIfName: Bytes, poolName: Bytes, vmName: Bytes, vmNvramName: Bytes)

  type Spec = Msg<SpecFields>

  const DISK_FIELDS: set<int> := {1, 3}
  const NIC_FIELDS: set<int> := {1, 2, 3, 4, 5}
  const SPEC_FIELDS: set<int> := {1, 2, 3, 10, 11, 12, 13, 14, 15, 16, 17, 18, 20, 21, 25}

  const EMPTY_DISK: Disk := Msg(DiskFields([], []), [])
  const EMPTY_NIC: Nic := Msg(NicFields([], [], [], [], []), [])
  const EMPTY_SPEC: Spec := Msg(SpecFields([], [], [], [], [], [], [], [], [], [], [], [], [], [], []), [])

  // ---------------------------------------------------------------- decoding

  function SetDisk(f: DiskFields, num: int, p: Bytes): Outcome<DiskFields> {
    Outcome(match num
            case 1 => f.(typ := p)
            case 3 => f.(volName := p)
            case _ => f, None)
  }

  function SetNic(f: NicFields, num: int, p: Bytes): Outcome<NicFields> {
    Outcome(match num
            case 1 => f.(driver := p)
            case 2 => f.(network := p)
            case 3 => f.(bridge := p)
            case 4 => f.(target := p)
            case 5 => f.(physicalAddress := p)
            case _ => f, None)
  }

  function SetSpecString(f: SpecFields, num: int, p: Bytes): SpecFields {
    match num
    case 1 => f.(uuid := p)
    case 2 => f.(schematic := p)
    case 3 => f.(talosVersion := p)
    case 10 => f.(vmVolName := p)
    case 13 => f.(cidataVolName := p)
    case 14 => f.(isoVolName := p)
    case 15 => f.(isoVolPath := p)
    case 16 => f.(cidataVolPath := p)
    case 17 => f.(vmVolPath := p)
    case 18 => f.(vmIfName := p)
    case 20 => f.(poolName := p)
    case 21 => f.(vmName := p)
    case 25 => f.(vmNvramName := p)
    case _ => f
  }

  /** A repeated message is appended before it is decoded: on an error inside it, what was decoded
      of it stays in the list. */
  function SetSpec(f: SpecFields, num: int, p: Bytes): Outcome<SpecFields> {
    if num == 11 then
      var o := DecodeDisk(EMPTY_DISK, p, 0);
      Outcome(f.(disks := f.disks + [Some(o.msg)]), o.err)
    else if num == 12 then
      var o := DecodeNic(EMPTY_NIC, p, 0);
      Outcome(f.(nics := f.nics + [Some(o.msg)]), o.err)
    else
      Outcome(SetSpecString(f, num, p), None)
  }

  function DecodeDisk(m: Disk, d: Bytes, pos: nat): Outcome<Disk> {
    Fold(DISK_FIELDS, SetDisk, m, d, pos)
  }

  function DecodeNic(m: Nic, d: Bytes, pos: nat): Outcome<Nic> {
    Fold(NIC_FIELDS, SetNic, m, d, pos)
  }

  function DecodeSpec(m: Spec, d: Bytes, pos: nat): Outcome<Spec> {
    Fold(SPEC_FIELDS, SetSpec, m, d, pos)
  }

  lemma {:induction false} DecodeSpecStep(m: Spec, d: Bytes, pos: nat)
    ensures d == [] ==> DecodeSpec(m, d, pos) == Outcome(m, None)
    ensures d != [] ==>
              DecodeSpec(m, d, pos) ==
              match ReadRecord(SPEC_FIELDS, d, pos)
              case Err(e) => Outcome(m, Some(e))
              case Ok(p) =>
                var o := Apply(SetSpec, m, p.rec);
                if o.err.Some? then o else DecodeSpec(o.msg, d[p.size..], pos + p.size)
  {
    hide Fold, ReadRecord, SetSpec;
    FoldStep(SPEC_FIELDS, SetSpec, m, d, pos);
  }

  // ---------------------------------------------------------------- encoding

  function EncDisk(m: Disk): Bytes {
    EncString(1, m.fields.typ) + (EncString(3, m.fields.volName) + m.unknown)
  }

  function EncNic(m: Nic): Bytes {
    EncString(1, m.fields.driver) + (EncString(2, m.fields.network) + (EncString(3, m.fields.bridge)
    + (EncString(4, m.fields.target) + (EncString(5, m.fields.physicalAddress) + m.unknown))))
  }

  /** A nil entry is written as an empty message. */
  function EncDiskEntry(e: Option<Disk>): Bytes {
    if e.Some? then EncDisk(e.value) else []
  }

  function EncNicEntry(e: Option<Nic>): Bytes {
    if e.Some? then EncNic(e.value) else []
  }

  function EncDisks(ds: seq<Option<Disk>>): Bytes {
    EncFields(11, Each(EncDiskEntry, ds))
  }

  function EncNics(ns: seq<Option<Nic>>): Bytes {
    EncFields(12, Each(EncNicEntry, ns))
  }

  /** The part of a machine's encoding from field 13 on. */
  function EncSpecTail(m: Spec): Bytes {
    var f := m.fields;
    EncString(13, f.cidataVolName) + (EncString(14, f.isoVolName) + (EncString(15, f.isoVolPath)
    + (EncString(16, f.cidataVolPath) + (EncString(17, f.vmVolPath) + (EncString(18, f.vmIfName)
    + (EncString(20, f.poolName) + (EncString(21, f.vmName) + (EncString(25, f.vmNvramName) + m.unknown))))))))
  }

  function EncSpec(m: Spec): Bytes {
    var f := m.fields;
    EncString(1, f.uuid) + (EncString(2, f.schematic) + (EncString(3, f.talosVersion)
    + (EncString(10, f.vmVolName) + (EncDisks(f.disks) + (EncNics(f.nics) + EncSpecTail(m))))))
  }

  // ---------------------------------------------------------------- equality and well-formedness

  /** EqualVT compares entries after replacing nil by an empty message. */
  function NormDisk(e: Option<Disk>): Option<Disk> {
    if e.Some? then e else Some(EMPTY_DISK)
  }

  function NormNic(e: Option<Nic>): Option<Nic> {
    if e.Some? then e else Some(EMPTY_NIC)
  }

  function Norm(m: Spec): Spec {
    m.(fields := m.fields.(disks := Each(NormDisk, m.fields.disks), nics := Each(NormNic, m.fields.nics)))
  }

  predicate EqualDiskEntries(p: Option<Disk>, q: Option<Disk>) {
    p == q || NormDisk(p).value == NormDisk(q).value
  }

  predicate EqualNicEntries(p: Option<Nic>, q: Option<Nic>) {
    p == q || NormNic(p).value == NormNic(q).value
  }

  /** EqualVT of two non-nil machines: every string, both lists entry by entry, the unknown bytes. */
  predicate EqualSpec(a: Spec, b: Spec) {
    var f, g := a.fields, b.fields;
    && f.uuid == g.uuid && f.schematic == g.schematic && f.talosVersion == g.talosVersion
    && f.vmVolName == g.vmVolName
    && |f.disks| == |g.disks| && (forall i :: 0 <= i < |f.disks| ==> EqualDiskEntries(f.disks[i], g.disks[i]))
    && |f.nics| == |g.nics| && (forall i :: 0 <= i < |f.nics| ==> EqualNicEntries(f.nics[i], g.nics[i]))
    && f.cidataVolName == g.cidataVolName && f.isoVolName == g.isoVolName && f.isoVolPath == g.isoVolPath
    && f.cidataVolPath == g.cidataVolPath && f.vmVolPath == g.vmVolPath && f.vmIfName == g.vmIfName
    && f.poolName == g.poolName && f.vmName == g.vmName && f.vmNvramName == g.vmNvramName
    && a.unknown == b.unknown
  }

  /** EqualVT is the kernel of Norm, hence an equivalence relation. */
  lemma {:induction false} EqualIsNorm(a: Spec, b: Spec)
    ensures EqualSpec(a, b) <==> Norm(a) == Norm(b)
  {
    var f, g := Norm(a).fields, Norm(b).fields;
    if EqualSpec(a, b) {
      assert f.disks == g.disks;
      assert f.nics == g.nics;
    }
    if Norm(a) == Norm(b) {
      assert |a.fields.disks| == |f.disks| == |b.fields.disks|;
      assert |a.fields.nics| == |f.nics| == |b.fields.nics|;
      assert forall i :: 0 <= i < |a.fields.disks| ==> NormDisk(a.fields.disks[i]) == f.disks[i] == g.disks[i];
      assert forall i :: 0 <= i < |a.fields.nics| ==> NormNic(a.fields.nics[i]) == f.nics[i] == g.nics[i];
    }
  }

  lemma {:induction false} EqualIsEquivalence(a: Spec, b: Spec, c: Spec)
    ensures EqualSpec(a, a)
    ensures EqualSpec(a, b) ==> EqualSpec(b, a)
    ensures EqualSpec(a, b) && EqualSpec(b, c) ==> EqualSpec(a, c)
  {
    EqualIsNorm(a, a);
    EqualIsNorm(a, b);
    EqualIsNorm(b, a);
    EqualIsNorm(b, c);
    EqualIsNorm(a, c);
  }

  predicate DiskWellFormed(e: Option<Disk>) {
    e.Some? ==> AllUnknown(DISK_FIELDS, e.value.unknown)
  }

  predicate NicWellFormed(e: Option<Nic>) {
    e.Some? ==> AllUnknown(NIC_FIELDS, e.value.unknown)
  }

  predicate EntriesWellFormed(f: SpecFields) {
    (forall i :: 0 <= i < |f.disks| ==> DiskWellFormed(f.disks[i])) &&
    (forall i :: 0 <= i < |f.nics| ==> NicWellFormed(f.nics[i]))
  }

  /** Unknown bytes, at both levels, are complete records outside the message's own fields. */
  predicate WellFormed(m: Spec) {
    AllUnknown(SPEC_FIELDS, m.unknown) && EntriesWellFormed(m.fields)
  }

  // ---------------------------------------------------------------- round trip

  /** One optional string at the head of the input. */
  lemma {:induction false} FoldString<F>(known: set<int>, assign: Setter<F>, m: Msg<F>, num: int, s: Bytes,
                                         rest: Bytes, pos: nat, m': Msg<F>)
    requires num in known && 0 < num < 0x2000_0000
    requires pos + |EncString(num, s)| + |rest| < TWO63
    requires s == [] ==> m' == m
    requires s != [] ==> assign(m.fields, num, s) == Outcome(m'.fields, None) && m'.unknown == m.unknown
    ensures Fold(known, assign, m, EncString(num, s) + rest, pos)
         == Fold(known, assign, m', rest, pos + |EncString(num, s)|)
  {
    hide Fold;
    if s == [] {
      assert EncString(num, s) + rest == rest;
    } else {
      FoldEncField(known, assign, m, num, s, rest, pos);
      assert m.(fields := m'.fields) == m';
    }
  }

  /** Decoding an encoded disk: its strings, then its unknown bytes as input. */
  lemma {:induction false} DecodeEncDisk(m: Disk)
    requires |EncDisk(m)| < TWO63
    ensures |m.unknown| <= |EncDisk(m)|
    ensures DecodeDisk(EMPTY_DISK, EncDisk(m), 0)
         == DecodeDisk(Msg(m.fields, []), m.unknown, |EncDisk(m)| - |m.unknown|)
  {
    hide Fold;
    var f := m.fields;
    var m1 := EMPTY_DISK.(fields := EMPTY_DISK.fields.(typ := f.typ));
    var r1 := EncString(3, f.volName) + m.unknown;
    FoldString(DISK_FIELDS, SetDisk, EMPTY_DISK, 1, f.typ, r1, 0, m1);
    FoldString(DISK_FIELDS, SetDisk, m1, 3, f.volName, m.unknown, |EncString(1, f.typ)|, Msg(f, []));
  }

  lemma {:induction false} DecodeEncNic(m: Nic)
    requires |EncNic(m)| < TWO63
    ensures |m.unknown| <= |EncNic(m)|
    ensures DecodeNic(EMPTY_NIC, EncNic(m), 0)
         == DecodeNic(Msg(m.fields, []), m.unknown, |EncNic(m)| - |m.unknown|)
  {
    hide Fold;
    var f := m.fields;
    var m1 := EMPTY_NIC.(fields := EMPTY_NIC.fields.(driver := f.driver));
    var m2 := m1.(fields := m1.fields.(network := f.network));
    var m3 := m2.(fields := m2.fields.(bridge := f.bridge));
    var m4 := m3.(fields := m3.fields.(target := f.target));
    var r4 := EncString(5, f.physicalAddress) + m.unknown;
    var r3 := EncString(4, f.target) + r4;
    var r2 := EncString(3, f.bridge) + r3;
    var r1 := EncString(2, f.network) + r2;
    var p1 := |EncString(1, f.driver)|;
    var p2 := p1 + |EncString(2, f.network)|;
    var p3 := p2 + |EncString(3, f.bridge)|;
    var p4 := p3 + |EncString(4, f.target)|;
    FoldString(NIC_FIELDS, SetNic, EMPTY_NIC, 1, f.driver, r1, 0, m1);
    FoldString(NIC_FIELDS, SetNic, m1, 2, f.network, r2, p1, m2);
    FoldString(NIC_FIELDS, SetNic, m2, 3, f.bridge, r3, p2, m3);
    FoldString(NIC_FIELDS, SetNic, m3, 4, f.target, r4, p3, m4);
    FoldString(NIC_FIELDS, SetNic, m4, 5, f.physicalAddress, m.unknown, p4, Msg(f, []));
  }

  /** Generic core of the round trip: unknown bytes decode to themselves exactly when they are
      well-formed unknown records. */
  lemma {:induction false} UnknownRoundTrip<F>(known: set<int>, assign: Setter<F>, f: F, u: Bytes, pos: nat)
    requires pos + |u| < TWO63
    ensures AllUnknown(known, u) ==> Fold(known, assign, Msg(f, []), u, pos) == Outcome(Msg(f, u), None)
    ensures var o := Fold(known, assign, Msg(f, []), u, pos);
            o.err.None? && o.msg.unknown == u ==> AllUnknown(known, u)
  {
    hide Fold;
    if AllUnknown(known, u) {
      FoldAllUnknown(known, assign, Msg(f, []), u, pos);
      assert [] + u == u;
    }
    var o := Fold(known, assign, Msg(f, []), u, pos);
    if o.err.None? && o.msg.unknown == u {
      FoldUnknown(known, assign, Msg(f, []), u, pos);
      assert [] + UnknownPart(known, u) == UnknownPart(known, u);
      UnknownPartWhole(known, u);
    }
  }

  lemma {:induction false} DiskRoundTrip(e: Option<Disk>)
    requires |EncDiskEntry(e)| < TWO63
    ensures DecodeDisk(EMPTY_DISK, EncDiskEntry(e), 0) == Outcome(NormDisk(e).value, None) <==> DiskWellFormed(e)
  {
    if e.Some? {
      hide Fold, EncDisk, AllUnknown;
      DecodeEncDisk(e.value);
      UnknownRoundTrip(DISK_FIELDS, SetDisk, e.value.fields, e.value.unknown, |EncDisk(e.value)| - |e.value.unknown|);
    }
  }

  lemma {:induction false} NicRoundTrip(e: Option<Nic>)
    requires |EncNicEntry(e)| < TWO63
    ensures DecodeNic(EMPTY_NIC, EncNicEntry(e), 0) == Outcome(NormNic(e).value, None) <==> NicWellFormed(e)
  {
    if e.Some? {
      hide Fold, EncNic, AllUnknown;
      DecodeEncNic(e.value);
      UnknownRoundTrip(NIC_FIELDS, SetNic, e.value.fields, e.value.unknown, |EncNic(e.value)| - |e.value.unknown|);
    }
  }

  // ---------------------------------------------------------------- repeated entries

  /** An entry decoded from its payload into a fresh message. */
  function DecodedDisk(p: Bytes): Option<Disk> {
    Some(DecodeDisk(EMPTY_DISK, p, 0).msg)
  }

  function DecodedNic(p: Bytes): Option<Nic> {
    Some(DecodeNic(EMPTY_NIC, p, 0).msg)
  }

  predicate EntryDecodes(num: int, p: Bytes) {
    if num == 11 then DecodeDisk(EMPTY_DISK, p, 0).err.None? else DecodeNic(EMPTY_NIC, p, 0).err.None?
  }

  predicate AllDecode(num: int, ps: seq<Bytes>) {
    forall p :: p in ps ==> EntryDecodes(num, p)
  }

  /** A machine with the entries of some payloads of field 11 or 12 appended. */
  function AddEntries(m: Spec, num: int, ps: seq<Bytes>): Spec {
    if num == 11 then m.(fields := m.fields.(disks := m.fields.disks + Each(DecodedDisk, ps)))
    else m.(fields := m.fields.(nics := m.fields.nics + Each(DecodedNic, ps)))
  }

  lemma {:induction false} AddEntriesTwice(m: Spec, num: int, a: seq<Bytes>, b: seq<Bytes>)
    ensures AddEntries(AddEntries(m, num, a), num, b) == AddEntries(m, num, a + b)
    ensures AddEntries(m, num, []) == m
  {
    EachAppend(DecodedDisk, a, b);
    EachAppend(DecodedNic, a, b);
    hide DecodedDisk, DecodedNic;
    assert m.fields.disks + Each(DecodedDisk, a) + Each(DecodedDisk, b)
        == m.fields.disks + (Each(DecodedDisk, a) + Each(DecodedDisk, b));
    assert m.fields.nics + Each(DecodedNic, a) + Each(DecodedNic, b)
        == m.fields.nics + (Each(DecodedNic, a) + Each(DecodedNic, b));
    assert m.fields.disks + Each(DecodedDisk, []) == m.fields.disks;
    assert m.fields.nics + Each(DecodedNic, []) == m.fields.nics;
  }

  /** What one payload of field 11 or 12 does. */
  lemma {:induction false} SetEntry(m: Spec, num: int, p: Bytes)
    requires num == 11 || num == 12
    ensures var o := SetSpec(m.fields, num, p);
            && o.err == EntryError(num, p) && o.err.None? == EntryDecodes(num, p)
            && m.(fields := o.msg) == AddEntries(m, num, [p])
  {
    hide DecodeDisk, DecodeNic;
    assert Each(DecodedDisk, [p]) == [DecodedDisk(p)];
    assert Each(DecodedNic, [p]) == [DecodedNic(p)];
  }

  function EntryError(num: int, p: Bytes): Option<Error> {
    if num == 11 then DecodeDisk(EMPTY_DISK, p, 0).err else DecodeNic(EMPTY_NIC, p, 0).err
  }

  /** An entry is appended; one that does not decode stays, too, as far as it was decoded, with its error. */
  lemma {:induction false} FoldEntry(m: Spec, num: int, p: Bytes, rest: Bytes, pos: nat)
    requires (num == 11 || num == 12) && pos + |EncField(num, p)| + |rest| < TWO63
    ensures EntryDecodes(num, p) ==>
              DecodeSpec(m, EncField(num, p) + rest, pos)
              == DecodeSpec(AddEntries(m, num, [p]), rest, pos + |EncField(num, p)|)
    ensures !EntryDecodes(num, p) ==>
              DecodeSpec(m, EncField(num, p) + rest, pos) == Outcome(AddEntries(m, num, [p]), EntryError(num, p))
  {
    SetEntry(m, num, p);
    hide Fold, EncField, SizeOfVarint, SetSpec, AddEntries, EntryDecodes, EntryError;
    FoldEncField(SPEC_FIELDS, SetSpec, m, num, p, rest, pos);
  }

  /** The payloads up to and with the first that does not decode. */
  function Tried(num: int, ps: seq<Bytes>): seq<Bytes> {
    if ps == [] then [] else [ps[0]] + if EntryDecodes(num, ps[0]) then Tried(num, ps[1..]) else []
  }

  /** Decoding a repeated field appends its entries in order, or fails at the first that does not decode, which
      stays as the last. */
  lemma {:induction false} FoldEntries(m: Spec, num: int, ps: seq<Bytes>, rest: Bytes, pos: nat)
    requires (num == 11 || num == 12) && pos + |EncFields(num, ps)| + |rest| < TWO63
    ensures AllDecode(num, ps) ==>
              DecodeSpec(m, EncFields(num, ps) + rest, pos)
              == DecodeSpec(AddEntries(m, num, ps), rest, pos + |EncFields(num, ps)|)
    ensures !AllDecode(num, ps) ==>
              var o := DecodeSpec(m, EncFields(num, ps) + rest, pos);
              o.err.Some? && o.msg == AddEntries(m, num, Tried(num, ps))
    decreases |ps|
  {
    hide DecodeSpec, EntryDecodes, EncField, SizeOfVarint, AddEntries;
    if ps == [] {
      assert EncFields(num, ps) + rest == rest;
      AddEntriesTwice(m, num, [], []);
    } else {
      var head, tail := EncField(num, ps[0]), EncFields(num, ps[1..]);
      assert EncFields(num, ps) + rest == head + (tail + rest);
      assert ps == [ps[0]] + ps[1..];
      FoldEntry(m, num, ps[0], tail + rest, pos);
      EntryFails(num, ps[0]);
      if EntryDecodes(num, ps[0]) {
        FoldEntries(AddEntries(m, num, [ps[0]]), num, ps[1..], rest, pos + |head|);
        AddEntriesTwice(m, num, [ps[0]], ps[1..]);
        AddEntriesTwice(m, num, [ps[0]], Tried(num, ps[1..]));
        assert Tried(num, ps) == [ps[0]] + Tried(num, ps[1..]);
        assert AllDecode(num, ps[1..]) <==> AllDecode(num, ps);
      } else {
        assert Tried(num, ps) == [ps[0]] + [] == [ps[0]];
      }
    }
  }

  lemma {:induction false} EntryFails(num: int, p: Bytes)
    ensures EntryDecodes(num, p) <==> EntryError(num, p).None?
  {
    hide DecodeDisk, DecodeNic;
  }

  /** Decoding the tail of a machine's encoding into a message that has everything before it: fields 13 to 17, */
  lemma {:induction false} FoldPaths(f: SpecFields, m0: Spec, rest: Bytes, pos: nat)
    requires var d := EncString(13, f.cidataVolName) + (EncString(14, f.isoVolName) + (EncString(15, f.isoVolPath)
                      + (EncString(16, f.cidataVolPath) + (EncString(17, f.vmVolPath) + rest))));
             pos + |d| < TWO63
    requires m0 == Msg(EMPTY_SPEC.fields.(uuid := f.uuid, schematic := f.schematic, talosVersion := f.talosVersion,
                         vmVolName := f.vmVolName, disks := m0.fields.disks, nics := m0.fields.nics), [])
    ensures var d := EncString(13, f.cidataVolName) + (EncString(14, f.isoVolName) + (EncString(15, f.isoVolPath)
                     + (EncString(16, f.cidataVolPath) + (EncString(17, f.vmVolPath) + rest))));
            DecodeSpec(m0, d, pos) == DecodeSpec(WithPaths(m0, f), rest, pos + |d| - |rest|)
  {
    hide Fold, EncString, SizeOfVarint;
    var m1 := m0.(fields := m0.fields.(cidataVolName := f.cidataVolName));
    var m2 := m1.(fields := m1.fields.(isoVolName := f.isoVolName));
    var m3 := m2.(fields := m2.fields.(isoVolPath := f.isoVolPath));
    var m4 := m3.(fields := m3.fields.(cidataVolPath := f.cidataVolPath));
    var r4 := EncString(17, f.vmVolPath) + rest;
    var r3 := EncString(16, f.cidataVolPath) + r4;
    var r2 := EncString(15, f.isoVolPath) + r3;
    var r1 := EncString(14, f.isoVolName) + r2;
    var p := pos + |EncString(13, f.cidataVolName) + r1|;
    FoldString(SPEC_FIELDS, SetSpec, m0, 13, f.cidataVolName, r1, pos, m1);
    FoldString(SPEC_FIELDS, SetSpec, m1, 14, f.isoVolName, r2, p - |r1|, m2);
    FoldString(SPEC_FIELDS, SetSpec, m2, 15, f.isoVolPath, r3, p - |r2|, m3);
    FoldString(SPEC_FIELDS, SetSpec, m3, 16, f.cidataVolPath, r4, p - |r3|, m4);
    FoldString(SPEC_FIELDS, SetSpec, m4, 17, f.vmVolPath, rest, p - |r4|, WithPaths(m0, f));
  }

  function WithPaths(m: Spec, f: SpecFields): Spec {
    m.(fields := m.fields.(cidataVolName := f.cidataVolName, isoVolName := f.isoVolName, isoVolPath := f.isoVolPath,
                           cidataVolPath := f.cidataVolPath, vmVolPath := f.vmVolPath))
  }

  /** ... and 18 to 25. */
  lemma {:induction false} FoldNames(f: SpecFields, m0: Spec, rest: Bytes, pos: nat)
    requires var d := EncString(18, f.vmIfName) + (EncString(20, f.poolName) + (EncString(21, f.vmName)
                      + (EncString(25, f.vmNvramName) + rest)));
             pos + |d| < TWO63
    requires m0.fields.vmIfName == [] && m0.fields.poolName == []
    requires m0.fields.vmName == [] && m0.fields.vmNvramName == []
    ensures var d := EncString(18, f.vmIfName) + (EncString(20, f.poolName) + (EncString(21, f.vmName)
                     + (EncString(25, f.vmNvramName) + rest)));
            DecodeSpec(m0, d, pos) == DecodeSpec(WithNames(m0, f), rest, pos + |d| - |rest|)
  {
    hide Fold, EncString, SizeOfVarint;
    var m1 := m0.(fields := m0.fields.(vmIfName := f.vmIfName));
    var m2 := m1.(fields := m1.fields.(poolName := f.poolName));
    var m3 := m2.(fields := m2.fields.(vmName := f.vmName));
    var r3 := EncString(25, f.vmNvramName) + rest;
    var r2 := EncString(21, f.vmName) + r3;
    var r1 := EncString(20, f.poolName) + r2;
    var p := pos + |EncString(18, f.vmIfName) + r1|;
    FoldString(SPEC_FIELDS, SetSpec, m0, 18, f.vmIfName, r1, pos, m1);
    FoldString(SPEC_FIELDS, SetSpec, m1, 20, f.poolName, r2, p - |r1|, m2);
    FoldString(SPEC_FIELDS, SetSpec, m2, 21, f.vmName, r3, p - |r2|, m3);
    FoldString(SPEC_FIELDS, SetSpec, m3, 25, f.vmNvramName, rest, p - |r3|, WithNames(m0, f));
  }

  function WithNames(m: Spec, f: SpecFields): Spec {
    m.(fields := m.fields.(vmIfName := f.vmIfName, poolName := f.poolName, vmName := f.vmName,
                           vmNvramName := f.vmNvramName))
  }

  lemma {:induction false} FoldSpecTail(m: Spec, m0: Spec, pos: nat)
    requires pos + |EncSpecTail(m)| < TWO63
    requires m0 == Msg(EMPTY_SPEC.fields.(uuid := m.fields.uuid, schematic := m.fields.schematic,
                         talosVersion := m.fields.talosVersion, vmVolName := m.fields.vmVolName,
                         disks := m0.fields.disks, nics := m0.fields.nics), [])
    ensures DecodeSpec(m0, EncSpecTail(m), pos)
         == DecodeSpec(Msg(m.fields.(disks := m0.fields.disks, nics := m0.fields.nics), []), m.unknown,
                       pos + |EncSpecTail(m)| - |m.unknown|)
  {
    hide DecodeSpec, EncString;
    var f := m.fields;
    var names := EncString(18, f.vmIfName) + (EncString(20, f.poolName) + (EncString(21, f.vmName)
                 + (EncString(25, f.vmNvramName) + m.unknown)));
    FoldPaths(f, m0, names, pos);
    FoldNames(f, WithPaths(m0, f), m.unknown, pos + |EncSpecTail(m)| - |names|);
  }

  function SpecHead(f: SpecFields): Spec {
    Msg(EMPTY_SPEC.fields.(uuid := f.uuid, schematic := f.schematic, talosVersion := f.talosVersion,
        vmVolName := f.vmVolName), [])
  }

  lemma {:induction false} FoldSpecHead(f: SpecFields, rest: Bytes)
    requires var d := EncString(1, f.uuid) + (EncString(2, f.schematic) + (EncString(3, f.talosVersion)
                      + (EncString(10, f.vmVolName) + rest)));
             |d| < TWO63
    ensures var d := EncString(1, f.uuid) + (EncString(2, f.schematic) + (EncString(3, f.talosVersion)
                     + (EncString(10, f.vmVolName) + rest)));
            DecodeSpec(EMPTY_SPEC, d, 0) == DecodeSpec(SpecHead(f), rest, |d| - |rest|)
  {
    hide Fold, EncString, SizeOfVarint;
    var m1 := EMPTY_SPEC.(fields := EMPTY_SPEC.fields.(uuid := f.uuid));
    var m2 := m1.(fields := m1.fields.(schematic := f.schematic));
    var m3 := m2.(fields := m2.fields.(talosVersion := f.talosVersion));
    var r3 := EncString(10, f.vmVolName) + rest;
    var r2 := EncString(3, f.talosVersion) + r3;
    var r1 := EncString(2, f.schematic) + r2;
    var p := |EncString(1, f.uuid) + r1|;
    FoldString(SPEC_FIELDS, SetSpec, EMPTY_SPEC, 1, f.uuid, r1, 0, m1);
    FoldString(SPEC_FIELDS, SetSpec, m1, 2, f.schematic, r2, p - |r1|, m2);
    FoldString(SPEC_FIELDS, SetSpec, m2, 3, f.talosVersion, r3, p - |r2|, m3);
    FoldString(SPEC_FIELDS, SetSpec, m3, 10, f.vmVolName, rest, p - |r3|, SpecHead(f));
  }

  /** A machine with every entry as its own encoding decodes, and without its unknown bytes. */
  function Redecoded(m: Spec): Spec {
    Msg(m.fields.(disks := Each(DecodedDisk, Each(EncDiskEntry, m.fields.disks)),
                  nics := Each(DecodedNic, Each(EncNicEntry, m.fields.nics))), [])
  }

  predicate EntriesDecode(m: Spec) {
    AllDecode(11, Each(EncDiskEntry, m.fields.disks)) && AllDecode(12, Each(EncNicEntry, m.fields.nics))
  }

  /** What stands in the message when its unknown bytes are reached. */
  function Entered(m: Spec): Spec {
    var head := AddEntries(SpecHead(m.fields), 11, Each(EncDiskEntry, m.fields.disks));
    AddEntries(head, 12, Each(EncNicEntry, m.fields.nics))
  }

  lemma {:induction false} EnteredShape(m: Spec)
    ensures Entered(m) == SpecHead(m.fields).(fields := SpecHead(m.fields).fields.(
                            disks := Redecoded(m).fields.disks, nics := Redecoded(m).fields.nics))
  {
    hide Each;
    var disks := Each(DecodedDisk, Each(EncDiskEntry, m.fields.disks));
    var nics := Each(DecodedNic, Each(EncNicEntry, m.fields.nics));
    assert [] + disks == disks && [] + nics == nics;
  }

  lemma {:induction false} FoldLists(m: Spec, disks: seq<Bytes>, nics: seq<Bytes>, rest: Bytes, pos: nat)
    requires pos + |EncFields(11, disks) + (EncFields(12, nics) + rest)| < TWO63
    ensures var d := EncFields(11, disks) + (EncFields(12, nics) + rest);
            if AllDecode(11, disks) && AllDecode(12, nics) then
              DecodeSpec(m, d, pos)
              == DecodeSpec(AddEntries(AddEntries(m, 11, disks), 12, nics), rest, pos + |d| - |rest|)
            else DecodeSpec(m, d, pos).err.Some?
  {
    hide DecodeSpec, EncFields, AddEntries, AllDecode;
    FoldEntries(m, 11, disks, EncFields(12, nics) + rest, pos);
    if AllDecode(11, disks) {
      FoldEntries(AddEntries(m, 11, disks), 12, nics, rest, pos + |EncFields(11, disks)|);
    }
  }

  /** A machine's encoding decodes to the machine with every entry re-decoded, followed by whatever
      its unknown bytes decode to; one entry that does not decode fails the whole. */
  lemma {:induction false} DecodeEncSpec(m: Spec)
    requires |EncSpec(m)| < TWO63
    ensures if EntriesDecode(m) then
              DecodeSpec(EMPTY_SPEC, EncSpec(m), 0)
              == DecodeSpec(Redecoded(m), m.unknown, |EncSpec(m)| - |m.unknown|)
            else DecodeSpec(EMPTY_SPEC, EncSpec(m), 0).err.Some?
  {
    hide DecodeSpec, EncString, EncSpecTail, EncFields, AllDecode, AddEntries, Each;
    var f := m.fields;
    var disks, nics := Each(EncDiskEntry, f.disks), Each(EncNicEntry, f.nics);
    var lists := EncFields(11, disks) + (EncFields(12, nics) + EncSpecTail(m));
    EnteredShape(m);
    FoldSpecHead(f, lists);
    FoldLists(SpecHead(f), disks, nics, EncSpecTail(m), |EncSpec(m)| - |lists|);
    if EntriesDecode(m) {
      FoldSpecTail(m, Entered(m), |EncSpec(m)| - |EncSpecTail(m)|);
    }
  }

  lemma {:induction false} EntrySizes(m: Spec)
    ensures forall p :: p in Each(EncDiskEntry, m.fields.disks) ==> |p| <= |EncSpec(m)|
    ensures forall p :: p in Each(EncNicEntry, m.fields.nics) ==> |p| <= |EncSpec(m)|
  {
    hide EncFields, EncDiskEntry, EncNicEntry, EncString;
    forall p | p in Each(EncDiskEntry, m.fields.disks) {
      PayloadSizes(11, Each(EncDiskEntry, m.fields.disks), p);
    }
    forall p | p in Each(EncNicEntry, m.fields.nics) {
      PayloadSizes(12, Each(EncNicEntry, m.fields.nics), p);
    }
  }

  lemma {:induction false} DisksRedecode(ds: seq<Option<Disk>>)
    requires forall p :: p in Each(EncDiskEntry, ds) ==> |p| < TWO63
    ensures var ps := Each(EncDiskEntry, ds);
            (forall i :: 0 <= i < |ds| ==> DiskWellFormed(ds[i]))
            <==> AllDecode(11, ps) && Each(DecodedDisk, ps) == Each(NormDisk, ds)
  {
    var ps := Each(EncDiskEntry, ds);
    hide EncDiskEntry, DecodeDisk, NormDisk, DiskWellFormed;
    forall i | 0 <= i < |ds|
      ensures DiskWellFormed(ds[i]) <==> EntryDecodes(11, ps[i]) && Each(DecodedDisk, ps)[i] == Each(NormDisk, ds)[i]
    {
      assert ps[i] in ps;
      DiskRoundTrip(ds[i]);
      NormIsSome(ds[i], None);
    }
  }

  lemma {:induction false} NicsRedecode(ns: seq<Option<Nic>>)
    requires forall p :: p in Each(EncNicEntry, ns) ==> |p| < TWO63
    ensures var ps := Each(EncNicEntry, ns);
            (forall i :: 0 <= i < |ns| ==> NicWellFormed(ns[i]))
            <==> AllDecode(12, ps) && Each(DecodedNic, ps) == Each(NormNic, ns)
  {
    var ps := Each(EncNicEntry, ns);
    hide EncNicEntry, DecodeNic, NormNic, NicWellFormed;
    forall i | 0 <= i < |ns|
      ensures NicWellFormed(ns[i]) <==> EntryDecodes(12, ps[i]) && Each(DecodedNic, ps)[i] == Each(NormNic, ns)[i]
    {
      assert ps[i] in ps;
      NicRoundTrip(ns[i]);
      NormIsSome(None, ns[i]);
    }
  }

  lemma {:induction false} NormIsSome(d: Option<Disk>, n: Option<Nic>)
    ensures NormDisk(d).Some? && NormNic(n).Some?
  {
  }

  /** Entries survive their own round trip exactly when their unknown bytes are well formed. */
  lemma {:induction false} EntriesRedecode(m: Spec)
    requires |EncSpec(m)| < TWO63
    ensures EntriesWellFormed(m.fields) <==>
              EntriesDecode(m) && Redecoded(m).fields.disks == Norm(m).fields.disks
              && Redecoded(m).fields.nics == Norm(m).fields.nics
  {
    hide EncSpec, EncDiskEntry, EncNicEntry, AllDecode, DiskWellFormed, NicWellFormed;
    EntrySizes(m);
    DisksRedecode(m.fields.disks);
    NicsRedecode(m.fields.nics);
  }

  lemma {:induction false} UnknownNotLonger(m: Spec)
    ensures |m.unknown| <= |EncSpec(m)|
  {
  }

  predicate NoNils(f: SpecFields) {
    (forall i :: 0 <= i < |f.disks| ==> f.disks[i].Some?) &&
    (forall i :: 0 <= i < |f.nics| ==> f.nics[i].Some?)
  }

  lemma {:induction false} NormOfNoNils(m: Spec)
    requires NoNils(m.fields)
    ensures Norm(m) == m
  {
    assert Norm(m).fields.disks == m.fields.disks;
    assert Norm(m).fields.nics == m.fields.nics;
  }

  /** Decoding never leaves a nil entry. */
  lemma {:induction false} DecodedHasNoNils(d: Bytes)
    requires DecodeSpec(EMPTY_SPEC, d, 0).err.None?
    ensures NoNils(DecodeSpec(EMPTY_SPEC, d, 0).msg.fields)
  {
    hide Fold, DecodeDisk, DecodeNic;
    FoldKeeps(SPEC_FIELDS, SetSpec, NoNils, EMPTY_SPEC, d, 0);
  }

  lemma {:induction false} NormShape(m: Spec)
    ensures Norm(m) == Msg(m.fields.(disks := Norm(m).fields.disks, nics := Norm(m).fields.nics), m.unknown)
  {
  }

  lemma {:induction false} RedecodedShape(m: Spec)
    ensures Redecoded(m) == Msg(m.fields.(disks := Redecoded(m).fields.disks, nics := Redecoded(m).fields.nics), [])
  {
  }

  lemma {:induction false} RoundTripNorm(m: Spec)
    requires |EncSpec(m)| < TWO63
    ensures DecodeSpec(EMPTY_SPEC, EncSpec(m), 0) == Outcome(Norm(m), None) <==> WellFormed(m)
  {
    NormShape(m);
    RedecodedShape(m);
    hide Fold, EncSpec, Norm, AllUnknown, EntriesWellFormed, EntriesDecode, Redecoded;
    DecodeEncSpec(m);
    EntriesRedecode(m);
    UnknownNotLonger(m);
    if EntriesDecode(m) {
      UnknownRoundTrip(SPEC_FIELDS, SetSpec, Redecoded(m).fields, m.unknown, |EncSpec(m)| - |m.unknown|);
    }
  }

  /** Round trip, with its exact condition: encoding and decoding into a fresh message succeeds with
      an EqualVT message if and only if the unknown bytes at both levels are complete records outside
      the known fields.  The bound says that the encoding is a Go slice. */
  lemma {:induction false} RoundTrip(m: Spec)
    requires |EncSpec(m)| < TWO63
    ensures var o := DecodeSpec(EMPTY_SPEC, EncSpec(m), 0);
            o.err.None? && EqualSpec(o.msg, m) <==> WellFormed(m)
  {
    hide Fold, EncSpec, EqualSpec, Norm, WellFormed;
    var o := DecodeSpec(EMPTY_SPEC, EncSpec(m), 0);
    RoundTripNorm(m);
    EqualIsNorm(o.msg, m);
    EqualIsNorm(Norm(m), m);
    NormIdempotent(m);
    if o.err.None? {
      DecodedHasNoNils(EncSpec(m));
      NormOfNoNils(o.msg);
    }
  }

  lemma {:induction false} NormIdempotent(m: Spec)
    ensures Norm(Norm(m)) == Norm(m)
  {
    NormOfNoNils(Norm(m));
  }

  // ---------------------------------------------------------------- bytes determine the message

  /** Nil entries encode as empty ones. */
  lemma {:induction false} EncSpecNorm(m: Spec)
    ensures EncSpec(Norm(m)) == EncSpec(m)
  {
    var f, g := m.fields, Norm(m).fields;
    assert Each(EncDiskEntry, g.disks) == Each(EncDiskEntry, f.disks) by {
      assert forall d :: EncDiskEntry(NormDisk(d)) == EncDiskEntry(d);
    }
    assert Each(EncNicEntry, g.nics) == Each(EncNicEntry, f.nics) by {
      assert forall n :: EncNicEntry(NormNic(n)) == EncNicEntry(n);
    }
    hide EncFields, EncString, EncDiskEntry, EncNicEntry, NormDisk, NormNic, Each;
  }

  /** The messages that encode like a well-formed one are those equal to it and the ill-formed ones: equality
      is equality of encodings and well-formedness of the other. */
  lemma {:induction false} EqualExactlyWhenSameBytes(a: Spec, b: Spec)
    requires WellFormed(a)
    requires |EncSpec(a)| < TWO63 && |EncSpec(b)| < TWO63
    ensures EqualSpec(a, b) <==> EncSpec(a) == EncSpec(b) && WellFormed(b)
  {
    hide Fold, EncSpec, EqualSpec, Norm, WellFormed;
    EqualIsNorm(a, b);
    EncSpecNorm(a);
    EncSpecNorm(b);
    RoundTripNorm(a);
    RoundTripNorm(b);
  }

  lemma {:induction false} KnownFieldIsNotUnknown(s: Bytes)
    requires |s| < 128
    ensures !AllUnknown(SPEC_FIELDS, EncField(1, s)) && EncField(1, s) != []
  {
    hide ReadRecord;
    ReadEncField(SPEC_FIELDS, 1, s, [], 0);
    assert EncField(1, s) + [] == EncField(1, s);
  }

  lemma {:induction false} OnlyUuid(s: Bytes)
    requires s != []
    ensures EncSpec(EMPTY_SPEC.(fields := EMPTY_SPEC.fields.(uuid := s))) == EncField(1, s)
  {
    hide EncField, SizeOfVarint;
    assert EncField(1, s) + [] == EncField(1, s);
  }

  lemma {:induction false} OnlyUnknown(u: Bytes)
    ensures EncSpec(EMPTY_SPEC.(unknown := u)) == u
  {
    hide EncField, SizeOfVarint;
    assert [] + u == u;
  }

  /** Without that condition it is not: a uuid field and the same record kept as unknown bytes. */
  lemma {:induction false} SameBytesDifferentMessages()
    ensures exists a, b :: EncSpec(a) == EncSpec(b) && !EqualSpec(a, b) && WellFormed(a) && !WellFormed(b)
  {
    var a: Spec := EMPTY_SPEC.(fields := EMPTY_SPEC.fields.(uuid := [65]));
    var b: Spec := EMPTY_SPEC.(unknown := EncField(1, [65]));
    KnownFieldIsNotUnknown([65]);
    OnlyUuid([65]);
    OnlyUnknown(EncField(1, [65]));
    EmptySpecFacts();
    hide EncField, AllUnknown, EncSpec;
    assert WellFormed(a) && !WellFormed(b) && !EqualSpec(a, b) && EncSpec(a) == EncSpec(b);
  }

  // ---------------------------------------------------------------- canonical form

  function DiskSize(f: DiskFields): nat { |EncDisk(Msg(f, []))| }

  function NicSize(f: NicFields): nat { |EncNic(Msg(f, []))| }

  function StringSize(num: nat, s: Bytes): nat { |EncString(num, s)| }

  /** The encoded length of a machine's fields, as the sum SizeVT accumulates. */
  function SpecSize(f: SpecFields): nat {
    StringSize(1, f.uuid) + StringSize(2, f.schematic) + StringSize(3, f.talosVersion)
    + StringSize(10, f.vmVolName) + |EncDisks(f.disks)| + |EncNics(f.nics)|
    + StringSize(13, f.cidataVolName) + StringSize(14, f.isoVolName) + StringSize(15, f.isoVolPath)
    + StringSize(16, f.cidataVolPath) + StringSize(17, f.vmVolPath) + StringSize(18, f.vmIfName)
    + StringSize(20, f.poolName) + StringSize(21, f.vmName) + StringSize(25, f.vmNvramName)
  }

  lemma {:induction false} DiskNeverLonger(p: Bytes)
    requires |p| < TWO63 && DecodeDisk(EMPTY_DISK, p, 0).err.None?
    ensures |EncDisk(DecodeDisk(EMPTY_DISK, p, 0).msg)| <= |p|
  {
    hide Fold, EncField, SizeOfVarint;
    assert DiskSize(EMPTY_DISK.fields) == 0;
    FoldSize(DISK_FIELDS, SetDisk, DiskSize, EMPTY_DISK, p, 0);
  }

  lemma {:induction false} NicSizeOf(m: Nic)
    ensures |EncNic(m)| == NicSize(m.fields) + |m.unknown|
  {
    hide EncString, SizeOfVarint;
  }

  lemma {:induction false} NicGrowth(f: NicFields, num: int, p: Bytes)
    requires num > 0
    ensures NicSize(SetNic(f, num, p).msg) <= NicSize(f) + |EncField(num, p)|
  {
    EncStringBound(num, p);
    NicSizeParts(f);
    NicSizeParts(SetNic(f, num, p).msg);
    hide EncField, EncString, NicSize, StringSize, SizeOfVarint;
  }

  lemma {:induction false} NicSizeParts(f: NicFields)
    ensures NicSize(f) == StringSize(1, f.driver) + StringSize(2, f.network) + StringSize(3, f.bridge)
                          + StringSize(4, f.target) + StringSize(5, f.physicalAddress)
  {
    hide EncString, SizeOfVarint;
  }

  lemma {:induction false} NicNeverLonger(p: Bytes)
    requires |p| < TWO63 && DecodeNic(EMPTY_NIC, p, 0).err.None?
    ensures |EncNic(DecodeNic(EMPTY_NIC, p, 0).msg)| <= |p|
  {
    assert NicSize(EMPTY_NIC.fields) == 0;
    NicSizeOf(DecodeNic(EMPTY_NIC, p, 0).msg);
    hide Fold, EncField, NicSize, EncNic, SetNic, SizeOfVarint;
    forall f, n: int, q | n > 0 && n in NIC_FIELDS && |q| < |p| && SetNic(f, n, q).err.None?
      ensures NicSize(SetNic(f, n, q).msg) <= NicSize(f) + |EncField(n, q)|
    {
      NicGrowth(f, n, q);
    }
    FoldSize(NIC_FIELDS, SetNic, NicSize, EMPTY_NIC, p, 0);
  }

  lemma {:induction false} DiskAppended(ds: seq<Option<Disk>>, e: Option<Disk>)
    ensures EncDisks(ds + [e]) == EncDisks(ds) + EncField(11, EncDiskEntry(e))
  {
    EachAppend(EncDiskEntry, ds, [e]);
    assert Each(EncDiskEntry, [e]) == [EncDiskEntry(e)];
    EncFieldsAppend(11, Each(EncDiskEntry, ds), EncDiskEntry(e));
  }

  lemma {:induction false} NicAppended(ns: seq<Option<Nic>>, e: Option<Nic>)
    ensures EncNics(ns + [e]) == EncNics(ns) + EncField(12, EncNicEntry(e))
  {
    EachAppend(EncNicEntry, ns, [e]);
    assert Each(EncNicEntry, [e]) == [EncNicEntry(e)];
    EncFieldsAppend(12, Each(EncNicEntry, ns), EncNicEntry(e));
  }

  lemma {:induction false} EncFieldMonotone(num: nat, a: Bytes, b: Bytes)
    requires |a| <= |b|
    ensures |EncField(num, a)| <= |EncField(num, b)|
  {
    SizeOfVarintMonotone(|a|, |b|);
  }

  lemma {:induction false} EncStringBound(num: nat, p: Bytes)
    ensures StringSize(num, p) <= |EncField(num, p)|
  {
  }

  /** An assigned string replaces one summand of the size. */
  lemma {:induction false} StringGrowthAt(f: SpecFields, num: int, p: Bytes)
    requires num > 0
    ensures SpecSize(SetSpecString(f, num, p)) <= SpecSize(f) + StringSize(num, p)
  {
    hide StringSize, EncDisks, EncNics;
    match num
    case 1 => assert SetSpecString(f, num, p) == f.(uuid := p);
    case 2 => assert SetSpecString(f, num, p) == f.(schematic := p);
    case 3 => assert SetSpecString(f, num, p) == f.(talosVersion := p);
    case 10 => assert SetSpecString(f, num, p) == f.(vmVolName := p);
    case 13 => assert SetSpecString(f, num, p) == f.(cidataVolName := p);
    case 14 => assert SetSpecString(f, num, p) == f.(isoVolName := p);
    case 15 => assert SetSpecString(f, num, p) == f.(isoVolPath := p);
    case 16 => assert SetSpecString(f, num, p) == f.(cidataVolPath := p);
    case 17 => assert SetSpecString(f, num, p) == f.(vmVolPath := p);
    case 18 => assert SetSpecString(f, num, p) == f.(vmIfName := p);
    case 20 => assert SetSpecString(f, num, p) == f.(poolName := p);
    case 21 => assert SetSpecString(f, num, p) == f.(vmName := p);
    case 25 => assert SetSpecString(f, num, p) == f.(vmNvramName := p);
    case _ =>
  }

  lemma {:induction false} SetSpecStringGrowth(f: SpecFields, num: int, p: Bytes)
    requires num > 0
    ensures SpecSize(SetSpecString(f, num, p)) <= SpecSize(f) + |EncField(num, p)|
  {
    EncStringBound(num, p);
    hide StringSize, EncField, EncDisks, EncNics, SetSpecString, SizeOfVarint;
    StringGrowthAt(f, num, p);
  }

  lemma {:induction false} SetSpecGrowth(f: SpecFields, num: int, p: Bytes)
    requires num > 0 && |p| < TWO63 && SetSpec(f, num, p).err.None?
    ensures SpecSize(SetSpec(f, num, p).msg) <= SpecSize(f) + |EncField(num, p)|
  {
    hide Fold, EncField, StringSize, DecodeDisk, DecodeNic, EncDisk, EncNic, EncDisks, EncNics, SetSpecString;
    hide SizeOfVarint;
    if num == 11 {
      var m := DecodeDisk(EMPTY_DISK, p, 0).msg;
      DiskNeverLonger(p);
      DiskAppended(f.disks, Some(m));
      EncFieldMonotone(11, EncDisk(m), p);
    } else if num == 12 {
      var m := DecodeNic(EMPTY_NIC, p, 0).msg;
      NicNeverLonger(p);
      NicAppended(f.nics, Some(m));
      EncFieldMonotone(12, EncNic(m), p);
    } else {
      SetSpecStringGrowth(f, num, p);
    }
  }

  lemma {:induction false} NoUnknowns()
    ensures AllUnknown(DISK_FIELDS, []) && AllUnknown(NIC_FIELDS, [])
  {
  }

  lemma {:induction false} SetSpecKeepsWellFormed(f: SpecFields, num: int, p: Bytes)
    requires EntriesWellFormed(f) && |p| < TWO63 && SetSpec(f, num, p).err.None?
    ensures EntriesWellFormed(SetSpec(f, num, p).msg)
  {
    hide Fold, AllUnknown;
    NoUnknowns();
    if num == 11 {
      FoldUnknown(DISK_FIELDS, SetDisk, EMPTY_DISK, p, 0);
    } else if num == 12 {
      FoldUnknown(NIC_FIELDS, SetNic, EMPTY_NIC, p, 0);
    }
  }

  lemma {:induction false} SpecSizeOf(m: Spec)
    ensures |EncSpec(m)| == SpecSize(m.fields) + |m.unknown|
  {
    hide EncString, EncDisks, EncNics, SizeOfVarint;
  }

  /** What one record adds to the lists. */
  function EntryOf(rec: Record, num: int): seq<Bytes> {
    if rec.Field? && rec.num == num then [rec.payload] else []
  }

  datatype Lists = Lists(disks: seq<Option<Disk>>, nics: seq<Option<Nic>>)

  /** Lists with the decoded payloads of fields 11 and 12 appended. */
  function Added(f: SpecFields, disks: seq<Bytes>, nics: seq<Bytes>): Lists {
    Lists(f.disks + Each(DecodedDisk, disks), f.nics + Each(DecodedNic, nics))
  }

  lemma {:induction false} AddedTwice(f: SpecFields, f': SpecFields, disks: seq<Bytes>, nics: seq<Bytes>,
                                      disks': seq<Bytes>, nics': seq<Bytes>)
    requires Lists(f'.disks, f'.nics) == Added(f, disks, nics)
    ensures Added(f', disks', nics') == Added(f, disks + disks', nics + nics')
  {
    EachAppend(DecodedDisk, disks, disks');
    EachAppend(DecodedNic, nics, nics');
    hide Each, DecodedDisk, DecodedNic;
  }

  lemma {:induction false} AddedNone(f: SpecFields)
    ensures Added(f, [], []) == Lists(f.disks, f.nics)
  {
  }

  lemma {:induction false} RecordEntries(m: Spec, rec: Record)
    requires Apply(SetSpec, m, rec).err.None?
    ensures var f := Apply(SetSpec, m, rec).msg.fields;
            Lists(f.disks, f.nics) == Added(m.fields, EntryOf(rec, 11), EntryOf(rec, 12))
    ensures AllDecode(11, EntryOf(rec, 11)) && AllDecode(12, EntryOf(rec, 12))
  {
    hide DecodeDisk, DecodeNic;
    AddedNone(m.fields);
    if rec.Field? {
      assert Each(DecodedDisk, [rec.payload]) == [DecodedDisk(rec.payload)];
      assert Each(DecodedNic, [rec.payload]) == [DecodedNic(rec.payload)];
    }
  }

  lemma {:induction false} PayloadsStep(known: set<int>, d: Bytes, num: int)
    requires d == [] || ReadRecord(known, d, 0).Ok?
    ensures Payloads(known, d, num) ==
            if d == [] then [] else
            var p := ReadRecord(known, d, 0).value;
            EntryOf(p.rec, num) + Payloads(known, d[p.size..], num)
  {
    hide ReadRecord;
  }

  /** The lists after decoding are the lists before it and, in input order, the decoded payloads of fields
      11 and 12. */
  lemma {:induction false} DecodedEntries(m: Spec, d: Bytes, pos: nat)
    requires pos + |d| < TWO63 && DecodeSpec(m, d, pos).err.None?
    ensures var f := DecodeSpec(m, d, pos).msg.fields;
            Lists(f.disks, f.nics) == Added(m.fields, Payloads(SPEC_FIELDS, d, 11), Payloads(SPEC_FIELDS, d, 12))
    ensures AllDecode(11, Payloads(SPEC_FIELDS, d, 11)) && AllDecode(12, Payloads(SPEC_FIELDS, d, 12))
    decreases |d|
  {
    DecodeSpecStep(m, d, pos);
    hide ReadRecord, SetSpec, DecodeSpec, Apply, Payloads, Added, EntryOf, EntryDecodes;
    RecordPosition(SPEC_FIELDS, d, pos, 0);
    PayloadsStep(SPEC_FIELDS, d, 11);
    PayloadsStep(SPEC_FIELDS, d, 12);
    if d == [] {
      AddedNone(m.fields);
    } else {
      var p := ReadRecord(SPEC_FIELDS, d, pos).value;
      var n := Apply(SetSpec, m, p.rec).msg;
      RecordEntries(m, p.rec);
      DecodedEntries(n, d[p.size..], pos + p.size);
      AddedTwice(m.fields, n.fields, EntryOf(p.rec, 11), EntryOf(p.rec, 12),
                 Payloads(SPEC_FIELDS, d[p.size..], 11), Payloads(SPEC_FIELDS, d[p.size..], 12));
    }
  }

  lemma {:induction false} PayloadShort(d: Bytes, num: int, p: Bytes)
    requires p in Payloads(SPEC_FIELDS, d, num)
    ensures |p| <= |d|
    decreases |d|
  {
    var r := ReadRecord(SPEC_FIELDS, d, 0).value;
    if r.rec.Field? {
      PayloadShorter(SPEC_FIELDS, d, 0);
    }
    hide ReadRecord;
    if p !in EntryOf(r.rec, num) {
      PayloadShort(d[r.size..], num, p);
    }
  }

  /** Each entry keeps the unknown records of its own payload, in input order. */
  predicate KeepsUnknown(f: SpecFields, disks: seq<Bytes>, nics: seq<Bytes>) {
    && |f.disks| == |disks| && |f.nics| == |nics|
    && (forall i :: 0 <= i < |disks| ==>
          f.disks[i].Some? && f.disks[i].value.unknown == UnknownPart(DISK_FIELDS, disks[i]))
    && (forall i :: 0 <= i < |nics| ==>
          f.nics[i].Some? && f.nics[i].value.unknown == UnknownPart(NIC_FIELDS, nics[i]))
  }

  lemma {:induction false} DiskKeepsUnknown(p: Bytes)
    requires |p| < TWO63 && EntryDecodes(11, p)
    ensures DecodedDisk(p).value.unknown == UnknownPart(DISK_FIELDS, p)
  {
    hide Fold, UnknownPart;
    FoldUnknown(DISK_FIELDS, SetDisk, EMPTY_DISK, p, 0);
  }

  lemma {:induction false} NicKeepsUnknown(p: Bytes)
    requires |p| < TWO63 && EntryDecodes(12, p)
    ensures DecodedNic(p).value.unknown == UnknownPart(NIC_FIELDS, p)
  {
    hide Fold, UnknownPart;
    FoldUnknown(NIC_FIELDS, SetNic, EMPTY_NIC, p, 0);
  }

  lemma {:induction false} EntriesKeepUnknown(b: Bytes)
    requires |b| < TWO63 && DecodeSpec(EMPTY_SPEC, b, 0).err.None?
    ensures KeepsUnknown(DecodeSpec(EMPTY_SPEC, b, 0).msg.fields,
                         Payloads(SPEC_FIELDS, b, 11), Payloads(SPEC_FIELDS, b, 12))
  {
    hide DecodeSpec, UnknownPart, Payloads, EntryDecodes, DecodeDisk, DecodeNic;
    DecodedEntries(EMPTY_SPEC, b, 0);
    var f := DecodeSpec(EMPTY_SPEC, b, 0).msg.fields;
    var disks, nics := Payloads(SPEC_FIELDS, b, 11), Payloads(SPEC_FIELDS, b, 12);
    assert f.disks == Each(DecodedDisk, disks) && f.nics == Each(DecodedNic, nics);
    forall p | p in disks ensures DecodedDisk(p).value.unknown == UnknownPart(DISK_FIELDS, p) {
      PayloadShort(b, 11, p);
      DiskKeepsUnknown(p);
    }
    forall p | p in nics ensures DecodedNic(p).value.unknown == UnknownPart(NIC_FIELDS, p) {
      PayloadShort(b, 12, p);
      NicKeepsUnknown(p);
    }
  }

  /** Canonical form, for every input that decodes, however it was encoded: the unknown bytes kept, of the
      machine and of every entry, are the input's unknown records in input order, the message re-encodes
      to no more bytes than were read, and decoding that gives the same message. */
  lemma {:induction false} Canonical(b: Bytes)
    requires |b| < TWO63 && DecodeSpec(EMPTY_SPEC, b, 0).err.None?
    ensures var m := DecodeSpec(EMPTY_SPEC, b, 0).msg;
            && m.unknown == UnknownPart(SPEC_FIELDS, b)
            && KeepsUnknown(m.fields, Payloads(SPEC_FIELDS, b, 11), Payloads(SPEC_FIELDS, b, 12))
            && WellFormed(m)
            && |EncSpec(m)| <= |b|
            && DecodeSpec(EMPTY_SPEC, EncSpec(m), 0) == Outcome(m, None)
  {
    EntriesKeepUnknown(b);
    hide Fold, EncSpec, SetSpec, EntriesWellFormed, Norm, NoNils, UnknownPart, SpecSize, KeepsUnknown, Payloads;
    var m := DecodeSpec(EMPTY_SPEC, b, 0).msg;
    FoldUnknown(SPEC_FIELDS, SetSpec, EMPTY_SPEC, b, 0);
    forall f, n, p: Bytes | EntriesWellFormed(f) && |p| < |b| && SetSpec(f, n, p).err.None?
      ensures EntriesWellFormed(SetSpec(f, n, p).msg)
    {
      SetSpecKeepsWellFormed(f, n, p);
    }
    EmptySpecFacts();
    FoldKeeps(SPEC_FIELDS, SetSpec, EntriesWellFormed, EMPTY_SPEC, b, 0);
    forall f, n: int, p: Bytes | n > 0 && n in SPEC_FIELDS && |p| < |b| && SetSpec(f, n, p).err.None?
      ensures SpecSize(SetSpec(f, n, p).msg) <= SpecSize(f) + |EncField(n, p)|
    {
      SetSpecGrowth(f, n, p);
    }
    FoldSize(SPEC_FIELDS, SetSpec, SpecSize, EMPTY_SPEC, b, 0);
    SpecSizeOf(m);
    DecodedHasNoNils(b);
    NormOfNoNils(m);
    RoundTripNorm(m);
  }

  lemma {:induction false} EmptySpecFacts()
    ensures EntriesWellFormed(EMPTY_SPEC.fields) && SpecSize(EMPTY_SPEC.fields) == 0
    ensures AllUnknown(SPEC_FIELDS, EMPTY_SPEC.unknown)
  {
  }

  // ---------------------------------------------------------------- merge

  /** Last One Wins: if b decodes, decoding b + c into m is decoding b into m and then c into the
      result: same message, partial message on failure included, and failure in the same cases. */
  lemma {:induction false} Merge(m: Spec, b: Bytes, c: Bytes)
    requires |b| + |c| < TWO63 && DecodeSpec(m, b, 0).err.None?
    ensures var whole, second := DecodeSpec(m, b + c, 0), DecodeSpec(DecodeSpec(m, b, 0).msg, c, 0);
            whole.msg == second.msg && whole.err.None? == second.err.None?
  {
    hide Fold;
    FoldMerge(SPEC_FIELDS, SetSpec, m, b, c, 0);
    FoldPosition(SPEC_FIELDS, SetSpec, DecodeSpec(m, b, 0).msg, c, |b|, 0);
  }
}
