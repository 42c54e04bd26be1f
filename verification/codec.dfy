/** The generated classes of specs_vtproto.pb.go.  A nil receiver is a null argument of a static method;
    a nil and an empty slice of bytes, which the code never tells apart, are both the empty sequence. */
module Codec {
  import opened Wire
  import opened Messages
  import opened Protohelpers

  ghost function DiskEntry(p: AdditionalDisk?): Option<Disk>
    reads p
  {
    if p == null then None else Some(p.Value())
  }

  ghost function NicEntry(p: NetworkInterfaces?): Option<Nic>
    reads p
  {
    if p == null then None else Some(p.Value())
  }

  class AdditionalDisk {
    var typ: Bytes
    var volName: Bytes
    var unknownFields: Bytes

    ghost function Value(): Disk
      reads this
    {
      Msg(DiskFields(typ, volName), unknownFields)
    }

    constructor ()
      ensures Value() == EMPTY_DISK
    {
      typ := [];
      volName := [];
      unknownFields := [];
    }

    static method CloneVT(m: AdditionalDisk?) returns (r: AdditionalDisk?)
      ensures DiskEntry(r) == DiskEntry(m)
      ensures r != null ==> fresh(r)
    {
      if m == null {
        return null;
      }
      var c := new AdditionalDisk();
      c.typ := m.typ;
      c.volName := m.volName;
      c.unknownFields := m.unknownFields;
      r := c;
    }

    static method EqualVT(m: AdditionalDisk?, that: AdditionalDisk?) returns (eq: bool)
      ensures eq <==> DiskEntry(m) == DiskEntry(that)
    {
      if m == that {
        return true;
      } else if m == null || that == null {
        return false;
      }
      if m.typ != that.typ {
        return false;
      }
      if m.volName != that.volName {
        return false;
      }
      return m.unknownFields == that.unknownFields;
    }

    /** The exact length of the encoding. */
    static method SizeVT(m: AdditionalDisk?) returns (n: nat)
      ensures n == |EncDiskEntry(DiskEntry(m))|
    {
      if m == null {
        return 0;
      }
      n := 0;
      n := n + SizeString(1, 1, m.typ);
      n := n + SizeString(1, 3, m.volName);
      n := n + |m.unknownFields|;
    }

    /** Writes the encoding into the last bytes of dAtA[..len], back to front, and nothing else. */
    static method MarshalToSizedBufferVT(m: AdditionalDisk?, dAtA: array<Byte>, len: nat) returns (n: nat)
      requires |EncDiskEntry(DiskEntry(m))| <= len <= dAtA.Length
      modifies dAtA
      ensures n == |EncDiskEntry(DiskEntry(m))|
      ensures dAtA[..] == Overwrite(old(dAtA[..]), len - n, EncDiskEntry(DiskEntry(m)))
    {
      hide EncString, Overwrite, SizeOfVarint;
      ghost var a0 := dAtA[..];
      OverwriteNothing(a0, len);
      if m == null {
        return 0;
      }
      var i := len - |m.unknownFields|;
      Copy(dAtA, i, m.unknownFields);
      ghost var e0 := m.unknownFields;
      i := PutString(dAtA, i, [0x1a], 3, m.volName, a0, e0);
      ghost var e1 := EncString(3, m.volName) + e0;
      i := PutString(dAtA, i, [0xa], 1, m.typ, a0, e1);
      ghost var e2 := EncString(1, m.typ) + e1;
      n := len - i;
    }

    static method MarshalToVT(m: AdditionalDisk?, dAtA: array<Byte>) returns (n: nat)
      requires |EncDiskEntry(DiskEntry(m))| <= dAtA.Length
      modifies dAtA
      ensures n == |EncDiskEntry(DiskEntry(m))|
      ensures dAtA[..] == Overwrite(old(dAtA[..]), 0, EncDiskEntry(DiskEntry(m)))
    {
      var size := SizeVT(m);
      n := MarshalToSizedBufferVT(m, dAtA, size);
    }

    static method MarshalVT(m: AdditionalDisk?) returns (out: Bytes)
      ensures out == EncDiskEntry(DiskEntry(m))
    {
      if m == null {
        return [];
      }
      hide Overwrite, EncDiskEntry;
      var size := SizeVT(m);
      var dAtA := new Byte[size](_ => 0);
      ghost var a := dAtA[..];
      var n := MarshalToSizedBufferVT(m, dAtA, size);
      OverwriteAll(a, EncDiskEntry(DiskEntry(m)));
      out := dAtA[..n];
    }

    /** Decodes into this message; on an error it keeps what was decoded before it. */
    method UnmarshalVT(dAtA: Bytes) returns (err: Option<Error>)
      requires |dAtA| < TWO63
      modifies this
      ensures Outcome(Value(), err) == DecodeDisk(old(Value()), dAtA, 0)
    {
      hide ReadRecord;
      var l, iNdEx := |dAtA|, 0;
      err := None;
      while iNdEx < l
        invariant iNdEx <= l
        invariant err.None?
        invariant DecodeDisk(Value(), dAtA[iNdEx..], iNdEx) == DecodeDisk(old(Value()), dAtA, 0)
      {
        ghost var d := dAtA[iNdEx..];
        var rec, next: nat;
        rec, next, err := NextRecord(DISK_FIELDS, dAtA, iNdEx);
        if err.Some? {
          return;
        }
        match rec {
          case Unknown(raw) =>
            unknownFields := unknownFields + raw;
          case Field(num, payload) =>
            if num == 1 {
              typ := payload;
            } else if num == 3 {
              volName := payload;
            }
        }
        assert d[next - iNdEx..] == dAtA[next..];
        iNdEx := next;
      }
    }
  }

  class NetworkInterfaces {
    var driver: Bytes
    var network: Bytes
    var bridge: Bytes
    var target: Bytes
    var physicalAddress: Bytes
    var unknownFields: Bytes

    ghost function Value(): Nic
      reads this
    {
      Msg(NicFields(driver, network, bridge, target, physicalAddress), unknownFields)
    }

    constructor ()
      ensures Value() == EMPTY_NIC
    {
      driver := [];
      network := [];
      bridge := [];
      target := [];
      physicalAddress := [];
      unknownFields := [];
    }

    static method CloneVT(m: NetworkInterfaces?) returns (r: NetworkInterfaces?)
      ensures NicEntry(r) == NicEntry(m)
      ensures r != null ==> fresh(r)
    {
      if m == null {
        return null;
      }
      var c := new NetworkInterfaces();
      c.driver := m.driver;
      c.network := m.network;
      c.bridge := m.bridge;
      c.target := m.target;
      c.physicalAddress := m.physicalAddress;
      c.unknownFields := m.unknownFields;
      r := c;
    }

    static method EqualVT(m: NetworkInterfaces?, that: NetworkInterfaces?) returns (eq: bool)
      ensures eq <==> NicEntry(m) == NicEntry(that)
    {
      if m == that {
        return true;
      } else if m == null || that == null {
        return false;
      }
      if m.driver != that.driver {
        return false;
      }
      if m.network != that.network {
        return false;
      }
      if m.bridge != that.bridge {
        return false;
      }
      if m.target != that.target {
        return false;
      }
      if m.physicalAddress != that.physicalAddress {
        return false;
      }
      return m.unknownFields == that.unknownFields;
    }

    /** The exact length of the encoding. */
    static method SizeVT(m: NetworkInterfaces?) returns (n: nat)
      ensures n == |EncNicEntry(NicEntry(m))|
    {
      if m == null {
        return 0;
      }
      n := 0;
      n := n + SizeString(1, 1, m.driver);
      n := n + SizeString(1, 2, m.network);
      n := n + SizeString(1, 3, m.bridge);
      n := n + SizeString(1, 4, m.target);
      n := n + SizeString(1, 5, m.physicalAddress);
      n := n + |m.unknownFields|;
    }

    /** Writes the encoding into the last bytes of dAtA[..len], back to front, and nothing else. */
    static method MarshalToSizedBufferVT(m: NetworkInterfaces?, dAtA: array<Byte>, len: nat) returns (n: nat)
      requires |EncNicEntry(NicEntry(m))| <= len <= dAtA.Length
      modifies dAtA
      ensures n == |EncNicEntry(NicEntry(m))|
      ensures dAtA[..] == Overwrite(old(dAtA[..]), len - n, EncNicEntry(NicEntry(m)))
    {
      hide EncString, Overwrite, SizeOfVarint;
      ghost var a0 := dAtA[..];
      OverwriteNothing(a0, len);
      if m == null {
        return 0;
      }
      var i := len - |m.unknownFields|;
      Copy(dAtA, i, m.unknownFields);
      ghost var e0 := m.unknownFields;
      i := PutString(dAtA, i, [0x2a], 5, m.physicalAddress, a0, e0);
      ghost var e1 := EncString(5, m.physicalAddress) + e0;
      i := PutString(dAtA, i, [0x22], 4, m.target, a0, e1);
      ghost var e2 := EncString(4, m.target) + e1;
      i := PutString(dAtA, i, [0x1a], 3, m.bridge, a0, e2);
      ghost var e3 := EncString(3, m.bridge) + e2;
      i := PutString(dAtA, i, [0x12], 2, m.network, a0, e3);
      ghost var e4 := EncString(2, m.network) + e3;
      i := PutString(dAtA, i, [0xa], 1, m.driver, a0, e4);
      ghost var e5 := EncString(1, m.driver) + e4;
      n := len - i;
    }

    static method MarshalToVT(m: NetworkInterfaces?, dAtA: array<Byte>) returns (n: nat)
      requires |EncNicEntry(NicEntry(m))| <= dAtA.Length
      modifies dAtA
      ensures n == |EncNicEntry(NicEntry(m))|
      ensures dAtA[..] == Overwrite(old(dAtA[..]), 0, EncNicEntry(NicEntry(m)))
    {
      var size := SizeVT(m);
      n := MarshalToSizedBufferVT(m, dAtA, size);
    }

    static method MarshalVT(m: NetworkInterfaces?) returns (out: Bytes)
      ensures out == EncNicEntry(NicEntry(m))
    {
      if m == null {
        return [];
      }
      hide Overwrite, EncNicEntry;
      var size := SizeVT(m);
      var dAtA := new Byte[size](_ => 0);
      ghost var a := dAtA[..];
      var n := MarshalToSizedBufferVT(m, dAtA, size);
      OverwriteAll(a, EncNicEntry(NicEntry(m)));
      out := dAtA[..n];
    }

    /** Decodes into this message; on an error it keeps what was decoded before it. */
    method UnmarshalVT(dAtA: Bytes) returns (err: Option<Error>)
      requires |dAtA| < TWO63
      modifies this
      ensures Outcome(Value(), err) == DecodeNic(old(Value()), dAtA, 0)
    {
      hide ReadRecord;
      var l, iNdEx := |dAtA|, 0;
      err := None;
      while iNdEx < l
        invariant iNdEx <= l
        invariant err.None?
        invariant DecodeNic(Value(), dAtA[iNdEx..], iNdEx) == DecodeNic(old(Value()), dAtA, 0)
      {
        ghost var d := dAtA[iNdEx..];
        var rec, next: nat;
        rec, next, err := NextRecord(NIC_FIELDS, dAtA, iNdEx);
        if err.Some? {
          return;
        }
        match rec {
          case Unknown(raw) =>
            unknownFields := unknownFields + raw;
          case Field(num, payload) =>
            if num == 1 {
              driver := payload;
            } else if num == 2 {
              network := payload;
            } else if num == 3 {
              bridge := payload;
            } else if num == 4 {
              target := payload;
            } else if num == 5 {
              physicalAddress := payload;
            }
        }
        assert d[next - iNdEx..] == dAtA[next..];
        iNdEx := next;
      }
    }
  }

  ghost function DiskEntries(ps: seq<AdditionalDisk?>): (r: seq<Option<Disk>>)
    reads ps
    ensures |r| == |ps| && forall i :: 0 <= i < |ps| ==> r[i] == DiskEntry(ps[i])
  {
    seq(|ps|, i requires 0 <= i < |ps| reads ps => DiskEntry(ps[i]))
  }

  /** The repeated field 11: entries written from the last to the first, each on the buffer's prefix. */
  method MarshalDisks(ps: seq<AdditionalDisk?>, dAtA: array<Byte>, end: nat) returns (i: nat)
    requires |EncDisks(DiskEntries(ps))| <= end <= dAtA.Length
    modifies dAtA
    ensures i == end - |EncDisks(DiskEntries(ps))|
    ensures dAtA[..] == Overwrite(old(dAtA[..]), i, EncDisks(DiskEntries(ps)))
  {
    hide Overwrite, EncDiskEntry, EncFields, EncField, SizeOfVarint;
    ghost var es := Each(EncDiskEntry, DiskEntries(ps));
    ghost var a0 := dAtA[..];
    i := end;
    OverwriteNothing(a0, end);
    EncFieldsNone(11, es);
    for iNdEx := |ps| downto 0
      invariant i == end - |EncFields(11, es[iNdEx..])|
      invariant dAtA[..] == Overwrite(a0, i, EncFields(11, es[iNdEx..]))
    {
      EncFieldsFrom(11, es, iNdEx);
      EncFieldsSuffix(11, es, iNdEx);
      ghost var e, rest := es[iNdEx], EncFields(11, es[iNdEx + 1..]);
      var size := AdditionalDisk.MarshalToSizedBufferVT(ps[iNdEx], dAtA, i);
      i := i - size;
      OverwriteThen(a0, i, e, rest);
      i := PutField(dAtA, i, [0x5a], 11, size, e, a0, rest);
    }
    assert es[0..] == es;
  }

  method SizeDisks(ps: seq<AdditionalDisk?>) returns (n: nat)
    ensures n == |EncDisks(DiskEntries(ps))|
  {
    hide EncFields, EncDiskEntry;
    ghost var es := Each(EncDiskEntry, DiskEntries(ps));
    n := 0;
    assert es[..0] == [];
    EncFieldsNone(11, es);
    assert es[0..] == es;
    for k := 0 to |ps|
      invariant n + |EncFields(11, es[k..])| == |EncFields(11, es)|
    {
      EncFieldsFrom(11, es, k);
      var l := AdditionalDisk.SizeVT(ps[k]);
      n := n + 1 + l + SizeOfVarint(l);
    }
  }

  method CloneDisks(ps: seq<AdditionalDisk?>) returns (cs: seq<AdditionalDisk?>)
    ensures |cs| == |ps| && forall i :: 0 <= i < |ps| ==> DiskEntry(cs[i]) == DiskEntry(ps[i])
    ensures forall i :: 0 <= i < |cs| && cs[i] != null ==> fresh(cs[i])
  {
    cs := [];
    for k := 0 to |ps|
      invariant |cs| == k && forall i :: 0 <= i < k ==> DiskEntry(cs[i]) == DiskEntry(ps[i])
      invariant forall i :: 0 <= i < k && cs[i] != null ==> fresh(cs[i])
    {
      var c := AdditionalDisk.CloneVT(ps[k]);
      cs := cs + [c];
    }
  }

  /** Entry by entry, nil replaced by an empty message. */
  method EqualDisks(ps: seq<AdditionalDisk?>, qs: seq<AdditionalDisk?>) returns (eq: bool)
    requires |ps| == |qs|
    ensures eq <==> forall i :: 0 <= i < |ps| ==> EqualDiskEntries(DiskEntry(ps[i]), DiskEntry(qs[i]))
  {
    for k := 0 to |ps|
      invariant forall i :: 0 <= i < k ==> EqualDiskEntries(DiskEntry(ps[i]), DiskEntry(qs[i]))
    {
      var p, q := ps[k], qs[k];
      if p != q {
        if p == null {
          p := new AdditionalDisk();
        }
        if q == null {
          q := new AdditionalDisk();
        }
        var same := AdditionalDisk.EqualVT(p, q);
        if !same {
          assert !EqualDiskEntries(DiskEntry(ps[k]), DiskEntry(qs[k]));
          return false;
        }
      }
    }
    return true;
  }

  ghost function NicEntries(ps: seq<NetworkInterfaces?>): (r: seq<Option<Nic>>)
    reads ps
    ensures |r| == |ps| && forall i :: 0 <= i < |ps| ==> r[i] == NicEntry(ps[i])
  {
    seq(|ps|, i requires 0 <= i < |ps| reads ps => NicEntry(ps[i]))
  }

  /** The repeated field 12: entries written from the last to the first, each on the buffer's prefix. */
  method MarshalNics(ps: seq<NetworkInterfaces?>, dAtA: array<Byte>, end: nat) returns (i: nat)
    requires |EncNics(NicEntries(ps))| <= end <= dAtA.Length
    modifies dAtA
    ensures i == end - |EncNics(NicEntries(ps))|
    ensures dAtA[..] == Overwrite(old(dAtA[..]), i, EncNics(NicEntries(ps)))
  {
    hide Overwrite, EncNicEntry, EncFields, EncField, SizeOfVarint;
    ghost var es := Each(EncNicEntry, NicEntries(ps));
    ghost var a0 := dAtA[..];
    i := end;
    OverwriteNothing(a0, end);
    EncFieldsNone(12, es);
    for iNdEx := |ps| downto 0
      invariant i == end - |EncFields(12, es[iNdEx..])|
      invariant dAtA[..] == Overwrite(a0, i, EncFields(12, es[iNdEx..]))
    {
      EncFieldsFrom(12, es, iNdEx);
      EncFieldsSuffix(12, es, iNdEx);
      ghost var e, rest := es[iNdEx], EncFields(12, es[iNdEx + 1..]);
      var size := NetworkInterfaces.MarshalToSizedBufferVT(ps[iNdEx], dAtA, i);
      i := i - size;
      OverwriteThen(a0, i, e, rest);
      i := PutField(dAtA, i, [0x62], 12, size, e, a0, rest);
    }
    assert es[0..] == es;
  }

  method SizeNics(ps: seq<NetworkInterfaces?>) returns (n: nat)
    ensures n == |EncNics(NicEntries(ps))|
  {
    hide EncFields, EncNicEntry;
    ghost var es := Each(EncNicEntry, NicEntries(ps));
    n := 0;
    assert es[..0] == [];
    EncFieldsNone(12, es);
    assert es[0..] == es;
    for k := 0 to |ps|
      invariant n + |EncFields(12, es[k..])| == |EncFields(12, es)|
    {
      EncFieldsFrom(12, es, k);
      var l := NetworkInterfaces.SizeVT(ps[k]);
      n := n + 1 + l + SizeOfVarint(l);
    }
  }

  method CloneNics(ps: seq<NetworkInterfaces?>) returns (cs: seq<NetworkInterfaces?>)
    ensures |cs| == |ps| && forall i :: 0 <= i < |ps| ==> NicEntry(cs[i]) == NicEntry(ps[i])
    ensures forall i :: 0 <= i < |cs| && cs[i] != null ==> fresh(cs[i])
  {
    cs := [];
    for k := 0 to |ps|
      invariant |cs| == k && forall i :: 0 <= i < k ==> NicEntry(cs[i]) == NicEntry(ps[i])
      invariant forall i :: 0 <= i < k && cs[i] != null ==> fresh(cs[i])
    {
      var c := NetworkInterfaces.CloneVT(ps[k]);
      cs := cs + [c];
    }
  }

  /** Entry by entry, nil replaced by an empty message. */
  method EqualNics(ps: seq<NetworkInterfaces?>, qs: seq<NetworkInterfaces?>) returns (eq: bool)
    requires |ps| == |qs|
    ensures eq <==> forall i :: 0 <= i < |ps| ==> EqualNicEntries(NicEntry(ps[i]), NicEntry(qs[i]))
  {
    for k := 0 to |ps|
      invariant forall i :: 0 <= i < k ==> EqualNicEntries(NicEntry(ps[i]), NicEntry(qs[i]))
    {
      var p, q := ps[k], qs[k];
      if p != q {
        if p == null {
          p := new NetworkInterfaces();
        }
        if q == null {
          q := new NetworkInterfaces();
        }
        var same := NetworkInterfaces.EqualVT(p, q);
        if !same {
          assert !EqualNicEntries(NicEntry(ps[k]), NicEntry(qs[k]));
          return false;
        }
      }
    }
    return true;
  }

  ghost function SpecEntry(p: MachineSpec?): Option<Spec>
    reads p, if p == null then [] else p.additionalDisks, if p == null then [] else p.networkInterfaces
  {
    if p == null then None else Some(p.Value())
  }

  function EncSpecEntry(e: Option<Spec>): Bytes {
    if e.Some? then EncSpec(e.value) else []
  }

  class MachineSpec {
    var uuid: Bytes
    var schematic: Bytes
    var talosVersion: Bytes
    var vmVolName: Bytes
    var additionalDisks: seq<AdditionalDisk?>
    var networkInterfaces: seq<NetworkInterfaces?>
    var cidataVolName: Bytes
    var isoVolName: Bytes
    var isoVolPath: Bytes
    var cidataVolPath: Bytes
    var vmVolPath: Bytes
    var vmIfName: Bytes
    var poolName: Bytes
    var vmName: Bytes
    var vmNvramName: Bytes
    var unknownFields: Bytes

    ghost function Value(): Spec
      reads this, additionalDisks, networkInterfaces
    {
      Msg(SpecFields(uuid, schematic, talosVersion, vmVolName,
                     DiskEntries(additionalDisks), NicEntries(networkInterfaces),
                     cidataVolName, isoVolName, isoVolPath, cidataVolPath,
                     vmVolPath, vmIfName, poolName, vmName, vmNvramName),
          unknownFields)
    }

    constructor ()
      ensures Value() == EMPTY_SPEC
      ensures additionalDisks == [] && networkInterfaces == []
    {
      uuid := [];
      schematic := [];
      talosVersion := [];
      vmVolName := [];
      additionalDisks := [];
      networkInterfaces := [];
      cidataVolName := [];
      isoVolName := [];
      isoVolPath := [];
      cidataVolPath := [];
      vmVolPath := [];
      vmIfName := [];
      poolName := [];
      vmName := [];
      vmNvramName := [];
      unknownFields := [];
    }

    /** The string fields of another machine, with the given lists. */
    constructor CopyOf(m: MachineSpec, ds: seq<AdditionalDisk?>, ns: seq<NetworkInterfaces?>)
      ensures Value() == Msg(m.Value().fields.(disks := DiskEntries(ds), nics := NicEntries(ns)), m.unknownFields)
      ensures additionalDisks == ds && networkInterfaces == ns
    {
      uuid := m.uuid;
      schematic := m.schematic;
      talosVersion := m.talosVersion;
      vmVolName := m.vmVolName;
      cidataVolName := m.cidataVolName;
      isoVolName := m.isoVolName;
      isoVolPath := m.isoVolPath;
      cidataVolPath := m.cidataVolPath;
      vmVolPath := m.vmVolPath;
      vmIfName := m.vmIfName;
      poolName := m.poolName;
      vmName := m.vmName;
      vmNvramName := m.vmNvramName;
      unknownFields := m.unknownFields;
      additionalDisks, networkInterfaces := ds, ns;
    }

    /** A deep copy: equal, and no object of it existed before. */
    static method CloneVT(m: MachineSpec?) returns (r: MachineSpec?)
      ensures SpecEntry(r) == SpecEntry(m)
      ensures r != null ==> fresh(r)
      ensures r != null ==> forall p :: p in r.additionalDisks && p != null ==> fresh(p)
      ensures r != null ==> forall p :: p in r.networkInterfaces && p != null ==> fresh(p)
    {
      if m == null {
        return null;
      }
      var ds := CloneDisks(m.additionalDisks);
      var ns := CloneNics(m.networkInterfaces);
      assert DiskEntries(ds) == DiskEntries(m.additionalDisks);
      assert NicEntries(ns) == NicEntries(m.networkInterfaces);
      r := new MachineSpec.CopyOf(m, ds, ns);
    }

    /** Nil equals only nil; otherwise the field-by-field comparison that EqualIsNorm explains. */
    static method EqualVT(m: MachineSpec?, that: MachineSpec?) returns (eq: bool)
      ensures eq <==> (m == null && that == null)
                      || (m != null && that != null && EqualSpec(m.Value(), that.Value()))
    {
      if m == that {
        return true;
      } else if m == null || that == null {
        return false;
      }
      if !(m.uuid == that.uuid && m.schematic == that.schematic && m.talosVersion == that.talosVersion
        && m.vmVolName == that.vmVolName) {
        return false;
      }
      if |m.additionalDisks| != |that.additionalDisks| {
        return false;
      }
      eq := EqualDisks(m.additionalDisks, that.additionalDisks);
      if !eq {
        return;
      }
      if |m.networkInterfaces| != |that.networkInterfaces| {
        return false;
      }
      eq := EqualNics(m.networkInterfaces, that.networkInterfaces);
      if !eq {
        return;
      }
      return m.cidataVolName == that.cidataVolName
             && m.isoVolName == that.isoVolName
             && m.isoVolPath == that.isoVolPath
             && m.cidataVolPath == that.cidataVolPath
             && m.vmVolPath == that.vmVolPath
             && m.vmIfName == that.vmIfName
             && m.poolName == that.poolName
             && m.vmName == that.vmName
             && m.vmNvramName == that.vmNvramName
             && m.unknownFields == that.unknownFields;
    }

    /** The exact length of the encoding. */
    static method SizeVT(m: MachineSpec?) returns (n: nat)
      ensures n == |EncSpecEntry(SpecEntry(m))|
    {
      if m == null {
        return 0;
      }
      SpecSizeOf(m.Value());
      hide EncSpec;
      n := SizeFields(m);
    }

    static method SizeFields(m: MachineSpec) returns (n: nat)
      ensures n == SpecSize(m.Value().fields) + |m.unknownFields|
    {
      hide EncString, EncDisks, EncNics, SizeString;
      n := 0;
      n := n + SizeString(1, 1, m.uuid);
      n := n + SizeString(1, 2, m.schematic);
      n := n + SizeString(1, 3, m.talosVersion);
      n := n + SizeString(1, 10, m.vmVolName);
      var l := SizeDisks(m.additionalDisks);
      n := n + l;
      l := SizeNics(m.networkInterfaces);
      n := n + l;
      l := SizeTail(m);
      n := n + l;
    }

    /** The second half of the above: fields 13 to 25 and the unknown bytes. */
    static method SizeTail(m: MachineSpec) returns (n: nat)
      ensures n == StringSize(13, m.cidataVolName)
                   + StringSize(14, m.isoVolName)
                   + StringSize(15, m.isoVolPath)
                   + StringSize(16, m.cidataVolPath)
                   + StringSize(17, m.vmVolPath)
                   + StringSize(18, m.vmIfName)
                   + StringSize(20, m.poolName)
                   + StringSize(21, m.vmName)
                   + StringSize(25, m.vmNvramName) + |m.unknownFields|
    {
      hide EncString, SizeString;
      n := 0;
      n := n + SizeString(1, 13, m.cidataVolName);
      n := n + SizeString(1, 14, m.isoVolName);
      n := n + SizeString(1, 15, m.isoVolPath);
      n := n + SizeString(2, 16, m.cidataVolPath);
      n := n + SizeString(2, 17, m.vmVolPath);
      n := n + SizeString(2, 18, m.vmIfName);
      n := n + SizeString(2, 20, m.poolName);
      n := n + SizeString(2, 21, m.vmName);
      n := n + SizeString(2, 25, m.vmNvramName);
      n := n + |m.unknownFields|;
    }

    /** Writes the encoding into the last bytes of dAtA[..len], back to front, and nothing else. */
    static method MarshalToSizedBufferVT(m: MachineSpec?, dAtA: array<Byte>, len: nat) returns (n: nat)
      requires |EncSpecEntry(SpecEntry(m))| <= len <= dAtA.Length
      modifies dAtA
      ensures n == |EncSpecEntry(SpecEntry(m))|
      ensures dAtA[..] == Overwrite(old(dAtA[..]), len - n, EncSpecEntry(SpecEntry(m)))
    {
      hide EncSpec, Overwrite;
      ghost var a0 := dAtA[..];
      OverwriteNothing(a0, len);
      if m == null {
        return 0;
      }
      ghost var v := m.Value();
      n := MarshalMachine(m, dAtA, len, v);
      assert SpecEntry(m) == Some(v);
    }

    static method MarshalMachine(m: MachineSpec, dAtA: array<Byte>, len: nat, ghost v: Spec) returns (n: nat)
      requires v == m.Value() && |EncSpec(v)| <= len <= dAtA.Length
      modifies dAtA
      ensures n == |EncSpec(v)| && dAtA[..] == Overwrite(old(dAtA[..]), len - n, EncSpec(v))
    {
      hide EncString, Overwrite, EncDisks, EncNics, EncSpecTail, SizeOfVarint;
      ghost var a0, f := dAtA[..], v.fields;
      var uuid, schematic, talosVersion, vmVolName := m.uuid, m.schematic, m.talosVersion, m.vmVolName;
      var i := MarshalTail(m, dAtA, len, v);
      ghost var e, a := EncSpecTail(v), dAtA[..];
      assert NicEntries(m.networkInterfaces) == f.nics;
      i := MarshalNics(m.networkInterfaces, dAtA, i);
      OverwriteThen(a0, i, EncNics(f.nics), e);
      e, a := EncNics(f.nics) + e, dAtA[..];
      assert DiskEntries(m.additionalDisks) == f.disks;
      i := MarshalDisks(m.additionalDisks, dAtA, i);
      OverwriteThen(a0, i, EncDisks(f.disks), e);
      e := EncDisks(f.disks) + e;
      i := PutString(dAtA, i, [0x52], 10, vmVolName, a0, e);
      e := EncString(10, f.vmVolName) + e;
      i := PutString(dAtA, i, [0x1a], 3, talosVersion, a0, e);
      e := EncString(3, f.talosVersion) + e;
      i := PutString(dAtA, i, [0x12], 2, schematic, a0, e);
      e := EncString(2, f.schematic) + e;
      i := PutString(dAtA, i, [0xa], 1, uuid, a0, e);
      e := EncString(1, f.uuid) + e;
      n := len - i;
    }

    /** The first half of the above: the unknown bytes and fields 25 down to 13. */
    static method MarshalTail(m: MachineSpec, dAtA: array<Byte>, len: nat, ghost v: Spec) returns (i: nat)
      requires m.cidataVolName == v.fields.cidataVolName && m.isoVolName == v.fields.isoVolName
               && m.isoVolPath == v.fields.isoVolPath && m.cidataVolPath == v.fields.cidataVolPath
               && m.vmVolPath == v.fields.vmVolPath && m.vmIfName == v.fields.vmIfName
               && m.poolName == v.fields.poolName && m.vmName == v.fields.vmName
               && m.vmNvramName == v.fields.vmNvramName
      requires m.unknownFields == v.unknown && |EncSpecTail(v)| <= len <= dAtA.Length
      modifies dAtA
      ensures i == len - |EncSpecTail(v)|
      ensures dAtA[..] == Overwrite(old(dAtA[..]), i, EncSpecTail(v))
    {
      hide EncString, Overwrite, SizeOfVarint;
      ghost var a0, f := dAtA[..], v.fields;
      var cidataVolName, isoVolName, isoVolPath, cidataVolPath, vmVolPath, vmIfName, poolName, vmName, vmNvramName :=
        m.cidataVolName, m.isoVolName, m.isoVolPath, m.cidataVolPath, m.vmVolPath, m.vmIfName, m.poolName,
        m.vmName, m.vmNvramName;
      i := len - |m.unknownFields|;
      Copy(dAtA, i, m.unknownFields);
      ghost var e := m.unknownFields;
      i := PutString(dAtA, i, [0xca, 0x1], 25, vmNvramName, a0, e);
      e := EncString(25, f.vmNvramName) + e;
      i := PutString(dAtA, i, [0xaa, 0x1], 21, vmName, a0, e);
      e := EncString(21, f.vmName) + e;
      i := PutString(dAtA, i, [0xa2, 0x1], 20, poolName, a0, e);
      e := EncString(20, f.poolName) + e;
      i := PutString(dAtA, i, [0x92, 0x1], 18, vmIfName, a0, e);
      e := EncString(18, f.vmIfName) + e;
      i := PutString(dAtA, i, [0x8a, 0x1], 17, vmVolPath, a0, e);
      e := EncString(17, f.vmVolPath) + e;
      i := PutString(dAtA, i, [0x82, 0x1], 16, cidataVolPath, a0, e);
      e := EncString(16, f.cidataVolPath) + e;
      i := PutString(dAtA, i, [0x7a], 15, isoVolPath, a0, e);
      e := EncString(15, f.isoVolPath) + e;
      i := PutString(dAtA, i, [0x72], 14, isoVolName, a0, e);
      e := EncString(14, f.isoVolName) + e;
      i := PutString(dAtA, i, [0x6a], 13, cidataVolName, a0, e);
      e := EncString(13, f.cidataVolName) + e;
    }

    static method MarshalToVT(m: MachineSpec?, dAtA: array<Byte>) returns (n: nat)
      requires |EncSpecEntry(SpecEntry(m))| <= dAtA.Length
      modifies dAtA
      ensures n == |EncSpecEntry(SpecEntry(m))|
      ensures dAtA[..] == Overwrite(old(dAtA[..]), 0, EncSpecEntry(SpecEntry(m)))
    {
      hide EncSpec, Overwrite, DiskEntries, NicEntries;
      var size := SizeVT(m);
      n := MarshalToSizedBufferVT(m, dAtA, size);
    }

    static method MarshalVT(m: MachineSpec?) returns (out: Bytes)
      ensures out == EncSpecEntry(SpecEntry(m))
    {
      hide EncSpec, Overwrite;
      if m == null {
        return [];
      }
      hide EncSpecEntry;
      var size := SizeVT(m);
      var dAtA := new Byte[size](_ => 0);
      ghost var a := dAtA[..];
      var n := MarshalToSizedBufferVT(m, dAtA, size);
      OverwriteAll(a, EncSpecEntry(SpecEntry(m)));
      out := dAtA[..n];
    }

    /** One known string field. */
    method AssignString(num: int, payload: Bytes)
      modifies this
      ensures additionalDisks == old(additionalDisks) && networkInterfaces == old(networkInterfaces)
      ensures Value() == old(Value()).(fields := SetSpecString(old(Value()).fields, num, payload))
    {
      if num < 15 {
        AssignLow(num, payload);
      } else {
        AssignHigh(num, payload);
      }
    }

    method AssignLow(num: int, payload: Bytes)
      requires num < 15
      modifies this
      ensures additionalDisks == old(additionalDisks) && networkInterfaces == old(networkInterfaces)
      ensures Value() == old(Value()).(fields := SetSpecString(old(Value()).fields, num, payload))
    {
      hide DiskEntries, NicEntries, DiskEntry, NicEntry;
      if num == 1 {
        uuid := payload;
      } else if num == 2 {
        schematic := payload;
      } else if num == 3 {
        talosVersion := payload;
      } else if num == 10 {
        vmVolName := payload;
      } else if num == 13 {
        cidataVolName := payload;
      } else if num == 14 {
        isoVolName := payload;
      }
    }

    method AssignHigh(num: int, payload: Bytes)
      requires num >= 15
      modifies this
      ensures additionalDisks == old(additionalDisks) && networkInterfaces == old(networkInterfaces)
      ensures Value() == old(Value()).(fields := SetSpecString(old(Value()).fields, num, payload))
    {
      hide DiskEntries, NicEntries, DiskEntry, NicEntry;
      if num == 15 {
        isoVolPath := payload;
      } else if num == 16 {
        cidataVolPath := payload;
      } else if num == 17 {
        vmVolPath := payload;
      } else if num == 18 {
        vmIfName := payload;
      } else if num == 20 {
        poolName := payload;
      } else if num == 21 {
        vmName := payload;
      } else if num == 25 {
        vmNvramName := payload;
      }
    }

    /** Decodes into this message; on an error it keeps what was decoded before it, a last repeated
        entry that failed included. */
    method UnmarshalVT(dAtA: Bytes) returns (err: Option<Error>)
      requires |dAtA| < TWO63
      modifies this
      ensures Outcome(Value(), err) == DecodeSpec(old(Value()), dAtA, 0)
    {
      hide *;
      var l, iNdEx := |dAtA|, 0;
      err := None;
      assert dAtA[0..] == dAtA;
      while iNdEx < l
        invariant iNdEx <= l
        invariant err.None?
        invariant DecodeSpec(Value(), dAtA[iNdEx..], iNdEx) == DecodeSpec(old(Value()), dAtA, 0)
      {
        iNdEx, err := DecodeOne(dAtA, iNdEx);
        if err.Some? {
          return;
        }
      }
      DecodeSpecStep(Value(), dAtA[iNdEx..], iNdEx);
    }

    /** The body of that loop: one record. */
    method DecodeOne(dAtA: Bytes, iNdEx: nat) returns (next: nat, err: Option<Error>)
      requires iNdEx < |dAtA| < TWO63
      modifies this
      ensures err.Some? ==> DecodeSpec(old(Value()), dAtA[iNdEx..], iNdEx) == Outcome(Value(), err)
      ensures err.None? ==>
                iNdEx < next <= |dAtA|
                && DecodeSpec(old(Value()), dAtA[iNdEx..], iNdEx) == DecodeSpec(Value(), dAtA[next..], next)
    {
      hide ReadRecord, SetSpec, Apply, DecodeSpec, Fold;
      ghost var d := dAtA[iNdEx..];
      DecodeSpecStep(Value(), d, iNdEx);
      var rec;
      rec, next, err := NextRecord(SPEC_FIELDS, dAtA, iNdEx);
      if err.Some? {
        return;
      }
      if rec.Field? {
        PayloadShorter(SPEC_FIELDS, d, iNdEx);
      }
      err := Absorb(rec);
      assert d[next - iNdEx..] == dAtA[next..];
    }

    /** What the loop does with one record. */
    method Absorb(rec: Record) returns (err: Option<Error>)
      requires rec.Field? ==> |rec.payload| < TWO63
      modifies this
      ensures Outcome(Value(), err) == Apply(SetSpec, old(Value()), rec)
    {
      hide SetSpecString, DecodeDisk, DecodeNic, DiskEntries, NicEntries;
      err := None;
      match rec {
        case Unknown(raw) =>
          unknownFields := unknownFields + raw;
        case Field(num, payload) =>
          if num == 11 {
            err := AppendDisk(payload);
          } else if num == 12 {
            err := AppendNic(payload);
          } else {
            AssignString(num, payload);
          }
      }
    }

    method AppendDisk(payload: Bytes) returns (err: Option<Error>)
      requires |payload| < TWO63
      modifies this
      ensures var f, o := old(Value()).fields, DecodeDisk(EMPTY_DISK, payload, 0);
              err == o.err && Value() == old(Value()).(fields := f.(disks := f.disks + [Some(o.msg)]))
    {
      hide DecodeDisk, NicEntries;
      ghost var es := DiskEntries(additionalDisks);
      var disk := new AdditionalDisk();
      additionalDisks := additionalDisks + [disk];
      err := disk.UnmarshalVT(payload);
      assert DiskEntries(additionalDisks) == es + [Some(disk.Value())];
    }

    method AppendNic(payload: Bytes) returns (err: Option<Error>)
      requires |payload| < TWO63
      modifies this
      ensures var f, o := old(Value()).fields, DecodeNic(EMPTY_NIC, payload, 0);
              err == o.err && Value() == old(Value()).(fields := f.(nics := f.nics + [Some(o.msg)]))
    {
      hide DecodeNic, DiskEntries;
      ghost var es := NicEntries(networkInterfaces);
      var nic := new NetworkInterfaces();
      networkInterfaces := networkInterfaces + [nic];
      err := nic.UnmarshalVT(payload);
      assert NicEntries(networkInterfaces) == es + [Some(nic.Value())];
    }
  }
}
