/** When volume names of different machines, or of different steps of one machine, are the same. */
module VolNames {
  import opened Names
  import opened Libvirt
  import opened Provision

  // ---------------------------------------------------------------- one kind of name

  lemma {:induction false} MainInjective(a: string, b: string)
    requires MainName(a) == MainName(b)
    ensures a == b
  {
    CancelSuffix(a, b, "-volume");
  }

  /** A disk's name gives back machine, index and type, whatever dashes machine names contain. */
  lemma {:induction false} DiskInjective(a: string, i: nat, t: string, b: string, j: nat, u: string)
    requires NoDash(t) && NoDash(u) && DiskVolName(a, i, t) == DiskVolName(b, j, u)
    ensures a == b && i == j && t == u
  {
    SplitLast(a + "-" + Decimal(i), t, b + "-" + Decimal(j), u);
    SplitLast(a, Decimal(i), b, Decimal(j));
    DecimalInjective(i, j);
  }

  lemma {:induction false} IsoInjective(a: string, s: string, b: string, t: string)
    requires NoDash(s) && NoDash(t) && IsoName(a, s) == IsoName(b, t)
    ensures a == b && s == t
  {
    CancelSuffix(a + "-" + s, b + "-" + t, "-nocloud-amd64.iso");
    SplitLast(a, s, b, t);
  }

  lemma {:induction false} CidataInjective(a: string, b: string)
    requires CidataName(a) == CidataName(b)
    ensures a == b
  {
    CancelSuffix("user-data-" + a, "user-data-" + b, ".iso");
    CancelPrefix("user-data-", a, b);
  }

  lemma {:induction false} NvramInjective(a: string, b: string)
    requires NvramKey(a) == NvramKey(b)
    ensures a == b
  {
    CancelSuffix(a, b, "_VARS.fd");
  }

  /** The last characters keep the kinds other than disks apart. */
  lemma {:induction false} LastCharacters(vm: string, schematic: string)
    ensures var n := MainName(vm); |n| > 0 && n[|n| - 1] == 'e'
    ensures var n := IsoName(vm, schematic); |n| > 0 && n[|n| - 1] == 'o'
    ensures var n := CidataName(vm); |n| > 0 && n[|n| - 1] == 'o'
    ensures var n := NvramKey(vm).name; |n| > 0 && n[|n| - 1] == 'd'
  {
    assert "-volume"[6] == 'e' && "-nocloud-amd64.iso"[17] == 'o' && ".iso"[3] == 'o' && "_VARS.fd"[7] == 'd';
  }

  // ---------------------------------------------------------------- disks against the other kinds

  /** A main volume and an additional disk share a name exactly when the disk's type is "volume" and the
      machine of the main volume is named like the disk's machine and index. */
  lemma {:induction false} MainVersusDisk(a: string, b: string, i: nat, t: string)
    requires NoDash(t)
    ensures MainName(a) == DiskVolName(b, i, t) <==> t == "volume" && a == b + "-" + Decimal(i)
  {
    if MainName(a) == DiskVolName(b, i, t) {
      assert MainName(a) == a + "-" + "volume";
      SplitLast(a, "volume", b + "-" + Decimal(i), t);
    }
  }

  /** No disk has the name of an ISO volume: before the type stands a number. */
  lemma {:induction false} IsoVersusDisk(a: string, schematic: string, b: string, i: nat, t: string)
    requires NoDash(t)
    ensures IsoName(a, schematic) != DiskVolName(b, i, t)
  {
    if IsoName(a, schematic) == DiskVolName(b, i, t) {
      var head := a + "-" + schematic;
      assert IsoName(a, schematic) == (head + "-nocloud") + "-" + "amd64.iso";
      assert NoDash("amd64.iso") && NoDash("nocloud");
      SplitLast(head + "-nocloud", "amd64.iso", b + "-" + Decimal(i), t);
      assert head + "-" + "nocloud" == b + "-" + Decimal(i);
      var digits := Decimal(i);
      assert '0' <= digits[0] <= '9';
      SplitLast(head, "nocloud", b, digits);
    }
  }

  function WithoutSuffix(s: string, suffix: string): string {
    if |suffix| <= |s| then s[..|s| - |suffix|] else ""
  }

  lemma {:induction false} SuffixSplit(s: string, suffix: string)
    requires HasSuffix(s, suffix)
    ensures WithoutSuffix(s, suffix) + suffix == s
  {
  }

  /** Two strings with a common dash-free ending have it after their last dash. */
  lemma {:induction false} DiskEnding(vm: string, i: nat, t: string, whole: string, suffix: string)
    requires NoDash(t) && NoDash(suffix)
    ensures DiskVolName(vm, i, t) == whole + suffix && '-' in whole <==>
              HasSuffix(t, suffix) && DiskVolName(vm, i, WithoutSuffix(t, suffix)) == whole
  {
    if DiskVolName(vm, i, t) == whole + suffix && '-' in whole {
      var k := LastDash(whole);
      var head, tail := whole[..k], whole[k + 1..];
      assert whole == head + "-" + tail;
      assert whole + suffix == head + "-" + (tail + suffix);
      SplitLast(vm + "-" + Decimal(i), t, head, tail + suffix);
      assert WithoutSuffix(t, suffix) == tail;
    }
    if HasSuffix(t, suffix) && DiskVolName(vm, i, WithoutSuffix(t, suffix)) == whole {
      SuffixSplit(t, suffix);
      assert whole[|vm|] == '-';
    }
  }

  lemma {:induction false} LastDash(s: string) returns (k: nat)
    requires '-' in s
    ensures k < |s| && s[k] == '-' && NoDash(s[k + 1..])
    decreases |s|
  {
    k := |s| - 1;
    if s[k] != '-' {
      var r := s[..k];
      assert '-' in r by {
        var j :| 0 <= j < |s| && s[j] == '-';
        assert r[j] == '-';
      }
      k := LastDash(r);
      assert s[k + 1..] == r[k + 1..] + [s[|s| - 1]];
    }
  }

  /** A disk has the name of a cidata volume exactly when its type ends in ".iso" and the rest of its name
      is "user-data-" and the machine of the cidata volume. */
  lemma {:induction false} CidataVersusDisk(a: string, b: string, i: nat, t: string)
    requires NoDash(t)
    ensures CidataName(a) == DiskVolName(b, i, t) <==>
              HasSuffix(t, ".iso") && DiskVolName(b, i, WithoutSuffix(t, ".iso")) == "user-data-" + a
  {
    assert ("user-data-" + a)[4] == '-';
    assert NoDash(".iso");
    DiskEnding(b, i, t, "user-data-" + a, ".iso");
  }

  /** ... and of an NVRAM volume exactly when its type ends in "_VARS.fd" and the rest is the machine. */
  lemma {:induction false} NvramVersusDisk(a: string, b: string, i: nat, t: string)
    requires NoDash(t)
    ensures NvramKey(a).name == DiskVolName(b, i, t) <==>
              HasSuffix(t, "_VARS.fd") && DiskVolName(b, i, WithoutSuffix(t, "_VARS.fd")) == a
  {
    assert NoDash("_VARS.fd");
    var n := DiskVolName(b, i, t);
    assert n[|b|] == '-';
    assert n == a + "_VARS.fd" ==> |b| < |a| && a[|b|] == '-';
    DiskEnding(b, i, t, a, "_VARS.fd");
    if DiskVolName(b, i, WithoutSuffix(t, "_VARS.fd")) == a {
      assert a[|b|] == '-';
    }
  }

  // ---------------------------------------------------------------- dash-free machines

  predicate DashFree(m: Machine) {
    NoDash(m.schematic) && forall i :: 0 <= i < |m.disks| ==> NoDash(m.disks[i].typ)
  }

  /** Disk i of a has the volume of b's main disk, cidata or NVRAM. */
  predicate MeetsAt(a: Machine, i: nat, b: Machine)
    requires i < |a.disks|
  {
    var t := a.disks[i].typ;
    || (a.pool == b.pool && t == "volume" && b.vmName == a.vmName + "-" + Decimal(i))
    || (a.pool == "config" && HasSuffix(t, ".iso")
        && DiskVolName(a.vmName, i, WithoutSuffix(t, ".iso")) == "user-data-" + b.vmName)
    || (a.pool == "nvram" && HasSuffix(t, "_VARS.fd")
        && DiskVolName(a.vmName, i, WithoutSuffix(t, "_VARS.fd")) == b.vmName)
  }

  predicate Meets(a: Machine, b: Machine) {
    exists i :: 0 <= i < |a.disks| && MeetsAt(a, i, b)
  }

  lemma {:induction false} MeetsAtExactly(a: Machine, i: nat, b: Machine)
    requires i < |a.disks| && NoDash(a.disks[i].typ)
    ensures MeetsAt(a, i, b) <==>
              DiskKey(a, i) == MainKey(b) || DiskKey(a, i) == CidataKey(b) || DiskKey(a, i) == NvramKey(b.vmName)
    ensures DiskKey(a, i) != IsoKey(b)
  {
    var t := a.disks[i].typ;
    MainVersusDisk(b.vmName, a.vmName, i, t);
    CidataVersusDisk(b.vmName, a.vmName, i, t);
    NvramVersusDisk(b.vmName, a.vmName, i, t);
    IsoVersusDisk(b.vmName, b.schematic, a.vmName, i, t);
    hide MainName, CidataName, IsoName, DiskVolName, HasSuffix, WithoutSuffix, Decimal;
    assert NvramKey(b.vmName).pool == "nvram";
  }

  // ---------------------------------------------------------------- all kinds

  lemma {:induction false} DiskVolsKeys(m: Machine, n: nat, k: VolKey)
    requires n <= |m.disks|
    ensures k in DiskVols(m, n) <==> exists i :: 0 <= i < n && k == DiskKey(m, i)
  {
    if n > 0 {
      DiskVolsKeys(m, n - 1, k);
      if k != DiskKey(m, n - 1) && k in DiskVols(m, n - 1) {
        var i :| 0 <= i < n - 1 && k == DiskKey(m, i);
        assert 0 <= i < n;
      }
    }
  }

  /** A key of a step, seen by its shape. */
  predicate Shaped(m: Machine, pc: nat, k: VolKey) {
    match pc
    case 2 => k == IsoKey(m)
    case 3 => k == MainKey(m)
    case 4 => exists i :: 0 <= i < |m.disks| && k == DiskKey(m, i)
    case 5 => k == CidataKey(m)
    case 6 => k == NvramKey(m.vmName)
    case _ => false
  }

  lemma {:induction false} StepKeyShape(m: Machine, pc: nat, k: VolKey)
    ensures k in StepKeys(m, pc) <==> Shaped(m, pc, k)
  {
    if pc == 4 {
      DiskVolsKeys(m, |m.disks|, k);
    }
  }

  lemma {:induction false} StepRange(m: Machine, pc: nat, k: VolKey)
    requires k in StepKeys(m, pc)
    ensures 2 <= pc <= 6
  {
  }

  /** Keys of the kinds other than disks meet only within their kind, and then name one machine. */
  lemma {:induction false} OtherKinds(a: Machine, p: nat, b: Machine, q: nat, k: VolKey)
    requires NoDash(a.schematic) && NoDash(b.schematic) && p != 4 && q != 4 && Shaped(a, p, k) && Shaped(b, q, k)
    ensures p == q && a.vmName == b.vmName
  {
    LastCharacters(a.vmName, a.schematic);
    LastCharacters(b.vmName, b.schematic);
    hide IsoName, CidataName, MainName;
    if p == q {
      match p {
        case 2 => IsoInjective(a.vmName, a.schematic, b.vmName, b.schematic);
        case 3 => MainInjective(a.vmName, b.vmName);
        case 5 => CidataInjective(a.vmName, b.vmName);
        case _ => NvramInjective(a.vmName, b.vmName);
      }
    }
  }

  /** Ownership of names, for dash-free schematics and types: a volume key belongs to one machine and one
      step, unless a disk meets a main volume, a cidata volume or an NVRAM volume. */
  lemma {:induction false} KeyOwner(a: Machine, p: nat, b: Machine, q: nat, k: VolKey)
    requires DashFree(a) && DashFree(b) && k in StepKeys(a, p) && k in StepKeys(b, q)
    ensures || (p == q && a.vmName == b.vmName)
            || (p == 4 && q != 4 && Meets(a, b))
            || (q == 4 && p != 4 && Meets(b, a))
  {
    StepKeyShape(a, p, k);
    StepKeyShape(b, q, k);
    if p == 4 && q == 4 {
      var i :| 0 <= i < |a.disks| && k == DiskKey(a, i);
      var j :| 0 <= j < |b.disks| && k == DiskKey(b, j);
      DiskInjective(a.vmName, i, a.disks[i].typ, b.vmName, j, b.disks[j].typ);
    } else if p == 4 {
      var i :| 0 <= i < |a.disks| && k == DiskKey(a, i);
      hide MeetsAt, DiskKey, IsoKey, MainKey, CidataKey, NvramKey, StepKeys;
      MeetsAtExactly(a, i, b);
    } else if q == 4 {
      var j :| 0 <= j < |b.disks| && k == DiskKey(b, j);
      hide MeetsAt, DiskKey, IsoKey, MainKey, CidataKey, NvramKey, StepKeys;
      MeetsAtExactly(b, j, a);
    } else {
      hide Shaped;
      OtherKinds(a, p, b, q, k);
    }
  }

  /** All volume keys of a machine. */
  function AllKeys(m: Machine): set<VolKey> {
    StepKeys(m, 2) + StepKeys(m, 3) + StepKeys(m, 4) + StepKeys(m, 5) + StepKeys(m, 6)
  }

  lemma {:induction false} KeyStep(m: Machine, k: VolKey)
    ensures k in AllKeys(m) <==> exists p :: 2 <= p <= 6 && k in StepKeys(m, p)
  {
    hide StepKeys;
  }

  /** Two machines share a volume key if and only if a disk of one meets the other. */
  lemma {:induction false} ShareExactly(a: Machine, b: Machine)
    requires DashFree(a) && DashFree(b) && a.vmName != b.vmName
    ensures AllKeys(a) !! AllKeys(b) <==> !Meets(a, b) && !Meets(b, a)
  {
    hide AllKeys, StepKeys, Meets;
    forall k | k in AllKeys(a) && k in AllKeys(b) ensures Meets(a, b) || Meets(b, a) {
      KeyStep(a, k);
      KeyStep(b, k);
      var p :| 2 <= p <= 6 && k in StepKeys(a, p);
      var q :| 2 <= q <= 6 && k in StepKeys(b, q);
      KeyOwner(a, p, b, q, k);
    }
    if Meets(a, b) {
      MeetsShares(a, b);
    }
    if Meets(b, a) {
      MeetsShares(b, a);
    }
  }

  lemma {:induction false} MeetsShares(a: Machine, b: Machine)
    requires DashFree(a) && Meets(a, b)
    ensures exists k :: k in AllKeys(a) && k in AllKeys(b)
  {
    var i :| 0 <= i < |a.disks| && MeetsAt(a, i, b);
    MeetsAtExactly(a, i, b);
    var k := DiskKey(a, i);
    StepKeyShape(a, 4, k);
    StepKeyShape(b, 3, k);
    StepKeyShape(b, 5, k);
    StepKeyShape(b, 6, k);
    assert k in AllKeys(a) && k in AllKeys(b);
  }

  /** Disk types that createVM accepts never meet anything. */
  lemma {:induction false} KnownTypesMeetNothing(a: Machine, b: Machine)
    requires forall i :: 0 <= i < |a.disks| ==> a.disks[i].typ == "nvme" || a.disks[i].typ == "sata"
    ensures !Meets(a, b)
  {
    assert "sata"[0] == 's' && ".iso"[0] == '.' && "nvme"[0] == 'n';
  }

  // ---------------------------------------------------------------- collisions of dash-free names

  /** "a-0" and the first disk, of type "volume", of "a". */
  lemma {:induction false} TypeVolumeCollides()
    ensures NoDash("volume") && "a-0" != "a" && MainName("a-0") == DiskVolName("a", 0, "volume")
  {
    assert Decimal(0) == "0";
    assert "a" + "-" + Decimal(0) == "a-0";
    MainVersusDisk("a-0", "a", 0, "volume");
  }

  /** In pool "config": the first disk, of type "x.iso", of "user-data" is the cidata volume of "0-x". */
  lemma {:induction false} CidataCollides(a: Machine, b: Machine)
    requires a.vmName == "user-data" && a.pool == "config" && a.disks == [DiskData("x.iso", 1)] && b.vmName == "0-x"
    ensures NoDash("x.iso") && DiskKey(a, 0) == CidataKey(b) && Meets(a, b)
  {
    assert Decimal(0) == "0";
    assert DiskVolName("user-data", 0, "x.iso") == "user-data-0-x.iso" == CidataName("0-x");
    MeetsAtExactly(a, 0, b);
  }

  /** In pool "nvram": the first disk, of type "x_VARS.fd", of "v" is the NVRAM volume of "v-0-x". */
  lemma {:induction false} NvramCollides(a: Machine, b: Machine)
    requires a.vmName == "v" && a.pool == "nvram" && a.disks == [DiskData("x_VARS.fd", 1)] && b.vmName == "v-0-x"
    ensures NoDash("x_VARS.fd") && DiskKey(a, 0) == NvramKey(b.vmName) && Meets(a, b)
  {
    assert Decimal(0) == "0";
    assert DiskVolName("v", 0, "x_VARS.fd") == "v-0-x_VARS.fd" == NvramKey("v-0-x").name;
    MeetsAtExactly(a, 0, b);
  }

  // ---------------------------------------------------------------- one machine

  /** No disk has the volume of the machine's own ISO.  This is all that a single machine needs; it can
      only fail in pool "isos", for a type with dashes. */
  predicate Safe(m: Machine) {
    forall i :: 0 <= i < |m.disks| ==> DiskKey(m, i) != IsoKey(m)
  }

  /** "v" with schematic "0" and a first disk of type "nocloud-amd64.iso". */
  lemma {:induction false} OwnIsoCollides(m: Machine)
    requires m.vmName == "v" && m.schematic == "0" && m.pool == "isos" && m.disks == [DiskData("nocloud-amd64.iso", 1)]
    ensures DiskKey(m, 0) == IsoKey(m) && !Safe(m)
  {
    assert Decimal(0) == "0";
    assert DiskVolName("v", 0, "nocloud-amd64.iso") == "v-0-nocloud-amd64.iso" == IsoName("v", "0");
  }

  lemma {:induction false} DashFreeIsSafe(m: Machine)
    requires DashFree(m)
    ensures Safe(m)
  {
    forall i | 0 <= i < |m.disks| ensures DiskKey(m, i) != IsoKey(m) {
      MeetsAtExactly(m, i, m);
    }
  }

  /** A machine's disks have distinct volumes, whatever their types. */
  lemma {:induction false} DiskKeysDistinct(m: Machine, i: nat, j: nat)
    requires i < |m.disks| && j < |m.disks| && DiskKey(m, i) == DiskKey(m, j)
    ensures i == j
  {
    OwnDiskName(m.vmName, i, m.disks[i].typ);
    OwnDiskName(m.vmName, j, m.disks[j].typ);
    CancelPrefix(m.vmName + "-", Decimal(i) + "-" + m.disks[i].typ, Decimal(j) + "-" + m.disks[j].typ);
    SplitFirst(Decimal(i), m.disks[i].typ, Decimal(j), m.disks[j].typ);
    DecimalInjective(i, j);
  }

  /** A disk's name is the machine's, a dash and a digit. */
  lemma {:induction false} OwnDiskName(vm: string, i: nat, t: string)
    ensures DiskVolName(vm, i, t) == (vm + "-") + (Decimal(i) + "-" + t)
    ensures var n := DiskVolName(vm, i, t); |n| > |vm| + 1 && n[|vm|] == '-' && '0' <= n[|vm| + 1] <= '9'
    ensures DiskVolName(vm, i, t)[..|vm|] == vm
  {
  }

  /** "user-data-" repeated has no digit after a dash. */
  lemma {:induction false} NoDigitAfterDash(vm: string, k: nat)
    requires var s := "user-data-" + vm + ".iso"; k <= |vm| && s[..|vm|] == vm
    ensures var s := "user-data-" + vm + ".iso"; s[k] == '-' ==> s[k + 1] == 'd' || s[k + 1] == 'u'
    decreases k
  {
    var u := "user-data-";
    var s := u + vm + ".iso";
    assert forall j :: 0 <= j < |vm| ==> s[j] == vm[j] && s[j + 10] == vm[j];
    if k >= 10 {
      NoDigitAfterDash(vm, k - 10);
    } else if k == 9 {
      assert s[10] == vm[0] == s[0] == 'u';
    } else {
      assert s[k] == u[k] && s[k + 1] == u[k + 1];
    }
  }

  lemma {:induction false} OwnCidataApart(vm: string, i: nat, t: string)
    ensures DiskVolName(vm, i, t) != CidataName(vm)
  {
    OwnDiskName(vm, i, t);
    if DiskVolName(vm, i, t) == CidataName(vm) {
      NoDigitAfterDash(vm, |vm|);
    }
  }

  lemma {:induction false} OwnOthersApart(vm: string, i: nat, t: string)
    ensures DiskVolName(vm, i, t) != MainName(vm) && DiskVolName(vm, i, t) != NvramKey(vm).name
  {
    OwnDiskName(vm, i, t);
    assert MainName(vm)[|vm| + 1] == "-volume"[1] == 'v';
    assert NvramKey(vm).name[|vm|] == "_VARS.fd"[0] == '_';
  }

  lemma {:induction false} OwnOtherKinds(m: Machine, p: nat, q: nat, k: VolKey)
    requires p != 4 && q != 4 && Shaped(m, p, k) && Shaped(m, q, k)
    ensures p == q
  {
    LastCharacters(m.vmName, m.schematic);
    hide IsoName, CidataName, MainName;
  }

  lemma {:induction false} OwnDiskApart(m: Machine, i: nat)
    requires i < |m.disks|
    ensures DiskKey(m, i) != MainKey(m) && DiskKey(m, i) != CidataKey(m) && DiskKey(m, i) != NvramKey(m.vmName)
  {
    OwnCidataApart(m.vmName, i, m.disks[i].typ);
    OwnOthersApart(m.vmName, i, m.disks[i].typ);
    hide DiskVolName, MainName, CidataName;
  }

  /** A machine's own volume key belongs to one step. */
  lemma {:induction false} OwnKey(m: Machine, p: nat, q: nat, k: VolKey)
    requires Safe(m) && k in StepKeys(m, p) && k in StepKeys(m, q)
    ensures p == q
  {
    StepKeyShape(m, p, k);
    StepKeyShape(m, q, k);
    if p != q && (p == 4 || q == 4) {
      var i :| 0 <= i < |m.disks| && k == DiskKey(m, i);
      OwnDiskApart(m, i);
      hide DiskKey, IsoKey, MainKey, CidataKey, NvramKey, StepKeys;
    } else if p != q {
      hide Shaped, StepKeys;
      OwnOtherKinds(m, p, q, k);
    }
  }

  /** The NVRAM name without a machine is no machine's. */
  lemma {:induction false} NamelessElsewhere(m: Machine, p: nat)
    requires p < 6 || m.vmName != ""
    ensures NvramKey("") !in StepKeys(m, p)
  {
    StepKeyShape(m, p, NvramKey(""));
    LastCharacters(m.vmName, m.schematic);
    assert NoDash(NvramKey("").name);
    forall i | 0 <= i < |m.disks| ensures DiskKey(m, i) != NvramKey("") {
      assert DiskKey(m, i).name[|m.vmName|] == '-';
    }
    if p == 6 && NvramKey("") == NvramKey(m.vmName) {
      NvramInjective("", m.vmName);
    }
  }
}
