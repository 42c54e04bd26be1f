/** Target device names of the disks createVM assembles (provision.go). */
module Disks {
  import opened Names
  import opened Wire

  /** What fmt.Sprint prints for a rune: its decimal code point, 97 for 'a'. */
  function Code(letter: nat): (s: string)
    requires letter < 26
    ensures letter < 3 ==> |s| == 2 && s[0] == '9'
    ensures letter >= 3 ==> |s| == 3 && s[0] == '1'
  {
    var n := 97 + letter;
    assert letter < 3 ==> Decimal(n) == Decimal(9) + [Digit(n % 10)];
    assert letter >= 3 ==>
        Decimal(n) == Decimal(n / 10) + [Digit(n % 10)] && Decimal(n / 10) == Decimal(1) + [Digit(n / 10 % 10)];
    Decimal(n)
  }

  /** Bijective base 26, most significant letter first; -1 stands for the empty name. */
  function Letters(idx: int): string
    requires idx >= -1
  {
    if idx < 0 then "" else Letters(idx / 26 - 1) + Code(idx % 26)
  }

  /** Reading the codes back: a first digit 9 starts a code of two digits, a 1 one of three. */
  function LettersValue(s: string, acc: int): int
    decreases |s|
  {
    if |s| >= 2 && s[0] == '9' then LettersValue(s[2..], 26 * (acc + 1) + (s[1] as int - '7' as int))
    else if |s| >= 3 && s[0] == '1' then
      LettersValue(s[3..], 26 * (acc + 1) + 3 + 10 * (s[1] as int - '0' as int) + (s[2] as int - '0' as int))
    else acc
  }

  lemma {:induction false} CodeValue(letter: nat, acc: int, rest: string)
    requires letter < 26
    ensures LettersValue(Code(letter) + rest, acc) == LettersValue(rest, 26 * (acc + 1) + letter)
  {
    var n := 97 + letter;
    var s := Code(letter) + rest;
    assert Decimal(n) == Decimal(n / 10) + [Digit(n % 10)];
    if letter < 3 {
      assert Decimal(9) == ['9'];
      assert s[2..] == rest;
    } else {
      assert Decimal(n / 10) == Decimal(n / 100) + [Digit((n / 10) % 10)];
      assert Decimal(n / 100) == ['1'];
      assert s[3..] == rest;
    }
  }

  /** The decimal codes are uniquely decodable: the printed name determines the index. */
  lemma {:induction false} LettersDecode(idx: int, rest: string)
    requires idx >= -1
    ensures LettersValue(Letters(idx) + rest, -1) == LettersValue(rest, idx)
  {
    hide Code, Decimal, LettersValue;
    if idx >= 0 {
      var hi := idx / 26 - 1;
      LettersDecode(hi, Code(idx % 26) + rest);
      assert Letters(idx) + rest == Letters(hi) + (Code(idx % 26) + rest);
      CodeValue(idx % 26, hi, rest);
    } else {
      assert Letters(idx) + rest == rest;
    }
  }

  lemma {:induction false} LettersInjective(i: int, j: int)
    requires i >= -1 && j >= -1 && Letters(i) == Letters(j)
    ensures i == j
  {
    LettersDecode(i, "");
    LettersDecode(j, "");
    assert Letters(i) + "" == Letters(i) == Letters(j) + "";
  }

  lemma {:induction false} LettersStart(idx: nat)
    ensures Letters(idx) != "" && (Letters(idx)[0] == '9' || Letters(idx)[0] == '1')
  {
    if idx >= 26 {
      LettersStart(idx / 26 - 1);
    } else {
      assert Letters(idx / 26 - 1) == "";
      assert Letters(idx) == Code(idx % 26);
    }
  }

  /** The letter loop. */
  method DeviceLetters(start: nat) returns (s: string)
    ensures s == Letters(start)
  {
    var idx: int := start;
    s := "";
    while idx >= 0
      invariant idx >= -1
      invariant Letters(idx) + s == Letters(start)
      decreases idx
    {
      assert Letters(idx) + s == Letters(idx / 26 - 1) + (Code(idx % 26) + s);
      s := Code(idx % 26) + s;
      idx := idx / 26 - 1;
    }
  }

  // ---------------------------------------------------------------- the disk list

  const FIXED_DEVICES: seq<string> := ["sdd", "sdb", "sdc"]

  function SataName(k: nat): string { "sd" + Letters(k) }

  function NvmeName(k: nat): string { "nvme" + Decimal(k) + "n1" }

  /** How many of the first n types are t. */
  function Count(types: seq<string>, t: string, n: nat): (c: nat)
    requires n <= |types|
    ensures c <= n
  {
    if n == 0 then 0 else Count(types, t, n - 1) + (if types[n - 1] == t then 1 else 0)
  }

  /** Device of additional disk k: sata disks are numbered from 2 on, nvme disks from 0. */
  function DeviceName(types: seq<string>, k: nat): string
    requires k < |types|
  {
    if types[k] == "nvme" then NvmeName(Count(types, "nvme", k)) else SataName(2 + Count(types, "sata", k))
  }

  /** The fixed three devices and those of the first n additional disks. */
  function Devices(types: seq<string>, n: nat): (r: seq<string>)
    requires n <= |types|
    ensures |r| == 3 + n
  {
    if n == 0 then FIXED_DEVICES else Devices(types, n - 1) + [DeviceName(types, n - 1)]
  }

  predicate KnownType(t: string) {
    t == "nvme" || t == "sata"
  }

  /** The device names of all disks, in list order; the first unknown type is the error. */
  method AssembleDevices(types: seq<string>) returns (r: Option<seq<string>>, bad: nat)
    ensures r.Some? <==> forall k :: 0 <= k < |types| ==> KnownType(types[k])
    ensures r.Some? ==> r.value == Devices(types, |types|)
    ensures r.None? ==> bad < |types| && !KnownType(types[bad]) && forall k :: 0 <= k < bad ==> KnownType(types[k])
  {
    hide Letters, Decimal;
    var disks := FIXED_DEVICES;
    var sataDiskCount, nvmeDiskCount := 2, 0;
    bad := 0;
    for k := 0 to |types|
      invariant sataDiskCount == 2 + Count(types, "sata", k) && nvmeDiskCount == Count(types, "nvme", k)
      invariant disks == Devices(types, k)
      invariant forall j :: 0 <= j < k ==> KnownType(types[j])
    {
      var dev: string;
      if types[k] == "nvme" {
        dev := "nvme" + Decimal(nvmeDiskCount) + "n1";
        nvmeDiskCount := nvmeDiskCount + 1;
      } else if types[k] == "sata" {
        var s := DeviceLetters(sataDiskCount);
        dev := "sd" + s;
        sataDiskCount := sataDiskCount + 1;
      } else {
        return None, k;
      }
      disks := disks + [dev];
    }
    r := Some(disks);
  }

  lemma {:induction false} CountGrows(types: seq<string>, t: string, i: nat, j: nat)
    requires i < j <= |types| && types[i] == t
    ensures Count(types, t, i) < Count(types, t, j)
    decreases j
  {
    if j > i + 1 {
      CountGrows(types, t, i, j - 1);
    }
  }

  lemma {:induction false} NvmeInjective(i: nat, j: nat)
    requires NvmeName(i) == NvmeName(j)
    ensures i == j
  {
    CancelSuffix("nvme" + Decimal(i), "nvme" + Decimal(j), "n1");
    CancelPrefix("nvme", Decimal(i), Decimal(j));
    DecimalInjective(i, j);
  }

  /** The shape that keeps the kinds of name apart. */
  lemma {:induction false} NameShapes(i: nat, k: nat)
    ensures NvmeName(i)[0] == 'n' && SataName(k)[0] == 's'
    ensures SataName(k) !in FIXED_DEVICES && NvmeName(i) !in FIXED_DEVICES
  {
    LettersStart(k);
    assert SataName(k)[2] == Letters(k)[0];
  }

  lemma {:induction false} SameKindDistinct(types: seq<string>, p: nat, q: nat)
    requires p < q < |types| && types[p] == types[q] && KnownType(types[p])
    ensures DeviceName(types, p) != DeviceName(types, q)
  {
    CountGrows(types, types[p], p, q);
    hide Letters, Decimal, Count;
    if DeviceName(types, p) == DeviceName(types, q) {
      if types[p] == "nvme" {
        NvmeInjective(Count(types, "nvme", p), Count(types, "nvme", q));
      } else {
        var a, b := 2 + Count(types, "sata", p), 2 + Count(types, "sata", q);
        CancelPrefix("sd", Letters(a), Letters(b));
        LettersInjective(a, b);
      }
    }
  }

  lemma {:induction false} NameShape(types: seq<string>, k: nat)
    requires k < |types|
    ensures DeviceName(types, k) !in FIXED_DEVICES && DeviceName(types, k) != ""
    ensures types[k] == "nvme" ==> DeviceName(types, k)[0] == 'n'
    ensures types[k] != "nvme" ==> DeviceName(types, k)[0] == 's'
  {
    hide Letters, Decimal, Count;
    NameShapes(Count(types, "nvme", k), 2 + Count(types, "sata", k));
  }

  lemma {:induction false} AdditionalDistinct(types: seq<string>, p: nat, q: nat)
    requires p < q < |types| && KnownType(types[p]) && KnownType(types[q])
    ensures DeviceName(types, p) != DeviceName(types, q)
  {
    if types[p] == types[q] {
      SameKindDistinct(types, p, q);
    } else {
      NameShape(types, p);
      NameShape(types, q);
    }
  }

  lemma {:induction false} FixedDistinct(i: nat, j: nat)
    requires i < j < 3
    ensures FIXED_DEVICES[i] != FIXED_DEVICES[j]
  {
    assert FIXED_DEVICES[0][2] == 'd' && FIXED_DEVICES[1][2] == 'b' && FIXED_DEVICES[2][2] == 'c';
  }

  /** The list, entry by entry. */
  lemma {:induction false} AdditionalAt(types: seq<string>, n: nat, k: nat)
    requires k < n <= |types|
    ensures Devices(types, n)[3 + k] == DeviceName(types, k)
  {
    hide DeviceName;
    if k < n - 1 {
      AdditionalAt(types, n - 1, k);
    }
  }

  lemma {:induction false} FixedAt(types: seq<string>, n: nat, i: nat)
    requires i < 3 && n <= |types|
    ensures Devices(types, n)[i] == FIXED_DEVICES[i]
  {
    hide DeviceName;
    if n > 0 {
      FixedAt(types, n - 1, i);
    }
  }

  lemma {:induction false} AdditionalDevicesDistinct(types: seq<string>, p: nat, q: nat)
    requires p < q < |types| && KnownType(types[p]) && KnownType(types[q])
    ensures Devices(types, |types|)[3 + p] != Devices(types, |types|)[3 + q]
  {
    hide DeviceName, Devices, KnownType;
    AdditionalAt(types, |types|, p);
    AdditionalAt(types, |types|, q);
    AdditionalDistinct(types, p, q);
  }

  lemma {:induction false} NotFixed(types: seq<string>, k: nat, i: nat)
    requires k < |types| && i < 3
    ensures DeviceName(types, k) != FIXED_DEVICES[i]
  {
    NameShape(types, k);
    hide *;
    assert FIXED_DEVICES[i] in FIXED_DEVICES;
  }

  lemma {:induction false} FixedVersusAdditional(types: seq<string>, i: nat, q: nat)
    requires i < 3 && q < |types|
    ensures Devices(types, |types|)[i] != Devices(types, |types|)[3 + q]
  {
    hide *;
    FixedAt(types, |types|, i);
    AdditionalAt(types, |types|, q);
    NotFixed(types, q, i);
  }

  lemma {:induction false} FixedVersusFixed(types: seq<string>, i: nat, j: nat)
    requires i < j < 3
    ensures Devices(types, |types|)[i] != Devices(types, |types|)[j]
  {
    hide *;
    FixedAt(types, |types|, i);
    FixedAt(types, |types|, j);
    FixedDistinct(i, j);
  }

  /** No two disks of a machine share a target device, however many disks there are and in whatever
      order: the fixed three, the nvme and the sata names. */
  lemma {:induction false} DevicesDistinct(types: seq<string>, i: nat, j: nat)
    requires forall k :: 0 <= k < |types| ==> KnownType(types[k])
    requires i < j < 3 + |types|
    ensures Devices(types, |types|)[i] != Devices(types, |types|)[j]
  {
    hide *;
    if j < 3 {
      FixedVersusFixed(types, i, j);
    } else {
      var q := j - 3;
      assert 3 + q == j;
      if i < 3 {
        FixedVersusAdditional(types, i, q);
      } else {
        var p := i - 3;
        AdditionalDevicesDistinct(types, p, q);
        assert 3 + p == i;
      }
    }
  }

  // ---------------------------------------------------------------- the names, literally

  /** The disks of type t before the k-th. */
  function Before(types: seq<string>, t: string, k: nat): set<nat>
    requires k <= |types|
  {
    set j: nat | j < k && types[j] == t
  }

  lemma {:induction false} CountIsSize(types: seq<string>, t: string, k: nat)
    requires k <= |types|
    ensures Count(types, t, k) == |Before(types, t, k)|
  {
    if k == 0 {
      assert Before(types, t, k) == {};
    } else {
      CountIsSize(types, t, k - 1);
      if types[k - 1] == t {
        assert Before(types, t, k) == Before(types, t, k - 1) + {k - 1};
      } else {
        assert Before(types, t, k) == Before(types, t, k - 1);
      }
    }
  }

  /** The devices are sdd, sdb and sdc, and then, disk by disk, for an nvme disk "nvme", the number of nvme disks
      before it and "n1", and for a sata disk "sd" and letters that read as 2 plus the number of sata disks
      before it. */
  lemma {:induction false} DevicesAre(types: seq<string>)
    requires forall k :: 0 <= k < |types| ==> KnownType(types[k])
    ensures var r := Devices(types, |types|);
            && |r| == 3 + |types| && r[0] == "sdd" && r[1] == "sdb" && r[2] == "sdc"
            && forall k :: 0 <= k < |types| ==>
                 && (types[k] == "nvme" ==> r[3 + k] == "nvme" + Decimal(|Before(types, "nvme", k)|) + "n1")
                 && (types[k] == "sata" ==>
                       |r[3 + k]| >= 2 && r[3 + k][..2] == "sd"
                       && LettersValue(r[3 + k][2..], -1) == 2 + |Before(types, "sata", k)|)
  {
    FixedAt(types, |types|, 0);
    FixedAt(types, |types|, 1);
    FixedAt(types, |types|, 2);
    hide Devices, Before, LettersValue, Decimal;
    forall k | 0 <= k < |types|
      ensures var d := Devices(types, |types|)[3 + k];
              && (types[k] == "nvme" ==> d == "nvme" + Decimal(|Before(types, "nvme", k)|) + "n1")
              && (types[k] == "sata" ==>
                    |d| >= 2 && d[..2] == "sd" && LettersValue(d[2..], -1) == 2 + |Before(types, "sata", k)|)
    {
      DeviceIs(types, k);
    }
  }

  lemma {:induction false} DeviceIs(types: seq<string>, k: nat)
    requires k < |types|
    ensures var d := Devices(types, |types|)[3 + k];
            && (types[k] == "nvme" ==> d == "nvme" + Decimal(|Before(types, "nvme", k)|) + "n1")
            && (types[k] == "sata" ==>
                  |d| >= 2 && d[..2] == "sd" && LettersValue(d[2..], -1) == 2 + |Before(types, "sata", k)|)
  {
    AdditionalAt(types, |types|, k);
    CountIsSize(types, "nvme", k);
    CountIsSize(types, "sata", k);
    hide Devices, Count, Before, Letters, LettersValue, Decimal;
    if types[k] == "sata" {
      var idx := 2 + Count(types, "sata", k);
      LettersRead(idx);
      assert ("sd" + Letters(idx))[2..] == Letters(idx);
    }
  }

  lemma {:induction false} LettersRead(idx: int)
    requires idx >= -1
    ensures LettersValue(Letters(idx), -1) == idx
  {
    LettersDecode(idx, "");
    assert Letters(idx) + "" == Letters(idx);
    assert LettersValue("", idx) == idx;
  }

  /** The first sata disk and the first nvme disk. */
  lemma {:induction false} FirstDevices()
    ensures SataName(2) == "sd99" && NvmeName(0) == "nvme0n1"
  {
    assert Decimal(9) == "9";
    assert Decimal(99) == Decimal(9) + [Digit(9)] == "99";
    assert Letters(2) == Letters(-1) + Code(2) == "99";
    assert "sd" + "99" == "sd99";
    assert "nvme" + Decimal(0) + "n1" == "nvme0n1";
  }
}
