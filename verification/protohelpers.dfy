/** Cursor loops over bytes: the helper package the generated code calls, and the varint, length and
    record loops that the generator unrolls into every message.  Each is proved against wire.dfy. */
module Protohelpers {
  import opened Wire

  // ---------------------------------------------------------------- writing backwards

  /** `before` with `bytes` at offset i and nothing else changed. */
  ghost function Overwrite(before: Bytes, i: nat, bytes: Bytes): (after: Bytes)
    requires i + |bytes| <= |before|
    ensures |after| == |before|
  {
    before[..i] + bytes + before[i + |bytes|..]
  }

  /** Writing y just before x, in two calls, is writing y + x. */
  lemma {:induction false} OverwriteThen(a: Bytes, j: nat, y: Bytes, x: Bytes)
    requires j + |y| + |x| <= |a|
    ensures Overwrite(Overwrite(a, j + |y|, x), j, y) == Overwrite(a, j, y + x)
  {
    var i := j + |y|;
    var b := Overwrite(a, i, x);
    assert b[..j] == a[..j];
    assert b[i..] == x + a[i + |x|..];
    assert a[..j] + y + (x + a[i + |x|..]) == a[..j] + (y + x) + a[i + |x|..];
  }

  /** One more byte stored behind those already written. */
  lemma {:induction false} OverwriteNext(a: Bytes, i: nat, bytes: Bytes, b: Byte)
    requires i + |bytes| < |a|
    ensures Overwrite(a, i, bytes)[i + |bytes| := b] == Overwrite(a, i, bytes + [b])
  {
    var k := i + |bytes|;
    assert Overwrite(a, i, bytes)[k := b] == a[..i] + bytes + [b] + a[k + 1..];
    assert a[..i] + bytes + [b] == a[..i] + (bytes + [b]);
  }

  lemma {:induction false} OverwriteNothing(a: Bytes, i: nat)
    requires i <= |a|
    ensures Overwrite(a, i, []) == a
  {
    assert a == a[..i] + [] + a[i..];
  }

  lemma {:induction false} OverwriteAll(a: Bytes, bytes: Bytes)
    requires |a| == |bytes|
    ensures Overwrite(a, 0, bytes) == bytes
  {
  }

  /** The minimal varint, ending just before `offset`; returns where it begins. */
  method EncodeVarint(dAtA: array<Byte>, offset: nat, v: nat) returns (base: nat)
    requires SizeOfVarint(v) <= offset <= dAtA.Length
    modifies dAtA
    ensures base == offset - SizeOfVarint(v)
    ensures dAtA[..] == Overwrite(old(dAtA[..]), base, EncVarint(v))
  {
    hide Overwrite;
    base := offset - SizeOfVarint(v);
    var at, x := base, v;
    ghost var done: Bytes := [];
    OverwriteNothing(dAtA[..], base);
    while x >= 128
      invariant at == base + |done| && at + SizeOfVarint(x) == offset
      invariant done + EncVarint(x) == EncVarint(v)
      invariant dAtA[..] == Overwrite(old(dAtA[..]), base, done)
    {
      OverwriteNext(old(dAtA[..]), base, done, x % 128 + 128);
      assert done + EncVarint(x) == done + [x % 128 + 128] + EncVarint(x / 128);
      dAtA[at] := x % 128 + 128;
      done := done + [x % 128 + 128];
      x := x / 128;
      at := at + 1;
    }
    OverwriteNext(old(dAtA[..]), base, done, x);
    dAtA[at] := x;
  }

  /** Go's copy(dAtA[i:], s) into a place that is large enough. */
  method Copy(dAtA: array<Byte>, i: nat, s: Bytes)
    requires i + |s| <= dAtA.Length
    modifies dAtA
    ensures dAtA[..] == Overwrite(old(dAtA[..]), i, s)
  {
    hide Overwrite;
    OverwriteNothing(dAtA[..], i);
    for k := 0 to |s|
      invariant dAtA[..] == Overwrite(old(dAtA[..]), i, s[..k])
    {
      OverwriteNext(old(dAtA[..]), i, s[..k], s[k]);
      assert s[..k + 1] == s[..k] + [s[k]];
      dAtA[i + k] := s[k];
    }
    assert s[..|s|] == s;
  }

  /** Length prefix and tag in front of a payload of n bytes that already stands at i. */
  method PutPrefix(dAtA: array<Byte>, i: nat, tag: Bytes, ghost num: nat, n: nat) returns (j: nat)
    requires tag == EncVarint(8 * num + 2) && |tag| <= 2
    requires |tag| + SizeOfVarint(n) <= i <= dAtA.Length
    modifies dAtA
    ensures j == i - SizeOfVarint(n) - |tag|
    ensures dAtA[..] == Overwrite(old(dAtA[..]), j, tag + EncVarint(n))
  {
    hide Overwrite, EncVarint, SizeOfVarint;
    j := EncodeVarint(dAtA, i, n);
    ghost var mid := dAtA[..];
    j := j - |tag|;
    Copy(dAtA, j, tag);
    OverwriteThen(old(dAtA[..]), j, tag, EncVarint(n));
  }

  lemma {:induction false} EncFieldParts(num: nat, payload: Bytes, tag: Bytes, rest: Bytes)
    requires tag == EncVarint(8 * num + 2)
    ensures tag + EncVarint(|payload|) + (payload + rest) == EncField(num, payload) + rest
    ensures |EncField(num, payload)| == |tag| + SizeOfVarint(|payload|) + |payload|
  {
    hide EncVarint;
    var l := EncVarint(|payload|);
    assert tag + l + (payload + rest) == tag + (l + payload) + rest;
  }

  /** Completes a field whose payload stands at i, in front of the `rest` already written to the buffer
      that was `a`. */
  method PutField(dAtA: array<Byte>, i: nat, tag: Bytes, ghost num: nat, n: nat, ghost payload: Bytes, ghost a: Bytes,
                  ghost rest: Bytes)
    returns (j: nat)
    requires tag == EncVarint(8 * num + 2) && |tag| <= 2 && n == |payload|
    requires |EncField(num, payload)| <= i + n && i <= dAtA.Length
    requires i + |payload + rest| <= |a| && dAtA[..] == Overwrite(a, i, payload + rest)
    modifies dAtA
    ensures j == i + n - |EncField(num, payload)|
    ensures dAtA[..] == Overwrite(a, j, EncField(num, payload) + rest)
  {
    hide Overwrite, EncField, EncVarint, SizeOfVarint;
    EncFieldParts(num, payload, tag, rest);
    j := PutPrefix(dAtA, i, tag, num, n);
    OverwriteThen(a, j, tag + EncVarint(n), payload + rest);
  }

  /** The block the generator emits for one string field; `tag` holds the bytes the generator has as literals. */
  method PutString(dAtA: array<Byte>, i: nat, tag: Bytes, ghost num: nat, s: Bytes, ghost a: Bytes, ghost rest: Bytes)
    returns (j: nat)
    requires tag == EncVarint(8 * num + 2) && |tag| <= 2
    requires |EncString(num, s)| <= i <= dAtA.Length
    requires i + |rest| <= |a| && dAtA[..] == Overwrite(a, i, rest)
    modifies dAtA
    ensures j == i - |EncString(num, s)|
    ensures dAtA[..] == Overwrite(a, j, EncString(num, s) + rest)
  {
    hide Overwrite, EncField, EncVarint, SizeOfVarint;
    j := i;
    if |s| > 0 {
      j := j - |s|;
      Copy(dAtA, j, s);
      OverwriteThen(a, j, s, rest);
      j := PutField(dAtA, j, tag, num, |s|, s, a, rest);
    } else {
      assert EncString(num, s) + rest == rest;
    }
  }

  /** What SizeVT adds for one string field with a tag of tagSize bytes. */
  function SizeString(tagSize: nat, ghost num: nat, s: Bytes): (n: nat)
    requires tagSize == SizeOfVarint(8 * num + 2)
    ensures n == |EncString(num, s)|
  {
    if |s| > 0 then tagSize + |s| + SizeOfVarint(|s|) else 0
  }

  // ---------------------------------------------------------------- reading

  function Pow2(n: nat): (p: nat)
    ensures p >= 1
  {
    if n == 0 then 1 else 2 * Pow2(n - 1)
  }

  lemma {:induction false} Pow2Plus7(n: nat)
    ensures Pow2(n + 7) == 128 * Pow2(n)
  {
    assert Pow2(n + 7) == 2 * Pow2(n + 6);
    assert Pow2(n + 6) == 2 * Pow2(n + 5);
    assert Pow2(n + 5) == 2 * Pow2(n + 4);
    assert Pow2(n + 4) == 2 * Pow2(n + 3);
    assert Pow2(n + 3) == 2 * Pow2(n + 2);
    assert Pow2(n + 2) == 2 * Pow2(n + 1);
  }

  /** Bitwise or. */
  function BitOr(a: nat, b: nat): nat {
    if a == 0 then b
    else if b == 0 then a
    else 2 * BitOr(a / 2, b / 2) + (if a % 2 == 1 || b % 2 == 1 then 1 else 0)
  }

  /** Numbers without a common bit: or is addition. */
  lemma {:induction false} OrIsAdd(a: nat, k: nat, c: nat)
    requires a < Pow2(k)
    ensures BitOr(a, Pow2(k) * c) == a + Pow2(k) * c
  {
    var b := Pow2(k) * c;
    if k > 0 && a != 0 && b != 0 {
      var half := Pow2(k - 1) * c;
      assert b == 2 * half;
      OrIsAdd(a / 2, k - 1, c);
    }
  }

  lemma {:induction false} Pow2Add(a: nat, b: nat)
    ensures Pow2(a) * Pow2(b) == Pow2(a + b)
  {
    if a > 0 {
      Pow2Add(a - 1, b);
      assert Pow2(a) * Pow2(b) == 2 * (Pow2(a - 1) * Pow2(b));
      assert Pow2(a + b) == 2 * Pow2(a + b - 1);
    }
  }

  lemma {:induction false} Pow2Is64()
    ensures Pow2(64) == TWO64
  {
    assert Pow2(4) == 16 by { assert Pow2(2) == 4 && Pow2(3) == 8; }
    Pow2Add(4, 4);
    Pow2Add(8, 8);
    Pow2Add(16, 16);
    Pow2Add(32, 32);
  }

  lemma {:induction false} Decompose(p: nat, q: nat, g: nat)
    requires q > 0
    ensures p * g == (p * q) * (g / q) + p * (g % q) && p * (g % q) + p <= p * q
  {
    var r, k := g % q, g / q;
    assert g == q * k + r;
    assert p * (q * k + r) == p * (q * k) + p * r;
    assert p * (q * k) == (p * q) * k;
    assert p * (r + 1) <= p * q;
  }

  lemma {:induction false} ScaledModulo(p: nat, q: nat, g: nat)
    requires p > 0 && q > 0 && p * q > 0
    ensures (p * g) % (p * q) == p * (g % q)
  {
    Decompose(p, q, g);
    DivisionUnique(p * g, p * q, g / q, p * (g % q));
  }

  lemma {:induction false} SumModulo(acc: nat, p: nat, q: nat, g: nat)
    requires q > 0 && p * q > 0 && acc < p
    ensures (acc + p * g) % (p * q) == acc + p * (g % q)
  {
    Decompose(p, q, g);
    DivisionUnique(acc + p * g, p * q, g / q, acc + p * (g % q));
  }

  lemma {:induction false} MultipleGrows(d: nat, t: int)
    requires t >= 1
    ensures d * t >= d
  {
    assert d * t == d * (t - 1) + d;
  }

  lemma {:induction false} DivisionUnique(x: nat, d: nat, k: nat, r: nat)
    requires d > 0 && x == d * k + r && r < d
    ensures x % d == r
  {
    var e := x / d;
    assert x == d * e + x % d;
    assert d * e == d * k + d * (e - k);
    assert d * k == d * e + d * (k - e);
    if e > k {
      MultipleGrows(d, e - k);
    } else if e < k {
      MultipleGrows(d, k - e);
    }
  }

  /** One turn of the accumulator: seven bits, shifted and cut to 64, or-ed onto fewer bits than the shift,
      are their sum modulo 2^64. */
  lemma {:induction false} OrGroup(acc: nat, shift: nat, g: nat)
    requires shift < 64 && acc < Pow2(shift)
    ensures BitOr(acc, (Pow2(shift) * g) % TWO64) == (acc + Pow2(shift) * g) % TWO64
  {
    var p, q := Pow2(shift), Pow2(64 - shift);
    Pow2Add(shift, 64 - shift);
    Pow2Is64();
    hide Pow2, BitOr;
    ScaledModulo(p, q, g);
    OrIsAdd(acc, shift, g % q);
    SumModulo(acc, p, q, g);
  }

  /** The bits read so far stand below the shift. */
  lemma {:induction false} BitsBelow(acc: nat, shift: nat, g: nat)
    requires acc < Pow2(shift) && g < 128
    ensures acc + Pow2(shift) * g < Pow2(shift + 7)
  {
    Pow2Plus7(shift);
    hide Pow2;
    var p := Pow2(shift);
    assert p * g <= p * 127;
  }

  /** Having read k groups of d worth acc, what remains to be read is tail. */
  ghost predicate Accumulated(d: Bytes, tail: Bytes, k: nat, acc: nat) {
    k <= 10 && acc < Pow2(7 * k) &&
    match Groups(tail, 10 - k)
    case Err(e) => Groups(d, 10) == Err(e)
    case Ok(r) => Groups(d, 10) == Ok(Read(acc + Pow2(7 * k) * r.value, r.size + k))
  }

  lemma {:induction false} AccumulateNothing(d: Bytes)
    ensures Accumulated(d, d, 0, 0)
  {
  }

  lemma {:induction false} Distribute(p: nat, a: nat, r: nat)
    ensures p * (a + 128 * r) == p * a + (128 * p) * r
  {
    assert p * (a + 128 * r) == p * a + p * (128 * r);
  }

  /** Seven bits at their place. */
  function Group(k: nat, b: Byte): nat {
    Pow2(7 * k) * (b % 128)
  }

  /** One turn of the varint loop: what it or-s in, ... */
  lemma {:induction false} TurnOr(d: Bytes, tail: Bytes, k: nat, acc: nat, b: Byte)
    requires Accumulated(d, tail, k, acc) && k < 10
    ensures BitOr(acc, ShiftLeft(b % 128, 7 * k)) == (acc + Group(k, b)) % TWO64
  {
    hide Pow2, BitOr, Groups;
    OrGroup(acc, 7 * k, b % 128);
  }

  /** ... the last turn, ... */
  lemma {:induction false} TurnLast(d: Bytes, tail: Bytes, k: nat, acc: nat)
    requires Accumulated(d, tail, k, acc)
    ensures k == 10 ==> ReadVarint(d) == Err(IntOverflow)
    ensures k < 10 && tail == [] ==> ReadVarint(d) == Err(UnexpectedEOF)
    ensures k < 10 && tail != [] && tail[0] < 128 ==>
              ReadVarint(d) == Ok(Read((acc + Group(k, tail[0])) % TWO64, k + 1))
  {
    assert Groups(tail, 10 - k) == if k == 10 then Err(IntOverflow)
                                   else if tail == [] then Err(UnexpectedEOF)
                                   else if tail[0] < 128 then Ok(Read(tail[0], 1))
                                   else Groups(tail, 10 - k);
    hide Groups, Pow2;
    assert tail != [] && tail[0] < 128 ==> tail[0] % 128 == tail[0];
  }

  lemma {:induction false} GroupsNext(tail: Bytes, limit: nat)
    requires limit > 0 && tail != [] && tail[0] >= 128
    ensures Groups(tail, limit) == match Groups(tail[1..], limit - 1)
                                   case Err(e) => Err(e)
                                   case Ok(r) => Ok(Read(tail[0] % 128 + 128 * r.value, r.size + 1))
  {
    assert tail[0] % 128 == tail[0] - 128;
  }

  lemma {:induction false} GroupsAdd(k: nat, acc: nat, b: Byte, v: nat)
    ensures acc < Pow2(7 * k) ==> acc + Group(k, b) < Pow2(7 * (k + 1))
    ensures acc + Pow2(7 * k) * (b % 128 + 128 * v) == acc + Group(k, b) + Pow2(7 * (k + 1)) * v
  {
    Pow2Plus7(7 * k);
    assert 7 * (k + 1) == 7 * k + 7;
    hide Pow2;
    if acc < Pow2(7 * k) {
      BitsBelow(acc, 7 * k, b % 128);
    }
    Distribute(Pow2(7 * k), b % 128, v);
  }

  /** ... any other, ... */
  lemma {:induction false} TurnNext(d: Bytes, tail: Bytes, k: nat, acc: nat)
    requires Accumulated(d, tail, k, acc) && k < 10 && tail != [] && tail[0] >= 128
    ensures Accumulated(d, tail[1..], k + 1, acc + Group(k, tail[0]))
  {
    GroupsNext(tail, 10 - k);
    hide Groups, Pow2, Group;
    var rest := Groups(tail[1..], 10 - (k + 1));
    GroupsAdd(k, acc, tail[0], if rest.Ok? then rest.value.value else 0);
  }

  /** ... and up to the ninth byte nothing is cut off. */
  lemma {:induction false} TurnFits(d: Bytes, tail: Bytes, k: nat, acc: nat)
    requires Accumulated(d, tail, k, acc) && k <= 9
    ensures acc % TWO64 == acc
  {
    hide Groups, Pow2;
    BelowTwo64(acc, 7 * k);
  }

  /** The varint loop: `shift` in steps of seven, the seven bits of each byte or-ed into a uint64. */
  method DecodeVarint(dAtA: Bytes, start: nat) returns (v: nat, iNdEx: nat, err: Option<Error>)
    requires start <= |dAtA|
    ensures match ReadVarint(dAtA[start..])
            case Err(e) => err == Some(e)
            case Ok(r) => err.None? && v == r.value && iNdEx == start + r.size
  {
    hide *;
    v, iNdEx, err := 0, start, None;
    var shift := 0;
    ghost var d, acc: nat, k: nat := dAtA[start..], 0, 0;
    AccumulateNothing(d);
    while true
      invariant shift == 7 * k && iNdEx == start + k <= |dAtA|
      invariant Accumulated(d, dAtA[iNdEx..], k, acc) && (k <= 9 ==> v == acc) && k <= 10
      decreases 10 - k
    {
      ghost var tail := dAtA[iNdEx..];
      TurnLast(d, tail, k, acc);
      if shift >= 64 {
        return 0, iNdEx, Some(IntOverflow);
      }
      if iNdEx >= |dAtA| {
        return 0, iNdEx, Some(UnexpectedEOF);
      }
      var b := dAtA[iNdEx];
      iNdEx := iNdEx + 1;
      TurnOr(d, tail, k, acc, b);
      v := BitOr(v, ShiftLeft(b % 128, shift));
      if b < 0x80 {
        return;
      }
      TurnNext(d, tail, k, acc);
      assert tail[1..] == dAtA[iNdEx..];
      acc, k := acc + Group(k, b), k + 1;
      if k <= 9 {
        TurnFits(d, tail[1..], k, acc);
      }
      shift := shift + 7;
    }
  }

  /** Go's uint64(x) << shift. */
  function ShiftLeft(x: nat, shift: nat): (r: nat)
  {
    (Pow2(shift) * x) % TWO64
  }

  lemma {:induction false} BelowTwo64(acc: nat, shift: nat)
    requires acc < Pow2(shift) && shift <= 64
    ensures acc % TWO64 == acc
  {
    Pow2Add(shift, 64 - shift);
    Pow2Is64();
    hide Pow2;
    assert Pow2(shift) <= Pow2(shift) * Pow2(64 - shift);
  }

  lemma {:induction false} SliceOfSlice(d: Bytes, start: nat, i: nat, j: nat)
    requires start <= i <= j <= |d|
    ensures d[start..][i - start..j - start] == d[i..j]
  {
  }

  /** The length checks of a length-delimited field, in int64 arithmetic that may wrap: they pass
      exactly when the payload lies inside the buffer. */
  method ReadLength(dAtA: Bytes, start: nat) returns (iNdEx: nat, postIndex: nat, err: Option<Error>)
    requires start <= |dAtA| < TWO63
    ensures match ReadPayload(dAtA[start..], start)
            case Err(e) => err == Some(e)
            case Ok(p) => err.None? && start <= iNdEx <= postIndex == start + p.size
                          && dAtA[iNdEx..postIndex] == p.rec.payload
  {
    hide ReadVarint;
    var stringLen: nat;
    stringLen, iNdEx, err := DecodeVarint(dAtA, start);
    postIndex := start;
    if err.Some? {
      return;
    }
    var intStringLen := Int64(stringLen);
    if intStringLen < 0 {
      err := Some(InvalidLength);
      return;
    }
    var sum := Int64(iNdEx + intStringLen);
    if sum < 0 {
      err := Some(InvalidLength);
      return;
    }
    postIndex := sum;
    if postIndex > |dAtA| {
      err := Some(UnexpectedEOF);
      return;
    }
    SliceOfSlice(dAtA, start, iNdEx, postIndex);
  }

  /** The payload of one record while skipping; iNdEx may run past the data, or wrap. */
  method SkipOne(dAtA: Bytes, start: nat, wireType: nat, depth: nat)
    returns (iNdEx: int, depth': nat, err: Option<Error>)
    requires start <= |dAtA| < TWO63
    ensures match SkipPayload(wireType, dAtA[start..], start, depth)
            case Err(e) => err == Some(e)
            case Ok(c) => err.None? && depth' == c.depth && c.next < TWO64 && iNdEx == Int64(c.next)
  {
    iNdEx, depth', err := start, depth, None;
    if wireType == 0 {
      var ignored;
      ignored, iNdEx, err := DecodeVarint(dAtA, start);
    } else if wireType == 1 {
      iNdEx := Int64(iNdEx + 8);
    } else if wireType == 2 {
      var length: nat;
      length, iNdEx, err := DecodeVarint(dAtA, start);
      if err.None? {
        if Int64(length) < 0 {
          err := Some(InvalidLength);
        } else {
          iNdEx := Int64(iNdEx + length);
        }
      }
    } else if wireType == 3 {
      depth' := depth + 1;
    } else if wireType == 4 {
      if depth == 0 {
        err := Some(UnexpectedEndOfGroup);
      } else {
        depth' := depth - 1;
      }
    } else if wireType == 5 {
      iNdEx := Int64(iNdEx + 4);
    } else {
      err := Some(IllegalWireType);
    }
  }

  /** One turn of the skipping loop, seen from the whole slice. */
  lemma {:induction false} SkipFromAt(dAtA: Bytes, i: nat, depth: nat)
    requires i <= |dAtA|
    ensures i == |dAtA| ==> SkipFrom(dAtA[i..], i, depth) == Err(UnexpectedEOF)
    ensures i < |dAtA| ==>
              SkipFrom(dAtA[i..], i, depth) ==
              match ReadVarint(dAtA[i..])
              case Err(e) => Err(e)
              case Ok(tag) =>
                var at := i + tag.size;
                match SkipPayload(tag.value % 8, dAtA[at..], at, depth)
                case Err(e) => Err(e)
                case Ok(c) =>
                  if c.next >= TWO63 then Err(InvalidLength)
                  else if c.depth == 0 then Ok(c.next)
                  else if c.next > |dAtA| then Err(UnexpectedEOF)
                  else SkipFrom(dAtA[c.next..], c.next, c.depth)
  {
    hide ReadVarint, SkipPayload;
    if i < |dAtA| && ReadVarint(dAtA[i..]).Ok? {
      var tag := ReadVarint(dAtA[i..]).value;
      SliceOfSlice(dAtA, i, i + tag.size, |dAtA|);
      var c := SkipPayload(tag.value % 8, dAtA[i + tag.size..], i + tag.size, depth);
      if c.Ok? && c.value.next <= |dAtA| {
        SliceOfSlice(dAtA, i, c.value.next, |dAtA|);
      }
    }
  }

  /** The length of the record at the head of dAtA, nested groups included. */
  method Skip(dAtA: Bytes) returns (n: nat, err: Option<Error>)
    requires |dAtA| < TWO63
    ensures match SkipFrom(dAtA, 0, 0)
            case Err(e) => err == Some(e)
            case Ok(k) => err.None? && n == k < TWO63
  {
    hide ReadVarint, SkipPayload, SkipFrom;
    var iNdEx, depth := 0, 0;
    assert dAtA[0..] == dAtA;
    while iNdEx < |dAtA|
      invariant 0 <= iNdEx <= |dAtA|
      invariant SkipFrom(dAtA, 0, 0) == SkipFrom(dAtA[iNdEx..], iNdEx, depth)
    {
      SkipFromAt(dAtA, iNdEx, depth);
      var wire: nat, at: nat;
      wire, at, err := DecodeVarint(dAtA, iNdEx);
      if err.Some? {
        return 0, err;
      }
      var next;
      next, depth, err := SkipOne(dAtA, at, wire % 8, depth);
      if err.Some? {
        return 0, err;
      }
      if next < 0 {
        return 0, Some(InvalidLength);
      }
      if depth == 0 {
        return next, None;
      }
      if next > |dAtA| {
        return 0, Some(UnexpectedEOF);
      }
      iNdEx := next;
    }
    SkipFromAt(dAtA, iNdEx, depth);
    return 0, Some(UnexpectedEOF);
  }

  /** The head of a decoding loop, up to and including the record's payload: tag, tag checks, and then
      either a known field or the default branch, which goes back and skips the whole record. */
  method NextRecord(known: set<int>, dAtA: Bytes, preIndex: nat) returns (rec: Record, iNdEx: nat, err: Option<Error>)
    requires preIndex < |dAtA| < TWO63
    ensures match ReadRecord(known, dAtA[preIndex..], preIndex)
            case Err(e) => err == Some(e)
            case Ok(p) => err.None? && rec == p.rec && iNdEx == preIndex + p.size
  {
    hide ReadVarint, SkipFrom, ReadPayload;
    rec := Unknown([]);
    var wire: nat;
    wire, iNdEx, err := DecodeVarint(dAtA, preIndex);
    if err.Some? {
      return;
    }
    var fieldNum, wireType := Int32(wire / 8), wire % 8;
    if wireType == 4 {
      err := Some(EndGroup);
    } else if fieldNum <= 0 {
      err := Some(IllegalTag);
    } else if fieldNum in known {
      if wireType != 2 {
        err := Some(WrongWireType);
        return;
      }
      assert dAtA[preIndex..][iNdEx - preIndex..] == dAtA[iNdEx..];
      var postIndex: nat;
      iNdEx, postIndex, err := ReadLength(dAtA, iNdEx);
      if err.None? {
        rec := Field(fieldNum, dAtA[iNdEx..postIndex]);
        iNdEx := postIndex;
      }
    } else {
      iNdEx := preIndex;
      var skippy: nat;
      skippy, err := Skip(dAtA[iNdEx..]);
      if err.Some? {
        return;
      }
      var sum := Int64(iNdEx + skippy);
      if sum < 0 {
        err := Some(InvalidLength);
      } else if sum > |dAtA| {
        err := Some(UnexpectedEOF);
      } else {
        assert dAtA[preIndex..][..skippy] == dAtA[iNdEx..sum];
        rec := Unknown(dAtA[iNdEx..sum]);
        iNdEx := sum;
      }
    }
  }
}
