/** The Protocol Buffers wire format as the generated codec sees it: base 128 varints reduced
    modulo 2^64, one record at a time, and the fold of a message's records.  Everything here is
    stated on byte sequences; codec.dfy holds the cursor loops that are proved against it. */
module Wire {

  type Byte = b: int | 0 <= b < 256
  type Bytes = seq<Byte>

  const TWO32: int := 0x1_0000_0000
  const TWO63: int := 0x8000_0000_0000_0000
  const TWO64: int := 0x1_0000_0000_0000_0000

  datatype Option<+T> = None | Some(value: T)

  datatype Error =
    | IntOverflow | UnexpectedEOF | InvalidLength | EndGroup | IllegalTag
    | WrongWireType | UnexpectedEndOfGroup | IllegalWireType

  datatype Result<+T> = Ok(value: T) | Err(error: Error)

  /** The value Go's `int32(x)` keeps of an unsigned x: 32 low bits, read as a signed number. */
  function Int32(x: nat): int {
    var u := x % TWO32;
    if u >= TWO32 / 2 then u - TWO32 else u
  }

  /** Two's complement int64: what a conversion or an addition that overflows leaves. */
  function Int64(x: nat): int {
    var u := x % TWO64;
    if u >= TWO63 then u - TWO64 else u
  }

  // ---------------------------------------------------------------- varints

  datatype Read = Read(value: nat, size: nat)

  /** The little-endian base 128 number at the head of d, unreduced, from at most `limit` bytes. */
  function Groups(d: Bytes, limit: nat): (r: Result<Read>)
    ensures r.Ok? ==> 1 <= r.value.size <= |d| && r.value.size <= limit
  {
    if limit == 0 then Err(IntOverflow)
    else if d == [] then Err(UnexpectedEOF)
    else if d[0] < 128 then Ok(Read(d[0], 1))
    else
      match Groups(d[1..], limit - 1)
      case Err(e) => Err(e)
      case Ok(r) => Ok(Read(d[0] - 128 + 128 * r.value, r.size + 1))
  }

  /** A decoded varint: ten bytes at most (a shift of 70 exceeds 64), reduced modulo 2^64. */
  function ReadVarint(d: Bytes): (r: Result<Read>)
    ensures r.Ok? ==> 1 <= r.value.size <= |d| && r.value.value < TWO64
  {
    match Groups(d, 10)
    case Err(e) => Err(e)
    case Ok(r) => Ok(Read(r.value % TWO64, r.size))
  }

  function EncVarint(v: nat): (r: Bytes)
    ensures |r| == SizeOfVarint(v)
  {
    if v < 128 then [v] else [v % 128 + 128] + EncVarint(v / 128)
  }

  function SizeOfVarint(v: nat): (n: nat)
    ensures n >= 1
  {
    if v < 128 then 1 else 1 + SizeOfVarint(v / 128)
  }

  function Pow128(k: nat): (p: nat)
    ensures p >= 1
  {
    if k == 0 then 1 else 128 * Pow128(k - 1)
  }

  lemma {:induction false} SizeBelowPower(v: nat, k: nat)
    requires 1 <= k && v < Pow128(k)
    ensures SizeOfVarint(v) <= k
  {
    if v >= 128 {
      assert Pow128(1) == 128 * Pow128(0);
      SizeBelowPower(v / 128, k - 1);
    }
  }

  /** Ten bytes hold every 64-bit value. */
  lemma {:induction false} SizeOfVarintAtMostTen(v: nat)
    requires v < TWO64
    ensures SizeOfVarint(v) <= 10
  {
    var p1 := 128 * Pow128(0);
    assert p1 == Pow128(1);
    var p2 := 128 * p1;  assert p2 == Pow128(2);
    var p3 := 128 * p2;  assert p3 == Pow128(3);
    var p4 := 128 * p3;  assert p4 == Pow128(4);
    var p5 := 128 * p4;  assert p5 == Pow128(5);
    var p6 := 128 * p5;  assert p6 == Pow128(6);
    var p7 := 128 * p6;  assert p7 == Pow128(7);
    var p8 := 128 * p7;  assert p8 == Pow128(8);
    var p9 := 128 * p8;  assert p9 == Pow128(9);
    assert 128 * p9 == Pow128(10);
    SizeBelowPower(v, 10);
  }

  lemma {:induction false} SizeOfVarintMonotone(a: nat, b: nat)
    requires a <= b
    ensures SizeOfVarint(a) <= SizeOfVarint(b)
  {
    if a >= 128 {
      SizeOfVarintMonotone(a / 128, b / 128);
    }
  }

  lemma {:induction false} GroupsOfEncoded(v: nat, limit: nat, rest: Bytes)
    requires SizeOfVarint(v) <= limit
    ensures Groups(EncVarint(v) + rest, limit) == Ok(Read(v, SizeOfVarint(v)))
  {
    var d := EncVarint(v) + rest;
    if v >= 128 {
      GroupsOfEncoded(v / 128, limit - 1, rest);
      assert d[1..] == EncVarint(v / 128) + rest;
    }
  }

  /** The encoder's varint is read back exactly, whatever follows it. */
  lemma {:induction false} ReadEncVarint(v: nat, rest: Bytes)
    requires v < TWO64
    ensures ReadVarint(EncVarint(v) + rest) == Ok(Read(v, SizeOfVarint(v)))
  {
    SizeOfVarintAtMostTen(v);
    GroupsOfEncoded(v, 10, rest);
  }

  lemma {:induction false} GroupsAtLeastMinimal(d: Bytes, limit: nat)
    requires Groups(d, limit).Ok?
    ensures SizeOfVarint(Groups(d, limit).value.value) <= Groups(d, limit).value.size
  {
    if d[0] >= 128 {
      GroupsAtLeastMinimal(d[1..], limit - 1);
      var r := Groups(d[1..], limit - 1).value;
      var v := d[0] - 128 + 128 * r.value;
      assert v / 128 == r.value;
    }
  }

  /** No encoding of a value is shorter than the encoder's own. */
  lemma {:induction false} EncVarintIsMinimal(d: Bytes)
    requires ReadVarint(d).Ok?
    ensures SizeOfVarint(ReadVarint(d).value.value) <= ReadVarint(d).value.size
  {
    GroupsAtLeastMinimal(d, 10);
    var v := Groups(d, 10).value.value;
    SizeOfVarintMonotone(v % TWO64, v);
  }

  lemma {:induction false} GroupsLocal(d: Bytes, e: Bytes, limit: nat)
    requires Groups(d, limit).Ok?
    requires Groups(d, limit).value.size <= |e|
    requires e[..Groups(d, limit).value.size] == d[..Groups(d, limit).value.size]
    ensures Groups(e, limit) == Groups(d, limit)
  {
    var n := Groups(d, limit).value.size;
    assert e[0] == e[..n][0] == d[..n][0] == d[0];
    if d[0] >= 128 {
      assert e[1..][..n - 1] == e[..n][1..] == d[..n][1..] == d[1..][..n - 1];
      GroupsLocal(d[1..], e[1..], limit - 1);
    }
  }

  // ---------------------------------------------------------------- skipping a record

  datatype Cursor = Cursor(next: nat, depth: nat)

  /** Moves over the payload of one wire type; `pos` is the index of d's first byte in the slice. */
  function SkipPayload(wireType: nat, d: Bytes, pos: nat, depth: nat): (r: Result<Cursor>)
    ensures r.Ok? ==> r.value.next >= pos
  {
    match wireType
    case 0 => (match Groups(d, 10)
               case Err(e) => Err(e)
               case Ok(r) => Ok(Cursor(pos + r.size, depth)))
    case 1 => Ok(Cursor(pos + 8, depth))
    case 2 => (match ReadVarint(d)
               case Err(e) => Err(e)
               case Ok(r) => if r.value >= TWO63 then Err(InvalidLength)
                             else Ok(Cursor(pos + r.size + r.value, depth)))
    case 3 => Ok(Cursor(pos, depth + 1))
    case 4 => if depth == 0 then Err(UnexpectedEndOfGroup) else Ok(Cursor(pos, depth - 1))
    case 5 => Ok(Cursor(pos + 4, depth))
    case _ => Err(IllegalWireType)
  }

  /** The index just after the record at the head of d, groups included.  Like the helper it models,
      it may point past the end of the data; the caller compares. */
  function SkipFrom(d: Bytes, pos: nat, depth: nat): (r: Result<nat>)
    ensures r.Ok? ==> r.value > pos
    decreases |d|
  {
    if d == [] then Err(UnexpectedEOF)
    else
      match ReadVarint(d)
      case Err(e) => Err(e)
      case Ok(tag) =>
        match SkipPayload(tag.value % 8, d[tag.size..], pos + tag.size, depth)
        case Err(e) => Err(e)
        case Ok(c) =>
          if c.next >= TWO63 then Err(InvalidLength)
          else if c.depth == 0 then Ok(c.next)
          else if c.next - pos >= |d| then Err(UnexpectedEOF)
          else SkipFrom(d[c.next - pos..], c.next, c.depth)
  }

  /** d and e agree on the first n bytes, and both have them. */
  ghost predicate SamePrefix(d: Bytes, e: Bytes, n: nat) {
    n <= |d| && n <= |e| && d[..n] == e[..n]
  }

  lemma {:induction false} SamePrefixTail(d: Bytes, e: Bytes, n: nat, k: nat)
    requires SamePrefix(d, e, n) && k <= n
    ensures SamePrefix(d[k..], e[k..], n - k)
  {
    assert d[k..][..n - k] == d[..n][k..];
    assert e[k..][..n - k] == e[..n][k..];
  }

  lemma {:induction false} SamePrefixHead(d: Bytes, e: Bytes, n: nat, k: nat)
    requires SamePrefix(d, e, n) && k <= n
    ensures SamePrefix(d, e, k)
  {
    assert d[..k] == d[..n][..k];
    assert e[..k] == e[..n][..k];
  }

  lemma {:induction false} PrefixBytes(d: Bytes, e: Bytes, n: nat)
    requires SamePrefix(d, e, n)
    ensures n <= |d| && n <= |e| && d[..n] == e[..n]
  {
  }

  lemma {:induction false} VarintLocal(d: Bytes, e: Bytes, n: nat)
    requires ReadVarint(d).Ok? && ReadVarint(d).value.size <= n && SamePrefix(d, e, n)
    ensures ReadVarint(e) == ReadVarint(d) && Groups(e, 10) == Groups(d, 10)
  {
    SamePrefixHead(d, e, n, ReadVarint(d).value.size);
    GroupsLocal(d, e, 10);
  }

  lemma {:induction false} SkipPayloadLocal(wireType: nat, d: Bytes, e: Bytes, pos: nat, depth: nat, n: nat)
    requires SkipPayload(wireType, d, pos, depth).Ok?
    requires SkipPayload(wireType, d, pos, depth).value.next <= pos + n
    requires SamePrefix(d, e, n)
    ensures SkipPayload(wireType, e, pos, depth) == SkipPayload(wireType, d, pos, depth)
  {
    if wireType == 0 || wireType == 2 {
      VarintLocal(d, e, n);
    }
  }

  /** A record's extent depends on the record's own bytes only. */
  lemma {:induction false} SkipLocal(d: Bytes, e: Bytes, pos: nat, depth: nat)
    requires SkipFrom(d, pos, depth).Ok?
    requires SamePrefix(d, e, SkipFrom(d, pos, depth).value - pos)
    ensures SkipFrom(e, pos, depth) == SkipFrom(d, pos, depth)
    decreases |d|
  {
    hide ReadVarint, SkipPayload, SamePrefix;
    var n := SkipFrom(d, pos, depth).value - pos;
    var tag := ReadVarint(d).value;
    var c := SkipPayload(tag.value % 8, d[tag.size..], pos + tag.size, depth).value;
    var k := c.next - pos;
    assert k <= n;
    PrefixBytes(d, e, n);
    VarintLocal(d, e, n);
    SamePrefixTail(d, e, n, tag.size);
    SkipPayloadLocal(tag.value % 8, d[tag.size..], e[tag.size..], pos + tag.size, depth, n - tag.size);
    if c.depth != 0 {
      SamePrefixTail(d, e, n, k);
      SkipLocal(d[k..], e[k..], c.next, c.depth);
    }
  }

  // ---------------------------------------------------------------- records

  datatype Record = Field(num: int, payload: Bytes) | Unknown(raw: Bytes)
  datatype Parsed = Parsed(rec: Record, size: nat)

  /** Length prefix and payload of a length-delimited field.  `pos` is the index of d's first byte:
      it decides only between the two errors for a length that does not fit. */
  function ReadPayload(d: Bytes, pos: nat): (r: Result<Parsed>)
    ensures r.Ok? ==> 0 < r.value.size <= |d|
  {
    match ReadVarint(d)
    case Err(e) => Err(e)
    case Ok(len) =>
      if len.value >= TWO63 || pos + len.size + len.value >= TWO63 then Err(InvalidLength)
      else if len.size + len.value > |d| then Err(UnexpectedEOF)
      else Ok(Parsed(Field(0, d[len.size..len.size + len.value]), len.size + len.value))
  }

  function ReadUnknown(d: Bytes, pos: nat): (r: Result<Parsed>)
    ensures r.Ok? ==> 0 < r.value.size <= |d| && r.value.rec == Unknown(d[..r.value.size])
  {
    match SkipFrom(d, 0, 0)
    case Err(e) => Err(e)
    case Ok(n) =>
      if pos + n >= TWO63 then Err(InvalidLength)
      else if n > |d| then Err(UnexpectedEOF)
      else Ok(Parsed(Unknown(d[..n]), n))
  }

  /** One turn of a decoding loop: the record at the head of d, for a message whose fields, all
      length-delimited, have the numbers `known`. */
  function ReadRecord(known: set<int>, d: Bytes, pos: nat): (r: Result<Parsed>)
    ensures r.Ok? ==> 0 < r.value.size <= |d|
    ensures r.Ok? && r.value.rec.Unknown? ==> r.value.rec.raw == d[..r.value.size]
    ensures r.Ok? && r.value.rec.Field? ==> r.value.rec.num in known && r.value.rec.num > 0
  {
    match ReadVarint(d)
    case Err(e) => Err(e)
    case Ok(tag) =>
      var num := Int32(tag.value / 8);
      if tag.value % 8 == 4 then Err(EndGroup)
      else if num <= 0 then Err(IllegalTag)
      else if num in known then
        if tag.value % 8 != 2 then Err(WrongWireType)
        else match ReadPayload(d[tag.size..], pos + tag.size)
          case Err(e) => Err(e)
          case Ok(p) => Ok(Parsed(Field(num, p.rec.payload), tag.size + p.size))
      else ReadUnknown(d, pos)
  }

  lemma {:induction false} ReadPayloadLocal(d: Bytes, e: Bytes, pos: nat, pos': nat)
    requires ReadPayload(d, pos).Ok?
    requires SamePrefix(d, e, ReadPayload(d, pos).value.size)
    requires pos' + |e| < TWO63
    ensures ReadPayload(e, pos') == ReadPayload(d, pos)
  {
    var n := ReadPayload(d, pos).value.size;
    var k := ReadVarint(d).value.size;
    VarintLocal(d, e, n);
    assert d[k..n] == d[..n][k..];
    assert e[k..n] == e[..n][k..];
  }

  /** A record is read the same wherever it stands and whatever follows it. */
  lemma {:induction false} RecordLocal(known: set<int>, d: Bytes, e: Bytes, pos: nat, pos': nat)
    requires ReadRecord(known, d, pos).Ok?
    requires SamePrefix(d, e, ReadRecord(known, d, pos).value.size)
    requires pos' + |e| < TWO63
    ensures ReadRecord(known, e, pos') == ReadRecord(known, d, pos)
  {
    hide ReadVarint, ReadPayload, SkipFrom, SamePrefix;
    var n := ReadRecord(known, d, pos).value.size;
    var tag := ReadVarint(d).value;
    var num := Int32(tag.value / 8);
    if num in known {
      VarintLocal(d, e, n);
      SamePrefixTail(d, e, n, tag.size);
      ReadPayloadLocal(d[tag.size..], e[tag.size..], pos + tag.size, pos' + tag.size);
    } else {
      SkipLocal(d, e, 0, 0);
      assert tag.size <= n by { SkipAtLeastTag(d); }
      VarintLocal(d, e, n);
      PrefixBytes(d, e, n);
    }
  }

  lemma {:induction false} SkipAtLeastTag(d: Bytes)
    requires SkipFrom(d, 0, 0).Ok?
    ensures ReadVarint(d).Ok? && ReadVarint(d).value.size <= SkipFrom(d, 0, 0).value
  {
    var tag := ReadVarint(d).value;
    var c := SkipPayload(tag.value % 8, d[tag.size..], tag.size, 0).value;
    assert c.next >= tag.size;
  }

  /** Where d stands decides which error is reported, never whether there is one. */
  lemma {:induction false} RecordPosition(known: set<int>, d: Bytes, pos: nat, pos': nat)
    requires pos + |d| < TWO63 && pos' + |d| < TWO63
    ensures ReadRecord(known, d, pos).Ok? == ReadRecord(known, d, pos').Ok?
    ensures ReadRecord(known, d, pos).Ok? ==> ReadRecord(known, d, pos) == ReadRecord(known, d, pos')
  {
  }

  function EncField(num: nat, payload: Bytes): (r: Bytes)
    ensures |r| == SizeOfVarint(8 * num + 2) + SizeOfVarint(|payload|) + |payload|
  {
    EncVarint(8 * num + 2) + (EncVarint(|payload|) + payload)
  }

  /** Proto3 presence: an empty string is not written. */
  function EncString(num: nat, s: Bytes): Bytes {
    if s == [] then [] else EncField(num, s)
  }

  lemma {:induction false} ReadEncPayload(payload: Bytes, rest: Bytes, pos: nat)
    requires pos + SizeOfVarint(|payload|) + |payload| + |rest| < TWO63
    ensures ReadPayload(EncVarint(|payload|) + (payload + rest), pos)
         == Ok(Parsed(Field(0, payload), SizeOfVarint(|payload|) + |payload|))
  {
    hide EncVarint, ReadVarint, SizeOfVarint;
    var l := EncVarint(|payload|);
    var d := l + (payload + rest);
    ReadEncVarint(|payload|, payload + rest);
    assert d[|l|..|l| + |payload|] == payload;
  }

  lemma {:induction false} ReadEncField(known: set<int>, num: int, payload: Bytes, rest: Bytes, pos: nat)
    requires num in known && 0 < num < 0x2000_0000
    requires pos + |EncField(num, payload)| + |rest| < TWO63
    ensures ReadRecord(known, EncField(num, payload) + rest, pos)
         == Ok(Parsed(Field(num, payload), |EncField(num, payload)|))
  {
    hide EncVarint, ReadVarint, ReadPayload;
    var d := EncField(num, payload) + rest;
    var t := EncVarint(8 * num + 2);
    var l := EncVarint(|payload|);
    assert d == t + (l + (payload + rest));
    ReadEncVarint(8 * num + 2, l + (payload + rest));
    assert d[|t|..] == l + (payload + rest);
    ReadEncPayload(payload, rest, pos + |t|);
  }

  /** A parsed field occupied at least the bytes the encoder would spend on it. */
  lemma {:induction false} FieldAtLeastMinimal(known: set<int>, d: Bytes, pos: nat)
    requires ReadRecord(known, d, pos).Ok? && ReadRecord(known, d, pos).value.rec.Field?
    ensures var p := ReadRecord(known, d, pos).value;
            |EncField(p.rec.num, p.rec.payload)| <= p.size
  {
    var tag := ReadVarint(d).value;
    var num := Int32(tag.value / 8);
    EncVarintIsMinimal(d);
    EncVarintIsMinimal(d[tag.size..]);
    assert num <= (tag.value / 8) % TWO32 <= tag.value / 8;
    SizeOfVarintMonotone(8 * num + 2, tag.value);
  }

  // ---------------------------------------------------------------- repeated fields

  /** f of every element. */
  function Each<A, B>(f: A -> B, s: seq<A>): (r: seq<B>)
    ensures |r| == |s| && forall i :: 0 <= i < |s| ==> r[i] == f(s[i])
  {
    seq(|s|, i requires 0 <= i < |s| => f(s[i]))
  }

  lemma {:induction false} EachAppend<A, B>(f: A -> B, a: seq<A>, b: seq<A>)
    ensures Each(f, a + b) == Each(f, a) + Each(f, b)
  {
  }

  /** A repeated field: one length-delimited record for each payload. */
  function EncFields(num: nat, ps: seq<Bytes>): Bytes {
    if ps == [] then [] else EncField(num, ps[0]) + EncFields(num, ps[1..])
  }

  lemma {:induction false} EncFieldsAppend(num: nat, ps: seq<Bytes>, p: Bytes)
    ensures EncFields(num, ps + [p]) == EncFields(num, ps) + EncField(num, p)
    decreases |ps|
  {
    hide EncField;
    if ps == [] {
      assert [p][1..] == [];
    } else {
      assert (ps + [p])[1..] == ps[1..] + [p];
      EncFieldsAppend(num, ps[1..], p);
    }
  }

  lemma {:induction false} PayloadSizes(num: nat, ps: seq<Bytes>, p: Bytes)
    requires p in ps
    ensures |p| <= |EncFields(num, ps)|
    decreases |ps|
  {
    if p != ps[0] {
      PayloadSizes(num, ps[1..], p);
    }
  }

  /** The encoding from the k-th payload on. */
  lemma {:induction false} EncFieldsFrom(num: nat, ps: seq<Bytes>, k: nat)
    requires k < |ps|
    ensures EncFields(num, ps[k..]) == EncField(num, ps[k]) + EncFields(num, ps[k + 1..])
    ensures |EncFields(num, ps[k..])| == |EncField(num, ps[k])| + |EncFields(num, ps[k + 1..])|
  {
    hide EncField;
    assert ps[k..][1..] == ps[k + 1..];
  }

  lemma {:induction false} EncFieldsSuffix(num: nat, ps: seq<Bytes>, k: nat)
    requires k <= |ps|
    ensures |EncFields(num, ps[k..])| <= |EncFields(num, ps)|
    decreases k
  {
    hide EncFields, EncField;
    if k == 0 {
      assert ps[0..] == ps;
    } else {
      EncFieldsFrom(num, ps, k - 1);
      EncFieldsSuffix(num, ps, k - 1);
    }
  }

  lemma {:induction false} EncFieldsNone(num: nat, ps: seq<Bytes>)
    ensures EncFields(num, ps[|ps|..]) == []
  {
  }

  // ---------------------------------------------------------------- messages

  /** A message value: its known fields, and the unknown records it carries verbatim. */
  datatype Msg<F> = Msg(fields: F, unknown: Bytes)
  datatype Outcome<+M> = Outcome(msg: M, err: Option<Error>)
  type Setter<!F> = (F, int, Bytes) -> Outcome<F>

  function Apply<F>(assign: Setter<F>, m: Msg<F>, rec: Record): Outcome<Msg<F>> {
    match rec
    case Unknown(raw) => Outcome(m.(unknown := m.unknown + raw), None)
    case Field(num, payload) =>
      var o := assign(m.fields, num, payload);
      Outcome(m.(fields := o.msg), o.err)
  }

  /** Decoding into m: record by record, stopping at the first error with what was decoded so far. */
  function Fold<F>(known: set<int>, assign: Setter<F>, m: Msg<F>, d: Bytes, pos: nat): Outcome<Msg<F>>
    decreases |d|
  {
    if d == [] then Outcome(m, None)
    else
      match ReadRecord(known, d, pos)
      case Err(e) => Outcome(m, Some(e))
      case Ok(p) =>
        var o := Apply(assign, m, p.rec);
        if o.err.Some? then o else Fold(known, assign, o.msg, d[p.size..], pos + p.size)
  }

  /** One record, and then the rest; nothing left is success. */
  lemma {:induction false} FoldStep<F>(known: set<int>, assign: Setter<F>, m: Msg<F>, d: Bytes, pos: nat)
    ensures Fold(known, assign, m, d, pos) ==
            if d == [] then Outcome(m, None)
            else
              match ReadRecord(known, d, pos)
              case Err(e) => Outcome(m, Some(e))
              case Ok(p) =>
                var o := Apply(assign, m, p.rec);
                if o.err.Some? then o else Fold(known, assign, o.msg, d[p.size..], pos + p.size)
  {
    hide ReadRecord, Apply;
  }

  /** Last one wins, repeated fields append: decoding a concatenation is decoding in sequence,
      down to the error and the partly decoded message. */
  lemma {:induction false} FoldMerge<F>(known: set<int>, assign: Setter<F>, m: Msg<F>, d: Bytes, e: Bytes, pos: nat)
    requires pos + |d| + |e| < TWO63
    requires Fold(known, assign, m, d, pos).err.None?
    ensures Fold(known, assign, m, d + e, pos)
         == Fold(known, assign, Fold(known, assign, m, d, pos).msg, e, pos + |d|)
    decreases |d|
  {
    hide ReadRecord;
    if d == [] {
      assert d + e == e;
    } else {
      var p := ReadRecord(known, d, pos).value;
      assert (d + e)[..p.size] == d[..p.size];
      RecordLocal(known, d, d + e, pos, pos);
      assert (d + e)[p.size..] == d[p.size..] + e;
      FoldMerge(known, assign, Apply(assign, m, p.rec).msg, d[p.size..], e, pos + p.size);
    }
  }

  lemma {:induction false} FoldPosition<F>(known: set<int>, assign: Setter<F>, m: Msg<F>, d: Bytes, pos: nat, pos': nat)
    requires pos + |d| < TWO63 && pos' + |d| < TWO63
    ensures Fold(known, assign, m, d, pos).msg == Fold(known, assign, m, d, pos').msg
    ensures Fold(known, assign, m, d, pos).err.None? == Fold(known, assign, m, d, pos').err.None?
    decreases |d|
  {
    hide ReadRecord;
    if d != [] {
      RecordPosition(known, d, pos, pos');
      if ReadRecord(known, d, pos).Ok? {
        var p := ReadRecord(known, d, pos).value;
        FoldPosition(known, assign, Apply(assign, m, p.rec).msg, d[p.size..], pos + p.size, pos' + p.size);
      }
    }
  }

  /** Decoding an encoded field first assigns it, then goes on with the rest. */
  lemma {:induction false} FoldEncField<F>(known: set<int>, assign: Setter<F>, m: Msg<F>, num: int, payload: Bytes,
                                           rest: Bytes, pos: nat)
    requires num in known && 0 < num < 0x2000_0000
    requires pos + |EncField(num, payload)| + |rest| < TWO63
    ensures Fold(known, assign, m, EncField(num, payload) + rest, pos)
         == var o := assign(m.fields, num, payload);
            if o.err.Some? then Outcome(m.(fields := o.msg), o.err)
            else Fold(known, assign, m.(fields := o.msg), rest, pos + |EncField(num, payload)|)
  {
    hide Fold, EncField, ReadRecord;
    var d := EncField(num, payload) + rest;
    ReadEncField(known, num, payload, rest, pos);
    FoldStep(known, assign, m, d, pos);
    assert d[|EncField(num, payload)|..] == rest;
  }

  // ---------------------------------------------------------------- unknown records

  /** d is a sequence of complete records none of which is a known field. */
  predicate AllUnknown(known: set<int>, d: Bytes)
    decreases |d|
  {
    d == [] ||
    (var r := ReadRecord(known, d, 0);
     r.Ok? && r.value.rec.Unknown? && AllUnknown(known, d[r.value.size..]))
  }

  /** The unknown records of d, in order. */
  function UnknownPart(known: set<int>, d: Bytes): (r: Bytes)
    ensures |r| <= |d|
    decreases |d|
  {
    if d == [] then []
    else
      match ReadRecord(known, d, 0)
      case Err(_) => []
      case Ok(p) => (if p.rec.Unknown? then p.rec.raw else []) + UnknownPart(known, d[p.size..])
  }

  /** The payloads of one field, in order. */
  function Payloads(known: set<int>, d: Bytes, num: int): seq<Bytes>
    decreases |d|
  {
    if d == [] then []
    else
      match ReadRecord(known, d, 0)
      case Err(_) => []
      case Ok(p) =>
        (if p.rec.Field? && p.rec.num == num then [p.rec.payload] else []) + Payloads(known, d[p.size..], num)
  }

  lemma {:induction false} AllUnknownAppend(known: set<int>, a: Bytes, b: Bytes)
    requires AllUnknown(known, a) && AllUnknown(known, b) && |a| + |b| < TWO63
    ensures AllUnknown(known, a + b)
    decreases |a|
  {
    if a == [] {
      assert a + b == b;
    } else {
      var n := ReadRecord(known, a, 0).value.size;
      assert (a + b)[..n] == a[..n];
      hide ReadRecord;
      RecordLocal(known, a, a + b, 0, 0);
      assert (a + b)[n..] == a[n..] + b;
      AllUnknownAppend(known, a[n..], b);
    }
  }

  lemma {:induction false} UnknownRecordAlone(known: set<int>, d: Bytes, pos: nat)
    requires pos + |d| < TWO63
    requires ReadRecord(known, d, pos).Ok? && ReadRecord(known, d, pos).value.rec.Unknown?
    ensures AllUnknown(known, ReadRecord(known, d, pos).value.rec.raw)
  {
    var p := ReadRecord(known, d, pos).value;
    var raw := d[..p.size];
    assert raw[..p.size] == raw;
    RecordLocal(known, d, raw, pos, 0);
  }

  /** Decoding unknown records only appends them. */
  lemma {:induction false} FoldAllUnknown<F>(known: set<int>, assign: Setter<F>, m: Msg<F>, d: Bytes, pos: nat)
    requires pos + |d| < TWO63
    requires AllUnknown(known, d)
    ensures Fold(known, assign, m, d, pos) == Outcome(m.(unknown := m.unknown + d), None)
    decreases |d|
  {
    hide ReadRecord;
    if d == [] {
      assert m.unknown + d == m.unknown;
    } else {
      RecordPosition(known, d, pos, 0);
      var n := ReadRecord(known, d, 0).value.size;
      FoldAllUnknown(known, assign, m.(unknown := m.unknown + d[..n]), d[n..], pos + n);
      assert m.unknown + d[..n] + d[n..] == m.unknown + d;
    }
  }

  /** What decoding adds to a message's unknown bytes is exactly the input's unknown records, in
      input order, and they stay well formed. */
  lemma {:induction false} FoldUnknown<F>(known: set<int>, assign: Setter<F>, m: Msg<F>, d: Bytes, pos: nat)
    requires pos + |d| < TWO63 && |m.unknown| + |d| < TWO63
    requires Fold(known, assign, m, d, pos).err.None?
    ensures Fold(known, assign, m, d, pos).msg.unknown == m.unknown + UnknownPart(known, d)
    ensures AllUnknown(known, m.unknown) ==> AllUnknown(known, Fold(known, assign, m, d, pos).msg.unknown)
    decreases |d|
  {
    hide ReadRecord;
    if d != [] {
      RecordPosition(known, d, pos, 0);
      var p := ReadRecord(known, d, pos).value;
      if p.rec.Unknown? {
        UnknownRecordAlone(known, d, pos);
        if AllUnknown(known, m.unknown) {
          AllUnknownAppend(known, m.unknown, p.rec.raw);
        }
        assert m.unknown + p.rec.raw + UnknownPart(known, d[p.size..])
            == m.unknown + (p.rec.raw + UnknownPart(known, d[p.size..]));
      } else {
        assert m.unknown + UnknownPart(known, d[p.size..]) == m.unknown + UnknownPart(known, d);
      }
      FoldUnknown(known, assign, Apply(assign, m, p.rec).msg, d[p.size..], pos + p.size);
    } else {
      assert m.unknown + [] == m.unknown;
    }
  }

  /** Nothing but unknown records reproduces itself. */
  lemma {:induction false} UnknownPartWhole(known: set<int>, d: Bytes)
    requires UnknownPart(known, d) == d
    ensures AllUnknown(known, d)
    decreases |d|
  {
    if d != [] {
      var p := ReadRecord(known, d, 0).value;
      var tail := UnknownPart(known, d[p.size..]);
      assert p.rec.Unknown?;
      assert tail == (p.rec.raw + tail)[p.size..] == d[p.size..];
      UnknownPartWhole(known, d[p.size..]);
    }
  }

  // ---------------------------------------------------------------- induction over decoding

  /** What every assignment keeps, every decoding keeps. */
  lemma {:induction false} FoldKeeps<F(!new)>(known: set<int>, assign: Setter<F>, inv: F -> bool, m: Msg<F>, d: Bytes,
                                       pos: nat)
    requires forall f, n, p :: inv(f) && |p| < |d| && assign(f, n, p).err.None? ==> inv(assign(f, n, p).msg)
    requires inv(m.fields)
    requires Fold(known, assign, m, d, pos).err.None?
    ensures inv(Fold(known, assign, m, d, pos).msg.fields)
    decreases |d|
  {
    hide ReadRecord;
    if d != [] {
      var p := ReadRecord(known, d, pos).value;
      if p.rec.Field? {
        PayloadShorter(known, d, pos);
      }
      FoldKeeps(known, assign, inv, Apply(assign, m, p.rec).msg, d[p.size..], pos + p.size);
    }
  }

  lemma {:induction false} PayloadShorter(known: set<int>, d: Bytes, pos: nat)
    requires ReadRecord(known, d, pos).Ok? && ReadRecord(known, d, pos).value.rec.Field?
    ensures |ReadRecord(known, d, pos).value.rec.payload| < ReadRecord(known, d, pos).value.size
  {
  }

  /** If no assignment makes the encoding grow by more than the field it came from, then no decoded
      message encodes to more bytes than were read. */
  lemma {:induction false} FoldSize<F(!new)>(known: set<int>, assign: Setter<F>, size: F -> nat, m: Msg<F>, d: Bytes,
                                      pos: nat)
    requires pos + |d| < TWO63 && |m.unknown| + |d| < TWO63
    requires forall f, n: int, p :: n > 0 && n in known && |p| < |d| && assign(f, n, p).err.None?
               ==> size(assign(f, n, p).msg) <= size(f) + |EncField(n, p)|
    requires Fold(known, assign, m, d, pos).err.None?
    ensures var r := Fold(known, assign, m, d, pos).msg;
            size(r.fields) + |r.unknown| <= size(m.fields) + |m.unknown| + |d|
    decreases |d|
  {
    hide ReadRecord;
    if d != [] {
      var p := ReadRecord(known, d, pos).value;
      var m' := Apply(assign, m, p.rec).msg;
      if p.rec.Field? {
        FieldAtLeastMinimal(known, d, pos);
        PayloadShorter(known, d, pos);
        assert size(m'.fields) <= size(m.fields) + |EncField(p.rec.num, p.rec.payload)|;
      }
      FoldSize(known, assign, size, m', d[p.size..], pos + p.size);
    }
  }
}
