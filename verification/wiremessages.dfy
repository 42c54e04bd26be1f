/** What a message is, as a sequence of wire records: the decoder accepts exactly such sequences, refuses the
    others for the reason that is there, and what it makes of one can be read off its records. */
module WireMessages {
  import opened Wire
  import opened WireRecords
  import opened Messages

  /** The field number: 32 bits of the tag, above the wire type. */
  function Number(r: Rec): nat {
    NumberOf(VarintValue(r.tag))
  }

  function NumberOf(v: nat): nat {
    v % TWO64 / 8 % TWO32
  }

  /** As an int32 it is the same number, or not positive. */
  lemma {:induction false} NumberIsInt32(v: nat)
    ensures var num := Int32(v % TWO64 / 8);
            (0 < NumberOf(v) < 0x8000_0000 <==> num > 0) && (num > 0 ==> num == NumberOf(v))
  {
  }

  /** Records a message with the length-delimited fields `known` can have. */
  predicate Takes(known: set<int>, r: Rec) {
    Valid(r) && 0 < Number(r) < 0x8000_0000 && (Number(r) in known ==> r.Len?)
  }

  /** What such a record is to the message. */
  function Meaning(known: set<int>, r: Rec): Record
    requires Takes(known, r)
  {
    if Number(r) in known then Field(Number(r), r.payload) else Unknown(Raw(r))
  }

  // ---------------------------------------------------------------- one record

  lemma {:induction false} RecordStep(known: set<int>, d: Bytes, pos: nat)
    ensures ReadRecord(known, d, pos) ==
            match ReadVarint(d)
            case Err(e) => Err(e)
            case Ok(tag) =>
              var num := Int32(tag.value / 8);
              if tag.value % 8 == 4 then Err(EndGroup)
              else if num <= 0 then Err(IllegalTag)
              else if num in known then
                if tag.value % 8 != 2 then Err(WrongWireType)
                else match ReadPayload(d[tag.size..], pos + tag.size)
                  case Err(e) => Err(e)
                  case Ok(p) => Ok(Parsed(Field(num, p.rec.payload), tag.size + p.size))
              else ReadUnknown(d, pos)
  {
    hide ReadVarint, ReadPayload, ReadUnknown, Int32;
  }

  lemma {:induction false} PayloadIsRead(len: Bytes, payload: Bytes, rest: Bytes, pos: nat)
    requires IsVarint(len) && VarintValue(len) % TWO64 == |payload| && pos + |len| + |payload| < TWO63
    ensures ReadPayload(len + (payload + rest), pos) == Ok(Parsed(Field(0, payload), |len| + |payload|))
  {
    hide VarintValue, ReadVarint, Groups;
    VarintIsRead(len, payload + rest);
    assert (len + (payload + rest))[|len|..|len| + |payload|] == payload;
  }

  lemma {:induction false} PayloadShape(d: Bytes, pos: nat) returns (len: Bytes, payload: Bytes)
    requires ReadPayload(d, pos).Ok?
    ensures IsVarint(len) && VarintValue(len) % TWO64 == |payload|
    ensures var p := ReadPayload(d, pos).value; p.rec == Field(0, payload) && len + payload == d[..p.size]
  {
    hide VarintValue, ReadVarint, Groups;
    VarintExactly(d);
    var r := ReadVarint(d).value;
    len, payload := d[..r.size], d[r.size..r.size + r.value];
    assert d[..r.size + r.value] == len + payload;
  }

  lemma {:induction false} LenParts(r: Rec)
    requires Valid(r) && r.Len?
    ensures IsVarint(r.len) && VarintValue(r.len) % TWO64 == |r.payload| && Raw(r) == r.tag + (r.len + r.payload)
  {
  }

  lemma {:induction false} TagRead(r: Rec, rest: Bytes)
    requires Valid(r)
    ensures var v := VarintValue(r.tag) % TWO64;
            ReadVarint(Raw(r) + rest) == Ok(Read(v, |r.tag|)) && v % 8 == WireType(r)
    ensures r.tag <= Raw(r)
  {
    TagOf(r);
    hide VarintValue, ReadVarint, Groups, Raws;
    assert IsVarint(r.tag) && VarintValue(r.tag) % 8 == WireType(r);
    ModuloEight(VarintValue(r.tag));
    var behind := Raw(r)[|r.tag|..];
    assert Raw(r) + rest == r.tag + (behind + rest);
    VarintIsRead(r.tag, behind + rest);
  }

  /** A record a message can have is read, wherever it stands, as what it is to the message. */
  lemma {:induction false} RecordIsRead(known: set<int>, r: Rec, rest: Bytes, pos: nat)
    requires Takes(known, r) && pos + |Raw(r)| < TWO63
    ensures ReadRecord(known, Raw(r) + rest, pos) == Ok(Parsed(Meaning(known, r), |Raw(r)|))
  {
    hide VarintValue, ReadRecord, ReadVarint, ReadPayload, SkipFrom, Raw, Raws, Valid, Int32, NumberOf;
    var d := Raw(r) + rest;
    TagRead(r, rest);
    NumberIsInt32(VarintValue(r.tag));
    RecordStep(known, d, pos);
    if Number(r) in known {
      LenParts(r);
      assert d[|r.tag|..] == r.len + (r.payload + rest);
      PayloadIsRead(r.len, r.payload, rest, pos + |r.tag|);
    } else {
      RecordIsSkipped(r, rest);
      assert d[..|Raw(r)|] == Raw(r);
    }
  }

  /** And what is read is such a record. */
  lemma {:induction false} ReadIsRecord(known: set<int>, d: Bytes, pos: nat) returns (r: Rec)
    requires ReadRecord(known, d, pos).Ok?
    ensures var p := ReadRecord(known, d, pos).value;
            Takes(known, r) && Raw(r) == d[..p.size] && p.rec == Meaning(known, r)
  {
    hide VarintValue, ReadRecord, ReadVarint, ReadPayload, SkipFrom, Raws, Int32, NumberOf, Groups;
    RecordStep(known, d, pos);
    VarintExactly(d);
    var t := ReadVarint(d).value;
    var tag := d[..t.size];
    ModuloEight(VarintValue(tag));
    NumberIsInt32(VarintValue(tag));
    if Int32(t.value / 8) in known {
      var len, payload := PayloadShape(d[t.size..], pos + t.size);
      r := Len(tag, len, payload);
      var n := ReadPayload(d[t.size..], pos + t.size).value.size;
      assert d[..t.size + n] == tag + d[t.size..][..n];
    } else {
      r := SkippedIsRecord(d);
      SkipAtLeastTag(d);
      SameTag(r, d, t.size);
    }
  }

  lemma {:induction false} SameTag(r: Rec, d: Bytes, n: nat)
    requires Valid(r) && |Raw(r)| <= |d| && Raw(r) == d[..|Raw(r)|]
    requires ReadVarint(d).Ok? && n == ReadVarint(d).value.size
    ensures r.tag == d[..n]
  {
    hide VarintValue, ReadVarint, Raw, Raws, Valid;
    TagRead(r, d[|Raw(r)|..]);
    assert d == Raw(r) + d[|Raw(r)|..];
    assert r.tag == Raw(r)[..|r.tag|] == d[..|r.tag|];
  }

  /** One turn of a decoding loop takes exactly the records the message can have. */
  lemma {:induction false} RecordExactly(known: set<int>, d: Bytes, pos: nat, p: Parsed)
    requires pos + |d| < TWO63
    ensures ReadRecord(known, d, pos) == Ok(p) <==>
              p.size <= |d| && exists r :: Takes(known, r) && Raw(r) == d[..p.size] && p.rec == Meaning(known, r)
  {
    if ReadRecord(known, d, pos) == Ok(p) {
      var r := ReadIsRecord(known, d, pos);
    }
    hide ReadRecord, Raw, Takes;
    if p.size <= |d| {
      if r :| Takes(known, r) && Raw(r) == d[..p.size] && p.rec == Meaning(known, r) {
        assert d[..p.size] + d[p.size..] == d;
        RecordIsRead(known, r, d[p.size..], pos);
      }
    }
  }

  /** Why a record is refused, by its tag alone. */
  lemma {:induction false} TagRefused(known: set<int>, tag: Bytes, rest: Bytes, pos: nat)
    requires IsVarint(tag)
    ensures var num, wireType := NumberOf(VarintValue(tag)), VarintValue(tag) % 8;
            var legal, r := 0 < num < 0x8000_0000, ReadRecord(known, tag + rest, pos);
            && (wireType == 4 ==> r == Err(EndGroup))
            && (wireType != 4 && !legal ==> r == Err(IllegalTag))
            && (wireType != 4 && legal && num in known && wireType != 2 ==> r == Err(WrongWireType))
            && (legal && num !in known && wireType >= 6 ==> r == Err(IllegalWireType))
  {
    hide VarintValue, ReadRecord, ReadVarint, ReadPayload, SkipFrom, Groups, Int32, NumberOf;
    VarintIsRead(tag, rest);
    ModuloEight(VarintValue(tag));
    NumberIsInt32(VarintValue(tag));
    RecordStep(known, tag + rest, pos);
    SkipRefused(tag, rest);
  }

  /** Why a length-delimited record is refused, known or not: its length is no varint, it ends beyond what an int64
      can hold, or beyond the data. */
  lemma {:induction false} LengthRefused(known: set<int>, tag: Bytes, d: Bytes, pos: nat)
    requires IsTag(tag, 2) && 0 < NumberOf(VarintValue(tag)) < 0x8000_0000 && pos < TWO63
    ensures Continues(d, 10) ==> ReadRecord(known, tag + d, pos) == Err(IntOverflow)
    ensures |d| < 10 && Continues(d, |d|) ==> ReadRecord(known, tag + d, pos) == Err(UnexpectedEOF)
    ensures forall len, rest :: IsVarint(len) && d == len + rest ==>
              var end := |tag| + |len| + VarintValue(len) % TWO64;
              && (pos + end >= TWO63 ==> ReadRecord(known, tag + d, pos) == Err(InvalidLength))
              && (pos + end < TWO63 && end > |tag + d| ==> ReadRecord(known, tag + d, pos) == Err(UnexpectedEOF))
  {
    LengthRefusedAt(known, tag, d, pos);
    forall len, rest | IsVarint(len) && d == len + rest
      ensures var end := |tag| + |len| + VarintValue(len) % TWO64;
              && (pos + end >= TWO63 ==> ReadRecord(known, tag + d, pos) == Err(InvalidLength))
              && (pos + end < TWO63 && end > |tag + d| ==> ReadRecord(known, tag + d, pos) == Err(UnexpectedEOF))
    {
      hide VarintValue, ReadRecord, ReadVarint, Groups;
      VarintIsRead(len, rest);
    }
  }

  lemma {:induction false} LengthRefusedAt(known: set<int>, tag: Bytes, d: Bytes, pos: nat)
    requires IsTag(tag, 2) && 0 < NumberOf(VarintValue(tag)) < 0x8000_0000 && pos < TWO63
    ensures var r := ReadRecord(known, tag + d, pos);
            match ReadVarint(d)
            case Err(e) => r == Err(e)
            case Ok(len) =>
              var end := |tag| + len.size + len.value;
              && (pos + end >= TWO63 ==> r == Err(InvalidLength))
              && (pos + end < TWO63 && end > |tag + d| ==> r == Err(UnexpectedEOF))
    ensures Continues(d, 10) ==> ReadVarint(d) == Err(IntOverflow)
    ensures |d| < 10 && Continues(d, |d|) ==> ReadVarint(d) == Err(UnexpectedEOF)
  {
    hide VarintValue, ReadRecord, ReadVarint, SkipFrom, Groups, Int32, NumberOf;
    VarintIsRead(tag, d);
    VarintExactly(d);
    ModuloEight(VarintValue(tag));
    NumberIsInt32(VarintValue(tag));
    RecordStep(known, tag + d, pos);
    assert (tag + d)[|tag|..] == d;
    SkipFromStep(tag + d, 0, 0);
  }

  /** ... and why without one: ten bytes that all go on, or data that ends first. */
  lemma {:induction false} NoTag(known: set<int>, d: Bytes, pos: nat)
    ensures Continues(d, 10) ==> ReadRecord(known, d, pos) == Err(IntOverflow)
    ensures |d| < 10 && Continues(d, |d|) ==> ReadRecord(known, d, pos) == Err(UnexpectedEOF)
  {
    hide VarintValue, ReadRecord, ReadVarint, ReadPayload, Groups, Int32;
    VarintExactly(d);
    RecordStep(known, d, pos);
  }

  lemma {:induction false} TagOfCut(r: Rec, k: nat)
    requires Valid(r) && |r.tag| <= k <= |Raw(r)|
    ensures ReadVarint(Raw(r)[..k]) == Ok(Read(VarintValue(r.tag) % TWO64, |r.tag|))
    ensures VarintValue(r.tag) % TWO64 % 8 == WireType(r) && Raw(r)[..k][..|r.tag|] == r.tag
  {
    hide VarintValue, ReadVarint, Groups, Raw, Raws, Valid, AllValid;
    TagOf(r);
    TagFirst(r, [], |r.tag|);
    assert Raw(r) + [] == Raw(r);
    var behind := Raw(r)[..k][|r.tag|..];
    assert Raw(r)[..k] == r.tag + behind;
    VarintIsRead(r.tag, behind);
    ModuloEight(VarintValue(r.tag));
  }

  lemma {:induction false} PayloadCut(r: Rec, k: nat, pos: nat)
    requires Valid(r) && r.Len? && |r.tag| <= k < |Raw(r)| && pos + |Raw(r)| < TWO63
    ensures ReadPayload(Raw(r)[..k][|r.tag|..], pos + |r.tag|) == Err(UnexpectedEOF)
  {
    hide VarintValue, ReadVarint, Groups, Raws, AllValid;
    var d := Raw(r)[..k][|r.tag|..];
    var n := k - |r.tag|;
    if n < |r.len| {
      assert d == r.len[..n];
      VarintCut(r.len, n);
    } else {
      assert d == r.len + r.payload[..n - |r.len|];
      VarintIsRead(r.len, r.payload[..n - |r.len|]);
    }
  }

  /** A record that is cut off anywhere, inside nested groups, too, is reported as the unexpected end of the data. */
  lemma {:induction false} RecordCutOff(known: set<int>, r: Rec, k: nat, pos: nat)
    requires Takes(known, r) && k < |Raw(r)| && pos + |Raw(r)| < TWO63
    ensures ReadRecord(known, Raw(r)[..k], pos) == Err(UnexpectedEOF)
  {
    hide VarintValue, ReadRecord, ReadVarint, ReadPayload, SkipFrom, Raw, Raws, Valid, Int32, NumberOf, Groups;
    var d := Raw(r)[..k];
    TagOf(r);
    RecordStep(known, d, pos);
    if k < |r.tag| {
      TagFirst(r, [], k);
      assert Raw(r) + [] == Raw(r);
      VarintCut(r.tag, k);
    } else {
      TagOfCut(r, k);
      NumberIsInt32(VarintValue(r.tag));
      if Number(r) in known {
        PayloadCut(r, k, pos);
      } else {
        CutIsNotSkipped(r, k);
      }
    }
  }

  // ---------------------------------------------------------------- messages

  predicate IsMessage(known: set<int>, rs: Recs) {
    rs.Cons? ==> Takes(known, rs.head) && IsMessage(known, rs.tail)
  }

  /** The payloads of the records of one field, in order. */
  function FieldOf(rs: Recs, n: int): seq<Bytes> {
    if rs.Nil? then []
    else (if Number(rs.head) == n && rs.head.Len? then [rs.head.payload] else []) + FieldOf(rs.tail, n)
  }

  /** The records outside the known fields, in order. */
  function Foreign(known: set<int>, rs: Recs): Recs {
    if rs.Nil? then Nil
    else if Number(rs.head) in known then Foreign(known, rs.tail)
    else Cons(rs.head, Foreign(known, rs.tail))
  }

  lemma {:induction false} RawsCons(rs: Recs)
    requires rs.Cons?
    ensures Raws(rs) == Raw(rs.head) + Raws(rs.tail) && |Raw(rs.head)| + |Raws(rs.tail)| == |Raws(rs)|
  {
  }

  /** Payloads and unknown part of a message's bytes are those of its records. */
  lemma {:induction false} MessageParts(known: set<int>, rs: Recs, n: int)
    requires IsMessage(known, rs) && n in known && |Raws(rs)| < TWO63
    ensures Payloads(known, Raws(rs), n) == FieldOf(rs, n)
    ensures UnknownPart(known, Raws(rs)) == Raws(Foreign(known, rs))
    decreases rs
  {
    if rs.Cons? {
      hide ReadRecord, VarintValue, Raw, Raws, Valid, Number;
      var d, size := Raws(rs), |Raw(rs.head)|;
      RawsCons(rs);
      TagOf(rs.head);
      RecordIsRead(known, rs.head, Raws(rs.tail), 0);
      assert d[size..] == Raws(rs.tail);
      MessageParts(known, rs.tail, n);
      if Number(rs.head) !in known {
        RawsCons(Foreign(known, rs));
      }
    }
  }

  // ---------------------------------------------------------------- what decoding makes of a message

  /** The records applied in order, up to the first that cannot be assigned. */
  function Reading<F>(known: set<int>, assign: Setter<F>, m: Msg<F>, rs: Recs): Outcome<Msg<F>>
    requires IsMessage(known, rs)
    decreases rs
  {
    if rs.Nil? then Outcome(m, None)
    else
      var o := Apply(assign, m, Meaning(known, rs.head));
      if o.err.Some? then o else Reading(known, assign, o.msg, rs.tail)
  }

  lemma {:induction false} MessageCons(known: set<int>, rs: Recs)
    ensures rs.Nil? ==> Raws(rs) == [] && IsMessage(known, rs)
    ensures rs.Cons? && IsMessage(known, rs) ==> Valid(rs.head) && Takes(known, rs.head) && IsMessage(known, rs.tail)
    ensures rs.Cons? && Takes(known, rs.head) && IsMessage(known, rs.tail) ==> IsMessage(known, rs)
  {
    hide Valid, Number;
  }

  lemma {:induction false} TakesValid(known: set<int>, r: Rec)
    requires Takes(known, r)
    ensures Valid(r)
  {
  }

  /** One record at the head of the data. */
  lemma {:induction false} FoldRecord<F>(known: set<int>, assign: Setter<F>, m: Msg<F>, r: Rec, rest: Bytes, pos: nat)
    requires Takes(known, r) && pos + |Raw(r)| < TWO63
    ensures Fold(known, assign, m, Raw(r) + rest, pos) ==
            var o := Apply(assign, m, Meaning(known, r));
            if o.err.Some? then o else Fold(known, assign, o.msg, rest, pos + |Raw(r)|)
  {
    hide *;
    var d := Raw(r) + rest;
    TakesValid(known, r);
    TagOf(r);
    RecordIsRead(known, r, rest, pos);
    FoldStep(known, assign, m, d, pos);
    assert d[|Raw(r)|..] == rest;
  }

  /** Decoding the bytes of a message is reading its records, down to the error and the partly read message. */
  lemma {:induction false} FoldMessage<F>(known: set<int>, assign: Setter<F>, m: Msg<F>, rs: Recs, pos: nat)
    requires IsMessage(known, rs) && pos + |Raws(rs)| < TWO63
    ensures Fold(known, assign, m, Raws(rs), pos) == Reading(known, assign, m, rs)
    decreases rs
  {
    MessageCons(known, rs);
    hide Fold, Apply, Meaning, Takes, Raw, Raws;
    if rs.Nil? {
      FoldStep(known, assign, m, Raws(rs), pos);
    } else {
      RawsCons(rs);
      FoldRecord(known, assign, m, rs.head, Raws(rs.tail), pos);
      FoldMessage(known, assign, Apply(assign, m, Meaning(known, rs.head)).msg, rs.tail, pos + |Raw(rs.head)|);
    }
  }

  lemma {:induction false} ConsMessage(known: set<int>, r: Rec, rest: Recs, d: Bytes, n: nat)
    requires Takes(known, r) && IsMessage(known, rest) && n <= |d| && Raw(r) == d[..n] && Raws(rest) == d[n..]
    ensures IsMessage(known, Cons(r, rest)) && Raws(Cons(r, rest)) == d
  {
    MessageCons(known, Cons(r, rest));
    hide Takes, Raw, IsMessage;
    assert d[..n] + d[n..] == d;
  }

  /** Data that decodes is a message. */
  lemma {:induction false} DecodedIsMessage<F>(known: set<int>, assign: Setter<F>, m: Msg<F>, d: Bytes, pos: nat)
    returns (rs: Recs)
    requires pos + |d| < TWO63 && Fold(known, assign, m, d, pos).err.None?
    ensures IsMessage(known, rs) && Raws(rs) == d
    decreases |d|
  {
    hide Fold, Apply, Meaning, Takes, Raw, ReadRecord;
    FoldStep(known, assign, m, d, pos);
    if d == [] {
      rs := Nil;
      MessageCons(known, rs);
    } else {
      var p := ReadRecord(known, d, pos).value;
      var r := ReadIsRecord(known, d, pos);
      var rest := DecodedIsMessage(known, assign, Apply(assign, m, p.rec).msg, d[p.size..], pos + p.size);
      ConsMessage(known, r, rest, d, p.size);
      rs := Cons(r, rest);
    }
  }

  /** A message that is cut off within a record: what stands before the cut is decoded, and the error is the
      unexpected end of the data. */
  lemma {:induction false} CutOff<F>(known: set<int>, assign: Setter<F>, m: Msg<F>, rs: Recs, r: Rec, k: nat)
    requires IsMessage(known, rs) && Takes(known, r) && 0 < k < |Raw(r)| && |Raws(rs)| + |Raw(r)| < TWO63
    requires Reading(known, assign, m, rs).err.None?
    ensures Fold(known, assign, m, Raws(rs) + Raw(r)[..k], 0)
         == Outcome(Reading(known, assign, m, rs).msg, Some(UnexpectedEOF))
  {
    hide Fold, ReadRecord, Raw, Raws, IsMessage, Takes, Reading, Apply;
    FoldMessage(known, assign, m, rs, 0);
    FoldMerge(known, assign, m, Raws(rs), Raw(r)[..k], 0);
    RecordCutOff(known, r, k, |Raws(rs)|);
    FoldStep(known, assign, Reading(known, assign, m, rs).msg, Raw(r)[..k], |Raws(rs)|);
  }

  /** Bytes that are a message for some known fields. */
  ghost predicate AreMessage(known: set<int>, p: Bytes) {
    exists rs :: IsMessage(known, rs) && Raws(rs) == p
  }

  /** A message without repeated messages decodes exactly when it is one. */
  lemma {:induction false} PlainAccepted<F(!new)>(known: set<int>, assign: Setter<F>, m: Msg<F>, d: Bytes)
    requires |d| < TWO63 && forall f, n, p :: assign(f, n, p).err.None?
    ensures Fold(known, assign, m, d, 0).err.None? <==> AreMessage(known, d)
  {
    hide Fold, IsMessage, Raws, Reading;
    if Fold(known, assign, m, d, 0).err.None? {
      var rs := DecodedIsMessage(known, assign, m, d, 0);
    }
    if rs :| IsMessage(known, rs) && Raws(rs) == d {
      FoldMessage(known, assign, m, rs, 0);
      PlainReading(known, assign, m, rs);
    }
  }

  lemma {:induction false} PlainReading<F(!new)>(known: set<int>, assign: Setter<F>, m: Msg<F>, rs: Recs)
    requires IsMessage(known, rs) && forall f, n, p :: assign(f, n, p).err.None?
    ensures Reading(known, assign, m, rs).err.None?
    decreases rs
  {
    MessageCons(known, rs);
    hide Takes, Raw, Number;
    if rs.Cons? {
      PlainReading(known, assign, Apply(assign, m, Meaning(known, rs.head)).msg, rs.tail);
    }
  }

  /** A disk or a network interface decodes exactly when its bytes are a message with strings in its fields. */
  lemma {:induction false} EntryAccepted(p: Bytes)
    requires |p| < TWO63
    ensures EntryDecodes(11, p) <==> AreMessage(DISK_FIELDS, p)
    ensures EntryDecodes(12, p) <==> AreMessage(NIC_FIELDS, p)
  {
    hide Fold, AreMessage;
    PlainAccepted(DISK_FIELDS, SetDisk, EMPTY_DISK, p);
    PlainAccepted(NIC_FIELDS, SetNic, EMPTY_NIC, p);
  }

  /** The entries of both lists are messages, too. */
  ghost predicate EntriesAre(rs: Recs) {
    rs.Cons? ==>
      && (Number(rs.head) == 11 && rs.head.Len? ==> AreMessage(DISK_FIELDS, rs.head.payload))
      && (Number(rs.head) == 12 && rs.head.Len? ==> AreMessage(NIC_FIELDS, rs.head.payload))
      && EntriesAre(rs.tail)
  }

  lemma {:induction false} SpecReading(m: Spec, rs: Recs)
    requires IsMessage(SPEC_FIELDS, rs) && |Raws(rs)| < TWO63
    ensures Reading(SPEC_FIELDS, SetSpec, m, rs).err.None? <==> EntriesAre(rs)
    decreases rs
  {
    MessageCons(SPEC_FIELDS, rs);
    if rs.Cons? {
      SpecRecord(m, rs.head);
      hide Takes, Raw, Raws, Number, AreMessage, Apply, SetSpec, Meaning;
      RawsCons(rs);
      if rs.head.Len? {
        PayloadLength(rs.head);
        EntryAccepted(rs.head.payload);
      }
      SpecReading(Apply(SetSpec, m, Meaning(SPEC_FIELDS, rs.head)).msg, rs.tail);
    }
  }

  lemma {:induction false} PayloadLength(r: Rec)
    requires r.Len?
    ensures |r.payload| <= |Raw(r)|
  {
  }

  lemma {:induction false} SpecRecord(m: Spec, r: Rec)
    requires Takes(SPEC_FIELDS, r)
    ensures Apply(SetSpec, m, Meaning(SPEC_FIELDS, r)).err.None? <==>
              && (Number(r) == 11 && r.Len? ==> EntryDecodes(11, r.payload))
              && (Number(r) == 12 && r.Len? ==> EntryDecodes(12, r.payload))
  {
    hide DecodeDisk, DecodeNic, Valid, VarintValue, Raw, SetSpecString;
  }

  /** The decoder of MachineSpec accepts exactly the messages whose known fields are length-delimited and whose
      entries are messages of the same kind. */
  lemma {:induction false} AcceptsExactly(m: Spec, d: Bytes)
    requires |d| < TWO63
    ensures DecodeSpec(m, d, 0).err.None? <==>
              exists rs :: IsMessage(SPEC_FIELDS, rs) && EntriesAre(rs) && Raws(rs) == d
  {
    hide Fold, IsMessage, Raws, Reading, EntriesAre;
    if DecodeSpec(m, d, 0).err.None? {
      var rs := DecodedIsMessage(SPEC_FIELDS, SetSpec, m, d, 0);
      FoldMessage(SPEC_FIELDS, SetSpec, m, rs, 0);
      SpecReading(m, rs);
    }
    if rs :| IsMessage(SPEC_FIELDS, rs) && EntriesAre(rs) && Raws(rs) == d {
      FoldMessage(SPEC_FIELDS, SetSpec, m, rs, 0);
      SpecReading(m, rs);
    }
  }

  /** Unknown bytes are well formed exactly when they are records outside the known fields. */
  lemma {:induction false} AllUnknownExactly(known: set<int>, d: Bytes)
    requires |d| < TWO63
    ensures AllUnknown(known, d) <==> exists rs :: IsMessage(known, rs) && Foreign(known, rs) == rs && Raws(rs) == d
  {
    hide AllUnknown, IsMessage, Raws, Foreign;
    if AllUnknown(known, d) {
      var rs := UnknownIsMessage(known, d);
    }
    if rs :| IsMessage(known, rs) && Foreign(known, rs) == rs && Raws(rs) == d {
      ForeignIsUnknown(known, rs);
    }
  }

  lemma {:induction false} UnknownIsMessage(known: set<int>, d: Bytes) returns (rs: Recs)
    requires |d| < TWO63 && AllUnknown(known, d)
    ensures IsMessage(known, rs) && Foreign(known, rs) == rs && Raws(rs) == d
    decreases |d|
  {
    if d == [] {
      rs := Nil;
    } else {
      var p := ReadRecord(known, d, 0).value;
      var r := ReadIsRecord(known, d, 0);
      var rest := UnknownIsMessage(known, d[p.size..]);
      assert Number(r) !in known;
      hide Takes, Raw, Raws, Number, AllUnknown, ReadRecord, IsMessage;
      ConsMessage(known, r, rest, d, p.size);
      rs := Cons(r, rest);
    }
  }

  lemma {:induction false} ForeignIsUnknown(known: set<int>, rs: Recs)
    requires IsMessage(known, rs) && Foreign(known, rs) == rs && |Raws(rs)| < TWO63
    ensures AllUnknown(known, Raws(rs))
    decreases rs
  {
    MessageCons(known, rs);
    if rs.Cons? {
      ForeignHead(known, rs);
      hide Takes, Raw, Raws, Number, ReadRecord, Foreign, Valid;
      RawsCons(rs);
      TagOf(rs.head);
      RecordIsRead(known, rs.head, Raws(rs.tail), 0);
      assert Raws(rs)[|Raw(rs.head)|..] == Raws(rs.tail);
      ForeignIsUnknown(known, rs.tail);
    }
  }

  lemma {:induction false} ForeignSize(known: set<int>, rs: Recs)
    ensures Length(Foreign(known, rs)) <= Length(rs)
    decreases rs
  {
    hide Number;
    if rs.Cons? {
      ForeignSize(known, rs.tail);
    }
  }

  function Length(rs: Recs): nat {
    if rs.Nil? then 0 else 1 + Length(rs.tail)
  }

  lemma {:induction false} ForeignHead(known: set<int>, rs: Recs)
    requires rs.Cons? && Foreign(known, rs) == rs
    ensures Number(rs.head) !in known && Foreign(known, rs.tail) == rs.tail
  {
    hide Number;
    ForeignSize(known, rs.tail);
    assert Length(rs) == 1 + Length(rs.tail);
  }

  // ---------------------------------------------------------------- last one wins

  /** The last of some values, or what was there before. */
  function Last(ps: seq<Bytes>, before: Bytes): Bytes {
    if ps == [] then before else ps[|ps| - 1]
  }

  lemma {:induction false} LastAppend(p: seq<Bytes>, q: seq<Bytes>, before: Bytes)
    ensures Last(p + q, before) == Last(q, Last(p, before))
  {
  }

  /** A field that every assignment to its number sets, and no other one touches, ends as the last payload. */
  lemma {:induction false} FoldLast<F(!new)>(known: set<int>, assign: Setter<F>, get: F -> Bytes, num: int, m: Msg<F>,
                                             d: Bytes, pos: nat)
    requires forall f, n, p :: assign(f, n, p).err.None? ==> get(assign(f, n, p).msg) == if n == num then p else get(f)
    requires pos + |d| < TWO63 && Fold(known, assign, m, d, pos).err.None?
    ensures get(Fold(known, assign, m, d, pos).msg.fields) == Last(Payloads(known, d, num), get(m.fields))
    decreases |d|
  {
    hide Fold, ReadRecord, Payloads, Last;
    FoldStep(known, assign, m, d, pos);
    RecordPosition(known, d, pos, 0);
    PayloadsStep(known, d, num);
    if d == [] {
      NoPayload(get(m.fields));
    } else {
      var p := ReadRecord(known, d, pos).value;
      var n := Apply(assign, m, p.rec).msg;
      ApplyLast(assign, get, num, m, p.rec);
      FoldLast(known, assign, get, num, n, d[p.size..], pos + p.size);
      LastAppend(EntryOf(p.rec, num), Payloads(known, d[p.size..], num), get(m.fields));
    }
  }

  lemma {:induction false} NoPayload(before: Bytes)
    ensures Last([], before) == before
  {
  }

  lemma {:induction false} ApplyLast<F(!new)>(assign: Setter<F>, get: F -> Bytes, num: int, m: Msg<F>, rec: Record)
    requires forall f, n, p :: assign(f, n, p).err.None? ==> get(assign(f, n, p).msg) == if n == num then p else get(f)
    requires Apply(assign, m, rec).err.None?
    ensures get(Apply(assign, m, rec).msg.fields) == Last(EntryOf(rec, num), get(m.fields))
  {
  }

  /** The string a machine has under a field number of the schema. */
  function Text(f: SpecFields, num: int): Bytes {
    if num == 1 then f.uuid
    else if num == 2 then f.schematic
    else if num == 3 then f.talosVersion
    else if num == 10 then f.vmVolName
    else if num == 13 then f.cidataVolName
    else if num == 14 then f.isoVolName
    else if num == 15 then f.isoVolPath
    else if num == 16 then f.cidataVolPath
    else if num == 17 then f.vmVolPath
    else if num == 18 then f.vmIfName
    else if num == 20 then f.poolName
    else if num == 21 then f.vmName
    else if num == 25 then f.vmNvramName
    else []
  }

  const TEXTS: set<int> := {1, 2, 3, 10, 13, 14, 15, 16, 17, 18, 20, 21, 25}

  function DiskText(f: DiskFields, num: int): Bytes {
    if num == 1 then f.typ else if num == 3 then f.volName else []
  }

  function NicText(f: NicFields, num: int): Bytes {
    if num == 1 then f.driver
    else if num == 2 then f.network
    else if num == 3 then f.bridge
    else if num == 4 then f.target
    else if num == 5 then f.physicalAddress
    else []
  }

  lemma {:induction false} SpecTextSet(f: SpecFields, n: int, p: Bytes, num: int)
    requires num in TEXTS && SetSpec(f, n, p).err.None?
    ensures Text(SetSpec(f, n, p).msg, num) == if n == num then p else Text(f, num)
  {
    hide DecodeDisk, DecodeNic;
    if n == 11 {
      assert Text(SetSpec(f, n, p).msg, num) == Text(f, num);
    } else if n == 12 {
      assert Text(SetSpec(f, n, p).msg, num) == Text(f, num);
    }
  }

  /** Last One Wins: whatever a machine had, and whatever decodes into it, each of its thirteen strings is
      afterwards the last value the input has for it, or what it was if the input has none. */
  lemma {:induction false} LastOneWins(m: Spec, d: Bytes, num: int)
    requires |d| < TWO63 && DecodeSpec(m, d, 0).err.None? && num in TEXTS
    ensures Text(DecodeSpec(m, d, 0).msg.fields, num) == Last(Payloads(SPEC_FIELDS, d, num), Text(m.fields, num))
  {
    hide Fold, SetSpec, Text;
    forall f, n, p | SetSpec(f, n, p).err.None?
      ensures Text(SetSpec(f, n, p).msg, num) == if n == num then p else Text(f, num)
    {
      SpecTextSet(f, n, p, num);
    }
    FoldLast(SPEC_FIELDS, SetSpec, f => Text(f, num), num, m, d, 0);
  }

  /** The same for an additional disk's two strings and a network interface's five. */
  lemma {:induction false} DiskLastOneWins(m: Disk, d: Bytes, num: int)
    requires |d| < TWO63 && DecodeDisk(m, d, 0).err.None? && num in DISK_FIELDS
    ensures DiskText(DecodeDisk(m, d, 0).msg.fields, num)
         == Last(Payloads(DISK_FIELDS, d, num), DiskText(m.fields, num))
  {
    hide Fold;
    FoldLast(DISK_FIELDS, SetDisk, f => DiskText(f, num), num, m, d, 0);
  }

  lemma {:induction false} NicLastOneWins(m: Nic, d: Bytes, num: int)
    requires |d| < TWO63 && DecodeNic(m, d, 0).err.None? && num in NIC_FIELDS
    ensures NicText(DecodeNic(m, d, 0).msg.fields, num) == Last(Payloads(NIC_FIELDS, d, num), NicText(m.fields, num))
  {
    hide Fold;
    FoldLast(NIC_FIELDS, SetNic, f => NicText(f, num), num, m, d, 0);
  }

  /** What a machine decodes to, read off the records of its input: strings, unknown bytes and both lists. */
  lemma {:induction false} DecodedMessage(m: Spec, rs: Recs)
    requires IsMessage(SPEC_FIELDS, rs) && EntriesAre(rs) && |Raws(rs)| < TWO63
    requires |m.unknown| + |Raws(rs)| < TWO63
    ensures var o := DecodeSpec(m, Raws(rs), 0);
            && o.err.None?
            && o.msg.unknown == m.unknown + Raws(Foreign(SPEC_FIELDS, rs))
            && o.msg.fields.disks == m.fields.disks + Each(DecodedDisk, FieldOf(rs, 11))
            && o.msg.fields.nics == m.fields.nics + Each(DecodedNic, FieldOf(rs, 12))
            && forall num :: num in TEXTS ==> Text(o.msg.fields, num) == Last(FieldOf(rs, num), Text(m.fields, num))
  {
    hide Fold, SetSpec, Text, IsMessage, EntriesAre, Raws, Foreign, FieldOf, Payloads, UnknownPart, Last, Each;
    FoldMessage(SPEC_FIELDS, SetSpec, m, rs, 0);
    SpecReading(m, rs);
    FoldUnknown(SPEC_FIELDS, SetSpec, m, Raws(rs), 0);
    MessageParts(SPEC_FIELDS, rs, 11);
    MessageParts(SPEC_FIELDS, rs, 12);
    DecodedEntries(m, Raws(rs), 0);
    forall num | num in TEXTS
      ensures Text(DecodeSpec(m, Raws(rs), 0).msg.fields, num) == Last(FieldOf(rs, num), Text(m.fields, num))
    {
      MessageParts(SPEC_FIELDS, rs, num);
      LastOneWins(m, Raws(rs), num);
    }
  }

  // ---------------------------------------------------------------- what is written

  /** The records of known fields in some data, in order. */
  function Emitted(known: set<int>, d: Bytes): seq<Record>
    decreases |d|
  {
    if d == [] then []
    else
      match ReadRecord(known, d, 0)
      case Err(_) => []
      case Ok(p) => (if p.rec.Field? then [p.rec] else []) + Emitted(known, d[p.size..])
  }

  lemma {:induction false} EmittedField(known: set<int>, num: int, p: Bytes, rest: Bytes)
    requires num in known && 0 < num < 0x2000_0000 && |EncField(num, p)| + |rest| < TWO63
    ensures Emitted(known, EncField(num, p) + rest) == [Field(num, p)] + Emitted(known, rest)
  {
    hide ReadRecord, EncField, SizeOfVarint;
    ReadEncField(known, num, p, rest, 0);
    assert (EncField(num, p) + rest)[|EncField(num, p)|..] == rest;
  }

  /** One string, if it is not empty. */
  function TextRecord(num: int, s: Bytes): seq<Record> {
    if s == [] then [] else [Field(num, s)]
  }

  lemma {:induction false} EmittedText(known: set<int>, num: int, s: Bytes, rest: Bytes)
    requires num in known && 0 < num < 0x2000_0000 && |EncString(num, s)| + |rest| < TWO63
    ensures Emitted(known, EncString(num, s) + rest) == TextRecord(num, s) + Emitted(known, rest)
  {
    hide EncField, Emitted, SizeOfVarint;
    if s == [] {
      assert EncString(num, s) + rest == rest;
      assert [] + Emitted(known, rest) == Emitted(known, rest);
    } else {
      EmittedField(known, num, s, rest);
    }
  }

  function EntryRecords(num: int, ps: seq<Bytes>): (r: seq<Record>)
    ensures |r| == |ps| && forall i :: 0 <= i < |ps| ==> r[i] == Field(num, ps[i])
  {
    seq(|ps|, i requires 0 <= i < |ps| => Field(num, ps[i]))
  }

  lemma {:induction false} EmittedEntries(known: set<int>, num: int, ps: seq<Bytes>, rest: Bytes)
    requires num in known && 0 < num < 0x2000_0000 && |EncFields(num, ps)| + |rest| < TWO63
    ensures Emitted(known, EncFields(num, ps) + rest) == EntryRecords(num, ps) + Emitted(known, rest)
    decreases |ps|
  {
    hide EncField, Emitted, SizeOfVarint;
    if ps == [] {
      assert EncFields(num, ps) + rest == rest;
      assert EntryRecords(num, ps) + Emitted(known, rest) == Emitted(known, rest);
    } else {
      var tail := EncFields(num, ps[1..]) + rest;
      assert EncFields(num, ps) + rest == EncField(num, ps[0]) + tail;
      EmittedField(known, num, ps[0], tail);
      EmittedEntries(known, num, ps[1..], rest);
      assert EntryRecords(num, ps) == [Field(num, ps[0])] + EntryRecords(num, ps[1..]);
    }
  }

  lemma {:induction false} NothingEmitted(known: set<int>, d: Bytes)
    requires AllUnknown(known, d)
    ensures Emitted(known, d) == []
    decreases |d|
  {
    hide ReadRecord;
    if d != [] {
      NothingEmitted(known, d[ReadRecord(known, d, 0).value.size..]);
    }
  }

  /** The records of a machine, in the order of the schema; empty strings have none. */
  function SpecRecords(f: SpecFields): seq<Record> {
    TextRecord(1, f.uuid) + (TextRecord(2, f.schematic) + (TextRecord(3, f.talosVersion)
    + (TextRecord(10, f.vmVolName) + (EntryRecords(11, Each(EncDiskEntry, f.disks))
    + (EntryRecords(12, Each(EncNicEntry, f.nics)) + TailRecords(f))))))
  }

  function TailRecords(f: SpecFields): seq<Record> {
    TextRecord(13, f.cidataVolName) + (TextRecord(14, f.isoVolName) + (TextRecord(15, f.isoVolPath)
    + (TextRecord(16, f.cidataVolPath) + (TextRecord(17, f.vmVolPath) + (TextRecord(18, f.vmIfName)
    + (TextRecord(20, f.poolName) + (TextRecord(21, f.vmName) + (TextRecord(25, f.vmNvramName) + []))))))))
  }

  lemma {:induction false} EmittedTail(m: Spec)
    requires AllUnknown(SPEC_FIELDS, m.unknown) && |EncSpecTail(m)| < TWO63
    ensures Emitted(SPEC_FIELDS, EncSpecTail(m)) == TailRecords(m.fields)
  {
    hide EncString, Emitted, TextRecord, AllUnknown, SizeOfVarint;
    var f := m.fields;
    var r8 := EncString(25, f.vmNvramName) + m.unknown;
    var r7 := EncString(21, f.vmName) + r8;
    var r6 := EncString(20, f.poolName) + r7;
    var r5 := EncString(18, f.vmIfName) + r6;
    var r4 := EncString(17, f.vmVolPath) + r5;
    var r3 := EncString(16, f.cidataVolPath) + r4;
    var r2 := EncString(15, f.isoVolPath) + r3;
    var r1 := EncString(14, f.isoVolName) + r2;
    NothingEmitted(SPEC_FIELDS, m.unknown);
    EmittedText(SPEC_FIELDS, 25, f.vmNvramName, m.unknown);
    EmittedText(SPEC_FIELDS, 21, f.vmName, r8);
    EmittedText(SPEC_FIELDS, 20, f.poolName, r7);
    EmittedText(SPEC_FIELDS, 18, f.vmIfName, r6);
    EmittedText(SPEC_FIELDS, 17, f.vmVolPath, r5);
    EmittedText(SPEC_FIELDS, 16, f.cidataVolPath, r4);
    EmittedText(SPEC_FIELDS, 15, f.isoVolPath, r3);
    EmittedText(SPEC_FIELDS, 14, f.isoVolName, r2);
    EmittedText(SPEC_FIELDS, 13, f.cidataVolName, r1);
  }

  /** A machine is written as its records in the order of the schema, and its unknown bytes behind them. */
  lemma {:induction false} SpecEmitted(m: Spec)
    requires AllUnknown(SPEC_FIELDS, m.unknown) && |EncSpec(m)| < TWO63
    ensures Emitted(SPEC_FIELDS, EncSpec(m)) == SpecRecords(m.fields)
  {
    hide EncString, Emitted, TextRecord, AllUnknown, EncFields, EntryRecords, EncSpecTail, TailRecords, Each;
    hide SizeOfVarint;
    var f := m.fields;
    var disks, nics := Each(EncDiskEntry, f.disks), Each(EncNicEntry, f.nics);
    var r5 := EncFields(12, nics) + EncSpecTail(m);
    var r4 := EncFields(11, disks) + r5;
    var r3 := EncString(10, f.vmVolName) + r4;
    var r2 := EncString(3, f.talosVersion) + r3;
    var r1 := EncString(2, f.schematic) + r2;
    EmittedTail(m);
    EmittedEntries(SPEC_FIELDS, 12, nics, EncSpecTail(m));
    EmittedEntries(SPEC_FIELDS, 11, disks, r5);
    EmittedText(SPEC_FIELDS, 10, f.vmVolName, r4);
    EmittedText(SPEC_FIELDS, 3, f.talosVersion, r3);
    EmittedText(SPEC_FIELDS, 2, f.schematic, r2);
    EmittedText(SPEC_FIELDS, 1, f.uuid, r1);
  }

  lemma {:induction false} UnknownLast(m: Spec)
    ensures var d := EncSpec(m); |m.unknown| <= |d| && d[|d| - |m.unknown|..] == m.unknown
  {
    hide EncString, EncDisks, EncNics, SizeOfVarint;
  }

  /** The same for the entries of both lists. */
  lemma {:induction false} DiskEmitted(m: Disk)
    requires AllUnknown(DISK_FIELDS, m.unknown) && |EncDisk(m)| < TWO63
    ensures Emitted(DISK_FIELDS, EncDisk(m)) == TextRecord(1, m.fields.typ) + (TextRecord(3, m.fields.volName) + [])
  {
    hide EncString, Emitted, TextRecord, AllUnknown, SizeOfVarint;
    NothingEmitted(DISK_FIELDS, m.unknown);
    EmittedText(DISK_FIELDS, 3, m.fields.volName, m.unknown);
    EmittedText(DISK_FIELDS, 1, m.fields.typ, EncString(3, m.fields.volName) + m.unknown);
  }

  lemma {:induction false} NicEmitted(m: Nic)
    requires AllUnknown(NIC_FIELDS, m.unknown) && |EncNic(m)| < TWO63
    ensures Emitted(NIC_FIELDS, EncNic(m)) ==
            TextRecord(1, m.fields.driver) + (TextRecord(2, m.fields.network) + (TextRecord(3, m.fields.bridge)
            + (TextRecord(4, m.fields.target) + (TextRecord(5, m.fields.physicalAddress) + []))))
  {
    hide EncString, Emitted, TextRecord, AllUnknown, SizeOfVarint;
    var f := m.fields;
    var r4 := EncString(5, f.physicalAddress) + m.unknown;
    var r3 := EncString(4, f.target) + r4;
    var r2 := EncString(3, f.bridge) + r3;
    var r1 := EncString(2, f.network) + r2;
    NothingEmitted(NIC_FIELDS, m.unknown);
    EmittedText(NIC_FIELDS, 5, f.physicalAddress, m.unknown);
    EmittedText(NIC_FIELDS, 4, f.target, r4);
    EmittedText(NIC_FIELDS, 3, f.bridge, r3);
    EmittedText(NIC_FIELDS, 2, f.network, r2);
    EmittedText(NIC_FIELDS, 1, f.driver, r1);
  }
}
