/** What varints and wire records are, written down from the format and not from the decoder, and that the
    decoder reads exactly these: every record, whatever its varints and however its groups nest, and nothing
    else. */
module WireRecords {
  import opened Wire

  // ---------------------------------------------------------------- varints

  /** One to ten bytes; all but the last have the continuation bit. */
  predicate IsVarint(b: Bytes) {
    1 <= |b| <= 10 && b[|b| - 1] < 128 && forall i :: 0 <= i < |b| - 1 ==> b[i] >= 128
  }

  /** Seven bits of each byte, the least significant group first. */
  function VarintValue(b: Bytes): nat {
    if b == [] then 0 else VarintValue(b[..|b| - 1]) + Pow128(|b| - 1) * (b[|b| - 1] % 128)
  }

  lemma {:induction false} ValueFromFront(b: Bytes)
    requires b != []
    ensures VarintValue(b) == b[0] % 128 + 128 * VarintValue(b[1..])
    decreases |b|
  {
    var n := |b| - 1;
    if n == 0 {
      assert Pow128(0) == 1;
    } else {
      var init := b[..n];
      ValueFromFront(init);
      assert init[1..] == b[1..][..n - 1] && b[1..][n - 1] == b[n];
      assert Pow128(n) == 128 * Pow128(n - 1);
      assert 128 * (Pow128(n - 1) * (b[n] % 128)) == Pow128(n) * (b[n] % 128);
    }
  }

  lemma {:induction false} GroupsOfVarint(b: Bytes, rest: Bytes, limit: nat)
    requires 1 <= |b| <= limit && b[|b| - 1] < 128 && forall i :: 0 <= i < |b| - 1 ==> b[i] >= 128
    ensures Groups(b + rest, limit) == Ok(Read(VarintValue(b), |b|))
    decreases |b|
  {
    hide VarintValue;
    ValueFromFront(b);
    var d := b + rest;
    assert d[1..] == b[1..] + rest;
    if |b| == 1 {
      assert VarintValue(b[1..]) == 0 by { EmptyValue(b[1..]); }
    } else {
      GroupsOfVarint(b[1..], rest, limit - 1);
    }
  }

  lemma {:induction false} EmptyValue(b: Bytes)
    requires b == []
    ensures VarintValue(b) == 0
  {
  }

  /** Every varint is read, with its value modulo 2^64 and its extent. */
  lemma {:induction false} VarintIsRead(b: Bytes, rest: Bytes)
    requires IsVarint(b)
    ensures ReadVarint(b + rest) == Ok(Read(VarintValue(b) % TWO64, |b|))
    ensures Groups(b + rest, 10) == Ok(Read(VarintValue(b), |b|))
  {
    GroupsOfVarint(b, rest, 10);
  }

  /** The first n bytes have the continuation bit. */
  predicate Continues(d: Bytes, n: nat) {
    n <= |d| && forall i :: 0 <= i < n ==> d[i] >= 128
  }

  lemma {:induction false} ContinuesCons(d: Bytes, n: nat)
    requires d != [] && d[0] >= 128 && Continues(d[1..], n)
    ensures Continues(d, n + 1)
  {
    forall i | 0 < i < n + 1 ensures d[i] >= 128 {
      assert d[i] == d[1..][i - 1];
    }
  }

  lemma {:induction false} GroupsShape(d: Bytes, limit: nat)
    ensures match Groups(d, limit)
            case Ok(r) => 1 <= r.size <= limit && d[r.size - 1] < 128 && Continues(d, r.size - 1)
            case Err(IntOverflow) => Continues(d, limit)
            case Err(e) => e == UnexpectedEOF && |d| < limit && Continues(d, |d|)
    decreases |d|
  {
    if limit > 0 && d != [] && d[0] >= 128 {
      var rest := Groups(d[1..], limit - 1);
      GroupsShape(d[1..], limit - 1);
      ContinuesCons(d, if rest.Ok? then rest.value.size - 1
                       else if rest.error == IntOverflow then limit - 1 else |d| - 1);
    }
  }

  /** What is read is a varint, and the errors say why none stands there: ten continuation bytes, or no end. */
  lemma {:induction false} VarintExactly(d: Bytes)
    ensures match ReadVarint(d)
            case Ok(r) => IsVarint(d[..r.size]) && r.value == VarintValue(d[..r.size]) % TWO64
            case Err(IntOverflow) => Continues(d, 10)
            case Err(e) => e == UnexpectedEOF && |d| < 10 && Continues(d, |d|)
  {
    GroupsShape(d, 10);
    hide Groups, VarintValue;
    if ReadVarint(d).Ok? {
      var n := ReadVarint(d).value.size;
      assert d[..n] + d[n..] == d;
      VarintIsRead(d[..n], d[n..]);
    }
  }

  // ---------------------------------------------------------------- records

  /** The wire types 0, 1, 2, 3 with 4, and 5, each with the bytes of its tag. */
  datatype Rec =
    | Varint(tag: Bytes, value: Bytes)
    | I64(tag: Bytes, bytes: Bytes)
    | Len(tag: Bytes, len: Bytes, payload: Bytes)
    | Group(tag: Bytes, body: Recs, end: Bytes)
    | I32(tag: Bytes, bytes: Bytes)

  datatype Recs = Nil | Cons(head: Rec, tail: Recs)

  predicate IsTag(b: Bytes, wireType: nat) {
    IsVarint(b) && VarintValue(b) % 8 == wireType
  }

  predicate Valid(r: Rec) {
    match r
    case Varint(tag, value) => IsTag(tag, 0) && IsVarint(value)
    case I64(tag, bytes) => IsTag(tag, 1) && |bytes| == 8
    case Len(tag, len, payload) => IsTag(tag, 2) && IsVarint(len) && VarintValue(len) % TWO64 == |payload|
    case Group(tag, body, end) => IsTag(tag, 3) && AllValid(body) && IsTag(end, 4)
    case I32(tag, bytes) => IsTag(tag, 5) && |bytes| == 4
  }

  predicate AllValid(rs: Recs) {
    rs.Cons? ==> Valid(rs.head) && AllValid(rs.tail)
  }

  function Raw(r: Rec): Bytes {
    match r
    case Varint(tag, value) => tag + value
    case I64(tag, bytes) => tag + bytes
    case Len(tag, len, payload) => tag + (len + payload)
    case Group(tag, body, end) => tag + (Raws(body) + end)
    case I32(tag, bytes) => tag + bytes
  }

  function Raws(rs: Recs): Bytes {
    if rs.Nil? then [] else Raw(rs.head) + Raws(rs.tail)
  }

  /** What stands behind the tag of a record that is not a group. */
  function Rest(r: Rec): Bytes
    requires !r.Group?
  {
    match r
    case Varint(_, value) => value
    case I64(_, bytes) => bytes
    case Len(_, len, payload) => len + payload
    case I32(_, bytes) => bytes
  }

  function WireType(r: Rec): nat {
    match r
    case Varint(_, _) => 0
    case I64(_, _) => 1
    case Len(_, _, _) => 2
    case Group(_, _, _) => 3
    case I32(_, _) => 5
  }

  lemma {:induction false} TagOf(r: Rec)
    requires Valid(r)
    ensures IsTag(r.tag, WireType(r)) && |Raw(r)| >= |r.tag| >= 1
    ensures !r.Group? ==> Raw(r) == r.tag + Rest(r)
    ensures r.Group? ==> AllValid(r.body) && IsTag(r.end, 4)
  {
    hide Raws, VarintValue;
  }

  // ---------------------------------------------------------------- every record is skipped

  /** The skipping loop, one turn unrolled. */
  lemma {:induction false} SkipFromStep(d: Bytes, pos: nat, depth: nat)
    ensures SkipFrom(d, pos, depth) ==
            if d == [] then Err(UnexpectedEOF)
            else
              match ReadVarint(d)
              case Err(e) => Err(e)
              case Ok(tag) =>
                match SkipPayload(tag.value % 8, d[tag.size..], pos + tag.size, depth)
                case Err(e) => Err(e)
                case Ok(c) =>
                  if c.next >= TWO63 then Err(InvalidLength)
                  else if c.depth == 0 then Ok(c.next)
                  else if c.next - pos >= |d| then Err(UnexpectedEOF)
                  else SkipFrom(d[c.next - pos..], c.next, c.depth)
  {
    hide ReadVarint, SkipPayload;
  }

  /** One turn of the skipping loop. */
  lemma {:induction false} SkipTurn(tag: Bytes, wireType: nat, bytes: Bytes, rest: Bytes, pos: nat, depth: nat,
                                    depth': nat)
    requires IsTag(tag, wireType)
    requires SkipPayload(wireType, bytes + rest, pos + |tag|, depth) == Ok(Cursor(pos + |tag| + |bytes|, depth'))
    requires pos + |tag| + |bytes| < TWO63
    ensures var d, next := tag + (bytes + rest), pos + |tag| + |bytes|;
            SkipFrom(d, pos, depth) ==
            if depth' == 0 then Ok(next) else if rest == [] then Err(UnexpectedEOF) else SkipFrom(rest, next, depth')
  {
    hide SkipFrom, SkipPayload, ReadVarint, VarintValue, Groups;
    var d := tag + (bytes + rest);
    SkipFromStep(d, pos, depth);
    VarintIsRead(tag, bytes + rest);
    ModuloEight(VarintValue(tag));
    TagNotEmpty(tag, wireType);
    assert d[|tag|..] == bytes + rest;
    assert d[|tag| + |bytes|..] == rest;
  }

  lemma {:induction false} ModuloEight(v: nat)
    ensures v % TWO64 % 8 == v % 8
  {
  }

  lemma {:induction false} SkipRest(r: Rec, rest: Bytes, pos: nat, depth: nat)
    requires Valid(r) && !r.Group? && pos + |Rest(r)| < TWO63
    ensures SkipPayload(WireType(r), Rest(r) + rest, pos, depth) == Ok(Cursor(pos + |Rest(r)|, depth))
  {
    hide VarintValue, ReadVarint, Groups;
    match r {
      case Varint(_, value) => VarintIsRead(value, rest);
      case Len(_, len, payload) =>
        assert len + payload + rest == len + (payload + rest);
        VarintIsRead(len, payload + rest);
      case _ =>
    }
  }

  /** What is left of the groups that are open, the innermost first: its records, its end tag, and the groups
      around it. */
  datatype Open = Outside | Inside(body: Recs, end: Bytes, outer: Open)

  function Depth(o: Open): nat {
    if o.Outside? then 0 else 1 + Depth(o.outer)
  }

  predicate OpenValid(o: Open) {
    o.Inside? ==> AllValid(o.body) && IsTag(o.end, 4) && OpenValid(o.outer)
  }

  function RawOpen(o: Open): Bytes {
    if o.Outside? then [] else Raws(o.body) + (o.end + RawOpen(o.outer))
  }

  lemma {:induction false} OpenNotEmpty(o: Open)
    requires OpenValid(o) && o.Inside?
    ensures RawOpen(o) != []
  {
    hide Raws, VarintValue;
    assert |o.end| >= 1;
  }

  lemma {:induction false} OpenCons(r: Rec, o: Open)
    requires o.Inside?
    ensures RawOpen(o.(body := Cons(r, o.body))) == Raw(r) + RawOpen(o)
    ensures OpenValid(o.(body := Cons(r, o.body))) <==> Valid(r) && OpenValid(o)
  {
    hide Raw, VarintValue;
    assert Raw(r) + Raws(o.body) + (o.end + RawOpen(o.outer)) == Raw(r) + (Raws(o.body) + (o.end + RawOpen(o.outer)));
  }

  lemma {:induction false} OpenEnter(r: Rec, o: Open)
    requires r.Group? && o.Inside?
    ensures Raw(r) + RawOpen(o) == r.tag + RawOpen(Inside(r.body, r.end, o))
    ensures IsTag(r.tag, 3) ==> (Valid(r) && OpenValid(o) <==> OpenValid(Inside(r.body, r.end, o)))
  {
    hide Raws, VarintValue;
    assert r.tag + (Raws(r.body) + r.end) + RawOpen(o) == r.tag + (Raws(r.body) + (r.end + RawOpen(o)));
  }

  lemma {:induction false} OpenEnd(end: Bytes, o: Open)
    ensures RawOpen(Inside(Nil, end, o)) == end + RawOpen(o)
  {
    hide RawOpen;
    assert RawOpen(Inside(Nil, end, o)) == Raws(Nil) + (end + RawOpen(o)) by { OpenParts(Inside(Nil, end, o)); }
    assert [] + (end + RawOpen(o)) == end + RawOpen(o);
  }

  lemma {:induction false} OpenParts(o: Open)
    requires o.Inside?
    ensures RawOpen(o) == Raws(o.body) + (o.end + RawOpen(o.outer))
  {
  }

  lemma {:induction false} DepthIs(o: Open)
    ensures Depth(o) == if o.Outside? then 0 else 1 + Depth(o.outer)
    ensures o.Outside? ==> RawOpen(o) == []
    ensures o.Outside? ==> OpenValid(o)
  {
  }

  lemma {:induction false} GroupTag(r: Rec)
    requires Valid(r) && r.Group?
    ensures IsTag(r.tag, 3) && Raw(r) == r.tag + RawOpen(Inside(r.body, r.end, Outside))
    ensures OpenValid(Inside(r.body, r.end, Outside))
  {
    hide VarintValue, Raws;
    assert r.end + [] == r.end;
  }

  lemma {:induction false} EndTag(tag: Bytes, rest: Bytes, pos: nat, depth: nat)
    requires IsTag(tag, 4) && depth > 0 && pos + |tag| < TWO63
    ensures SkipFrom(tag + rest, pos, depth) ==
            if depth == 1 then Ok(pos + |tag|) else if rest == [] then Err(UnexpectedEOF)
            else SkipFrom(rest, pos + |tag|, depth - 1)
  {
    hide SkipFrom, VarintValue;
    assert [] + rest == rest;
    SkipTurn(tag, 4, [], rest, pos, depth, depth - 1);
  }

  lemma {:induction false} StartTag(tag: Bytes, rest: Bytes, pos: nat, depth: nat)
    requires IsTag(tag, 3) && pos + |tag| < TWO63
    ensures SkipFrom(tag + rest, pos, depth) ==
            if rest == [] then Err(UnexpectedEOF) else SkipFrom(rest, pos + |tag|, depth + 1)
  {
    hide SkipFrom, VarintValue;
    assert [] + rest == rest;
    SkipTurn(tag, 3, [], rest, pos, depth, depth + 1);
  }

  lemma {:induction false} TagNotEmpty(tag: Bytes, wireType: nat)
    requires IsTag(tag, wireType)
    ensures |tag| >= 1
  {
  }

  /** Inside groups, the loop goes on to the end of the outermost one. */
  lemma {:induction false} SkipOpen(o: Open, rest: Bytes, pos: nat)
    requires OpenValid(o) && o.Inside? && pos + |RawOpen(o)| < TWO63
    ensures SkipFrom(RawOpen(o) + rest, pos, Depth(o)) == Ok(pos + |RawOpen(o)|)
    decreases |RawOpen(o)|, 1
  {
    hide SkipFrom, VarintValue, Raw, Raws, RawOpen, Valid;
    if o.body.Nil? {
      SkipEnd(o.end, o.outer, rest, pos);
    } else {
      var left := o.(body := o.body.tail);
      OpenCons(o.body.head, left);
      TagOf(o.body.head);
      if o.body.head.Group? {
        SkipStart(o.body.head, left, rest, pos);
      } else {
        SkipRecord(o.body.head, left, rest, pos);
      }
    }
  }

  lemma {:induction false} SkipEnd(end: Bytes, outer: Open, rest: Bytes, pos: nat)
    requires IsTag(end, 4) && OpenValid(outer) && pos + |RawOpen(Inside(Nil, end, outer))| < TWO63
    ensures var o := Inside(Nil, end, outer); SkipFrom(RawOpen(o) + rest, pos, Depth(o)) == Ok(pos + |RawOpen(o)|)
    decreases |RawOpen(Inside(Nil, end, outer))|, 0
  {
    hide *;
    OpenEnd(end, outer);
    TagNotEmpty(end, 4);
    DepthIs(outer);
    DepthIs(Inside(Nil, end, outer));
    assert end + RawOpen(outer) + rest == end + (RawOpen(outer) + rest);
    EndTag(end, RawOpen(outer) + rest, pos, Depth(outer) + 1);
    if outer.Inside? {
      OpenNotEmpty(outer);
      SkipOpen(outer, rest, pos + |end|);
    }
  }

  lemma {:induction false} SkipStart(r: Rec, left: Open, rest: Bytes, pos: nat)
    requires Valid(r) && r.Group? && OpenValid(left) && left.Inside? && pos + |Raw(r) + RawOpen(left)| < TWO63
    ensures SkipFrom(Raw(r) + RawOpen(left) + rest, pos, Depth(left)) == Ok(pos + |Raw(r) + RawOpen(left)|)
    decreases |Raw(r) + RawOpen(left)|, 0
  {
    hide *;
    var inner := Inside(r.body, r.end, left);
    TagOf(r);
    OpenEnter(r, left);
    DepthIs(inner);
    GroupTag(r);
    assert r.tag + RawOpen(inner) + rest == r.tag + (RawOpen(inner) + rest);
    StartTag(r.tag, RawOpen(inner) + rest, pos, Depth(left));
    OpenNotEmpty(inner);
    SkipOpen(inner, rest, pos + |r.tag|);
  }

  lemma {:induction false} SkipRecord(r: Rec, left: Open, rest: Bytes, pos: nat)
    requires Valid(r) && !r.Group? && OpenValid(left) && left.Inside? && pos + |Raw(r) + RawOpen(left)| < TWO63
    ensures SkipFrom(Raw(r) + RawOpen(left) + rest, pos, Depth(left)) == Ok(pos + |Raw(r) + RawOpen(left)|)
    decreases |Raw(r) + RawOpen(left)|, 0
  {
    hide *;
    TagOf(r);
    var after := RawOpen(left) + rest;
    assert r.tag + Rest(r) + RawOpen(left) + rest == r.tag + (Rest(r) + after);
    SkipRest(r, after, pos + |r.tag|, Depth(left));
    SkipTurn(r.tag, WireType(r), Rest(r), after, pos, Depth(left), Depth(left));
    OpenNotEmpty(left);
    DepthIs(left);
    SkipOpen(left, rest, pos + |Raw(r)|);
  }

  /** Every record is skipped as a whole, whatever follows it. */
  lemma {:induction false} RecordIsSkipped(r: Rec, rest: Bytes)
    requires Valid(r) && |Raw(r)| < TWO63
    ensures SkipFrom(Raw(r) + rest, 0, 0) == Ok(|Raw(r)|)
  {
    hide *;
    TagOf(r);
    if r.Group? {
      var o := Inside(r.body, r.end, Outside);
      GroupTag(r);
      DepthIs(o);
      DepthIs(Outside);
      assert r.tag + RawOpen(o) + rest == r.tag + (RawOpen(o) + rest);
      StartTag(r.tag, RawOpen(o) + rest, 0, 0);
      OpenNotEmpty(o);
      SkipOpen(o, rest, |r.tag|);
    } else {
      assert r.tag + Rest(r) + rest == r.tag + (Rest(r) + rest);
      SkipRest(r, rest, |r.tag|, 0);
      SkipTurn(r.tag, WireType(r), Rest(r), rest, 0, 0, 0);
    }
  }

  // ---------------------------------------------------------------- records that are cut off

  /** A varint that is cut off. */
  lemma {:induction false} VarintCut(b: Bytes, k: nat)
    requires IsVarint(b) && k < |b|
    ensures ReadVarint(b[..k]) == Err(UnexpectedEOF) && Groups(b[..k], 10) == Err(UnexpectedEOF)
  {
    hide VarintValue, Groups;
    GroupsShape(b[..k], 10);
  }

  /** Behind the tag, the data ends too soon, or the end of the record lies behind the end of the data. */
  lemma {:induction false} RestCut(r: Rec, k: nat, pos: nat, depth: nat)
    requires Valid(r) && !r.Group? && k < |Rest(r)| && pos + |Rest(r)| < TWO63
    ensures var c := SkipPayload(WireType(r), Rest(r)[..k], pos, depth);
            c == Err(UnexpectedEOF) || c == Ok(Cursor(pos + |Rest(r)|, depth))
  {
    hide VarintValue, ReadVarint, Groups;
    match r {
      case Varint(_, value) => VarintCut(value, k);
      case Len(_, len, payload) =>
        if k < |len| {
          assert (len + payload)[..k] == len[..k];
          VarintCut(len, k);
        } else {
          assert (len + payload)[..k] == len + payload[..k - |len|];
          VarintIsRead(len, payload[..k - |len|]);
        }
      case _ =>
    }
  }

  lemma {:induction false} TagCut(tag: Bytes, wireType: nat, k: nat, pos: nat, depth: nat)
    requires IsTag(tag, wireType) && k < |tag|
    ensures SkipFrom(tag[..k], pos, depth) == Err(UnexpectedEOF)
  {
    hide SkipFrom, VarintValue, ReadVarint, Groups;
    VarintCut(tag, k);
    SkipFromStep(tag[..k], pos, depth);
  }

  /** A record inside groups, or by itself, that is cut off behind its tag. */
  lemma {:induction false} RecordCut(r: Rec, k: nat, pos: nat, depth: nat)
    requires Valid(r) && !r.Group? && |r.tag| <= k < |Raw(r)| && pos + |Raw(r)| < TWO63
    ensures var s := SkipFrom(Raw(r)[..k], pos, depth);
            s == Err(UnexpectedEOF) || (depth == 0 && s == Ok(pos + |Raw(r)|))
  {
    hide SkipFrom, SkipPayload, VarintValue, ReadVarint, Groups, Raw, Raws, Rest, Valid, AllValid, WireType;
    TagOf(r);
    var d := Raw(r)[..k];
    var behind := Rest(r)[..k - |r.tag|];
    assert d == r.tag + behind;
    assert d[|r.tag|..] == behind;
    VarintIsRead(r.tag, behind);
    ModuloEight(VarintValue(r.tag));
    RestCut(r, k - |r.tag|, pos + |r.tag|, depth);
    SkipFromStep(d, pos, depth);
  }

  lemma {:induction false} OpenCut(o: Open, k: nat, pos: nat)
    requires OpenValid(o) && o.Inside? && k < |RawOpen(o)| && pos + |RawOpen(o)| < TWO63
    ensures SkipFrom(RawOpen(o)[..k], pos, Depth(o)) == Err(UnexpectedEOF)
    decreases |RawOpen(o)|, 1
  {
    hide SkipFrom, VarintValue, Raw, Raws, RawOpen, Valid;
    if o.body.Nil? {
      EndCut(o.end, o.outer, k, pos);
    } else {
      var left := o.(body := o.body.tail);
      OpenCons(o.body.head, left);
      TagOf(o.body.head);
      if k < |o.body.head.tag| {
        assert RawOpen(o)[..k] == o.body.head.tag[..k] by { TagFirst(o.body.head, RawOpen(left), k); }
        TagCut(o.body.head.tag, WireType(o.body.head), k, pos, Depth(o));
      } else if o.body.head.Group? {
        StartCut(o.body.head, left, k, pos);
      } else {
        HeadCut(o.body.head, left, k, pos);
      }
    }
  }

  lemma {:induction false} TagFirst(r: Rec, rest: Bytes, k: nat)
    requires k <= |r.tag|
    ensures |r.tag| <= |Raw(r)| && (Raw(r) + rest)[..k] == r.tag[..k]
  {
    hide Raws;
  }

  lemma {:induction false} EndCut(end: Bytes, outer: Open, k: nat, pos: nat)
    requires IsTag(end, 4) && OpenValid(outer)
    requires var o := Inside(Nil, end, outer); k < |RawOpen(o)| && pos + |RawOpen(o)| < TWO63
    ensures var o := Inside(Nil, end, outer); SkipFrom(RawOpen(o)[..k], pos, Depth(o)) == Err(UnexpectedEOF)
    decreases |RawOpen(Inside(Nil, end, outer))|, 0
  {
    hide *;
    var o := Inside(Nil, end, outer);
    OpenEnd(end, outer);
    TagNotEmpty(end, 4);
    DepthIs(outer);
    DepthIs(o);
    if k < |end| {
      assert RawOpen(o)[..k] == end[..k];
      TagCut(end, 4, k, pos, Depth(o));
    } else {
      var rest := RawOpen(outer)[..k - |end|];
      assert RawOpen(o)[..k] == end + rest;
      EndTag(end, rest, pos, Depth(o));
      OpenCut(outer, k - |end|, pos + |end|);
    }
  }

  lemma {:induction false} StartCut(r: Rec, left: Open, k: nat, pos: nat)
    requires Valid(r) && r.Group? && OpenValid(left) && left.Inside? && pos + |Raw(r) + RawOpen(left)| < TWO63
    requires |r.tag| <= k < |Raw(r) + RawOpen(left)|
    ensures SkipFrom((Raw(r) + RawOpen(left))[..k], pos, Depth(left)) == Err(UnexpectedEOF)
    decreases |Raw(r) + RawOpen(left)|, 0
  {
    hide *;
    var inner := Inside(r.body, r.end, left);
    TagOf(r);
    OpenEnter(r, left);
    DepthIs(inner);
    GroupTag(r);
    var rest := RawOpen(inner)[..k - |r.tag|];
    assert (Raw(r) + RawOpen(left))[..k] == r.tag + rest;
    StartTag(r.tag, rest, pos, Depth(left));
    OpenCut(inner, k - |r.tag|, pos + |r.tag|);
  }

  lemma {:induction false} HeadCut(r: Rec, left: Open, k: nat, pos: nat)
    requires Valid(r) && !r.Group? && OpenValid(left) && left.Inside? && pos + |Raw(r) + RawOpen(left)| < TWO63
    requires |r.tag| <= k < |Raw(r) + RawOpen(left)|
    ensures SkipFrom((Raw(r) + RawOpen(left))[..k], pos, Depth(left)) == Err(UnexpectedEOF)
    decreases |Raw(r) + RawOpen(left)|, 0
  {
    hide *;
    TagOf(r);
    DepthIs(left);
    if k < |Raw(r)| {
      assert (Raw(r) + RawOpen(left))[..k] == Raw(r)[..k];
      RecordCut(r, k, pos, Depth(left));
    } else {
      var rest := RawOpen(left)[..k - |Raw(r)|];
      assert (Raw(r) + RawOpen(left))[..k] == r.tag + (Rest(r) + rest);
      SkipRest(r, rest, pos + |r.tag|, Depth(left));
      SkipTurn(r.tag, WireType(r), Rest(r), rest, pos, Depth(left), Depth(left));
      OpenCut(left, k - |Raw(r)|, pos + |Raw(r)|);
    }
  }

  /** Of a record that is cut off, the end is not found, or found behind the end of the data. */
  lemma {:induction false} CutIsNotSkipped(r: Rec, k: nat)
    requires Valid(r) && k < |Raw(r)| < TWO63
    ensures var s := SkipFrom(Raw(r)[..k], 0, 0); s == Err(UnexpectedEOF) || s == Ok(|Raw(r)|)
  {
    hide *;
    TagOf(r);
    if k < |r.tag| {
      TagFirst(r, [], k);
      assert Raw(r) + [] == Raw(r);
      TagCut(r.tag, WireType(r), k, 0, 0);
    } else if r.Group? {
      var o := Inside(r.body, r.end, Outside);
      GroupTag(r);
      DepthIs(o);
      DepthIs(Outside);
      var rest := RawOpen(o)[..k - |r.tag|];
      assert Raw(r)[..k] == r.tag + rest;
      StartTag(r.tag, rest, 0, 0);
      OpenCut(o, k - |r.tag|, |r.tag|);
    } else {
      RecordCut(r, k, 0, 0);
    }
  }

  /** An end tag without its group, and the two wire types that do not exist. */
  lemma {:induction false} SkipRefused(tag: Bytes, rest: Bytes)
    requires IsVarint(tag)
    ensures VarintValue(tag) % 8 == 4 ==> SkipFrom(tag + rest, 0, 0) == Err(UnexpectedEndOfGroup)
    ensures VarintValue(tag) % 8 >= 6 ==> SkipFrom(tag + rest, 0, 0) == Err(IllegalWireType)
  {
    hide SkipFrom, VarintValue, ReadVarint, Groups;
    VarintIsRead(tag, rest);
    ModuloEight(VarintValue(tag));
    SkipFromStep(tag + rest, 0, 0);
  }

  // ---------------------------------------------------------------- and nothing else is

  /** The bytes that one turn moved over make a record, unless the turn was about a group. */
  lemma {:induction false} RestShape(tag: Bytes, wireType: nat, d: Bytes, pos: nat, depth: nat) returns (r: Rec)
    requires IsTag(tag, wireType) && wireType != 3 && wireType != 4
    requires SkipPayload(wireType, d, pos, depth).Ok? && SkipPayload(wireType, d, pos, depth).value.next <= pos + |d|
    ensures var c := SkipPayload(wireType, d, pos, depth).value;
            Valid(r) && Raw(r) == tag + d[..c.next - pos] && c.depth == depth
  {
    VarintExactly(d);
    hide VarintValue, Groups;
    if wireType == 0 {
      r := Varint(tag, d[..ReadVarint(d).value.size]);
    } else if wireType == 1 {
      r := I64(tag, d[..8]);
    } else if wireType == 2 {
      var len := ReadVarint(d).value;
      r := Len(tag, d[..len.size], d[len.size..len.size + len.value]);
      assert d[..len.size + len.value] == d[..len.size] + d[len.size..len.size + len.value];
    } else {
      r := I32(tag, d[..4]);
    }
  }

  /** The head of one turn, taken apart. */
  lemma {:induction false} TurnShape(d: Bytes, pos: nat, depth: nat) returns (tag: Bytes, wireType: nat)
    requires SkipFrom(d, pos, depth).Ok? && SkipFrom(d, pos, depth).value <= pos + |d|
    ensures IsTag(tag, wireType) && |tag| <= |d| && tag == d[..|tag|]
    ensures SkipPayload(wireType, d[|tag|..], pos + |tag|, depth).Ok?
    ensures var c, n := SkipPayload(wireType, d[|tag|..], pos + |tag|, depth).value, SkipFrom(d, pos, depth).value;
            && pos + |tag| <= c.next <= pos + |d|
            && (if c.depth == 0 then n == c.next
                else SkipFrom(d[c.next - pos..], c.next, c.depth) == Ok(n) && n >= c.next)
  {
    hide SkipFrom, SkipPayload, ReadVarint, VarintValue, Groups;
    SkipFromStep(d, pos, depth);
    VarintExactly(d);
    var t := ReadVarint(d).value;
    tag, wireType := d[..t.size], t.value % 8;
    ModuloEight(VarintValue(tag));
  }

  /** Inside groups: the bytes up to the end of the outermost one are what is left of the open groups. */
  lemma {:induction false} OpenShape(d: Bytes, pos: nat, depth: nat) returns (o: Open)
    requires depth > 0 && SkipFrom(d, pos, depth).Ok? && SkipFrom(d, pos, depth).value <= pos + |d|
    ensures Depth(o) == depth && OpenValid(o) && RawOpen(o) == d[..SkipFrom(d, pos, depth).value - pos]
    decreases |d|
  {
    hide SkipFrom, VarintValue, Valid, Raw, Raws, RawOpen;
    var n := SkipFrom(d, pos, depth).value - pos;
    var tag, wireType := TurnShape(d, pos, depth);
    var c := SkipPayload(wireType, d[|tag|..], pos + |tag|, depth).value;
    var k := c.next - pos;
    TagNotEmpty(tag, wireType);
    if c.depth == 0 {
      o := Inside(Nil, tag, Outside);
      OpenEnd(tag, Outside);
      NothingOpen();
      return;
    }
    var left := OpenShape(d[k..], c.next, c.depth);
    assert d[..n] == d[..k] + d[k..][..n - k];
    if wireType == 4 {
      o := Inside(Nil, tag, left);
      OpenEnd(tag, left);
    } else if wireType == 3 {
      var r := Group(tag, left.body, left.end);
      o := left.outer.(body := Cons(r, left.outer.body));
      OpenEnter(r, left.outer);
      OpenCons(r, left.outer);
    } else {
      var r := RestShape(tag, wireType, d[|tag|..], pos + |tag|, depth);
      o := left.(body := Cons(r, left.body));
      OpenCons(r, left);
      assert tag + d[|tag|..][..k - |tag|] == d[..k];
    }
  }

  lemma {:induction false} NothingOpen()
    ensures RawOpen(Outside) == [] && AllValid(Nil)
  {
  }

  /** What is skipped inside the data is a record. */
  lemma {:induction false} SkippedIsRecord(d: Bytes) returns (r: Rec)
    requires SkipFrom(d, 0, 0).Ok? && SkipFrom(d, 0, 0).value <= |d|
    ensures Valid(r) && Raw(r) == d[..SkipFrom(d, 0, 0).value]
  {
    hide SkipFrom, VarintValue;
    var tag, wireType := TurnShape(d, 0, 0);
    var n := SkipFrom(d, 0, 0).value;
    if wireType == 3 {
      var o := OpenShape(d[|tag|..], |tag|, 1);
      assert o.outer.Outside? && RawOpen(o.outer) == [];
      r := Group(tag, o.body, o.end);
      assert o.end + [] == o.end;
      assert d[..n] == tag + d[|tag|..][..n - |tag|];
    } else {
      r := RestShape(tag, wireType, d[|tag|..], |tag|, 0);
      assert tag + d[|tag|..][..n - |tag|] == d[..n];
    }
  }

  /** Skipping takes exactly the wire records: of groups nested to any depth, with varints of any length. */
  lemma {:induction false} SkipExactly(d: Bytes, n: nat)
    requires n <= |d| && n < TWO63
    ensures SkipFrom(d, 0, 0) == Ok(n) <==> exists r :: Valid(r) && Raw(r) == d[..n]
  {
    hide SkipFrom, Valid, Raw;
    if SkipFrom(d, 0, 0) == Ok(n) {
      var r := SkippedIsRecord(d);
    }
    if r :| Valid(r) && Raw(r) == d[..n] {
      RecordIsSkipped(r, d[n..]);
      assert d[..n] + d[n..] == d;
    }
  }
}
