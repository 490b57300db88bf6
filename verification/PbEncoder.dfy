/** The output streams and the encoder of pb_encode.c. */
module PbEncoder {
  import opened Bytes
  import opened PbMessage
  import opened Varints
  import opened PbEncoding
  import opened PbFieldIter

  /** A stream over a buffer: what the buffer holds, where the next octet goes, how much was written. */
  datatype Snapshot = Snapshot(buf: seq<byte>, state: nat, written: nat)

  /** writing is false for a sizing stream, which has no callback; limit is max_size. */
  predicate StreamOk(writing: bool, limit: nat, s: Snapshot) {
    writing ==> s.written <= limit && s.state + (limit - s.written) <= |s.buf|
  }

  /** What sending e does to a stream: it succeeds exactly when e is no error and, when writing,
      fits; then the stream has moved by |e| and the buffer holds e there and nothing else is
      touched. A failure leaves what is outside the stream's room alone. */
  predicate Emitted(writing: bool, limit: nat, s: Snapshot, ok: bool, e: Option<seq<byte>>, t: Snapshot)
    requires StreamOk(writing, limit, s)
  {
    && StreamOk(writing, limit, t) && |t.buf| == |s.buf|
    && (ok <==> e.Some? && (writing ==> s.written + |e.value| <= limit))
    && (ok ==> t.written == s.written + |e.value|)
    && (!writing ==> t.buf == s.buf && t.state == s.state)
    && (writing ==> t.state == s.state + t.written - s.written && s.written <= t.written)
    && (writing ==> t.buf[..s.state] == s.buf[..s.state])
    && (writing ==> t.buf[s.state + (limit - s.written)..] == s.buf[s.state + (limit - s.written)..])
    && (writing && ok ==> t.buf == s.buf[..s.state] + e.value + s.buf[t.state..])
  }

  lemma EmittedNothing(writing: bool, limit: nat, s: Snapshot)
    requires StreamOk(writing, limit, s)
    ensures Emitted(writing, limit, s, true, Some([]), s)
  {
    if writing { assert s.buf == s.buf[..s.state] + [] + s.buf[s.state..]; }
  }

  /** Sending one thing after another sends their concatenation. */
  lemma EmittedJoin(writing: bool, limit: nat, s: Snapshot, a: seq<byte>, t: Snapshot,
                    ok: bool, b: Option<seq<byte>>, u: Snapshot)
    requires StreamOk(writing, limit, s) && Emitted(writing, limit, s, true, Some(a), t)
    requires Emitted(writing, limit, t, ok, b, u)
    ensures Emitted(writing, limit, s, ok, Join(Some(a), b), u)
  {
    if writing {
      var end := s.state + (limit - s.written);
      assert t.state + (limit - t.written) == end;
      assert u.buf[..s.state] == u.buf[..t.state][..s.state] == t.buf[..t.state][..s.state] == t.buf[..s.state];
      assert t.buf[end..] == s.buf[end..];
      if ok {
        assert t.buf[..t.state] == s.buf[..s.state] + a;
        assert t.buf[u.state..] == t.buf[t.state..][|b.value|..] == s.buf[t.state..][|b.value|..] == s.buf[u.state..];
        assert s.buf[..s.state] + a + b.value + s.buf[u.state..] == s.buf[..s.state] + (a + b.value) + s.buf[u.state..];
      }
    }
  }

  /** When the first of two things fails the whole fails. */
  lemma EmittedFails(writing: bool, limit: nat, s: Snapshot, a: Option<seq<byte>>, t: Snapshot, b: Option<seq<byte>>)
    requires StreamOk(writing, limit, s) && Emitted(writing, limit, s, false, a, t)
    ensures Emitted(writing, limit, s, false, Join(a, b), t)
  {
  }

  class OStream {
    const writing: bool
    const buf: array<byte>
    const limit: nat
    var state: nat
    var bytesWritten: nat

    ghost function Snap(): Snapshot
      reads this, buf
    {
      Snapshot(buf[..], state, bytesWritten)
    }

    ghost predicate Valid()
      reads this, buf
    {
      StreamOk(writing, limit, Snap())
    }

    constructor (writing: bool, buf: array<byte>, state: nat, limit: nat)
      requires writing ==> state + limit <= buf.Length
      ensures this.writing == writing && this.buf == buf && this.limit == limit
      ensures Valid() && Snap() == Snapshot(buf[..], state, 0)
    {
      this.writing := writing;
      this.buf := buf;
      this.limit := limit;
      this.state := state;
      this.bytesWritten := 0;
    }

    /** buf_write. */
    method BufWrite(src: seq<byte>)
      requires writing && state + |src| <= buf.Length
      modifies this`state, buf
      ensures state == old(state) + |src|
      ensures buf[..] == old(buf[..state]) + src + old(buf[..])[state..]
    {
      var dest := state;
      ghost var before := buf[..];
      state := dest + |src|;
      for i := 0 to |src|
        invariant forall k :: 0 <= k < buf.Length ==> buf[k] == if dest <= k < dest + i then src[k - dest] else before[k]
        modifies buf
      {
        buf[dest + i] := src[i];
      }
    }

    /** pb_write; a sizing stream may be given no octets, only their number. */
    method Write(src: seq<byte>) returns (ok: bool)
      requires Valid()
      modifies this, buf
      ensures Emitted(writing, limit, old(Snap()), ok, Some(src), Snap())
    {
      if writing {
        if bytesWritten + |src| > limit {
          return false;
        }
        BufWrite(src);
      }
      bytesWritten := bytesWritten + |src|;
      return true;
    }

    method Count(n: nat) returns (ok: bool)
      requires Valid() && !writing
      modifies this
      ensures ok && Snap() == old(Snap()).(written := old(bytesWritten) + n)
    {
      bytesWritten := bytesWritten + n;
      return true;
    }

    /** pb_encode_varint. */
    method EncodeVarint(value: nat) returns (ok: bool)
      requires Valid() && value < 0x1_0000_0000_0000_0000
      modifies this, buf
      ensures Emitted(writing, limit, old(Snap()), ok, Some(Varints.EncodeVarint(value)), Snap())
    {
      if value <= 0x7f {
        ok := Write([value]);
        return;
      }
      var buffer, i := VarintOctets(value);
      ok := Write(buffer[..i]);
    }
  }

  /** The loop of pb_encode_varint over its ten-octet buffer. */
  method VarintOctets(value: nat) returns (buffer: array<byte>, i: nat)
    requires 0x7f < value < 0x1_0000_0000_0000_0000
    ensures fresh(buffer) && i <= buffer.Length
    ensures buffer[..i] == EncodeVarint(value)
  {
    hide EncodeVarint;
    buffer := new byte[10];
    var v := value;
    i := 0;
    ghost var e := EncodeVarint(value);
    EncodedLength(value);
    assert e == [] + e;
    while v != 0
      invariant i <= 10 && |e| <= 10 && (v != 0 ==> e == buffer[..i] + EncodeVarint(v))
      invariant v == 0 ==> i > 0 && buffer[i - 1] >= 128 && e == buffer[..i - 1] + [buffer[i - 1] - 128]
      decreases v
    {
      VarintGroup(v);
      buffer[i] := v % 128 + 128;
      v := v / 128;
      i := i + 1;
    }
    buffer[i - 1] := buffer[i - 1] - 128;
    assert buffer[..i] == buffer[..i - 1] + [buffer[i - 1]];
  }

  // ------------------------------------------------------------------- sizes

  const SIZE_LIMIT := 0x1_0000_0000_0000_0000

  predicate Sized(e: Option<seq<byte>>) {
    e.Some? ==> |e.value| < SIZE_LIMIT
  }

  /** No length computed for the value wraps around a size_t. */
  predicate SizedValue(f: Field, v: Value)
    requires TypedValue(f, v)
    decreases f, 0
  {
    Sized(EncValue(f, v)) && (f.ltype.Submessage? ==> SizedMessage(f.ltype.fields, v.m))
  }

  predicate SizedItems(f: Field, items: seq<Value>)
    requires TypedItems(f, items)
    decreases f, 1
  {
    && forall k :: 0 <= k < |items| ==> SizedValue(f, items[k])
  }

  predicate SizedSlot(f: Field, x: Slot)
    requires TypedSlot(f, x)
    decreases f, 2
  {
    match f.htype
    case Required => SizedValue(f, x.v)
    case Optional => (HasFlag(f) ==> x.has) ==> SizedValue(f, x.v)
    case Repeated => SizedItems(f, x.items) && Sized(EncItems(f, x.items, true))
    case Oneof => x.which == f.tag ==> SizedValue(f, x.body)
  }

  predicate SizedMessage(fields: seq<Field>, m: Message)
    requires Typed(fields, m)
    decreases fields, 3
  {
    forall i :: 0 <= i < |fields| ==> SizedSlot(fields[i], Load(fields, m, i))
  }

  // ----------------------------------------------------------------- encoders

  /** pb_encode_tag. */
  method EncodeTag(o: OStream, wireType: nat, tag: nat) returns (ok: bool)
    requires o.Valid() && wireType < 8 && tag < 0x1_0000_0000
    modifies o, o.buf
    ensures Emitted(o.writing, o.limit, old(o.Snap()), ok, Some(EncTag(wireType, tag)), o.Snap())
  {
    ok := o.EncodeVarint(8 * tag + wireType);
  }

  /** pb_encode_string. */
  method EncodeString(o: OStream, s: seq<byte>) returns (ok: bool)
    requires o.Valid() && |s| < SIZE_LIMIT
    modifies o, o.buf
    ensures Emitted(o.writing, o.limit, old(o.Snap()), ok, Some(EncString(s)), o.Snap())
  {
    hide EncodeVarint, Emitted;
    ghost var s0 := o.Snap();
    ok := o.EncodeVarint(|s|);
    ghost var s1 := o.Snap();
    if !ok {
      EmittedFails(o.writing, o.limit, s0, Some(EncodeVarint(|s|)), s1, Some(s));
      return;
    }
    assert StreamOk(o.writing, o.limit, s1) by { EmittedOk(o.writing, o.limit, s0, ok, Some(EncodeVarint(|s|)), s1); }
    ok := o.Write(s);
    EmittedJoin(o.writing, o.limit, s0, EncodeVarint(|s|), s1, ok, Some(s), o.Snap());
  }

  lemma EmittedOk(writing: bool, limit: nat, s: Snapshot, ok: bool, e: Option<seq<byte>>, t: Snapshot)
    requires StreamOk(writing, limit, s) && Emitted(writing, limit, s, ok, e, t)
    ensures StreamOk(writing, limit, t) && (ok ==> e.Some?)
  {
  }

  /** The loop of pb_enc_string. */
  method StringLength(s: seq<byte>, max: nat) returns (size: nat)
    ensures size <= |s| && s[..size] == Chars(s, max)
  {
    size := 0;
    ghost var c := Chars(s, max);
    while size < max && size < |s| && s[size] != 0
      invariant size <= max && size <= |s| && size <= |c|
      decreases max - size
    {
      size := size + 1;
    }
  }

  lemma EmittedError(writing: bool, limit: nat, s: Snapshot)
    requires StreamOk(writing, limit, s)
    ensures Emitted(writing, limit, s, false, None, s)
  {
  }

  lemma FixedOctets(n: nat)
    ensures LittleEndian(n, 4) == [n % 256, n / 0x100 % 256, n / 0x1_0000 % 256, n / 0x100_0000 % 256]
    ensures LittleEndian(n, 8) == LittleEndian(n, 4) + LittleEndian(n / 0x1_0000_0000, 4)
  {
    FixedFour(n);
    FixedEight(n);
  }

  lemma FixedEight(n: nat)
    ensures LittleEndian(n, 8) == LittleEndian(n, 4) + LittleEndian(n / 0x1_0000_0000, 4)
  {
    hide LittleEndian;
    FixedSplit(n, 4, 4);
    assert n / 256 / 256 / 256 / 256 == n / 0x1_0000_0000;
    Shift(n, 4);
  }

  function ShiftOut(n: nat, k: nat): nat
    decreases k
  {
    if k == 0 then n else ShiftOut(n / 256, k - 1)
  }

  lemma Shift(n: nat, k: nat)
    requires k == 4
    ensures ShiftOut(n, k) == n / 0x1_0000_0000
  {
    assert ShiftOut(n / 256 / 256, 2) == n / 256 / 256 / 256 / 256;
  }

  lemma {:induction false} FixedSplit(n: nat, a: nat, b: nat)
    ensures LittleEndian(n, a + b) == LittleEndian(n, a) + LittleEndian(ShiftOut(n, a), b)
    decreases a
  {
    if a > 0 { FixedSplit(n / 256, a - 1, b); }
  }

  lemma FixedFour(n: nat)
    ensures LittleEndian(n, 4) == [n % 256, n / 0x100 % 256, n / 0x1_0000 % 256, n / 0x100_0000 % 256]
  {
    var n1, n2, n3 := n / 256, n / 256 / 256, n / 256 / 256 / 256;
    assert LittleEndian(n3, 1) == [n3 % 256];
    assert LittleEndian(n2, 2) == [n2 % 256, n3 % 256];
    assert LittleEndian(n1, 3) == [n1 % 256, n2 % 256, n3 % 256];
  }

  /** pb_encode_fixed32. */
  method EncodeFixed32(o: OStream, n: nat) returns (ok: bool)
    requires o.Valid() && n < 0x1_0000_0000
    modifies o, o.buf
    ensures Emitted(o.writing, o.limit, old(o.Snap()), ok, Some(LittleEndian(n, 4)), o.Snap())
  {
    FixedOctets(n);
    ok := o.Write([n % 256, n / 0x100 % 256, n / 0x1_0000 % 256, n / 0x100_0000 % 256]);
  }

  /** pb_encode_fixed64. */
  method EncodeFixed64(o: OStream, n: nat) returns (ok: bool)
    requires o.Valid() && n < 0x1_0000_0000_0000_0000
    modifies o, o.buf
    ensures Emitted(o.writing, o.limit, old(o.Snap()), ok, Some(LittleEndian(n, 8)), o.Snap())
  {
    var hi := n / 0x1_0000_0000;
    FixedOctets(n);
    FixedOctets(hi);
    ok := o.Write([n % 256, n / 0x100 % 256, n / 0x1_0000 % 256, n / 0x100_0000 % 256]
                  + [hi % 256, hi / 0x100 % 256, hi / 0x1_0000 % 256, hi / 0x100_0000 % 256]);
  }

  /** The field encoders, by PB_LTYPE. */
  method EncodeValue(o: OStream, f: Field, v: Value) returns (ok: bool)
    requires o.Valid() && TypedValue(f, v) && SizedValue(f, v) && WellFormedField(f)
    modifies o, o.buf
    ensures Emitted(o.writing, o.limit, old(o.Snap()), ok, EncValue(f, v), o.Snap())
    decreases f, 0
  {
    hide Emitted, EncodeVarint, EncString, ZigZag, LittleEndian, Chars, Enc;
    EmittedError(o.writing, o.limit, o.Snap());
    match f.ltype
    case Varint =>
      if !IntegerSize(f.dataSize) { return false; }
      ok := o.EncodeVarint(ToUnsigned64(v.n));
    case UVarint =>
      if !IntegerSize(f.dataSize) { return false; }
      ok := o.EncodeVarint(v.n);
    case SVarint =>
      if !IntegerSize(f.dataSize) { return false; }
      ok := o.EncodeVarint(ZigZag(v.n));
    case Fixed32 => ok := EncodeFixed32(o, v.n);
    case Fixed64 => ok := EncodeFixed64(o, v.n);
    case VarBytes =>
      if |v.s| + BYTES_HEADER > f.dataSize { return false; }
      ok := EncodeString(o, v.s);
    case CString =>
      var size := StringLength(v.s, f.dataSize);
      PrefixShorter(v.s[..size]);
      ok := EncodeString(o, v.s[..size]);
    case FixedBytes =>
      PrefixShorter(v.s);
      ok := EncodeString(o, v.s);
    case Submessage(fields) =>
      ok := EncodeSubmessage(o, fields, v.m);
  }

  lemma PrefixShorter(s: seq<byte>)
    ensures |s| < |EncString(s)|
  {
  }

  /** pb_encode_submessage: a sizing pass, the length, then a pass into a substream of exactly
      that size. The second pass cannot come out at another size: the check for it never fails. */
  method EncodeSubmessage(o: OStream, fields: seq<Field>, m: Message) returns (ok: bool)
    requires o.Valid() && WellFormed(fields) && Typed(fields, m) && SizedMessage(fields, m)
    requires Sized(Prefixed(Enc(fields, m)))
    modifies o, o.buf
    ensures Emitted(o.writing, o.limit, old(o.Snap()), ok, Prefixed(Enc(fields, m)), o.Snap())
    decreases fields, 7
  {
    hide EncodeVarint, Enc, WellFormed, Typed, SizedMessage;
    ghost var s0 := o.Snap();
    ghost var e := Enc(fields, m);
    var sizing := new OStream(false, o.buf, 0, 0);
    ok := Encode(sizing, fields, m);
    assert o.Snap() == s0;
    if !ok { return; }
    var size := sizing.bytesWritten;
    PrefixShorter(e.value);
    ok := o.EncodeVarint(size);
    ghost var s1 := o.Snap();
    if !ok {
      EmittedFails(o.writing, o.limit, s0, Some(EncodeVarint(size)), s1, e);
      return;
    }
    if !o.writing {
      ok := o.Count(size);
      return;
    }
    if o.bytesWritten + size > o.limit {
      EmittedFull(o.limit, s0, EncodeVarint(size), s1, e.value);
      return false;
    }
    ok := EncodeNested(o, fields, m, size);
    EmittedJoin(true, o.limit, s0, EncodeVarint(size), s1, ok, e, o.Snap());
  }

  /** The second pass of pb_encode_submessage. */
  method EncodeNested(o: OStream, fields: seq<Field>, m: Message, size: nat) returns (ok: bool)
    requires o.Valid() && WellFormed(fields) && Typed(fields, m) && SizedMessage(fields, m) && o.writing
    requires Enc(fields, m).Some? && size == |Enc(fields, m).value| && o.bytesWritten + size <= o.limit
    modifies o, o.buf
    ensures ok && Emitted(true, o.limit, old(o.Snap()), true, Enc(fields, m), o.Snap())
    decreases fields, 6
  {
    hide Enc, WellFormed, Typed, SizedMessage;
    ghost var s1 := o.Snap();
    ghost var e := Enc(fields, m).value;
    var sub := new OStream(true, o.buf, o.state, size);
    ok := Encode(sub, fields, m);
    ghost var t := sub.Snap();
    assert ok && t.written == size;
    hide Emitted;
    o.bytesWritten := o.bytesWritten + sub.bytesWritten;
    o.state := sub.state;
    EmittedSub(o.limit, s1, e, t, o.Snap());
    if sub.bytesWritten != size { ok := false; }
  }

  lemma EmittedFull(limit: nat, s: Snapshot, a: seq<byte>, t: Snapshot, b: seq<byte>)
    requires StreamOk(true, limit, s) && Emitted(true, limit, s, true, Some(a), t)
    requires t.written + |b| > limit
    ensures Emitted(true, limit, s, false, Some(a + b), t)
  {
  }

  /** A substream writes into the same buffer at the same place. */
  lemma EmittedSub(limit: nat, s: Snapshot, e: seq<byte>, t: Snapshot, u: Snapshot)
    requires StreamOk(true, limit, s) && s.written + |e| <= limit
    requires Emitted(true, |e|, Snapshot(s.buf, s.state, 0), true, Some(e), t)
    requires u == Snapshot(t.buf, t.state, s.written + t.written)
    ensures Emitted(true, limit, s, true, Some(e), u)
  {
    var end := s.state + (limit - s.written);
    assert u.buf[end..] == u.buf[s.state + |e|..][limit - s.written - |e|..];
    assert s.buf[end..] == s.buf[s.state + |e|..][limit - s.written - |e|..];
  }

  /** A value behind the tag of its field. */
  method EncodeTagged(o: OStream, f: Field, v: Value) returns (ok: bool)
    requires o.Valid() && TypedValue(f, v) && SizedValue(f, v) && WellFormedField(f) && f.tag < 0x1_0000_0000
    modifies o, o.buf
    ensures Emitted(o.writing, o.limit, old(o.Snap()), ok, EncTagged(f, v), o.Snap())
    decreases f, 1
  {
    hide Emitted, EncTag, EncValue, TypedValue, SizedValue, WellFormedField;
    ghost var s0, key := o.Snap(), EncTag(WireType(f), f.tag);
    ok := EncodeTag(o, WireType(f), f.tag);
    ghost var s1 := o.Snap();
    EmittedOk(o.writing, o.limit, s0, ok, Some(key), s1);
    if !ok {
      EmittedFails(o.writing, o.limit, s0, Some(key), s1, EncValue(f, v));
      return;
    }
    ok := EncodeValue(o, f, v);
    EmittedJoin(o.writing, o.limit, s0, key, s1, ok, EncValue(f, v), o.Snap());
  }

  lemma JoinLast(sent: seq<byte>)
    ensures Join(Some(sent), Some([])) == Some(sent)
  {
    assert sent + [] == sent;
  }

  lemma JoinNothing(e: Option<seq<byte>>)
    ensures Join(Some([]), e) == e
  {
    if e.Some? { assert [] + e.value == e.value; }
  }

  /** The loops of encode_array. */
  method EncodeItems(o: OStream, f: Field, items: seq<Value>, packed: bool) returns (ok: bool)
    requires o.Valid() && TypedItems(f, items) && SizedItems(f, items) && WellFormedField(f) && f.tag < 0x1_0000_0000
    modifies o, o.buf
    ensures Emitted(o.writing, o.limit, old(o.Snap()), ok, EncItems(f, items, packed), o.Snap())
    decreases f, 2
  {
    hide Emitted, EncTag, EncValue, TypedValue, SizedValue, WellFormedField;
    ghost var s0, sent := o.Snap(), [];
    EmittedNothing(o.writing, o.limit, s0);
    JoinNothing(EncItems(f, items, packed));
    assert items[0..] == items;
    for i := 0 to |items|
      invariant o.Valid() && Emitted(o.writing, o.limit, s0, true, Some(sent), o.Snap())
      invariant EncItems(f, items, packed) == Join(Some(sent), EncItems(f, items[i..], packed))
    {
      ghost var s1, e := o.Snap(), if packed then EncValue(f, items[i]) else EncTagged(f, items[i]);
      if packed {
        ok := EncodeValue(o, f, items[i]);
      } else {
        ok := EncodeTagged(o, f, items[i]);
      }
      NextItem(f, items, packed, i, sent, e);
      EmittedOk(o.writing, o.limit, s1, ok, e, o.Snap());
      EmittedJoin(o.writing, o.limit, s0, sent, s1, ok, e, o.Snap());
      if !ok {
        EmittedFails(o.writing, o.limit, s0, Join(Some(sent), e), o.Snap(), EncItems(f, items[i + 1..], packed));
        return;
      }
      sent := sent + e.value;
    }
    ok := true;
    assert EncItems(f, items[|items|..], packed) == Some([]);
    assert sent + [] == sent;
  }

  lemma NextItem(f: Field, items: seq<Value>, packed: bool, i: nat, sent: seq<byte>, e: Option<seq<byte>>)
    requires TypedItems(f, items) && i < |items|
    requires e == if packed then EncValue(f, items[i]) else EncTagged(f, items[i])
    ensures Join(Some(sent), EncItems(f, items[i..], packed))
         == Join(Join(Some(sent), e), EncItems(f, items[i + 1..], packed))
  {
    hide TypedValue, EncValue, EncTag;
    assert items[i..][1..] == items[i + 1..] && items[i..][0] == items[i];
    var more := EncItems(f, items[i + 1..], packed);
    assert EncItems(f, items[i..], packed) == Join(e, more);
    if e.Some? && more.Some? { assert sent + (e.value + more.value) == sent + e.value + more.value; }
  }

  /** encode_array. */
  method EncodeArray(o: OStream, f: Field, items: seq<Value>) returns (ok: bool)
    requires o.Valid() && TypedItems(f, items) && SizedItems(f, items) && WellFormedField(f) && f.tag < 0x1_0000_0000
    requires Sized(EncItems(f, items, true))
    modifies o, o.buf
    ensures Emitted(o.writing, o.limit, old(o.Snap()), ok, EncArray(f, items), o.Snap())
    decreases f, 5
  {
    hide Emitted, EncTag, EncItems, TypedValue, SizedValue, WellFormedField, Packable;
    EmittedNothing(o.writing, o.limit, o.Snap());
    EmittedError(o.writing, o.limit, o.Snap());
    if items == [] {
      return true;
    }
    if |items| > f.arraySize {
      return false;
    }
    if Packable(f) {
      ghost var s0, key := o.Snap(), EncTag(WT_STRING, f.tag);
      ok := EncodeTag(o, WT_STRING, f.tag);
      ghost var s1 := o.Snap();
      EmittedOk(o.writing, o.limit, s0, ok, Some(key), s1);
      if !ok {
        EmittedFails(o.writing, o.limit, s0, Some(key), s1, Prefixed(EncItems(f, items, true)));
        return;
      }
      ok := EncodePacked(o, f, items);
      EmittedJoin(o.writing, o.limit, s0, key, s1, ok, Prefixed(EncItems(f, items, true)), o.Snap());
    } else {
      ok := EncodeItems(o, f, items, false);
    }
  }

  /** The size of the packed array, from its count or by a sizing pass. */
  method PackedSize(o: OStream, f: Field, items: seq<Value>) returns (ok: bool, size: nat)
    requires TypedItems(f, items) && SizedItems(f, items) && WellFormedField(f) && f.tag < 0x1_0000_0000
    requires Packable(f)
    modifies o.buf
    ensures o.buf[..] == old(o.buf[..])
    ensures ok <==> EncItems(f, items, true).Some?
    ensures ok ==> size == |EncItems(f, items, true).value|
    decreases f, 3
  {
    if f.ltype.Fixed32? || f.ltype.Fixed64? {
      size := (if f.ltype.Fixed32? then 4 else 8) * |items|;
      FixedItems(f, items);
      return true, size;
    }
    hide EncItems, TypedItems, SizedItems;
    var sizing := new OStream(false, o.buf, 0, 0);
    ok := EncodeItems(sizing, f, items, true);
    size := sizing.bytesWritten;
  }

  lemma {:induction false} FixedItems(f: Field, items: seq<Value>)
    requires TypedItems(f, items) && (f.ltype.Fixed32? || f.ltype.Fixed64?)
    ensures EncItems(f, items, true).Some?
    ensures |EncItems(f, items, true).value| == (if f.ltype.Fixed32? then 4 else 8) * |items|
    decreases |items|
  {
    if items != [] { FixedItems(f, items[1..]); }
  }

  method EncodePacked(o: OStream, f: Field, items: seq<Value>) returns (ok: bool)
    requires o.Valid() && TypedItems(f, items) && SizedItems(f, items) && WellFormedField(f) && f.tag < 0x1_0000_0000
    requires Packable(f) && Sized(EncItems(f, items, true))
    modifies o, o.buf
    ensures Emitted(o.writing, o.limit, old(o.Snap()), ok, Prefixed(EncItems(f, items, true)), o.Snap())
    decreases f, 4
  {
    hide EncodeVarint, EncItems, TypedItems, SizedItems, WellFormedField, Packable;
    ghost var s0, e := o.Snap(), EncItems(f, items, true);
    EmittedError(o.writing, o.limit, s0);
    var size;
    ok, size := PackedSize(o, f, items);
    assert o.Snap() == s0;
    if !ok { return; }
    ok := o.EncodeVarint(size);
    ghost var s1 := o.Snap();
    if !ok {
      EmittedFails(o.writing, o.limit, s0, Some(EncodeVarint(size)), s1, e);
      return;
    }
    if !o.writing {
      ok := o.Count(size);
      return;
    }
    ok := EncodeItems(o, f, items, true);
    hide Emitted;
    EmittedJoin(true, o.limit, s0, EncodeVarint(size), s1, ok, e, o.Snap());
  }

  /** encode_basic_field. */
  method EncodeField(o: OStream, f: Field, x: Slot) returns (ok: bool)
    requires o.Valid() && TypedSlot(f, x) && SizedSlot(f, x) && WellFormedField(f) && f.tag < 0x1_0000_0000
    modifies o, o.buf
    ensures Emitted(o.writing, o.limit, old(o.Snap()), ok, EncField(f, x), o.Snap())
    decreases f, 6
  {
    hide Emitted, EncTagged, EncArray, EncItems, TypedValue, SizedValue, WellFormedField, IsZero;
    EmittedNothing(o.writing, o.limit, o.Snap());
    match f.htype
    case Required =>
      ok := EncodeTagged(o, f, x.v);
    case Optional =>
      var has := if HasFlag(f) then x.has else !IsZero(f, x);
      if !has { return true; }
      ok := EncodeTagged(o, f, x.v);
    case Repeated =>
      ok := EncodeArray(o, f, x.items);
    case Oneof =>
      if x.which != f.tag { return true; }
      ok := EncodeTagged(o, f, x.body);
  }

  /** One round of the loop of pb_encode, after sent. */
  method EncodeNext(o: OStream, fields: seq<Field>, m: Message, i: nat, ghost s0: Snapshot, ghost sent: seq<byte>)
    returns (ok: bool)
    requires o.Valid() && WellFormed(fields) && Typed(fields, m) && SizedMessage(fields, m) && i < |fields|
    requires StreamOk(o.writing, o.limit, s0) && Emitted(o.writing, o.limit, s0, true, Some(sent), o.Snap())
    modifies o, o.buf
    ensures o.Valid()
    ensures !ok ==> Emitted(o.writing, o.limit, s0, false, Join(Some(sent), EncFields(fields, m, i)), o.Snap())
    ensures ok ==> var e := EncField(fields[i], Load(fields, m, i));
                   && e.Some? && Emitted(o.writing, o.limit, s0, true, Some(sent + e.value), o.Snap())
                   && Join(Some(sent), EncFields(fields, m, i)) == Join(Some(sent + e.value), EncFields(fields, m, i + 1))
    decreases fields, 4
  {
    hide Emitted, EncField, EncFields, Typed, TypedSlot, SizedMessage, SizedSlot, WellFormed, WellFormedField, Load;
    FieldReady(fields, m, i);
    ghost var s1, e := o.Snap(), EncField(fields[i], Load(fields, m, i));
    ok := EncodeField(o, fields[i], Load(fields, m, i));
    NextField(fields, m, i, sent);
    EmittedOk(o.writing, o.limit, s1, ok, e, o.Snap());
    EmittedJoin(o.writing, o.limit, s0, sent, s1, ok, e, o.Snap());
    if !ok {
      EmittedFails(o.writing, o.limit, s0, Join(Some(sent), e), o.Snap(), EncFields(fields, m, i + 1));
    }
  }

  /** pb_encode. */
  method Encode(o: OStream, fields: seq<Field>, m: Message) returns (ok: bool)
    requires o.Valid() && WellFormed(fields) && Typed(fields, m) && SizedMessage(fields, m)
    modifies o, o.buf
    ensures Emitted(o.writing, o.limit, old(o.Snap()), ok, Enc(fields, m), o.Snap())
    decreases fields, 5
  {
    hide Emitted, Enc, EncField, EncFields, Typed, TypedSlot, SizedMessage, SizedSlot, WellFormed, WellFormedField, Load,
         LayoutOffset, LayoutSize, RequiredBefore;
    LoopEnds(fields, m);
    ghost var s0, sent := o.Snap(), [];
    EmittedNothing(o.writing, o.limit, s0);
    ghost var cur := s0;
    var iter := new FieldIter(fields, 0);
    var more := iter.Begin();
    if !more { return true; }
    JoinNothing(EncFields(fields, m, 0));
    while more
      invariant iter.Valid() && iter.start == fields
      invariant more ==> iter.pos < |fields|
      invariant o.Snap() == cur && StreamOk(o.writing, o.limit, cur)
      invariant Emitted(o.writing, o.limit, s0, true, Some(sent), cur)
      invariant EncFields(fields, m, 0) == if more then Join(Some(sent), EncFields(fields, m, iter.pos)) else Some(sent)
      decreases if more then |fields| - iter.pos else 0
    {
      ghost var i := iter.pos;
      ok := EncodeNext(o, fields, m, iter.pos, s0, sent);
      cur := o.Snap();
      if !ok { return; }
      sent := sent + EncField(fields[i], Load(fields, m, i)).value;
      more := iter.Next();
      JoinLast(sent);
    }
    ok := true;
  }

  lemma LoopEnds(fields: seq<Field>, m: Message)
    requires WellFormed(fields) && Typed(fields, m)
    ensures forall i :: 0 <= i < |fields| ==> fields[i].tag != 0
    ensures Enc(fields, m) == EncFields(fields, m, 0) && EncFields(fields, m, |fields|) == Some([])
  {
  }

  lemma FieldReady(fields: seq<Field>, m: Message, i: nat)
    requires WellFormed(fields) && Typed(fields, m) && SizedMessage(fields, m) && i < |fields|
    ensures SizedSlot(fields[i], Load(fields, m, i)) && WellFormedField(fields[i]) && fields[i].tag < 0x1_0000_0000
  {
  }

  lemma NextField(fields: seq<Field>, m: Message, i: nat, sent: seq<byte>)
    requires Typed(fields, m) && i < |fields|
    ensures var e := EncField(fields[i], Load(fields, m, i));
            Join(Some(sent), EncFields(fields, m, i)) == Join(Join(Some(sent), e), EncFields(fields, m, i + 1))
  {
    hide EncField, Typed, Load;
    var e, more := EncField(fields[i], Load(fields, m, i)), EncFields(fields, m, i + 1);
    if e.Some? && more.Some? { assert sent + (e.value + more.value) == sent + e.value + more.value; }
  }

  /** pb_get_encoded_size. */
  method GetEncodedSize(fields: seq<Field>, m: Message) returns (ok: bool, size: nat)
    requires WellFormed(fields) && Typed(fields, m) && SizedMessage(fields, m)
    ensures ok <==> Enc(fields, m).Some?
    ensures ok ==> size == |Enc(fields, m).value|
  {
    var none := new byte[0];
    var sizing := new OStream(false, none, 0, 0);
    ok := Encode(sizing, fields, m);
    size := sizing.bytesWritten;
  }
}
