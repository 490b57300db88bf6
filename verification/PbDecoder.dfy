/** The input streams and the decoder of pb_decode.c. */
module PbDecoder {
  import opened Bits
  import opened Bytes
  import opened PbMessage
  import opened Varints
  import opened PbEncoding
  import opened PbDecoding
  import opened PbFieldIter
  import opened PbRequired

  /** A stream over a buffer: where the next octet is and how many are left. */
  datatype View = View(state: nat, left: nat)

  predicate InBounds(data: seq<byte>, v: View) {
    v.state + v.left <= |data|
  }

  function Ahead(data: seq<byte>, v: View): seq<byte>
    requires InBounds(data, v)
  {
    data[v.state..v.state + v.left]
  }

  /** Reading moves forward inside what was left. It succeeds exactly when rest is something, and
      then rest is what is still ahead and the end has not moved. */
  predicate Consumed(data: seq<byte>, v: View, ok: bool, rest: Option<seq<byte>>, w: View)
    requires InBounds(data, v)
  {
    && v.state <= w.state && w.state + w.left <= v.state + v.left
    && (ok <==> rest.Some?)
    && (ok ==> w.state + w.left == v.state + v.left && Ahead(data, w) == rest.value)
  }

  function RestOf<T>(r: Parsed<T>): Option<seq<byte>> {
    if r.Some? then Some(r.value.1) else None
  }

  function RestOf32(d: Decoded32): Option<seq<byte>> {
    if d.Ok32? then Some(d.rest) else None
  }

  class IStream {
    const data: seq<byte>
    var state: nat
    var bytesLeft: nat

    ghost function Snap(): View
      reads this
    {
      View(state, bytesLeft)
    }

    ghost predicate Valid()
      reads this
    {
      InBounds(data, Snap())
    }

    ghost function Rest(): seq<byte>
      requires Valid()
      reads this
    {
      Ahead(data, Snap())
    }

    /** pb_istream_from_buffer. */
    constructor (data: seq<byte>, state: nat, bytesLeft: nat)
      requires state + bytesLeft <= |data|
      ensures this.data == data && Snap() == View(state, bytesLeft) && Valid()
    {
      this.data := data;
      this.state := state;
      this.bytesLeft := bytesLeft;
    }

    /** pb_readbyte. */
    method ReadByte() returns (ok: bool, b: byte)
      requires Valid()
      modifies this
      ensures Valid() && (ok <==> old(Rest()) != [])
      ensures if ok then old(Rest()) == [b] + Rest() && state == old(state) + 1 && bytesLeft == old(bytesLeft) - 1
              else Snap() == old(Snap())
    {
      if bytesLeft == 0 {
        return false, 0;
      }
      b := data[state];
      state := state + 1;
      bytesLeft := bytesLeft - 1;
      ok := true;
    }

    /** pb_read; the octets are copied out unless they are only skipped. */
    method Read(count: nat) returns (ok: bool, octets: seq<byte>)
      requires Valid()
      modifies this
      ensures Valid()
      ensures var r := Take(old(Rest()), count);
              Consumed(data, old(Snap()), ok, RestOf(r), Snap()) && (ok ==> octets == r.value.0)
      ensures ok ==> state == old(state) + count
    {
      if bytesLeft < count {
        return false, [];
      }
      octets := data[state..state + count];
      state := state + count;
      bytesLeft := bytesLeft - count;
      ok := true;
    }

    /** pb_decode_varint. */
    method DecodeVarint() returns (ok: bool, dest: nat)
      requires Valid()
      modifies this
      ensures Valid()
      ensures var r := Varints.DecodeVarint(old(Rest()));
              Consumed(data, old(Snap()), ok, RestOf(r), Snap()) && (ok ==> dest == r.value.0)
    {
      hide Or, Shl;
      var bitpos: nat, result: nat := 0, 0;
      ghost var whole := DecodeFrom(Rest(), 0, 0);
      while true
        invariant Valid() && bitpos <= 70 && state >= old(state) && state + bytesLeft == old(state + bytesLeft)
        invariant whole == DecodeFrom(Rest(), bitpos, result)
        decreases bytesLeft
      {
        if bitpos >= 64 {
          return false, 0;
        }
        ghost var s := Rest();
        var b;
        ok, b := ReadByte();
        if !ok {
          return false, 0;
        }
        assert s[0] == b && s[1..] == Rest();
        result := Or(result, Shl(b % 128, bitpos, 64));
        bitpos := bitpos + 7;
        if b < 128 {
          return true, result;
        }
      }
    }

    /** pb_decode_varint32_eof; bitpos is a uint_fast8_t. */
    method DecodeVarint32() returns (ok: bool, dest: nat, eof: bool)
      requires Valid()
      modifies this
      ensures Valid()
      ensures var d := Decode32(old(Rest()));
              && Consumed(data, old(Snap()), ok, RestOf32(d), Snap())
              && (ok ==> dest == d.value && bytesLeft < old(bytesLeft)) && eof == (d.Err32? && d.eof)
    {
      hide Or, Shl;
      ghost var whole := Decode32(Rest());
      ghost var s := Rest();
      var b;
      eof := false;
      ok, b := ReadByte();
      if !ok {
        return false, 0, true;
      }
      assert s[0] == b && s[1..] == Rest();
      if b < 128 {
        return true, b, false;
      }
      var bitpos: nat, result: nat := 7, b % 128;
      while true
        invariant Valid() && bitpos < 256 && state > old(state) && state + bytesLeft == old(state + bytesLeft)
        invariant whole == Decode32From(Rest(), bitpos, result)
        decreases bytesLeft
      {
        s := Rest();
        ok, b := ReadByte();
        if !ok {
          return false, 0, false;
        }
        assert s[0] == b && s[1..] == Rest();
        if bitpos >= 32 {
          var signExtension := if bitpos < 63 then 0xff else 0x01;
          if b % 128 != 0 && (result < 0x8000_0000 || b != signExtension) {
            return false, 0, false;
          }
        } else {
          result := Or(result, Shl(b % 128, bitpos, 32));
        }
        bitpos := (bitpos + 7) % 256;
        if b < 128 {
          break;
        }
      }
      if bitpos == 35 && b / 16 % 8 != 0 {
        return false, 0, false;
      }
      return true, result, false;
    }

    /** pb_skip_varint. */
    method SkipVarint() returns (ok: bool)
      requires Valid()
      modifies this
      ensures Valid()
      ensures Consumed(data, old(Snap()), ok, PbDecoding.SkipField(WT_VARINT, old(Rest())), Snap())
    {
      ghost var whole := Varints.SkipVarint(Rest());
      while true
        invariant Valid() && state >= old(state) && state + bytesLeft == old(state + bytesLeft)
        invariant whole == Varints.SkipVarint(Rest())
        decreases bytesLeft
      {
        ghost var s := Rest();
        var b;
        ok, b := ReadByte();
        if !ok {
          return false;
        }
        assert s[0] == b && s[1..] == Rest();
        if b < 128 {
          return true;
        }
      }
    }

    /** pb_skip_string. */
    method SkipString() returns (ok: bool)
      requires Valid()
      modifies this
      ensures Valid()
      ensures Consumed(data, old(Snap()), ok, PbDecoding.SkipField(WT_STRING, old(Rest())), Snap())
    {
      hide Decode32;
      var length, eof, octets: seq<byte>;
      ok, length, eof := DecodeVarint32();
      if !ok {
        return;
      }
      ok, octets := Read(length);
    }

    /** pb_skip_field. */
    method SkipField(wireType: nat) returns (ok: bool)
      requires Valid()
      modifies this
      ensures Valid()
      ensures Consumed(data, old(Snap()), ok, PbDecoding.SkipField(wireType, old(Rest())), Snap())
    {
      hide TakePrefixed, Varints.SkipVarint;
      var octets: seq<byte>;
      if wireType == WT_VARINT {
        ok := SkipVarint();
      } else if wireType == WT_64BIT {
        ok, octets := Read(8);
      } else if wireType == WT_STRING {
        ok := SkipString();
      } else if wireType == WT_32BIT {
        ok, octets := Read(4);
      } else {
        ok := false;
      }
    }

    /** pb_decode_tag: a zero key ends the message like the end of the input does. */
    method DecodeTag() returns (ok: bool, wireType: nat, tag: nat, eof: bool)
      requires Valid()
      modifies this
      ensures Valid()
      ensures var d := Decode32(old(Rest()));
              && Consumed(data, old(Snap()), d.Ok32?, RestOf32(d), Snap())
              && (ok <==> d.Ok32? && d.value != 0)
              && (ok ==> tag == d.value / 8 && wireType == d.value % 8 && bytesLeft < old(bytesLeft))
              && (eof <==> if d.Ok32? then d.value == 0 else d.eof)
    {
      hide Decode32;
      wireType, tag := 0, 0;
      var temp;
      ok, temp, eof := DecodeVarint32();
      if !ok {
        return;
      }
      if temp == 0 {
        return false, 0, 0, true;
      }
      tag := temp / 8;
      wireType := temp % 8;
    }

    /** pb_make_string_substream: until it is closed the substream has the octets of the prefix,
        and this stream keeps only the number of those behind them. */
    method MakeSubstream() returns (ok: bool, sub: IStream)
      requires Valid()
      modifies this
      ensures Valid() && fresh(sub) && sub.data == data && sub.Valid()
      ensures var r := TakePrefixed(old(Rest()));
              && (ok <==> r.Some?)
              && (ok ==> && sub.Rest() == r.value.0 && sub.bytesLeft < old(bytesLeft)
                         && InBounds(data, View(sub.state + sub.bytesLeft, bytesLeft))
                         && Ahead(data, View(sub.state + sub.bytesLeft, bytesLeft)) == r.value.1)
      ensures old(state) <= state && state + bytesLeft <= old(state + bytesLeft)
      ensures ok ==> state == sub.state && sub.state + sub.bytesLeft + bytesLeft == old(state + bytesLeft)
    {
      hide Decode32;
      var size, eof;
      ok, size, eof := DecodeVarint32();
      sub := new IStream(data, state, bytesLeft);
      if !ok {
        return;
      }
      if sub.bytesLeft < size {
        return false, sub;
      }
      sub.bytesLeft := size;
      bytesLeft := bytesLeft - size;
    }

    /** pb_close_string_substream: what the substream did not use is skipped. */
    method CloseSubstream(sub: IStream) returns (ok: bool)
      requires Valid() && sub.Valid() && sub != this && sub.data == data
      requires sub.state + sub.bytesLeft + bytesLeft <= |data|
      modifies this, sub
      ensures ok && Valid() && state == old(sub.state + sub.bytesLeft) && bytesLeft == old(bytesLeft)
    {
      if sub.bytesLeft != 0 {
        var octets: seq<byte>;
        ok, octets := sub.Read(sub.bytesLeft);
        if !ok {
          return false;
        }
      }
      state := sub.state;
      ok := true;
    }
  }

  // ------------------------------------------------------------- field decoders

  /** pb_dec_varint. */
  method DecodeSigned(s: IStream, dataSize: nat) returns (ok: bool, v: Value)
    requires s.Valid()
    modifies s
    ensures s.Valid()
    ensures var r := DecVarint(dataSize, old(s.Rest()));
            Consumed(s.data, old(s.Snap()), ok, RestOf(r), s.Snap()) && (ok ==> v == r.value.0)
  {
    hide DecodeVarint;
    v := Num(0);
    ghost var octets := s.Rest();
    var value;
    ok, value := s.DecodeVarint();
    if !ok { return; }
    DecodeBound(octets);
    var n := if dataSize == 8 then ToSigned64(value) else ToSigned32(value);
    if !IntegerSize(dataSize) || !SignedRange(n, dataSize) {
      return false, v;
    }
    v := Num(n);
  }

  /** pb_dec_uvarint. */
  method DecodeUnsigned(s: IStream, dataSize: nat) returns (ok: bool, v: Value)
    requires s.Valid()
    modifies s
    ensures s.Valid()
    ensures var r := DecUVarint(dataSize, old(s.Rest()));
            Consumed(s.data, old(s.Snap()), ok, RestOf(r), s.Snap()) && (ok ==> v == r.value.0)
  {
    hide DecodeVarint;
    v := Num(0);
    var value;
    ok, value := s.DecodeVarint();
    if !ok { return; }
    if !IntegerSize(dataSize) || !UnsignedRange(value, dataSize) {
      return false, v;
    }
    v := Num(value);
  }

  /** pb_dec_svarint. */
  method DecodeZigZag(s: IStream, dataSize: nat) returns (ok: bool, v: Value)
    requires s.Valid()
    modifies s
    ensures s.Valid()
    ensures var r := DecSVarint(dataSize, old(s.Rest()));
            Consumed(s.data, old(s.Snap()), ok, RestOf(r), s.Snap()) && (ok ==> v == r.value.0)
  {
    hide DecodeVarint;
    v := Num(0);
    ghost var octets := s.Rest();
    var value;
    ok, value := s.DecodeVarint();
    if !ok { return; }
    DecodeBound(octets);
    var n := UnZigZag(value);
    if !IntegerSize(dataSize) || !SignedRange(n, dataSize) {
      return false, v;
    }
    v := Num(n);
  }

  /** Four octets shifted into place. */
  function Word32(b0: int, b1: int, b2: int, b3: int): int {
    b0 + 0x100 * b1 + 0x1_0000 * b2 + 0x100_0000 * b3
  }

  lemma FirstFour(b: seq<byte>)
    requires |b| >= 4
    ensures FromLittleEndian(b) == Word32(b[0], b[1], b[2], b[3]) + 0x1_0000_0000 * FromLittleEndian(b[4..])
  {
    assert b[1..][1..] == b[2..] && b[2..][1..] == b[3..] && b[3..][1..] == b[4..];
    var rest := FromLittleEndian(b[4..]);
    assert FromLittleEndian(b[3..]) == b[3] + 256 * rest;
    assert FromLittleEndian(b[2..]) == b[2] + 256 * FromLittleEndian(b[3..]);
    assert FromLittleEndian(b[1..]) == b[1] + 256 * FromLittleEndian(b[2..]);
  }

  /** pb_decode_fixed32. */
  method DecodeFixed32(s: IStream) returns (ok: bool, v: Value)
    requires s.Valid()
    modifies s
    ensures s.Valid()
    ensures var r := DecFixed(4, old(s.Rest()));
            Consumed(s.data, old(s.Snap()), ok, RestOf(r), s.Snap()) && (ok ==> v == r.value.0)
  {
    v := Num(0);
    var b: seq<byte>;
    ok, b := s.Read(4);
    if !ok { return; }
    FirstFour(b);
    v := Num(Word32(b[0], b[1], b[2], b[3]));
  }

  /** pb_decode_fixed64. */
  method DecodeFixed64(s: IStream) returns (ok: bool, v: Value)
    requires s.Valid()
    modifies s
    ensures s.Valid()
    ensures var r := DecFixed(8, old(s.Rest()));
            Consumed(s.data, old(s.Snap()), ok, RestOf(r), s.Snap()) && (ok ==> v == r.value.0)
  {
    v := Num(0);
    var b: seq<byte>;
    ok, b := s.Read(8);
    if !ok { return; }
    FirstFour(b);
    FirstFour(b[4..]);
    v := Num(Word32(b[0], b[1], b[2], b[3]) + 0x1_0000_0000 * Word32(b[4], b[5], b[6], b[7]));
  }

  /** pb_dec_bytes. */
  method DecodeBytes(s: IStream, dataSize: nat) returns (ok: bool, v: Value)
    requires s.Valid()
    modifies s
    ensures s.Valid()
    ensures var r := DecBytes(dataSize, old(s.Rest()));
            Consumed(s.data, old(s.Snap()), ok, RestOf(r), s.Snap()) && (ok ==> v == r.value.0)
  {
    hide Decode32;
    v := Octets([]);
    ghost var octets := s.Rest();
    var size, eof, b: seq<byte>;
    ok, size, eof := s.DecodeVarint32();
    if !ok { return; }
    Decode32Bound(octets);
    if size > PB_SIZE_MAX || size + BYTES_HEADER > dataSize {
      return false, v;
    }
    ok, b := s.Read(size);
    v := Octets(b);
  }

  /** pb_dec_string. */
  method DecodeString(s: IStream, dataSize: nat) returns (ok: bool, v: Value)
    requires s.Valid()
    modifies s
    ensures s.Valid()
    ensures var r := DecString(dataSize, old(s.Rest()));
            Consumed(s.data, old(s.Snap()), ok, RestOf(r), s.Snap()) && (ok ==> v == r.value.0)
  {
    hide Decode32;
    v := Octets([]);
    ghost var octets := s.Rest();
    var size, eof, b: seq<byte>;
    ok, size, eof := s.DecodeVarint32();
    if !ok { return; }
    Decode32Bound(octets);
    var allocSize := (size + 1) % 0x1_0000_0000;
    if allocSize < size || allocSize > dataSize {
      return false, v;
    }
    ok, b := s.Read(size);
    v := Octets(b + [0]);
  }

  /** pb_dec_fixed_length_bytes. */
  method DecodeFixedBytes(s: IStream, dataSize: nat) returns (ok: bool, v: Value)
    requires s.Valid()
    modifies s
    ensures s.Valid()
    ensures var r := DecFixedBytes(dataSize, old(s.Rest()));
            Consumed(s.data, old(s.Snap()), ok, RestOf(r), s.Snap()) && (ok ==> v == r.value.0)
  {
    hide Decode32;
    v := Octets([]);
    ghost var octets := s.Rest();
    var size, eof, b: seq<byte>;
    ok, size, eof := s.DecodeVarint32();
    if !ok { return; }
    Decode32Bound(octets);
    if size > PB_SIZE_MAX {
      return false, v;
    }
    if size == 0 {
      return true, Octets(Zeros(dataSize));
    }
    if size != dataSize {
      return false, v;
    }
    ok, b := s.Read(size);
    v := Octets(b);
  }

  /** The field decoders, by PB_LTYPE. */
  method DecodeValue(s: IStream, f: Field, current: Value) returns (ok: bool, v: Value)
    requires s.Valid() && WellFormedField(f)
    requires f.ltype.Submessage? ==> TypedValue(f, current) && (f.htype == Repeated ==> current == InitialValue(f))
    modifies s
    ensures s.Valid()
    ensures var r := DecValue(f, current, old(s.Rest()));
            Consumed(s.data, old(s.Snap()), ok, RestOf(r), s.Snap()) && (ok ==> v == r.value.0)
    decreases s.bytesLeft, 1
  {
    hide Consumed, Ahead, InBounds, DecVarint, DecUVarint, DecSVarint, DecFixed, DecBytes, DecString, DecFixedBytes;
    match f.ltype
    case Varint => ok, v := DecodeSigned(s, f.dataSize);
    case UVarint => ok, v := DecodeUnsigned(s, f.dataSize);
    case SVarint => ok, v := DecodeZigZag(s, f.dataSize);
    case Fixed32 => ok, v := DecodeFixed32(s);
    case Fixed64 => ok, v := DecodeFixed64(s);
    case VarBytes => ok, v := DecodeBytes(s, f.dataSize);
    case CString => ok, v := DecodeString(s, f.dataSize);
    case FixedBytes => ok, v := DecodeFixedBytes(s, f.dataSize);
    case Submessage(fields) => ok, v := DecodeSubmessage(s, f, current);
  }

  /** pb_dec_submessage: an array entry starts from defaults, anything else from what is there. */
  method DecodeSubmessage(s: IStream, f: Field, current: Value) returns (ok: bool, v: Value)
    requires s.Valid() && WellFormedField(f) && f.ltype.Submessage? && TypedValue(f, current)
    requires f.htype == Repeated ==> current == InitialValue(f)
    modifies s
    ensures s.Valid()
    ensures var r := DecValue(f, current, old(s.Rest()));
            Consumed(s.data, old(s.Snap()), ok, RestOf(r), s.Snap()) && (ok ==> v == r.value.0)
    decreases s.bytesLeft, 0
  {
    hide TakePrefixed, DecLoop, DecValue, WellFormed, WellFormedField, Typed, TypedValue, InitialValue, Default;
    SubmessageParts(f, current, s.Rest());
    var fields := f.ltype.fields;
    v := current;
    var sub, m, closed;
    ok, sub := s.MakeSubstream();
    if !ok { return; }
    label Opened:
    if f.htype == Repeated {
      ok, m := Decode(sub, fields);
    } else {
      ok, m := DecodeNoInit(sub, fields, current.m);
    }
    if !ok {
      closed := s.CloseSubstream(sub);
      return;
    }
    assert sub.state + sub.bytesLeft == old@Opened(sub.state + sub.bytesLeft);
    closed := s.CloseSubstream(sub);
    v := Sub(m);
  }

  lemma SubmessageParts(f: Field, current: Value, s: seq<byte>)
    requires WellFormedField(f) && f.ltype.Submessage? && TypedValue(f, current)
    requires f.htype == Repeated ==> current == InitialValue(f)
    ensures var fields, p := f.ltype.fields, TakePrefixed(s);
            && WellFormed(fields) && current.Sub? && Typed(fields, current.m)
            && (f.htype == Repeated ==> current.m == Default(fields))
            && DecValue(f, current, s)
            == if p.None? then None
               else
                 var r := DecLoop(fields, current.m, {}, p.value.0);
                 if r.Some? then Some((Sub(r.value.0), p.value.1)) else None
  {
  }

  /** decode_static_field. */
  method DecodeField(s: IStream, wireType: nat, f: Field, x: Slot) returns (ok: bool, x': Slot)
    requires s.Valid() && WellFormedField(f) && TypedSlot(f, x)
    modifies s
    ensures s.Valid()
    ensures var r := DecField(f, wireType, x, old(s.Rest()));
            Consumed(s.data, old(s.Snap()), ok, RestOf(r), s.Snap()) && (ok ==> x' == r.value.0)
    decreases s.bytesLeft, 2
  {
    hide Consumed, Ahead, InBounds, DecValue, WellFormedField, TypedValue, InitialValue, TakePrefixed, DecPacked, Packable;
    x' := x;
    if f.htype == Repeated {
      if wireType == WT_STRING && Packable(f) {
        ok, x' := DecodePacked(s, f, x);
        return;
      }
      if |x.items| >= f.arraySize {
        FailedAtOnce(s.data, s.Snap());
        return false, x;
      }
    }
    var v;
    ok, v := DecodeValue(s, f, Base(f, x));
    ConsumedMeans(s.data, old(s.Snap()), ok, RestOf(DecValue(f, Base(f, x), old(s.Rest()))), s.Snap());
    if ok {
      x' := Receive(f, x, v);
    }
  }

  lemma FailedAtOnce(data: seq<byte>, v: View)
    requires InBounds(data, v)
    ensures Consumed(data, v, false, None, v)
  {
  }

  lemma ConsumedMeans(data: seq<byte>, v: View, ok: bool, rest: Option<seq<byte>>, w: View)
    requires InBounds(data, v) && Consumed(data, v, ok, rest, w)
    ensures InBounds(data, w) && (ok <==> rest.Some?) && (ok ==> Ahead(data, w) == rest.value)
  {
  }

  method DecodePacked(s: IStream, f: Field, x: Slot) returns (ok: bool, x': Slot)
    requires s.Valid() && WellFormedField(f) && TypedSlot(f, x) && f.htype == Repeated && Packable(f)
    modifies s
    ensures s.Valid()
    ensures var r := DecField(f, WT_STRING, x, old(s.Rest()));
            Consumed(s.data, old(s.Snap()), ok, RestOf(r), s.Snap()) && (ok ==> x' == r.value.0)
    decreases s.bytesLeft, 1
  {
    hide TakePrefixed, DecValue, WellFormedField, TypedValue, InitialValue;
    x' := x;
    var sub, v, closed;
    ok, sub := s.MakeSubstream();
    if !ok { return; }
    var status, items := true, x.items;
    ghost var end := sub.state + sub.bytesLeft;
    ghost var whole := DecPacked(f, items, sub.Rest());
    while sub.bytesLeft > 0 && |items| < f.arraySize
      invariant sub.Valid() && sub.state + sub.bytesLeft == end && TypedItems(f, items)
      invariant s.bytesLeft < old(s.bytesLeft) && sub.bytesLeft < old(s.bytesLeft)
      invariant whole == DecPacked(f, items, sub.Rest())
      modifies sub
      decreases sub.bytesLeft
    {
      assert sub.Rest() != [];
      ghost var left := sub.bytesLeft;
      status, v := DecodeValue(sub, f, Num(0));
      if !status { break; }
      assert sub.bytesLeft < left;
      AppendTyped(f, items, v);
      items := items + [v];
    }
    if sub.bytesLeft != 0 || !status {
      if sub.bytesLeft != 0 {
        return false, x;
      }
      closed := s.CloseSubstream(sub);
      return false, x;
    }
    closed := s.CloseSubstream(sub);
    x' := Many(items);
  }

  /** How many required fields there are, capped: the iterator is run to the end and comes back
      to the start. */
  method CountRequired(iter: FieldIter) returns (count: nat)
    requires iter.Valid()
    modifies iter
    ensures iter.Valid()
    ensures count == Min(RequiredBefore(iter.start, |iter.start|), PB_MAX_REQUIRED_FIELDS)
  {
    hide LayoutOffset, LayoutSize;
    var more, last := true, Required;
    count := 0;
    while more
      invariant iter.Valid()
      invariant !more ==> iter.start == [] || (count == RequiredBefore(iter.start, |iter.start| - 1)
                                               && last == iter.start[|iter.start| - 1].htype)
      invariant !more && iter.start == [] ==> count == 0
      decreases more, |iter.start| - iter.pos
    {
      count := iter.requiredFieldIndex;
      last := FieldAt(iter.start, iter.pos).htype;
      more := iter.Next();
    }
    if last == Required && FieldAt(iter.start, iter.pos).tag != 0 {
      count := count + 1;
    }
    if count > PB_MAX_REQUIRED_FIELDS {
      count := PB_MAX_REQUIRED_FIELDS;
    }
  }

  /** The step of DecLoop for a key. */
  lemma KeyRead(fields: seq<Field>, m: Message, seen: set<nat>, s: seq<byte>, key: nat, rest: seq<byte>)
    requires WellFormed(fields) && Typed(fields, m) && s != [] && Decode32(s) == Ok32(key, rest) && key != 0
    ensures FindField(fields, key / 8).None? ==>
              DecLoop(fields, m, seen, s)
              == if fields == [] && key / 8 == 0 then None
                 else
                   var r := SkipField(key % 8, rest);
                   if r.None? then None else DecLoop(fields, m, seen, r.value)
  {
    hide Decode32, SkipField, DecField, WellFormed, Typed, Finish;
  }

  lemma FieldRead(fields: seq<Field>, m: Message, seen: set<nat>, s: seq<byte>, key: nat, rest: seq<byte>, i: nat)
    requires WellFormed(fields) && Typed(fields, m) && s != [] && Decode32(s) == Ok32(key, rest) && key != 0
    requires i < |fields| && fields[i].tag == key / 8
    ensures WellFormedField(fields[i]) && SlotOf(fields, i) < |m.slots|
    ensures var r := DecField(fields[i], key % 8, Load(fields, m, i), rest);
            && (r.Some? ==> Typed(fields, Store(fields, m, i, r.value.0)))
            && DecLoop(fields, m, seen, s)
            == if r.None? then None else DecLoop(fields, Store(fields, m, i, r.value.0), seen + {i}, r.value.1)
  {
    FoundByTag(fields, i);
    hide Decode32, SkipField, DecField, Finish, FindField;
    var r := DecField(fields[i], key % 8, Load(fields, m, i), rest);
    if r.Some? { StoreTyped(fields, m, i, r.value.0); }
  }

  /** The loop ends here: nothing left, or a zero key. */
  lemma LastRead(fields: seq<Field>, m: Message, seen: set<nat>, s: seq<byte>)
    requires WellFormed(fields) && Typed(fields, m)
    ensures s == [] ==> DecLoop(fields, m, seen, s) == Finish(fields, m, seen, [])
    ensures s != [] ==> var d := Decode32(s);
                        && (d.Ok32? && d.value == 0 ==> DecLoop(fields, m, seen, s) == Finish(fields, m, seen, d.rest))
                        && (d.Err32? ==> !d.eof && DecLoop(fields, m, seen, s) == None)
  {
    hide Decode32, SkipField, DecField, WellFormed, Typed, Finish;
  }

  /** One field or unknown key of the loop of pb_decode_noinit; the key has been read. */
  method DecodeKeyed(s: IStream, iter: FieldIter, words: array<nat>, wireType: nat, tag: nat, m: Message,
                     ghost seen: set<nat>, ghost octets: seq<byte>, ghost end: nat)
    returns (ok: bool, out: Message, ghost seen': set<nat>)
    requires s.Valid() && iter.Valid() && WellFormed(iter.start) && Typed(iter.start, m)
    requires words.Length == 2 && Records(words[..], iter.start, seen)
    requires octets != [] && Decode32(octets) == Ok32(8 * tag + wireType, s.Rest()) && wireType < 8 && 8 * tag + wireType != 0
    requires s.state + s.bytesLeft == end
    modifies s, iter, words
    ensures s.Valid() && iter.Valid() && old(s.state) <= s.state && s.state + s.bytesLeft <= end
    ensures ok ==> && Typed(iter.start, out) && Records(words[..], iter.start, seen')
                   && s.state + s.bytesLeft == end && s.bytesLeft <= old(s.bytesLeft)
                   && DecLoop(iter.start, m, seen, octets) == DecLoop(iter.start, out, seen', s.Rest())
    ensures !ok ==> DecLoop(iter.start, m, seen, octets) == None
    decreases s.bytesLeft, 3
  {
    hide DecLoop, Decode32, DecField, FindField, SkipField, WellFormed, WellFormedField, Typed, TypedSlot, Records,
         RequiredBefore, LayoutOffset, LayoutSize, Pow2, Or, Load, Store;
    var fields := iter.start;
    ghost var key, rest := 8 * tag + wireType, s.Rest();
    assert key / 8 == tag && key % 8 == wireType;
    out, seen' := m, seen;
    var found := iter.Find(tag);
    if !found {
      KeyRead(fields, m, seen, octets, key, rest);
      ok := s.SkipField(wireType);
      return;
    }
    var i := iter.pos;
    if i == |fields| {
      // An empty descriptor: the terminator reads as a varint field of size zero.
      KeyRead(fields, m, seen, octets, key, rest);
      var v;
      ok, v := DecodeSigned(s, TERMINATOR.dataSize);
      return;
    }
    FieldRead(fields, m, seen, octets, key, rest, i);
    seen' := seen + {i};
    if fields[i].htype == Required && iter.requiredFieldIndex < PB_MAX_REQUIRED_FIELDS {
      var k := iter.requiredFieldIndex;
      RecordOne(words[..], fields, seen, i);
      ghost var before := words[..];
      words[k / 32] := Or(words[k / 32], Pow2(k % 32));
      assert words[..] == before[k / 32 := Or(before[k / 32], Pow2(k % 32))];
    } else {
      RecordNone(words[..], fields, seen, i);
    }
    var x;
    ok, x := DecodeField(s, wireType, fields[i], Load(fields, m, i));
    if ok { out := Store(fields, m, i, x); }
  }

  /** pb_decode_noinit. */
  method DecodeNoInit(s: IStream, fields: seq<Field>, m: Message) returns (ok: bool, out: Message)
    requires s.Valid() && WellFormed(fields) && Typed(fields, m)
    modifies s
    ensures s.Valid()
    ensures var r := DecLoop(fields, m, {}, old(s.Rest()));
            Consumed(s.data, old(s.Snap()), ok, RestOf(r), s.Snap()) && (ok ==> out == r.value.0)
    decreases s.bytesLeft, 4
  {
    hide DecLoop, Decode32, WellFormed, Typed, Records, Finish, RequiredBefore;
    NonZeroTags(fields);
    NothingRecorded(fields);
    var words := new nat[2] [0, 0];
    assert words[..] == [0, 0];
    var iter := new FieldIter(fields, 0);
    ghost var seen, end := {}, s.state + s.bytesLeft;
    ghost var whole := DecLoop(fields, m, {}, s.Rest());
    out := m;
    while s.bytesLeft != 0
      invariant s.Valid() && iter.Valid() && iter.start == fields && Typed(fields, out)
      invariant words.Length == 2 && Records(words[..], fields, seen)
      invariant old(s.state) <= s.state && s.state + s.bytesLeft == end && s.bytesLeft <= old(s.bytesLeft)
      invariant whole == DecLoop(fields, out, seen, s.Rest())
      decreases s.bytesLeft
    {
      ghost var octets := s.Rest();
      LastRead(fields, out, seen, octets);
      var wireType, tag, eof;
      ok, wireType, tag, eof := s.DecodeTag();
      if !ok {
        if eof { break; }
        return false, out;
      }
      ok, out, seen := DecodeKeyed(s, iter, words, wireType, tag, out, seen, octets, end);
      if !ok { return; }
    }
    LastRead(fields, out, seen, s.Rest());
    assert whole == Finish(fields, out, seen, s.Rest());
    var count := CountRequired(iter);
    ok := CheckRequired(words, count, fields, seen);
    FinishMeans(fields, out, seen, s.Rest());
  }

  lemma NonZeroTags(fields: seq<Field>)
    requires WellFormed(fields)
    ensures forall i :: 0 <= i < |fields| ==> fields[i].tag != 0
  {
  }

  lemma FinishMeans(fields: seq<Field>, m: Message, seen: set<nat>, rest: seq<byte>)
    ensures Finish(fields, m, seen, rest) == if RequiredSeen(fields, seen) then Some((m, rest)) else None
  {
  }

  /** pb_message_set_to_defaults: every field in turn, members of a union into the one they share. */
  method SetToDefaults(fields: seq<Field>) returns (m: Message)
    requires WellFormed(fields)
    ensures m == Default(fields)
    decreases fields
  {
    hide WellFormed, WellFormedField, DefaultSlot, DefaultSlots, SlotOf, LayoutOffset, LayoutSize, RequiredBefore;
    NonZeroTags(fields);
    var iter := new FieldIter(fields, 0);
    var slots: seq<Slot> := [];
    NoDefaults(fields);
    var more := iter.Begin();
    while more
      invariant iter.Valid() && iter.start == fields && (more ==> iter.pos < |fields|)
      invariant slots == DefaultSlots(fields, if more then iter.pos else |fields|)
      decreases if more then |fields| - iter.pos else 0
    {
      var i := iter.pos;
      FieldWellFormed(fields, i);
      NextDefault(fields, i);
      var x := SetFieldToDefault(fields[i]);
      if i == 0 || !JoinsUnion(fields, i - 1) {
        slots := slots + [x];
      }
      more := iter.Next();
    }
    m := Message(slots);
  }

  lemma NoDefaults(fields: seq<Field>)
    ensures DefaultSlots(fields, 0) == []
  {
  }

  lemma NextDefault(fields: seq<Field>, i: nat)
    requires i < |fields|
    ensures DefaultSlots(fields, i + 1)
         == if i > 0 && JoinsUnion(fields, i - 1) then DefaultSlots(fields, i)
            else DefaultSlots(fields, i) + [DefaultSlot(fields[i])]
  {
    hide DefaultSlot;
  }

  lemma FieldWellFormed(fields: seq<Field>, i: nat)
    requires WellFormed(fields) && i < |fields|
    ensures WellFormedField(fields[i])
  {
  }

  /** pb_field_set_to_default. */
  method SetFieldToDefault(f: Field) returns (x: Slot)
    requires WellFormedField(f)
    ensures x == DefaultSlot(f)
    decreases f
  {
    if f.htype == Repeated { return Many([]); }
    if f.htype == Oneof { return Union(0, Num(0)); }
    var v;
    if f.ltype.Submessage? {
      var m := SetToDefaults(f.ltype.fields);
      v := Sub(m);
    } else if f.initial.Some? {
      v := f.initial.value;
    } else {
      v := ZeroValue(f);
    }
    x := if HasFlag(f) then Opt(false, v) else One(v);
  }

  /** pb_decode. */
  method Decode(s: IStream, fields: seq<Field>) returns (ok: bool, out: Message)
    requires s.Valid() && WellFormed(fields)
    modifies s
    ensures s.Valid()
    ensures var r := Dec(fields, old(s.Rest()));
            Consumed(s.data, old(s.Snap()), ok, RestOf(r), s.Snap()) && (ok ==> out == r.value.0)
    decreases s.bytesLeft, 5
  {
    hide Consumed, DecLoop, Default, WellFormed, Typed;
    DefaultTyped(fields);
    out := SetToDefaults(fields);
    ok, out := DecodeNoInit(s, fields, out);
  }
}
