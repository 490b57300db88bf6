/** What pb_decode makes of an input, as a function: the struct and the unread octets, or None
    for an error return. */
module PbDecoding {
  import opened Bytes
  import opened PbMessage
  import opened Varints
  import opened PbEncoding

  type Parsed<T> = Option<(T, seq<byte>)>

  function ToSigned32(u: nat): (n: int)
    ensures SignedRange(n, 4)
  {
    var low := u % 0x1_0000_0000;
    if low >= 0x8000_0000 then low - 0x1_0000_0000 else low
  }

  /** pb_read of a count of octets. */
  function Take(s: seq<byte>, n: nat): (r: Parsed<seq<byte>>)
    ensures r.Some? <==> n <= |s|
    ensures r.Some? ==> |r.value.0| == n && s == r.value.0 + r.value.1
  {
    if n <= |s| then Some((s[..n], s[n..])) else None
  }

  /** A length prefix and the octets it covers. */
  function TakePrefixed(s: seq<byte>): (r: Parsed<seq<byte>>)
    ensures r.Some? ==> |r.value.0| + |r.value.1| < |s|
    ensures r.Some? ==> |r.value.0| < 0x1_0000_0000
  {
    match Decode32(s)
    case Ok32(n, rest) => Decode32Bound(s); Take(rest, n)
    case Err32(_) => None
  }

  /** pb_dec_varint: values of up to four octets are first cut to an int32. */
  function DecVarint(d: nat, s: seq<byte>): (r: Parsed<Value>)
    ensures r.Some? ==> r.value.0.Num? && SignedRange(r.value.0.n, d) && |r.value.1| < |s|
  {
    var r := DecodeVarint(s);
    if r.None? || !IntegerSize(d) then None
    else
      DecodeBound(s);
      var n := if d == 8 then ToSigned64(r.value.0) else ToSigned32(r.value.0);
      if SignedRange(n, d) then Some((Num(n), r.value.1)) else None
  }

  function DecUVarint(d: nat, s: seq<byte>): (r: Parsed<Value>)
    ensures r.Some? ==> r.value.0.Num? && UnsignedRange(r.value.0.n, d) && |r.value.1| < |s|
  {
    var r := DecodeVarint(s);
    if r.None? || !IntegerSize(d) || !UnsignedRange(r.value.0, d) then None
    else Some((Num(r.value.0), r.value.1))
  }

  function DecSVarint(d: nat, s: seq<byte>): (r: Parsed<Value>)
    ensures r.Some? ==> r.value.0.Num? && SignedRange(r.value.0.n, d) && |r.value.1| < |s|
  {
    var r := DecodeVarint(s);
    if r.None? || !IntegerSize(d) then None
    else
      DecodeBound(s);
      var n := UnZigZag(r.value.0);
      if SignedRange(n, d) then Some((Num(n), r.value.1)) else None
  }

  function DecFixed(k: nat, s: seq<byte>): (r: Parsed<Value>)
    requires k == 4 || k == 8
    ensures r.Some? ==> r.value.0.Num? && UnsignedRange(r.value.0.n, k) && |r.value.1| < |s|
  {
    var r := Take(s, k);
    if r.None? then None
    else
      FromLittleEndianBound(r.value.0);
      Pow256Values();
      Some((Num(FromLittleEndian(r.value.0)), r.value.1))
  }

  /** pb_dec_bytes: the length in front takes room in the member too. */
  function DecBytes(d: nat, s: seq<byte>): (r: Parsed<Value>)
    ensures r.Some? ==> r.value.0.Octets? && |r.value.0.s| + BYTES_HEADER <= d && |r.value.0.s| <= PB_SIZE_MAX
    ensures r.Some? ==> |r.value.1| < |s|
  {
    match Decode32(s)
    case Err32(_) => None
    case Ok32(n, rest) =>
      Decode32Bound(s);
      if n + BYTES_HEADER > d then None
      else
        var r := Take(rest, n);
        if r.None? then None else Some((Octets(r.value.0), r.value.1))
  }

  /** pb_dec_string: the terminator needs room; size + 1 is computed on a uint32. */
  function DecString(d: nat, s: seq<byte>): (r: Parsed<Value>)
    ensures r.Some? ==> r.value.0.Octets? && |r.value.0.s| <= d && 0 in r.value.0.s
    ensures r.Some? ==> |r.value.1| < |s|
  {
    match Decode32(s)
    case Err32(_) => None
    case Ok32(n, rest) =>
      var size := (n + 1) % 0x1_0000_0000;
      if size < n || size > d then None
      else
        Decode32Bound(s);
        var r := Take(rest, n);
        if r.None? then None else assert (r.value.0 + [0])[n] == 0; Some((Octets(r.value.0 + [0]), r.value.1))
  }

  /** pb_dec_fixed_length_bytes: nothing at all stands for all zeros. */
  function DecFixedBytes(d: nat, s: seq<byte>): (r: Parsed<Value>)
    ensures r.Some? ==> r.value.0.Octets? && |r.value.0.s| == d && |r.value.1| < |s|
  {
    match Decode32(s)
    case Err32(_) => None
    case Ok32(n, rest) =>
      if n == 0 then Some((Octets(Zeros(d)), rest))
      else if n != d then None
      else
        var r := Take(rest, n);
        if r.None? then None else Some((Octets(r.value.0), r.value.1))
  }

  /** pb_skip_field. */
  function SkipField(wireType: nat, s: seq<byte>): (r: Option<seq<byte>>)
    ensures r.Some? ==> |r.value| <= |s|
  {
    if wireType == WT_VARINT then SkipVarint(s)
    else if wireType == WT_STRING then
      var r := TakePrefixed(s);
      if r.Some? then Some(r.value.1) else None
    else if wireType == WT_64BIT || wireType == WT_32BIT then
      var r := Take(s, if wireType == WT_64BIT then 8 else 4);
      if r.Some? then Some(r.value.1) else None
    else None
  }

  /** The decoder of one value, by PB_LTYPE; a submessage is merged into what is there. */
  function DecValue(f: Field, current: Value, s: seq<byte>): (r: Parsed<Value>)
    requires WellFormedField(f)
    requires f.ltype.Submessage? ==> TypedValue(f, current)
    ensures r.Some? ==> TypedValue(f, r.value.0) && |r.value.1| < |s|
    decreases |s|, 0
  {
    match f.ltype
    case Varint => DecVarint(f.dataSize, s)
    case UVarint => DecUVarint(f.dataSize, s)
    case SVarint => DecSVarint(f.dataSize, s)
    case Fixed32 => DecFixed(4, s)
    case Fixed64 => DecFixed(8, s)
    case VarBytes => DecBytes(f.dataSize, s)
    case CString => DecString(f.dataSize, s)
    case FixedBytes => DecFixedBytes(f.dataSize, s)
    case Submessage(fields) =>
      var p := TakePrefixed(s);
      if p.None? then None
      else
        var r := DecLoop(fields, current.m, {}, p.value.0);
        if r.Some? then Some((Sub(r.value.0), p.value.1)) else None
  }

  /** The loop of decode_static_field over a packed array: s is the substream. */
  function DecPacked(f: Field, items: seq<Value>, s: seq<byte>): (r: Option<seq<Value>>)
    requires WellFormedField(f) && Packable(f)
    requires TypedItems(f, items)
    ensures r.Some? ==> TypedItems(f, r.value)
    ensures r.Some? ==> |items| <= |r.value| && (|items| <= f.arraySize ==> |r.value| <= f.arraySize)
    decreases |s|, 1
  {
    if s == [] then Some(items)
    else if |items| >= f.arraySize then None
    else
      var r := DecValue(f, Num(0), s);
      if r.None? then None else AppendTyped(f, items, r.value.0); DecPacked(f, items + [r.value.0], r.value.1)
  }

  /** What a submessage met for field f is merged into: array entries and union members start
      from defaults. */
  function Base(f: Field, x: Slot): (v: Value)
    requires WellFormedField(f) && TypedSlot(f, x)
    ensures TypedValue(f, v)
  {
    InitialTyped(f);
    if f.htype == Required || f.htype == Optional then x.v else InitialValue(f)
  }

  /** The member of field f after one value for it. */
  function Receive(f: Field, x: Slot, v: Value): (x': Slot)
    requires TypedSlot(f, x) && TypedValue(f, v)
    ensures TypedSlot(f, x') && (f.htype == Oneof ==> x'.which == f.tag)
  {
    match f.htype
    case Required => One(v)
    case Optional => if HasFlag(f) then Opt(true, v) else One(v)
    case Repeated => AppendTyped(f, x.items, v); Many(x.items + [v])
    case Oneof => Union(f.tag, v)
  }

  /** decode_static_field. */
  function DecField(f: Field, wireType: nat, x: Slot, s: seq<byte>): (r: Parsed<Slot>)
    requires WellFormedField(f) && TypedSlot(f, x)
    ensures r.Some? ==> TypedSlot(f, r.value.0) && |r.value.1| < |s|
    ensures r.Some? && f.htype == Oneof ==> r.value.0.which == f.tag
    decreases |s|, 2
  {
    if f.htype == Repeated && wireType == WT_STRING && Packable(f) then
      var p := TakePrefixed(s);
      if p.None? then None
      else
        var r := DecPacked(f, x.items, p.value.0);
        if r.Some? then Some((Many(r.value), p.value.1)) else None
    else if f.htype == Repeated && |x.items| >= f.arraySize then None
    else
      var r := DecValue(f, Base(f, x), s);
      if r.Some? then Some((Receive(f, x, r.value.0), r.value.1)) else None
  }

  /** Every one of the first PB_MAX_REQUIRED_FIELDS required fields is in seen. */
  predicate RequiredSeen(fields: seq<Field>, seen: set<nat>) {
    forall i :: 0 <= i < |fields| ==>
      fields[i].htype == Required && RequiredBefore(fields, i) < PB_MAX_REQUIRED_FIELDS ==> i in seen
  }

  /** The loop of pb_decode_noinit: m so far, the indices of the fields met so far, the octets left.
      It ends at the end of the input or at a zero key. */
  function DecLoop(fields: seq<Field>, m: Message, seen: set<nat>, s: seq<byte>): (r: Parsed<Message>)
    requires WellFormed(fields) && Typed(fields, m)
    ensures r.Some? ==> Typed(fields, r.value.0) && |r.value.1| <= |s|
    decreases |s|, 3
  {
    if s == [] then Finish(fields, m, seen, [])
    else
      match Decode32(s)
      case Err32(_) => None
      case Ok32(key, rest) =>
        if key == 0 then Finish(fields, m, seen, rest)
        else
          var tag, wireType := key / 8, key % 8;
          var found := FindField(fields, tag);
          if found.Some? then
            var i := found.value;
            var r := DecField(fields[i], wireType, Load(fields, m, i), rest);
            if r.None? then None
            else
              StoreTyped(fields, m, i, r.value.0);
              DecLoop(fields, Store(fields, m, i, r.value.0), seen + {i}, r.value.1)
          else if fields == [] && tag == 0 then None
          else
            var r := SkipField(wireType, rest);
            if r.None? then None else DecLoop(fields, m, seen, r.value)
  }

  function Finish(fields: seq<Field>, m: Message, seen: set<nat>, rest: seq<byte>): Parsed<Message> {
    if RequiredSeen(fields, seen) then Some((m, rest)) else None
  }

  /** Writing the member of field i. */
  function Store(fields: seq<Field>, m: Message, i: nat, x: Slot): Message
    requires i < |fields| && SlotOf(fields, i) < |m.slots|
  {
    Message(m.slots[SlotOf(fields, i) := x])
  }

  lemma FoundByTag(fields: seq<Field>, i: nat)
    requires TagsUnique(fields) && i < |fields|
    ensures FindField(fields, fields[i].tag) == Some(i)
  {
    var r := FindField(fields, fields[i].tag);
    assert r.Some?;
    assert fields[r.value].tag == fields[i].tag;
  }

  lemma StoreTyped(fields: seq<Field>, m: Message, i: nat, x: Slot)
    requires WellFormed(fields) && Typed(fields, m)
    requires i < |fields| && TypedSlot(fields[i], x)
    requires fields[i].htype == Oneof ==> x.Union? && x.which == fields[i].tag
    ensures Typed(fields, Store(fields, m, i, x))
  {
    var m' := Store(fields, m, i, x);
    assert |m'.slots| == SlotCount(fields);
    forall j | 0 <= j < |fields| ensures SlotOf(fields, j) < |m'.slots| && TypedSlot(fields[j], m'.slots[SlotOf(fields, j)]) {
      hide TypedSlot, WellFormedField, SlotOf, SlotCount;
      if j != i {
        SlotOrder(fields, if j < i then j else i, if j < i then i else j);
        if SlotOf(fields, i) == SlotOf(fields, j) { NotSelected(fields[i], fields[j], x); }
      }
    }
  }

  /** A union member other than the one selected may hold anything. */
  lemma NotSelected(f: Field, g: Field, x: Slot)
    requires f.htype == Oneof && g.htype == Oneof && f.tag != g.tag
    requires TypedSlot(f, x) && x.which == f.tag
    ensures TypedSlot(g, x)
  {
  }

  /** pb_decode. */
  function Dec(fields: seq<Field>, s: seq<byte>): (r: Parsed<Message>)
    requires WellFormed(fields)
    ensures r.Some? ==> Typed(fields, r.value.0)
  {
    DefaultTyped(fields);
    DecLoop(fields, Default(fields), {}, s)
  }
}
