/** What pb_encode puts on the wire, as a function of descriptor and message. None is an
    encoding error that does not depend on the stream. */
module PbEncoding {
  import opened Bytes
  import opened PbMessage
  import opened Varints

  const WT_VARINT: nat := 0
  const WT_64BIT: nat := 1
  const WT_STRING: nat := 2
  const WT_32BIT: nat := 5

  /** The bits of an int64 as a uint64. */
  function ToUnsigned64(n: int): (u: nat)
    requires SignedRange(n, 8)
    ensures u < 0x1_0000_0000_0000_0000
  {
    if n < 0 then n + 0x1_0000_0000_0000_0000 else n
  }

  /** The bits of a uint64 as an int64. */
  function ToSigned64(u: nat): (n: int)
    requires u < 0x1_0000_0000_0000_0000
    ensures SignedRange(n, 8)
  {
    if u >= 0x8000_0000_0000_0000 then u - 0x1_0000_0000_0000_0000 else u
  }

  /** pb_encode_svarint: shift left by one as a uint64, complement if negative. */
  function ZigZag(n: int): (u: nat)
    requires SignedRange(n, 8)
    ensures u < 0x1_0000_0000_0000_0000
  {
    var shifted := 2 * ToUnsigned64(n) % 0x1_0000_0000_0000_0000;
    if n < 0 then 0xffff_ffff_ffff_ffff - shifted else shifted
  }

  /** pb_decode_svarint: shift right by one, complement if odd. */
  function UnZigZag(u: nat): (n: int)
    requires u < 0x1_0000_0000_0000_0000
    ensures SignedRange(n, 8)
  {
    if u % 2 == 1 then ToSigned64(0xffff_ffff_ffff_ffff - u / 2) else ToSigned64(u / 2)
  }

  /** Small magnitudes of either sign get small codes, and no two values share one. */
  lemma ZigZagRoundTrip(n: int)
    requires SignedRange(n, 8)
    ensures ZigZag(n) == if n < 0 then -2 * n - 1 else 2 * n
    ensures UnZigZag(ZigZag(n)) == n
  {
  }

  function LittleEndian(n: nat, k: nat): (s: seq<byte>)
    ensures |s| == k
    decreases k
  {
    if k == 0 then [] else [n % 256] + LittleEndian(n / 256, k - 1)
  }

  /** Every member of four or eight bytes as the octets of Fixed32 and Fixed64 fields. */
  function FromLittleEndian(s: seq<byte>): nat {
    if s == [] then 0 else s[0] + 256 * FromLittleEndian(s[1..])
  }

  function Pow256(k: nat): nat {
    if k == 0 then 1 else 256 * Pow256(k - 1)
  }

  lemma {:induction false} FromLittleEndianBound(s: seq<byte>)
    ensures FromLittleEndian(s) < Pow256(|s|)
  {
    if s != [] { FromLittleEndianBound(s[1..]); }
  }

  lemma {:induction false} LittleEndianRoundTrip(n: nat, k: nat)
    requires n < Pow256(k)
    ensures FromLittleEndian(LittleEndian(n, k)) == n
    decreases k
  {
    if k > 0 {
      LittleEndianRoundTrip(n / 256, k - 1);
      assert LittleEndian(n, k)[1..] == LittleEndian(n / 256, k - 1);
    }
  }

  lemma Pow256Values()
    ensures Pow256(4) == 0x1_0000_0000 && Pow256(8) == 0x1_0000_0000_0000_0000
  {
    assert Pow256(2) == 0x1_0000;
    assert Pow256(6) == 0x1_0000_0000_0000;
  }

  // ------------------------------------------------------------------- encoding

  function Join(a: Option<seq<byte>>, b: Option<seq<byte>>): Option<seq<byte>> {
    if a.Some? && b.Some? then Some(a.value + b.value) else None
  }

  /** pb_encode_tag. */
  function EncTag(wireType: nat, tag: nat): seq<byte> {
    EncodeVarint(8 * tag + wireType)
  }

  /** The wire type pb_encode_tag_for_field picks. */
  function WireType(f: Field): nat {
    match f.ltype
    case Varint => WT_VARINT
    case UVarint => WT_VARINT
    case SVarint => WT_VARINT
    case Fixed32 => WT_32BIT
    case Fixed64 => WT_64BIT
    case _ => WT_STRING
  }

  /** pb_encode_string. */
  function EncString(s: seq<byte>): seq<byte> {
    EncodeVarint(|s|) + s
  }

  function Prefixed(e: Option<seq<byte>>): Option<seq<byte>> {
    if e.Some? then Some(EncString(e.value)) else None
  }

  /** The encoder of one value, by PB_LTYPE. */
  function EncValue(f: Field, v: Value): Option<seq<byte>>
    requires TypedValue(f, v)
    decreases f, 0
  {
    match f.ltype
    case Varint => if IntegerSize(f.dataSize) then Some(EncodeVarint(ToUnsigned64(v.n))) else None
    case UVarint => if IntegerSize(f.dataSize) then Some(EncodeVarint(v.n)) else None
    case SVarint => if IntegerSize(f.dataSize) then Some(EncodeVarint(ZigZag(v.n))) else None
    case Fixed32 => Some(LittleEndian(v.n, 4))
    case Fixed64 => Some(LittleEndian(v.n, 8))
    case VarBytes => if |v.s| + BYTES_HEADER > f.dataSize then None else Some(EncString(v.s))
    case CString => Some(EncString(Chars(v.s, f.dataSize)))
    case FixedBytes => Some(EncString(v.s))
    case Submessage(fields) => Prefixed(Enc(fields, v.m))
  }

  /** The entries of an array, each behind its own tag unless packed. */
  function EncItems(f: Field, items: seq<Value>, packed: bool): Option<seq<byte>>
    requires TypedItems(f, items)
    decreases f, 1, |items|
  {
    if items == [] then Some([])
    else
      var e := EncValue(f, items[0]);
      var one := if packed then e else Join(Some(EncTag(WireType(f), f.tag)), e);
      Join(one, EncItems(f, items[1..], packed))
  }

  /** encode_array: always packed when the type allows it. */
  function EncArray(f: Field, items: seq<Value>): Option<seq<byte>>
    requires TypedItems(f, items)
    decreases f, 2
  {
    if items == [] then Some([])
    else if |items| > f.arraySize then None
    else if Packable(f) then Join(Some(EncTag(WT_STRING, f.tag)), Prefixed(EncItems(f, items, true)))
    else EncItems(f, items, false)
  }

  /** The zero test of pb_check_proto3_default_value on the member itself. */
  predicate IsZeroValue(f: Field, v: Value)
    requires TypedValue(f, v)
    decreases f, 0
  {
    match f.ltype
    case VarBytes => v.s == []
    case CString => v.s != [] ==> v.s[0] == 0
    case FixedBytes => f.dataSize == 0
    case Submessage(fields) => AllZero(fields, v.m)
    case _ => v.n == 0
  }

  /** pb_check_proto3_default_value. */
  predicate IsZero(f: Field, x: Slot)
    requires TypedSlot(f, x)
    decreases f, 1
  {
    match f.htype
    case Required => false
    case Repeated => x.items == []
    case Oneof => x.which == 0
    case Optional => if HasFlag(f) then !x.has else IsZeroValue(f, x.v)
  }

  predicate AllZero(fields: seq<Field>, m: Message)
    requires Typed(fields, m)
    decreases fields, 2
  {
    forall i :: 0 <= i < |fields| ==> IsZero(fields[i], Load(fields, m, i))
  }

  function EncTagged(f: Field, v: Value): Option<seq<byte>>
    requires TypedValue(f, v)
    decreases f, 1
  {
    Join(Some(EncTag(WireType(f), f.tag)), EncValue(f, v))
  }

  /** encode_basic_field. */
  function EncField(f: Field, x: Slot): Option<seq<byte>>
    requires TypedSlot(f, x)
    decreases f, 3
  {
    match f.htype
    case Required => EncTagged(f, x.v)
    case Optional =>
      if (if HasFlag(f) then x.has else !IsZero(f, x)) then EncTagged(f, x.v) else Some([])
    case Repeated => EncArray(f, x.items)
    case Oneof => if x.which == f.tag then EncTagged(f, x.body) else Some([])
  }

  /** The loop of pb_encode from field i on. */
  function EncFields(fields: seq<Field>, m: Message, i: nat): Option<seq<byte>>
    requires Typed(fields, m) && i <= |fields|
    decreases fields, 4, |fields| - i
  {
    if i == |fields| then Some([])
    else Join(EncField(fields[i], Load(fields, m, i)), EncFields(fields, m, i + 1))
  }

  /** pb_encode. */
  function Enc(fields: seq<Field>, m: Message): Option<seq<byte>>
    requires Typed(fields, m)
    decreases fields, 5
  {
    EncFields(fields, m, 0)
  }
}
