/** Field descriptors and message structs of nanopb, as pb.h lays them out.
    A struct is a list of slots, one for each member a descriptor's data_offset resolves to;
    the fields of a union share one. What a struct holds in a member it marks as absent
    (array entries past the count, the body of a union nothing is selected in) is not kept. */
module PbMessage {
  import opened Bytes

  /** PB_SIZE_MAX of a build with PB_FIELD_32BIT: also the data_offset of a union's further fields. */
  const PB_SIZE_MAX := 0xffff_ffff

  /** offsetof(pb_bytes_array_t, bytes): the length in front of a bytes field. */
  const BYTES_HEADER := 4

  const PB_MAX_REQUIRED_FIELDS := 64

  /** PB_LTYPE of static fields; the descriptor of a submessage comes with it. */
  datatype LType =
    | Varint | UVarint | SVarint | Fixed32 | Fixed64
    | VarBytes | CString | Submessage(fields: seq<Field>) | FixedBytes

  /** PB_HTYPE. An optional field without a size_offset has no has_ flag: proto3 style. */
  datatype HType = Required | Optional | Repeated | Oneof

  datatype Field = Field(
    tag: nat, ltype: LType, htype: HType, dataOffset: nat, sizeOffset: int,
    dataSize: nat, arraySize: nat, initial: Option<Value>)

  datatype Value = Num(n: int) | Octets(s: seq<byte>) | Sub(m: Message)

  datatype Slot =
    | One(v: Value)
    | Opt(has: bool, v: Value)
    | Many(items: seq<Value>)
    | Union(which: nat, body: Value)

  datatype Message = Message(slots: seq<Slot>)

  predicate HasFlag(f: Field) {
    f.htype == Optional && f.sizeOffset != 0
  }

  predicate Packable(f: Field) {
    f.ltype.Varint? || f.ltype.UVarint? || f.ltype.SVarint? || f.ltype.Fixed32? || f.ltype.Fixed64?
  }

  /** Field i + 1 lives in the same union as field i. */
  predicate JoinsUnion(fields: seq<Field>, i: nat)
    requires i + 1 < |fields|
  {
    fields[i].htype == Oneof && fields[i + 1].htype == Oneof && fields[i + 1].dataOffset == PB_SIZE_MAX
  }

  /** The struct member field i is stored in. */
  function SlotOf(fields: seq<Field>, i: nat): (k: nat)
    requires i < |fields|
    ensures k <= i
    decreases i
  {
    if i == 0 then 0
    else if JoinsUnion(fields, i - 1) then SlotOf(fields, i - 1)
    else SlotOf(fields, i - 1) + 1
  }

  function SlotCount(fields: seq<Field>): nat {
    if fields == [] then 0 else SlotOf(fields, |fields| - 1) + 1
  }

  lemma {:induction false} SlotOrder(fields: seq<Field>, i: nat, j: nat)
    requires i < j < |fields|
    ensures SlotOf(fields, i) <= SlotOf(fields, j) < SlotCount(fields)
    ensures SlotOf(fields, i) == SlotOf(fields, j) ==> fields[i].htype == Oneof && fields[j].htype == Oneof
    decreases |fields| - i, j - i
  {
    if j + 1 < |fields| { SlotOrder(fields, j, |fields| - 1); }
    if i + 1 < j {
      SlotOrder(fields, i, j - 1);
    }
  }

  /** The range of a C integer of d octets. */
  predicate SignedRange(n: int, d: nat) {
    if d == 1 then -0x80 <= n < 0x80
    else if d == 2 then -0x8000 <= n < 0x8000
    else if d == 4 then -0x8000_0000 <= n < 0x8000_0000
    else -0x8000_0000_0000_0000 <= n < 0x8000_0000_0000_0000
  }

  predicate UnsignedRange(n: int, d: nat) {
    if d == 1 then 0 <= n < 0x100
    else if d == 2 then 0 <= n < 0x1_0000
    else if d == 4 then 0 <= n < 0x1_0000_0000
    else 0 <= n < 0x1_0000_0000_0000_0000
  }

  predicate IntegerSize(d: nat) {
    d == 1 || d == 2 || d == 4 || d == 8
  }

  /** v is what a struct member of field f's type can hold. */
  predicate TypedValue(f: Field, v: Value)
    decreases f, 0
  {
    match f.ltype
    case Varint => v.Num? && SignedRange(v.n, f.dataSize)
    case SVarint => v.Num? && SignedRange(v.n, f.dataSize)
    case UVarint => v.Num? && UnsignedRange(v.n, f.dataSize)
    case Fixed32 => v.Num? && UnsignedRange(v.n, 4)
    case Fixed64 => v.Num? && UnsignedRange(v.n, 8)
    case VarBytes => v.Octets? && |v.s| <= PB_SIZE_MAX
    case CString => v.Octets? && |v.s| <= f.dataSize && (|v.s| == f.dataSize || 0 in v.s)
    case FixedBytes => v.Octets? && |v.s| == f.dataSize
    case Submessage(fields) => v.Sub? && Typed(fields, v.m)
  }

  predicate TypedItems(f: Field, items: seq<Value>)
    decreases f, 1
  {
    forall k :: 0 <= k < |items| ==> TypedValue(f, items[k])
  }

  lemma AppendTyped(f: Field, items: seq<Value>, v: Value)
    requires TypedItems(f, items) && TypedValue(f, v)
    ensures TypedItems(f, items + [v])
  {
    hide TypedValue;
  }

  lemma SplitTyped(f: Field, items: seq<Value>)
    requires TypedItems(f, items) && items != []
    ensures TypedValue(f, items[0]) && TypedItems(f, items[1..])
  {
    hide TypedValue;
  }

  predicate TypedSlot(f: Field, x: Slot)
    decreases f, 2
  {
    match f.htype
    case Required => x.One? && TypedValue(f, x.v)
    case Optional => if HasFlag(f) then x.Opt? && TypedValue(f, x.v) else x.One? && TypedValue(f, x.v)
    case Repeated => x.Many? && TypedItems(f, x.items)
    case Oneof => x.Union? && (x.which == f.tag ==> TypedValue(f, x.body))
  }

  predicate Typed(fields: seq<Field>, m: Message)
    decreases fields, 3
  {
    && |m.slots| == SlotCount(fields)
    && forall i :: 0 <= i < |fields| ==> SlotOf(fields, i) < |m.slots| && TypedSlot(fields[i], m.slots[SlotOf(fields, i)])
  }

  /** The struct member of field i. */
  function Load(fields: seq<Field>, m: Message, i: nat): (x: Slot)
    requires Typed(fields, m) && i < |fields|
    ensures TypedSlot(fields[i], x)
  {
    m.slots[SlotOf(fields, i)]
  }

  // ------------------------------------------------------------------ defaults

  function Zeros(n: nat): (s: seq<byte>)
    ensures |s| == n
  {
    seq(n, i => 0 as byte)
  }

  /** The all-zero bytes of a member. */
  function ZeroValue(f: Field): Value {
    match f.ltype
    case VarBytes => Octets([])
    case CString => Octets(if f.dataSize == 0 then [] else [0])
    case FixedBytes => Octets(Zeros(f.dataSize))
    case _ => Num(0)
  }

  /** What pb_field_set_to_default puts in a member. */
  function InitialValue(f: Field): Value
    decreases f, 0
  {
    match f.ltype
    case Submessage(fields) => Sub(Default(fields))
    case _ => if f.initial.Some? then f.initial.value else ZeroValue(f)
  }

  function DefaultSlot(f: Field): Slot
    decreases f, 1
  {
    match f.htype
    case Required => One(InitialValue(f))
    case Optional => if HasFlag(f) then Opt(false, InitialValue(f)) else One(InitialValue(f))
    case Repeated => Many([])
    case Oneof => Union(0, Num(0))
  }

  function DefaultSlots(fields: seq<Field>, n: nat): (slots: seq<Slot>)
    requires n <= |fields|
    ensures |slots| == if n == 0 then 0 else SlotOf(fields, n - 1) + 1
    decreases fields, 2, n
  {
    if n == 0 then []
    else if n >= 2 && JoinsUnion(fields, n - 2) then DefaultSlots(fields, n - 1)
    else DefaultSlots(fields, n - 1) + [DefaultSlot(fields[n - 1])]
  }

  /** pb_message_set_to_defaults. */
  function Default(fields: seq<Field>): (m: Message)
    ensures |m.slots| == SlotCount(fields)
    decreases fields, 3
  {
    Message(DefaultSlots(fields, |fields|))
  }

  lemma {:induction false} DefaultSlotsAt(fields: seq<Field>, n: nat, i: nat)
    requires i < n <= |fields|
    ensures SlotOf(fields, i) < |DefaultSlots(fields, n)|
    ensures DefaultSlots(fields, n)[SlotOf(fields, i)] == DefaultSlot(fields[i])
    decreases n
  {
    if i + 1 < n {
      DefaultSlotsAt(fields, n - 1, i);
    } else if n >= 2 && JoinsUnion(fields, n - 2) {
      DefaultSlotsAt(fields, n - 1, i - 1);
    }
  }

  // --------------------------------------------------------------- descriptors

  /** Tags are unique and fit a uint32 key: section "Message Structure" of the Protocol Buffers encoding. */
  predicate TagsUnique(fields: seq<Field>) {
    && (forall i :: 0 <= i < |fields| ==> 1 <= fields[i].tag < 0x2000_0000)
    && (forall i, j :: 0 <= i < j < |fields| ==> fields[i].tag != fields[j].tag)
  }

  /** A descriptor for static fields: counts and which_ members exist, defaults have the type. */
  predicate WellFormedField(f: Field)
    decreases f, 0
  {
    && (f.htype == Repeated || f.htype == Oneof ==> f.sizeOffset != 0)
    && (f.initial.Some? && !f.ltype.Submessage? ==> TypedValue(f, f.initial.value))
    && (f.ltype.Submessage? ==> WellFormed(f.ltype.fields))
  }

  predicate WellFormed(fields: seq<Field>)
    decreases fields, 1
  {
    TagsUnique(fields) && forall i :: 0 <= i < |fields| ==> WellFormedField(fields[i])
  }

  lemma {:induction false} InitialTyped(f: Field)
    requires WellFormedField(f)
    ensures TypedValue(f, InitialValue(f))
    decreases f, 0
  {
    if f.ltype.Submessage? { DefaultTyped(f.ltype.fields); }
  }

  lemma {:induction false} DefaultTyped(fields: seq<Field>)
    requires WellFormed(fields)
    ensures Typed(fields, Default(fields))
    decreases fields, 1
  {
    forall i | 0 <= i < |fields|
      ensures SlotOf(fields, i) < |Default(fields).slots|
      ensures TypedSlot(fields[i], Default(fields).slots[SlotOf(fields, i)])
    {
      DefaultSlotsAt(fields, |fields|, i);
      InitialTyped(fields[i]);
    }
  }

  /** The number of required fields before field i: required_field_index. */
  function RequiredBefore(fields: seq<Field>, i: nat): (n: nat)
    requires i <= |fields|
    ensures n <= i
    decreases i
  {
    if i == 0 then 0 else RequiredBefore(fields, i - 1) + (if fields[i - 1].htype == Required then 1 else 0)
  }

  /** The first field with this tag. */
  function FindField(fields: seq<Field>, tag: nat): (r: Option<nat>)
    ensures r.Some? ==> r.value < |fields| && fields[r.value].tag == tag
    ensures r.None? ==> forall i :: 0 <= i < |fields| ==> fields[i].tag != tag
  {
    if fields == [] then None
    else if fields[0].tag == tag then Some(0)
    else
      var r := FindField(fields[1..], tag);
      assert forall i :: 1 <= i < |fields| ==> fields[i] == fields[1..][i - 1];
      if r.Some? then Some(r.value + 1) else None
  }

  // ------------------------------------------------------------------ equality

  /** The characters of a string member: up to the terminator or the end of the buffer. */
  function Chars(s: seq<byte>, max: nat): (c: seq<byte>)
    ensures |c| <= max && c <= s && 0 !in c
    ensures |c| == max || |c| == |s| || s[|c|] == 0
  {
    if max == 0 || s == [] || s[0] == 0 then [] else [s[0]] + Chars(s[1..], max - 1)
  }

  /** Two members read the same. */
  predicate SameValue(f: Field, a: Value, b: Value)
    requires TypedValue(f, a) && TypedValue(f, b)
    decreases f, 0
  {
    match f.ltype
    case CString => Chars(a.s, f.dataSize) == Chars(b.s, f.dataSize)
    case Submessage(fields) => Same(fields, a.m, b.m)
    case _ => a == b
  }

  predicate SameItems(f: Field, a: seq<Value>, b: seq<Value>)
    requires TypedItems(f, a) && TypedItems(f, b)
    decreases f, 1
  {
    |a| == |b| && forall k :: 0 <= k < |a| ==> SameValue(f, a[k], b[k])
  }

  /** The same values are present for field f, whatever the absent ones hold. */
  predicate SameSlot(f: Field, a: Slot, b: Slot)
    requires TypedSlot(f, a) && TypedSlot(f, b)
    decreases f, 2
  {
    match f.htype
    case Required => SameValue(f, a.v, b.v)
    case Optional =>
      if HasFlag(f) then a.has == b.has && (a.has ==> SameValue(f, a.v, b.v)) else SameValue(f, a.v, b.v)
    case Repeated => SameItems(f, a.items, b.items)
    case Oneof =>
      (a.which == f.tag <==> b.which == f.tag) && (a.which == f.tag ==> SameValue(f, a.body, b.body))
  }

  predicate Same(fields: seq<Field>, a: Message, b: Message)
    requires Typed(fields, a) && Typed(fields, b)
    decreases fields, 3
  {
    forall i :: 0 <= i < |fields| ==>
      SameSlot(fields[i], Load(fields, a, i), Load(fields, b, i))
  }
}
