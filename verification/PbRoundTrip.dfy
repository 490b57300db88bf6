/** pb_decode undoes pb_encode. */
module PbRoundTrip {
  import opened Bytes
  import opened PbMessage
  import opened Varints
  import opened PbEncoding
  import opened PbDecoding

  /** Lengths and keys are read back through pb_decode_varint32. */
  const LENGTH_LIMIT := 0x1_0000_0000

  /** Fields without a has_ flag have no default but zero. */
  predicate ZeroDefaultField(f: Field)
    requires WellFormedField(f)
    decreases f, 0
  {
    if f.ltype.Submessage? then ZeroDefaults(f.ltype.fields)
    else f.htype == Optional && !HasFlag(f) && f.initial.Some? ==> IsZeroValue(f, f.initial.value)
  }

  predicate ZeroDefaults(fields: seq<Field>)
    requires WellFormed(fields)
    decreases fields, 1
  {
    forall i :: 0 <= i < |fields| ==> ZeroDefaultField(fields[i])
  }

  /** The value goes on the wire. */
  predicate Present(f: Field, x: Slot)
    requires TypedSlot(f, x)
  {
    match f.htype
    case Required => true
    case Optional => if HasFlag(f) then x.has else !IsZeroValue(f, x.v)
    case Repeated => x.items != []
    case Oneof => x.which == f.tag
  }

  /** Every string in the value has its terminator inside the member. */
  predicate TerminatedValue(f: Field, v: Value)
    requires TypedValue(f, v)
    decreases f, 0
  {
    match f.ltype
    case CString => |Chars(v.s, f.dataSize)| < f.dataSize
    case Submessage(fields) => Terminated(fields, v.m, 0)
    case _ => true
  }

  predicate TerminatedItems(f: Field, items: seq<Value>)
    requires TypedItems(f, items)
    decreases f, 1
  {
    forall k :: 0 <= k < |items| ==> TerminatedValue(f, items[k])
  }

  predicate TerminatedSlot(f: Field, x: Slot)
    requires TypedSlot(f, x)
    decreases f, 2
  {
    match f.htype
    case Required => TerminatedValue(f, x.v)
    case Optional => Present(f, x) ==> TerminatedValue(f, x.v)
    case Repeated => TerminatedItems(f, x.items)
    case Oneof => Present(f, x) ==> TerminatedValue(f, x.body)
  }

  /** The strings sent for fields i and up all have their terminators. */
  predicate Terminated(fields: seq<Field>, m: Message, i: nat)
    requires Typed(fields, m)
    decreases fields, 3
  {
    forall j :: i <= j < |fields| ==> TerminatedSlot(fields[j], Load(fields, m, j))
  }

  // ------------------------------------------------------------- scalar values

  lemma PrefixedRoundTrip(b: seq<byte>, rest: seq<byte>)
    requires |b| < LENGTH_LIMIT
    ensures TakePrefixed(EncString(b) + rest) == Some((b, rest))
    ensures Decode32(EncString(b) + rest) == Ok32(|b|, b + rest)
  {
    hide Decode32, EncodeVarint;
    assert EncString(b) + rest == EncodeVarint(|b|) + (b + rest);
    Varint32RoundTrip(|b|, b + rest);
  }

  /** Signed, unsigned and zigzag integers of one, two, four and eight bytes come back unchanged. */
  lemma IntegerRoundTrip(n: int, d: nat, rest: seq<byte>)
    requires IntegerSize(d)
    ensures SignedRange(n, d) ==> DecVarint(d, EncodeVarint(ToUnsigned64(n)) + rest) == Some((Num(n), rest))
    ensures UnsignedRange(n, d) ==> DecUVarint(d, EncodeVarint(n) + rest) == Some((Num(n), rest))
    ensures SignedRange(n, d) ==> DecSVarint(d, EncodeVarint(ZigZag(n)) + rest) == Some((Num(n), rest))
  {
    hide DecodeVarint, EncodeVarint;
    if SignedRange(n, d) {
      VarintRoundTrip(ToUnsigned64(n), rest);
      assert d != 8 ==> ToSigned32(ToUnsigned64(n)) == n;
      ZigZagRoundTrip(n);
      VarintRoundTrip(ZigZag(n), rest);
    }
    if UnsignedRange(n, d) { VarintRoundTrip(n, rest); }
  }

  lemma FixedRoundTrip(n: nat, k: nat, rest: seq<byte>)
    requires (k == 4 || k == 8) && UnsignedRange(n, k)
    ensures DecFixed(k, LittleEndian(n, k) + rest) == Some((Num(n), rest))
  {
    Pow256Values();
    LittleEndianRoundTrip(n, k);
    var s := LittleEndian(n, k) + rest;
    assert s[..k] == LittleEndian(n, k) && s[k..] == rest;
  }

  /** A string that fills its member goes out, and is refused on the way back. */
  lemma StringRoundTrip(c: seq<byte>, d: nat, rest: seq<byte>)
    requires |c| <= d && |c| < LENGTH_LIMIT - 1
    ensures DecString(d, EncString(c) + rest) == if |c| < d then Some((Octets(c + [0]), rest)) else None
  {
    hide Decode32, EncString, Take;
    PrefixedRoundTrip(c, rest);
    TakesFirst(c, rest);
    assert (|c| + 1) % 0x1_0000_0000 == |c| + 1;
  }

  lemma TakesFirst(c: seq<byte>, rest: seq<byte>)
    ensures Take(c + rest, |c|) == Some((c, rest))
  {
  }

  lemma {:induction false} CharsOfTerminated(c: seq<byte>, d: nat)
    requires |c| < d && 0 !in c
    ensures Chars(c + [0], d) == c
    decreases |c|
  {
    if c != [] {
      assert (c + [0])[1..] == c[1..] + [0];
      CharsOfTerminated(c[1..], d - 1);
    }
  }

  lemma OctetsRoundTrip(s: seq<byte>, d: nat, rest: seq<byte>)
    requires |s| < LENGTH_LIMIT
    ensures |s| + BYTES_HEADER <= d ==> DecBytes(d, EncString(s) + rest) == Some((Octets(s), rest))
    ensures |s| == d ==> DecFixedBytes(d, EncString(s) + rest) == Some((Octets(s), rest))
  {
    PrefixedRoundTrip(s, rest);
    hide Decode32, EncString;
    assert (s + rest)[..|s|] == s && (s + rest)[|s|..] == rest;
  }

  // ------------------------------------------------------------- zero defaults

  /** What proto3 fields leave out is what the receiver starts from. */
  lemma {:induction false} ZeroIsInitial(f: Field, v: Value)
    requires WellFormedField(f) && ZeroDefaultField(f) && TypedValue(f, v) && IsZeroValue(f, v)
    requires f.htype == Optional && !HasFlag(f)
    ensures TypedValue(f, InitialValue(f)) && SameValue(f, v, InitialValue(f))
    decreases f, 0
  {
    InitialTyped(f);
    if f.ltype.Submessage? { AllZeroIsDefault(f.ltype.fields, v.m); }
  }

  lemma {:induction false} AllZeroIsDefault(fields: seq<Field>, m: Message)
    requires WellFormed(fields) && ZeroDefaults(fields) && Typed(fields, m) && AllZero(fields, m)
    ensures Typed(fields, Default(fields)) && Same(fields, m, Default(fields))
    decreases fields, 1
  {
    DefaultTyped(fields);
    forall i | 0 <= i < |fields|
      ensures SameSlot(fields[i], Load(fields, m, i), Load(fields, Default(fields), i))
    {
      DefaultSlotsAt(fields, |fields|, i);
      AbsentIsDefault(fields[i], Load(fields, m, i));
    }
  }

  lemma {:induction false} AbsentIsDefault(f: Field, x: Slot)
    requires WellFormedField(f) && ZeroDefaultField(f) && f.tag >= 1 && TypedSlot(f, x) && IsZero(f, x)
    ensures TypedSlot(f, DefaultSlot(f)) && SameSlot(f, x, DefaultSlot(f))
    decreases f, 1
  {
    InitialTyped(f);
    if f.htype == Optional && !HasFlag(f) { ZeroIsInitial(f, x.v); }
  }

  // ----------------------------------------------------------------- one value

  /** r is what reading v back should give. */
  predicate ReadsBack(f: Field, v: Value, r: Parsed<Value>, rest: seq<byte>)
    requires TypedValue(f, v)
  {
    if TerminatedValue(f, v) then
      r.Some? && r.value.1 == rest && TypedValue(f, r.value.0) && SameValue(f, v, r.value.0)
    else r == None
  }

  lemma {:induction false} ValueRoundTrip(f: Field, v: Value, current: Value, rest: seq<byte>)
    requires WellFormedField(f) && ZeroDefaultField(f) && TypedValue(f, v)
    requires f.ltype.Submessage? ==> current == InitialValue(f) && TypedValue(f, current)
    requires EncValue(f, v).Some? && |EncValue(f, v).value| < LENGTH_LIMIT
    ensures ReadsBack(f, v, DecValue(f, current, EncValue(f, v).value + rest), rest)
    decreases f, 0
  {
    if f.ltype.Submessage? {
      InitialTyped(f);
      SubmessageEncoded(f, v);
      var fields := f.ltype.fields;
      hide EncValue, DecValue, Enc, Dec, WellFormed, WellFormedField, ZeroDefaults, Typed, Terminated, Same;
      SubmessageDecoded(f, Enc(fields, v.m).value, rest);
      MessageRoundTrip(fields, v.m);
    } else if f.ltype.CString? {
      CStringRoundTrip(f, v, current, rest);
    } else {
      ScalarRoundTrip(f, v, current, rest);
      hide EncValue, DecValue;
    }
  }

  lemma SubmessageEncoded(f: Field, v: Value)
    requires f.ltype.Submessage? && WellFormedField(f) && TypedValue(f, v) && EncValue(f, v).Some?
    ensures InitialValue(f) == Sub(Default(f.ltype.fields))
    ensures Enc(f.ltype.fields, v.m).Some? && EncValue(f, v).value == EncString(Enc(f.ltype.fields, v.m).value)
    ensures |Enc(f.ltype.fields, v.m).value| < |EncValue(f, v).value|
  {
  }

  lemma SubmessageDecoded(f: Field, b: seq<byte>, rest: seq<byte>)
    requires f.ltype.Submessage? && WellFormedField(f) && TypedValue(f, InitialValue(f)) && |b| < LENGTH_LIMIT
    ensures var r := Dec(f.ltype.fields, b);
            DecValue(f, InitialValue(f), EncString(b) + rest)
            == if r.Some? then Some((Sub(r.value.0), rest)) else None
  {
    PrefixedRoundTrip(b, rest);
    hide EncString, TakePrefixed, DecLoop, WellFormed, Typed;
  }

  lemma CStringRoundTrip(f: Field, v: Value, current: Value, rest: seq<byte>)
    requires WellFormedField(f) && TypedValue(f, v) && f.ltype.CString?
    requires EncValue(f, v).Some? && |EncValue(f, v).value| < LENGTH_LIMIT
    ensures ReadsBack(f, v, DecValue(f, current, EncValue(f, v).value + rest), rest)
  {
    var c := Chars(v.s, f.dataSize);
    assert |EncString(c)| > |c|;
    hide DecString, Chars, EncString;
    assert EncValue(f, v).value == EncString(c);
    assert DecValue(f, current, EncString(c) + rest) == DecString(f.dataSize, EncString(c) + rest);
    StringRoundTrip(c, f.dataSize, rest);
    if |c| < f.dataSize {
      CharsOfTerminated(c, f.dataSize);
      assert SameValue(f, v, Octets(c + [0]));
    }
  }

  lemma ScalarRoundTrip(f: Field, v: Value, current: Value, rest: seq<byte>)
    requires WellFormedField(f) && TypedValue(f, v) && !f.ltype.CString? && !f.ltype.Submessage?
    requires EncValue(f, v).Some? && |EncValue(f, v).value| < LENGTH_LIMIT
    ensures DecValue(f, current, EncValue(f, v).value + rest) == Some((v, rest))
  {
    hide DecVarint, DecUVarint, DecSVarint, DecFixed, DecBytes, DecFixedBytes;
    match f.ltype
    case Varint => IntegerRoundTrip(v.n, f.dataSize, rest);
    case UVarint => IntegerRoundTrip(v.n, f.dataSize, rest);
    case SVarint => IntegerRoundTrip(v.n, f.dataSize, rest);
    case Fixed32 => FixedRoundTrip(v.n, 4, rest);
    case Fixed64 => FixedRoundTrip(v.n, 8, rest);
    case VarBytes => OctetsRoundTrip(v.s, f.dataSize, rest);
    case FixedBytes => OctetsRoundTrip(v.s, f.dataSize, rest);
  }

  /** A packed array comes back entry for entry. */
  lemma {:induction false} PackedRoundTrip(f: Field, got: seq<Value>, items: seq<Value>)
    requires WellFormedField(f) && Packable(f)
    requires TypedItems(f, got) && TypedItems(f, items)
    requires |got| + |items| <= f.arraySize
    requires EncItems(f, items, true).Some? && |EncItems(f, items, true).value| < LENGTH_LIMIT
    ensures DecPacked(f, got, EncItems(f, items, true).value) == Some(got + items)
    decreases |items|
  {
    hide EncValue, DecValue, WellFormedField, TypedValue, TypedItems;
    if items == [] {
      assert got + items == got;
    } else {
      SplitTyped(f, items);
      AppendTyped(f, got, items[0]);
      var e, more := EncValue(f, items[0]).value, EncItems(f, items[1..], true).value;
      assert EncItems(f, items, true).value == e + more;
      ScalarRoundTrip(f, items[0], Num(0), more);
      PackedRoundTrip(f, got + [items[0]], items[1..]);
      assert got + [items[0]] + items[1..] == got + items;
    }
  }

  // -------------------------------------------------------------- key by key

  /** A key the encoder writes takes the decoder to the field it was written for. */
  lemma KeyStep(fields: seq<Field>, d: Message, seen: set<nat>, i: nat, wireType: nat, body: seq<byte>)
    requires WellFormed(fields) && Typed(fields, d) && i < |fields| && wireType < 8
    ensures var f := fields[i];
            var r := DecField(f, wireType, Load(fields, d, i), body);
            && (r.Some? ==> Typed(fields, Store(fields, d, i, r.value.0)))
            && DecLoop(fields, d, seen, EncTag(wireType, f.tag) + body)
            == if r.None? then None else DecLoop(fields, Store(fields, d, i, r.value.0), seen + {i}, r.value.1)
  {
    hide *;
    var f := fields[i];
    TagsOf(fields, i);
    ReadKey(f.tag, wireType, body);
    FoundByTag(fields, i);
    KeyedLoop(fields, d, seen, EncTag(wireType, f.tag) + body, 8 * f.tag + wireType, i, body);
  }

  lemma TagsOf(fields: seq<Field>, i: nat)
    requires WellFormed(fields) && i < |fields|
    ensures TagsUnique(fields) && 1 <= fields[i].tag < 0x2000_0000
  {
  }

  lemma ReadKey(tag: nat, wireType: nat, body: seq<byte>)
    requires 1 <= tag < 0x2000_0000 && wireType < 8
    ensures var key := 8 * tag + wireType;
            && key > 0 && key / 8 == tag && key % 8 == wireType
            && EncTag(wireType, tag) + body != [] && Decode32(EncTag(wireType, tag) + body) == Ok32(key, body)
  {
    var key := 8 * tag + wireType;
    assert EncTag(wireType, tag) == EncodeVarint(key);
    hide Decode32, EncTag, EncodeVarint;
    Varint32RoundTrip(key, body);
  }

  lemma KeyedLoop(fields: seq<Field>, d: Message, seen: set<nat>, s: seq<byte>, key: nat, i: nat, body: seq<byte>)
    requires WellFormed(fields) && Typed(fields, d) && i < |fields| && s != [] && key != 0
    requires Decode32(s) == Ok32(key, body) && FindField(fields, key / 8) == Some(i)
    ensures var r := DecField(fields[i], key % 8, Load(fields, d, i), body);
            && (r.Some? ==> SlotOf(fields, i) < |d.slots| && Typed(fields, Store(fields, d, i, r.value.0)))
            && DecLoop(fields, d, seen, s)
            == if r.None? then None else DecLoop(fields, Store(fields, d, i, r.value.0), seen + {i}, r.value.1)
  {
    var r := DecField(fields[i], key % 8, Load(fields, d, i), body);
    hide DecField, Decode32, SlotOf, FindField, WellFormedField, TypedSlot, Finish;
    if r.Some? { StoreTyped(fields, d, i, r.value.0); }
  }

  /** One value behind its key. */
  lemma ValueStep(fields: seq<Field>, d: Message, seen: set<nat>, i: nat, v: Value, tail: seq<byte>)
    returns (got: Value)
    requires WellFormed(fields) && ZeroDefaults(fields) && Typed(fields, d) && i < |fields|
    requires TypedValue(fields[i], v) && Base(fields[i], Load(fields, d, i)) == InitialValue(fields[i])
    requires fields[i].htype == Repeated ==>
               !Packable(fields[i]) && Load(fields, d, i).Many? && |Load(fields, d, i).items| < fields[i].arraySize
    requires EncTagged(fields[i], v).Some? && |EncTagged(fields[i], v).value| < LENGTH_LIMIT
    ensures TypedValue(fields[i], got)
    ensures var x := Receive(fields[i], Load(fields, d, i), got);
            var s := EncTagged(fields[i], v).value + tail;
            if TerminatedValue(fields[i], v) then
              && SameValue(fields[i], v, got) && Typed(fields, Store(fields, d, i, x))
              && DecLoop(fields, d, seen, s) == DecLoop(fields, Store(fields, d, i, x), seen + {i}, tail)
            else DecLoop(fields, d, seen, s) == None
    decreases fields, 0
  {
    FieldFacts(fields, d, i);
    hide DecValue, EncValue, EncTagged, DecLoop, DecField, WellFormed, WellFormedField, ZeroDefaultField, ZeroDefaults,
         Typed, TypedValue, TypedSlot, SameValue, TerminatedValue, InitialValue, Base, Receive, EncTag, SlotOf, Packable;
    var f, x := fields[i], Load(fields, d, i);
    TaggedShape(f, v, tail);
    var s := EncValue(f, v).value + tail;
    KeyStep(fields, d, seen, i, WireType(f), s);
    OneValueField(f, WireType(f), x, s);
    ValueRoundTrip(f, v, Base(f, x), tail);
    var r := DecValue(f, Base(f, x), s);
    got := if r.Some? then r.value.0 else v;
  }

  lemma FieldFacts(fields: seq<Field>, d: Message, i: nat)
    requires WellFormed(fields) && ZeroDefaults(fields) && Typed(fields, d) && i < |fields|
    ensures WellFormedField(fields[i]) && ZeroDefaultField(fields[i]) && fields[i].tag >= 1
    ensures SlotOf(fields, i) < |d.slots| && TypedSlot(fields[i], Load(fields, d, i))
  {
  }

  lemma TaggedShape(f: Field, v: Value, tail: seq<byte>)
    requires TypedValue(f, v) && EncTagged(f, v).Some?
    ensures EncValue(f, v).Some? && |EncValue(f, v).value| < |EncTagged(f, v).value| && WireType(f) < 8
    ensures EncTagged(f, v).value + tail == EncTag(WireType(f), f.tag) + (EncValue(f, v).value + tail)
  {
    hide EncValue, TypedValue;
  }

  lemma OneValueField(f: Field, wireType: nat, x: Slot, s: seq<byte>)
    requires WellFormedField(f) && TypedSlot(f, x)
    requires f.htype == Repeated ==> !Packable(f) && x.Many? && |x.items| < f.arraySize
    ensures var r := DecValue(f, Base(f, x), s);
            DecField(f, wireType, x, s)
            == if r.Some? then Some((Receive(f, x, r.value.0), r.value.1)) else None
  {
    hide WellFormedField, TypedValue, DecValue, Base, Receive;
  }

  // ------------------------------------------------------------------- arrays

  lemma SplitItems(f: Field, items: seq<Value>)
    requires TypedItems(f, items) && items != []
    ensures TypedValue(f, items[0]) && TypedItems(f, items[1..])
    ensures TerminatedItems(f, items) <==> TerminatedValue(f, items[0]) && TerminatedItems(f, items[1..])
    ensures EncItems(f, items, false).Some? ==>
              && EncTagged(f, items[0]).Some? && EncItems(f, items[1..], false).Some?
              && EncItems(f, items, false).value == EncTagged(f, items[0]).value + EncItems(f, items[1..], false).value
  {
    hide TypedValue, TerminatedValue, EncValue, EncTag;
    assert forall k :: 1 <= k < |items| ==> items[k] == items[1..][k - 1];
    assert TypedItems(f, items[1..]);
    if TerminatedValue(f, items[0]) && TerminatedItems(f, items[1..]) {
      assert forall k :: 0 <= k < |items| ==> TerminatedValue(f, items[k]);
    }
  }

  lemma ConsItems(f: Field, a: seq<Value>, b: Value, c: seq<Value>)
    requires TypedItems(f, a) && a != [] && TypedItems(f, a[1..]) && TypedValue(f, b) && TypedItems(f, c)
    requires SameValue(f, a[0], b) && SameItems(f, a[1..], c)
    ensures TypedItems(f, [b] + c) && SameItems(f, a, [b] + c)
  {
    hide TypedValue, SameValue;
    var d := [b] + c;
    assert forall k :: 1 <= k < |a| ==> a[k] == a[1..][k - 1] && d[k] == c[k - 1];
  }

  /** An unpacked array comes back entry by entry, each behind its own key. */
  lemma {:induction false} ItemsRoundTrip(fields: seq<Field>, d: Message, seen: set<nat>, i: nat,
                                          items: seq<Value>, tail: seq<byte>)
    returns (got: seq<Value>, seen': set<nat>)
    requires WellFormed(fields) && ZeroDefaults(fields) && Typed(fields, d) && i < |fields|
    requires fields[i].htype == Repeated && !Packable(fields[i]) && TypedItems(fields[i], items)
    requires Load(fields, d, i).Many? && |Load(fields, d, i).items| + |items| <= fields[i].arraySize
    requires EncItems(fields[i], items, false).Some? && |EncItems(fields[i], items, false).value| < LENGTH_LIMIT
    ensures TypedItems(fields[i], got) && seen <= seen'
    ensures var f := fields[i];
            var d' := Store(fields, d, i, Many(Load(fields, d, i).items + got));
            var s := EncItems(f, items, false).value + tail;
            if TerminatedItems(f, items) then
              && SameItems(f, items, got) && Typed(fields, d')
              && DecLoop(fields, d, seen, s) == DecLoop(fields, d', seen', tail)
            else DecLoop(fields, d, seen, s) == None
    decreases fields, 1, |items|
  {
    hide *;
    FieldFacts(fields, d, i);
    var f, x := fields[i], Load(fields, d, i);
    if items == [] {
      got, seen' := [], seen;
      StoreSame(fields, d, i);
      NoItems(f, x.items);
      assert [] + tail == tail;
    } else {
      SplitItems(f, items);
      var one, more := EncTagged(f, items[0]).value, EncItems(f, items[1..], false).value;
      assert EncItems(f, items, false).value + tail == one + (more + tail);
      ArrayBase(f, x);
      var v := ValueStep(fields, d, seen, i, items[0], more + tail);
      seen', got := seen, [];
      NoItems(f, x.items);
      if TerminatedValue(f, items[0]) {
        ArrayReceive(f, x, v);
        var x1 := Receive(f, x, v);
        var d1 := Store(fields, d, i, x1);
        StoreLoad(fields, d, i, x1);
        var rest;
        rest, seen' := ItemsRoundTrip(fields, d1, seen + {i}, i, items[1..], tail);
        got := [v] + rest;
        assert x1.items + rest == x.items + got;
        StoreAgain(fields, d, i, x1, Many(x.items + got));
        JoinTyped(f, v, rest);
        if TerminatedItems(f, items) { ConsItems(f, items, v, rest); }
      }
    }
  }

  lemma NoItems(f: Field, items: seq<Value>)
    ensures TypedItems(f, []) && TerminatedItems(f, []) && SameItems(f, [], []) && items + [] == items
    ensures EncItems(f, [], false) == Some([])
  {
  }

  lemma ArrayReceive(f: Field, x: Slot, v: Value)
    requires TypedSlot(f, x) && TypedValue(f, v) && f.htype == Repeated
    ensures x.Many? && Receive(f, x, v) == Many(x.items + [v])
  {
    hide TypedValue;
  }

  lemma JoinTyped(f: Field, v: Value, rest: seq<Value>)
    requires TypedValue(f, v) && TypedItems(f, rest)
    ensures TypedItems(f, [v] + rest)
  {
    hide TypedValue;
  }

  lemma StoreSame(fields: seq<Field>, d: Message, i: nat)
    requires Typed(fields, d) && i < |fields|
    ensures SlotOf(fields, i) < |d.slots| && Store(fields, d, i, Load(fields, d, i)) == d
  {
    hide SlotOf;
  }

  lemma StoreLoad(fields: seq<Field>, d: Message, i: nat, x: Slot)
    requires Typed(fields, d) && i < |fields| && SlotOf(fields, i) < |d.slots|
    requires Typed(fields, Store(fields, d, i, x))
    ensures SlotOf(fields, i) < |Store(fields, d, i, x).slots|
    ensures Load(fields, Store(fields, d, i, x), i) == x
  {
    hide SlotOf;
  }

  lemma StoreAgain(fields: seq<Field>, d: Message, i: nat, x: Slot, y: Slot)
    requires i < |fields| && SlotOf(fields, i) < |d.slots|
    ensures SlotOf(fields, i) < |Store(fields, d, i, x).slots|
    ensures Store(fields, Store(fields, d, i, x), i, y) == Store(fields, d, i, y)
  {
    hide SlotOf;
  }

  lemma ArrayBase(f: Field, x: Slot)
    requires WellFormedField(f) && TypedSlot(f, x) && f.htype == Repeated
    ensures x.Many? && Base(f, x) == InitialValue(f)
  {
  }

  // -------------------------------------------------------------- field by field

  /** How the member y of the struct being filled relates to the member x that was sent. */
  predicate Clause(f: Field, x: Slot, y: Slot, done: bool)
    requires TypedSlot(f, x) && TypedSlot(f, y)
  {
    if done then SameSlot(f, x, y)
    else if f.htype == Oneof then y.which != f.tag
    else y == DefaultSlot(f)
  }

  /** The fields before i have arrived and the others are still at their defaults. */
  predicate Progress(fields: seq<Field>, m: Message, d: Message, i: nat)
    requires Typed(fields, m) && Typed(fields, d)
  {
    forall j :: 0 <= j < |fields| ==> Clause(fields[j], Load(fields, m, j), Load(fields, d, j), j < i)
  }

  lemma UnionClause(f: Field, g: Field, x: Slot, y: Slot, done: bool)
    requires f.htype == Oneof && g.htype == Oneof && f.tag != g.tag
    requires TypedSlot(f, x) && TypedSlot(f, y) && TypedSlot(g, x)
    requires SameSlot(f, x, y) && y.which == f.tag
    ensures TypedSlot(g, y) && Clause(g, x, y, done)
  {
  }

  lemma ClauseAfter(fields: seq<Field>, m: Message, d: Message, i: nat, y: Slot, j: nat)
    requires WellFormed(fields) && Typed(fields, m) && Typed(fields, d) && Progress(fields, m, d, i)
    requires i < |fields| && TypedSlot(fields[i], y) && SameSlot(fields[i], Load(fields, m, i), y)
    requires fields[i].htype == Oneof ==> y.Union? && y.which == fields[i].tag
    requires SlotOf(fields, i) < |d.slots| && Typed(fields, Store(fields, d, i, y)) && j < |fields|
    ensures Clause(fields[j], Load(fields, m, j), Load(fields, Store(fields, d, i, y), j), j < i + 1)
  {
    assert Clause(fields[j], Load(fields, m, j), Load(fields, d, j), j < i);
    StoreLoad(fields, d, i, y);
    if j != i {
      SlotOrder(fields, if j < i then j else i, if j < i then i else j);
      assert fields[j].tag != fields[i].tag;
      if SlotOf(fields, i) == SlotOf(fields, j) {
        UnionClause(fields[i], fields[j], Load(fields, m, i), y, j < i + 1);
      }
    }
    hide SlotOf, TypedSlot, SameSlot, Progress, WellFormedField, DefaultSlot;
  }

  lemma ProgressStep(fields: seq<Field>, m: Message, d: Message, i: nat, y: Slot)
    requires WellFormed(fields) && Typed(fields, m) && Typed(fields, d) && Progress(fields, m, d, i)
    requires i < |fields| && TypedSlot(fields[i], y) && SameSlot(fields[i], Load(fields, m, i), y)
    requires fields[i].htype == Oneof ==> y.Union? && y.which == fields[i].tag
    ensures SlotOf(fields, i) < |d.slots| && Typed(fields, Store(fields, d, i, y))
    ensures Progress(fields, m, Store(fields, d, i, y), i + 1)
  {
    hide WellFormedField, TypedSlot, SameSlot, SlotOf, Clause, Load, Store;
    StoreTyped(fields, d, i, y);
    forall j | 0 <= j < |fields|
      ensures Clause(fields[j], Load(fields, m, j), Load(fields, Store(fields, d, i, y), j), j < i + 1)
    {
      ClauseAfter(fields, m, d, i, y, j);
    }
  }

  /** A value that is not sent reads the same as the default it is left at. */
  lemma AbsentField(f: Field, x: Slot, y: Slot)
    requires WellFormedField(f) && ZeroDefaultField(f) && TypedSlot(f, x) && TypedSlot(f, y)
    requires Clause(f, x, y, false) && !Present(f, x)
    ensures SameSlot(f, x, y) && TerminatedSlot(f, x) && EncField(f, x) == Some([])
  {
    if f.htype == Optional && !HasFlag(f) { ZeroIsInitial(f, x.v); }
  }

  lemma ProgressSkip(fields: seq<Field>, m: Message, d: Message, i: nat)
    requires Typed(fields, m) && Typed(fields, d) && Progress(fields, m, d, i)
    requires i < |fields| && SameSlot(fields[i], Load(fields, m, i), Load(fields, d, i))
    ensures Progress(fields, m, d, i + 1)
  {
    hide TypedSlot, SameSlot, SlotOf, Load, Typed;
    assert forall j :: 0 <= j < |fields| ==> Clause(fields[j], Load(fields, m, j), Load(fields, d, j), j < i);
  }

  /** The one value sent for a field that is not repeated. */
  function Sent(f: Field, x: Slot): (v: Value)
    requires TypedSlot(f, x) && f.htype != Repeated && Present(f, x)
    ensures TypedValue(f, v)
  {
    if f.htype == Oneof then x.body else x.v
  }

  lemma SingleField(f: Field, x: Slot, y: Slot)
    requires WellFormedField(f) && TypedSlot(f, x) && TypedSlot(f, y) && Clause(f, x, y, false)
    requires f.htype != Repeated && Present(f, x)
    ensures EncField(f, x) == EncTagged(f, Sent(f, x)) && Base(f, y) == InitialValue(f)
    ensures TerminatedSlot(f, x) <==> TerminatedValue(f, Sent(f, x))
  {
    InitialTyped(f);
    hide TypedValue, InitialValue, EncTagged, TerminatedValue, WellFormedField, IsZeroValue;
  }

  lemma SingleReceived(f: Field, x: Slot, y: Slot, got: Value)
    requires TypedSlot(f, x) && TypedSlot(f, y) && f.htype != Repeated && Present(f, x)
    requires TypedValue(f, got) && SameValue(f, Sent(f, x), got)
    ensures SameSlot(f, x, Receive(f, y, got))
    ensures f.htype == Oneof ==> Receive(f, y, got).Union? && Receive(f, y, got).which == f.tag
  {
    hide TypedValue, SameValue, IsZeroValue;
  }

  /** The decoder on what was sent for a present field that is not repeated. */
  lemma SingleStep(fields: seq<Field>, m: Message, d: Message, seen: set<nat>, i: nat, tail: seq<byte>)
    returns (d': Message)
    requires WellFormed(fields) && ZeroDefaults(fields) && Typed(fields, m) && Typed(fields, d)
    requires i < |fields| && Progress(fields, m, d, i)
    requires fields[i].htype != Repeated && Present(fields[i], Load(fields, m, i))
    requires EncField(fields[i], Load(fields, m, i)).Some?
    requires |EncField(fields[i], Load(fields, m, i)).value| < LENGTH_LIMIT
    ensures Arrives(fields, m, d, seen, i, tail, d', seen + {i})
    decreases fields, 2
  {
    hide *;
    var f, x, y := fields[i], Load(fields, m, i), Load(fields, d, i);
    Outstanding(fields, m, d, i);
    FieldFacts(fields, m, i);
    FieldFacts(fields, d, i);
    SingleField(f, x, y);
    var got := ValueStep(fields, d, seen, i, Sent(f, x), tail);
    d' := d;
    if TerminatedSlot(f, x) {
      SingleReceived(f, x, y, got);
      var z := Receive(f, y, got);
      ProgressStep(fields, m, d, i, z);
      d' := Store(fields, d, i, z);
    }
    ArrivesIs(fields, m, d, seen, i, tail, d', seen + {i});
  }

  /** After what was sent for field i the decoder is at the tail, with field i in place, or has
      failed because of an unterminated string. */
  predicate Arrives(fields: seq<Field>, m: Message, d: Message, seen: set<nat>, i: nat, tail: seq<byte>,
                    d': Message, seen': set<nat>)
    requires WellFormed(fields) && Typed(fields, m) && Typed(fields, d) && i < |fields|
  {
    var sent := EncField(fields[i], Load(fields, m, i));
    && sent.Some?
    && if TerminatedSlot(fields[i], Load(fields, m, i)) then
         && Typed(fields, d') && Progress(fields, m, d', i + 1)
         && DecLoop(fields, d, seen, sent.value + tail) == DecLoop(fields, d', seen', tail)
       else DecLoop(fields, d, seen, sent.value + tail) == None
  }

  lemma ArrivesIs(fields: seq<Field>, m: Message, d: Message, seen: set<nat>, i: nat, tail: seq<byte>,
                  d': Message, seen': set<nat>)
    requires WellFormed(fields) && Typed(fields, m) && Typed(fields, d) && i < |fields|
    requires EncField(fields[i], Load(fields, m, i)).Some?
    requires TerminatedSlot(fields[i], Load(fields, m, i)) ==>
               && Typed(fields, d') && Progress(fields, m, d', i + 1)
               && DecLoop(fields, d, seen, EncField(fields[i], Load(fields, m, i)).value + tail) == DecLoop(fields, d', seen', tail)
    requires !TerminatedSlot(fields[i], Load(fields, m, i)) ==>
               DecLoop(fields, d, seen, EncField(fields[i], Load(fields, m, i)).value + tail) == None
    ensures Arrives(fields, m, d, seen, i, tail, d', seen')
  {
    hide WellFormed, Typed, TerminatedSlot, Progress, DecLoop, EncField, Load;
  }

  lemma PackedField(f: Field, x: Slot, y: Slot, tail: seq<byte>)
    requires WellFormedField(f) && TypedSlot(f, x) && TypedSlot(f, y) && Clause(f, x, y, false)
    requires f.htype == Repeated && Packable(f) && x.Many? && x.items != []
    requires EncField(f, x).Some? && |EncField(f, x).value| < LENGTH_LIMIT
    ensures exists b :: EncField(f, x).value + tail == EncTag(WT_STRING, f.tag) + b && DecField(f, WT_STRING, y, b) == Some((x, tail))
    ensures TerminatedSlot(f, x) && SameSlot(f, x, x)
  {
    hide EncItems, DecPacked, EncString, EncTag, TakePrefixed, DecValue, WellFormedField, TypedValue;
    var e := EncItems(f, x.items, true);
    PackedShape(f, x);
    var b := EncString(e.value) + tail;
    assert EncField(f, x).value + tail == EncTag(WT_STRING, f.tag) + b;
    PrefixedRoundTrip(e.value, tail);
    PackedRoundTrip(f, [], x.items);
    assert [] + x.items == x.items;
    NumbersTerminated(f, x.items);
    assert DecField(f, WT_STRING, y, b) == Some((x, tail));
  }

  lemma PackedShape(f: Field, x: Slot)
    requires TypedSlot(f, x) && f.htype == Repeated && Packable(f) && x.Many? && x.items != [] && EncField(f, x).Some?
    ensures TypedItems(f, x.items) && |x.items| <= f.arraySize
    ensures var e := EncItems(f, x.items, true);
            && e.Some? && EncField(f, x).value == EncTag(WT_STRING, f.tag) + EncString(e.value)
            && |e.value| < |EncField(f, x).value|
  {
    hide EncItems, EncTag, TypedValue;
  }

  lemma NumbersTerminated(f: Field, items: seq<Value>)
    requires Packable(f) && TypedItems(f, items)
    ensures TerminatedItems(f, items) && SameItems(f, items, items)
  {
  }

  lemma PackedStep(fields: seq<Field>, m: Message, d: Message, seen: set<nat>, i: nat, tail: seq<byte>)
    returns (d': Message)
    requires WellFormed(fields) && ZeroDefaults(fields) && Typed(fields, m) && Typed(fields, d)
    requires i < |fields| && Progress(fields, m, d, i)
    requires fields[i].htype == Repeated && Packable(fields[i])
    requires Load(fields, m, i).Many? && Load(fields, m, i).items != []
    requires EncField(fields[i], Load(fields, m, i)).Some?
    requires |EncField(fields[i], Load(fields, m, i)).value| < LENGTH_LIMIT
    ensures Arrives(fields, m, d, seen, i, tail, d', seen + {i})
  {
    assert WT_STRING < 8;
    hide *;
    var f, x, y := fields[i], Load(fields, m, i), Load(fields, d, i);
    Outstanding(fields, m, d, i);
    FieldFacts(fields, m, i);
    FieldFacts(fields, d, i);
    PackedField(f, x, y, tail);
    var b :| EncField(f, x).value + tail == EncTag(WT_STRING, f.tag) + b && DecField(f, WT_STRING, y, b) == Some((x, tail));
    KeyStep(fields, d, seen, i, WT_STRING, b);
    ProgressStep(fields, m, d, i, x);
    d' := Store(fields, d, i, x);
    ArrivesIs(fields, m, d, seen, i, tail, d', seen + {i});
  }

  lemma UnpackedField(f: Field, x: Slot, y: Slot)
    requires TypedSlot(f, x) && TypedSlot(f, y) && Clause(f, x, y, false)
    requires f.htype == Repeated && !Packable(f) && EncField(f, x).Some?
    ensures x.Many? && y == Many([]) && TypedItems(f, x.items)
    ensures x.items != [] ==> |x.items| <= f.arraySize && EncField(f, x) == EncItems(f, x.items, false)
    ensures TerminatedSlot(f, x) <==> TerminatedItems(f, x.items)
  {
    hide EncItems, TerminatedItems, TypedItems;
  }

  lemma UnpackedReceived(f: Field, x: Slot, got: seq<Value>)
    requires TypedSlot(f, x) && f.htype == Repeated && x.Many? && TypedItems(f, x.items) && TypedItems(f, got)
    requires SameItems(f, x.items, got)
    ensures TypedSlot(f, Many([] + got)) && SameSlot(f, x, Many([] + got))
  {
    assert [] + got == got;
    hide SameItems, TypedItems;
  }

  lemma UnpackedStep(fields: seq<Field>, m: Message, d: Message, seen: set<nat>, i: nat, tail: seq<byte>)
    returns (d': Message, seen': set<nat>)
    requires WellFormed(fields) && ZeroDefaults(fields) && Typed(fields, m) && Typed(fields, d)
    requires i < |fields| && Progress(fields, m, d, i)
    requires fields[i].htype == Repeated && !Packable(fields[i])
    requires Load(fields, m, i).Many? && Load(fields, m, i).items != []
    requires EncField(fields[i], Load(fields, m, i)).Some?
    requires |EncField(fields[i], Load(fields, m, i)).value| < LENGTH_LIMIT
    ensures seen <= seen' && Arrives(fields, m, d, seen, i, tail, d', seen')
    decreases fields, 2
  {
    hide *;
    var f, x, y := fields[i], Load(fields, m, i), Load(fields, d, i);
    Outstanding(fields, m, d, i);
    FieldFacts(fields, m, i);
    FieldFacts(fields, d, i);
    UnpackedField(f, x, y);
    var got;
    got, seen' := ItemsRoundTrip(fields, d, seen, i, x.items, tail);
    d' := d;
    if TerminatedSlot(f, x) {
      UnpackedReceived(f, x, got);
      ProgressStep(fields, m, d, i, Many([] + got));
      d' := Store(fields, d, i, Many([] + got));
    }
    ArrivesIs(fields, m, d, seen, i, tail, d', seen');
  }

  lemma Outstanding(fields: seq<Field>, m: Message, d: Message, i: nat)
    requires Typed(fields, m) && Typed(fields, d) && i < |fields| && Progress(fields, m, d, i)
    ensures Clause(fields[i], Load(fields, m, i), Load(fields, d, i), false)
    ensures fields[i].htype == Required ==> Present(fields[i], Load(fields, m, i))
    ensures fields[i].htype == Repeated ==>
              Load(fields, m, i).Many? && (Present(fields[i], Load(fields, m, i)) <==> Load(fields, m, i).items != [])
  {
    FieldShape(fields, m, i);
    hide Typed, TypedSlot, Load, Clause;
    assert Clause(fields[i], Load(fields, m, i), Load(fields, d, i), i < i);
  }

  lemma FieldShape(fields: seq<Field>, m: Message, i: nat)
    requires Typed(fields, m) && i < |fields|
    ensures fields[i].htype == Repeated ==> Load(fields, m, i).Many?
  {
  }

  lemma FieldStep(fields: seq<Field>, m: Message, d: Message, seen: set<nat>, i: nat, tail: seq<byte>)
    returns (d': Message, seen': set<nat>)
    requires WellFormed(fields) && ZeroDefaults(fields) && Typed(fields, m) && Typed(fields, d)
    requires i < |fields| && Progress(fields, m, d, i)
    requires EncField(fields[i], Load(fields, m, i)).Some?
    requires |EncField(fields[i], Load(fields, m, i)).value| < LENGTH_LIMIT
    ensures seen <= seen' && (fields[i].htype == Required ==> i in seen')
    ensures Arrives(fields, m, d, seen, i, tail, d', seen')
    decreases fields, 3
  {
    hide *;
    var f, x, y := fields[i], Load(fields, m, i), Load(fields, d, i);
    Outstanding(fields, m, d, i);
    FieldFacts(fields, m, i);
    FieldFacts(fields, d, i);
    if !Present(f, x) {
      AbsentField(f, x, y);
      ProgressSkip(fields, m, d, i);
      d', seen' := d, seen;
      assert [] + tail == tail;
      ArrivesIs(fields, m, d, seen, i, tail, d', seen');
    } else if f.htype != Repeated {
      d' := SingleStep(fields, m, d, seen, i, tail);
      seen' := seen + {i};
    } else if Packable(f) {
      d' := PackedStep(fields, m, d, seen, i, tail);
      seen' := seen + {i};
    } else {
      d', seen' := UnpackedStep(fields, m, d, seen, i, tail);
    }
  }

  lemma {:induction false} FieldsRoundTrip(fields: seq<Field>, m: Message, d: Message, seen: set<nat>, i: nat)
    requires WellFormed(fields) && ZeroDefaults(fields) && Typed(fields, m) && Typed(fields, d)
    requires i <= |fields| && Progress(fields, m, d, i)
    requires forall j :: 0 <= j < i && fields[j].htype == Required ==> j in seen
    requires EncFields(fields, m, i).Some? && |EncFields(fields, m, i).value| < LENGTH_LIMIT
    ensures var r := DecLoop(fields, d, seen, EncFields(fields, m, i).value);
            if Terminated(fields, m, i) then r.Some? && r.value.1 == [] && Same(fields, m, r.value.0) else r == None
    decreases fields, 4, |fields| - i
  {
    hide *;
    if i == |fields| {
      AllArrived(fields, m, d, seen);
    } else {
      SplitFields(fields, m, i);
      var tail := EncFields(fields, m, i + 1).value;
      var d', seen' := FieldStep(fields, m, d, seen, i, tail);
      ArrivesMeans(fields, m, d, seen, i, tail, d', seen');
      if TerminatedSlot(fields[i], Load(fields, m, i)) {
        FieldsRoundTrip(fields, m, d', seen', i + 1);
      }
    }
  }

  lemma ArrivesMeans(fields: seq<Field>, m: Message, d: Message, seen: set<nat>, i: nat, tail: seq<byte>,
                     d': Message, seen': set<nat>)
    requires WellFormed(fields) && Typed(fields, m) && Typed(fields, d) && i < |fields|
    requires Arrives(fields, m, d, seen, i, tail, d', seen')
    ensures EncField(fields[i], Load(fields, m, i)).Some?
    ensures TerminatedSlot(fields[i], Load(fields, m, i)) ==>
              && Typed(fields, d') && Progress(fields, m, d', i + 1)
              && DecLoop(fields, d, seen, EncField(fields[i], Load(fields, m, i)).value + tail) == DecLoop(fields, d', seen', tail)
    ensures !TerminatedSlot(fields[i], Load(fields, m, i)) ==>
              DecLoop(fields, d, seen, EncField(fields[i], Load(fields, m, i)).value + tail) == None
  {
    hide WellFormed, Typed, TerminatedSlot, Progress, DecLoop, EncField, Load;
  }

  lemma SplitFields(fields: seq<Field>, m: Message, i: nat)
    requires Typed(fields, m) && i < |fields| && EncFields(fields, m, i).Some?
    ensures EncField(fields[i], Load(fields, m, i)).Some? && EncFields(fields, m, i + 1).Some?
    ensures EncFields(fields, m, i).value == EncField(fields[i], Load(fields, m, i)).value + EncFields(fields, m, i + 1).value
    ensures Terminated(fields, m, i) <==> TerminatedSlot(fields[i], Load(fields, m, i)) && Terminated(fields, m, i + 1)
  {
    hide EncField, Typed, Load, TerminatedSlot;
  }

  lemma AllArrived(fields: seq<Field>, m: Message, d: Message, seen: set<nat>)
    requires WellFormed(fields) && Typed(fields, m) && Typed(fields, d) && Progress(fields, m, d, |fields|)
    requires forall j :: 0 <= j < |fields| && fields[j].htype == Required ==> j in seen
    ensures EncFields(fields, m, |fields|) == Some([])
    ensures DecLoop(fields, d, seen, []) == Some((d, [])) && Same(fields, m, d) && Terminated(fields, m, |fields|)
  {
    hide WellFormed, Typed, SameSlot, TerminatedSlot, Load;
    forall j | 0 <= j < |fields| ensures SameSlot(fields[j], Load(fields, m, j), Load(fields, d, j)) {
      assert Clause(fields[j], Load(fields, m, j), Load(fields, d, j), true);
    }
  }

  lemma DefaultsProgress(fields: seq<Field>, m: Message)
    requires WellFormed(fields) && Typed(fields, m) && Typed(fields, Default(fields))
    ensures Progress(fields, m, Default(fields), 0)
  {
    forall j | 0 <= j < |fields|
      ensures Clause(fields[j], Load(fields, m, j), Load(fields, Default(fields), j), false)
    {
      DefaultSlotsAt(fields, |fields|, j);
      assert Load(fields, Default(fields), j) == DefaultSlot(fields[j]);
      hide SlotOf, TypedSlot, WellFormed, Typed, Default, Load;
      DefaultClause(fields[j], Load(fields, m, j), Load(fields, Default(fields), j));
    }
  }

  lemma DefaultClause(f: Field, x: Slot, y: Slot)
    requires TypedSlot(f, x) && TypedSlot(f, y) && y == DefaultSlot(f) && f.tag >= 1
    ensures Clause(f, x, y, false)
  {
  }

  /** pb_decode of what pb_encode wrote succeeds and gives an equal message, at every nesting depth,
      unless a string that was sent fills its member to the end: then it fails. */
  lemma {:induction false} MessageRoundTrip(fields: seq<Field>, m: Message)
    requires WellFormed(fields) && ZeroDefaults(fields) && Typed(fields, m)
    requires Enc(fields, m).Some? && |Enc(fields, m).value| < LENGTH_LIMIT
    ensures var r := Dec(fields, Enc(fields, m).value);
            if Terminated(fields, m, 0) then r.Some? && r.value.1 == [] && Same(fields, m, r.value.0) else r == None
    decreases fields, 5
  {
    DefaultTyped(fields);
    hide DecLoop, EncFields, WellFormed, ZeroDefaults, Typed, Terminated, Same, Default, Progress;
    DefaultsProgress(fields, m);
    FieldsRoundTrip(fields, m, Default(fields), {}, 0);
  }

  // ------------------------------------------------------------ unknown fields

  lemma {:induction false} SkipEncodedVarint(v: nat, rest: seq<byte>)
    ensures SkipVarint(EncodeVarint(v) + rest) == Some(rest)
    decreases v
  {
    if v < 128 {
      EncodedOne(v, rest);
    } else {
      EncodedMore(v, rest);
      SkipEncodedVarint(v / 128, rest);
    }
  }

  /** By its wire type alone a value is skipped to its last octet and no further. */
  lemma SkipsValue(f: Field, v: Value, rest: seq<byte>)
    requires TypedValue(f, v) && EncValue(f, v).Some? && |EncValue(f, v).value| < LENGTH_LIMIT
    ensures SkipField(WireType(f), EncValue(f, v).value + rest) == Some(rest)
  {
    var e := EncValue(f, v).value;
    if WireType(f) == WT_STRING {
      var b := if f.ltype.Submessage? then Enc(f.ltype.fields, v.m).value
               else if f.ltype.CString? then Chars(v.s, f.dataSize) else v.s;
      assert e == EncString(b);
      hide EncString, TakePrefixed, EncValue, TypedValue;
      PrefixedRoundTrip(b, rest);
    } else if WireType(f) == WT_VARINT {
      var n := if f.ltype.UVarint? then v.n else if f.ltype.Varint? then ToUnsigned64(v.n) else ZigZag(v.n);
      assert e == EncodeVarint(n);
      hide EncValue, TypedValue, EncodeVarint;
      SkipEncodedVarint(n, rest);
    } else {
      assert |e| == if f.ltype.Fixed64? then 8 else 4;
      assert (e + rest)[|e|..] == rest;
      hide EncValue, TypedValue;
    }
  }

  /** A field the receiving descriptor does not have leaves the decoder where it would be without it. */
  lemma UnknownFieldSkipped(fields: seq<Field>, d: Message, seen: set<nat>, f: Field, v: Value, tail: seq<byte>)
    requires WellFormed(fields) && Typed(fields, d) && 1 <= f.tag < 0x2000_0000 && FindField(fields, f.tag) == None
    requires TypedValue(f, v) && EncTagged(f, v).Some? && |EncTagged(f, v).value| < LENGTH_LIMIT
    ensures DecLoop(fields, d, seen, EncTagged(f, v).value + tail) == DecLoop(fields, d, seen, tail)
  {
    hide EncValue, EncTagged, TypedValue, WellFormed, Typed, EncTag, Decode32, SkipField, FindField, DecField, Finish, DecLoop;
    TaggedShape(f, v, tail);
    var body := EncValue(f, v).value + tail;
    SkipsValue(f, v, tail);
    ReadKey(f.tag, WireType(f), body);
    SkippedLoop(fields, d, seen, EncTag(WireType(f), f.tag) + body, 8 * f.tag + WireType(f), body, tail);
  }

  lemma SkippedLoop(fields: seq<Field>, d: Message, seen: set<nat>, s: seq<byte>, key: nat, body: seq<byte>, tail: seq<byte>)
    requires WellFormed(fields) && Typed(fields, d) && s != [] && key >= 8
    requires Decode32(s) == Ok32(key, body) && FindField(fields, key / 8) == None
    requires SkipField(key % 8, body) == Some(tail)
    ensures DecLoop(fields, d, seen, s) == DecLoop(fields, d, seen, tail)
  {
    hide DecField, Decode32, FindField, WellFormed, Typed, Finish, SkipField;
  }
}
