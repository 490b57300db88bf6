/** Whatever it is given, pb_decode keeps every array within the room its descriptor gives it,
    at every nesting depth. */
module PbBounds {
  import opened Bytes
  import opened PbMessage
  import opened Varints
  import opened PbEncoding
  import opened PbDecoding

  predicate BoundedValue(f: Field, v: Value)
    requires TypedValue(f, v)
    decreases f, 0
  {
    f.ltype.Submessage? ==> Bounded(f.ltype.fields, v.m)
  }

  predicate BoundedItems(f: Field, items: seq<Value>)
    requires TypedItems(f, items)
    decreases f, 1
  {
    forall k :: 0 <= k < |items| ==> BoundedValue(f, items[k])
  }

  predicate BoundedSlot(f: Field, x: Slot)
    requires TypedSlot(f, x)
    decreases f, 2
  {
    match f.htype
    case Required => BoundedValue(f, x.v)
    case Optional => BoundedValue(f, x.v)
    case Repeated => |x.items| <= f.arraySize && BoundedItems(f, x.items)
    case Oneof => x.which == f.tag ==> BoundedValue(f, x.body)
  }

  /** No array holds more than its array_size, here or in any submessage. */
  predicate Bounded(fields: seq<Field>, m: Message)
    requires Typed(fields, m)
    decreases fields, 3
  {
    forall i :: 0 <= i < |fields| ==> BoundedSlot(fields[i], Load(fields, m, i))
  }

  lemma {:induction false} InitialBounded(f: Field)
    requires WellFormedField(f)
    ensures TypedValue(f, InitialValue(f)) && BoundedValue(f, InitialValue(f))
    decreases f, 0
  {
    InitialTyped(f);
    if f.ltype.Submessage? { DefaultBounded(f.ltype.fields); }
  }

  lemma {:induction false} DefaultBounded(fields: seq<Field>)
    requires WellFormed(fields)
    ensures Typed(fields, Default(fields)) && Bounded(fields, Default(fields))
    decreases fields, 1
  {
    DefaultTyped(fields);
    forall i | 0 <= i < |fields| ensures BoundedSlot(fields[i], Load(fields, Default(fields), i)) {
      DefaultSlotsAt(fields, |fields|, i);
      if fields[i].htype != Repeated && fields[i].htype != Oneof { InitialBounded(fields[i]); }
      hide SlotOf;
    }
  }

  lemma AppendBounded(f: Field, items: seq<Value>, v: Value)
    requires TypedItems(f, items) && TypedValue(f, v) && BoundedItems(f, items) && BoundedValue(f, v)
    ensures TypedItems(f, items + [v]) && BoundedItems(f, items + [v])
  {
    hide TypedValue, BoundedValue;
  }

  lemma NumbersBounded(f: Field, items: seq<Value>)
    requires Packable(f) && TypedItems(f, items)
    ensures BoundedItems(f, items)
  {
  }

  lemma ReceiveBounded(f: Field, x: Slot, v: Value)
    requires TypedSlot(f, x) && TypedValue(f, v) && BoundedSlot(f, x) && BoundedValue(f, v)
    requires f.htype == Repeated ==> |x.items| < f.arraySize
    ensures BoundedSlot(f, Receive(f, x, v))
  {
    if f.htype == Repeated { AppendBounded(f, x.items, v); }
    hide TypedValue, BoundedValue, BoundedItems, TypedItems;
  }

  lemma StoreBounded(fields: seq<Field>, m: Message, i: nat, x: Slot)
    requires WellFormed(fields) && Typed(fields, m) && Bounded(fields, m)
    requires i < |fields| && TypedSlot(fields[i], x) && BoundedSlot(fields[i], x)
    requires fields[i].htype == Oneof ==> x.Union? && x.which == fields[i].tag
    ensures SlotOf(fields, i) < |m.slots| && Typed(fields, Store(fields, m, i, x))
    ensures Bounded(fields, Store(fields, m, i, x))
  {
    StoreTyped(fields, m, i, x);
    var m' := Store(fields, m, i, x);
    forall j | 0 <= j < |fields| ensures BoundedSlot(fields[j], Load(fields, m', j)) {
      assert BoundedSlot(fields[j], Load(fields, m, j));
      if j != i {
        SlotOrder(fields, if j < i then j else i, if j < i then i else j);
        assert fields[i].tag != fields[j].tag;
        if SlotOf(fields, i) == SlotOf(fields, j) { OtherBounded(fields[i], fields[j], x); }
      }
      hide SlotOf, TypedSlot, BoundedSlot, WellFormedField;
    }
  }

  lemma OtherBounded(f: Field, g: Field, x: Slot)
    requires f.htype == Oneof && g.htype == Oneof && f.tag != g.tag
    requires TypedSlot(f, x) && x.which == f.tag
    ensures TypedSlot(g, x) && BoundedSlot(g, x)
  {
  }

  lemma {:induction false} DecValueBounded(f: Field, current: Value, s: seq<byte>)
    requires WellFormedField(f)
    requires f.ltype.Submessage? ==> TypedValue(f, current) && BoundedValue(f, current)
    ensures DecValue(f, current, s).Some? ==> BoundedValue(f, DecValue(f, current, s).value.0)
    decreases |s|, 0
  {
    if f.ltype.Submessage? {
      var p := TakePrefixed(s);
      if p.Some? { DecLoopBounded(f.ltype.fields, current.m, {}, p.value.0); }
    }
  }

  lemma {:induction false} DecFieldBounded(f: Field, wireType: nat, x: Slot, s: seq<byte>)
    requires WellFormedField(f) && TypedSlot(f, x) && BoundedSlot(f, x)
    ensures DecField(f, wireType, x, s).Some? ==> BoundedSlot(f, DecField(f, wireType, x, s).value.0)
    decreases |s|, 1
  {
    hide DecValue, DecPacked, TakePrefixed, TypedValue, BoundedValue, WellFormedField, InitialValue;
    if f.htype == Repeated && wireType == WT_STRING && Packable(f) {
      var p := TakePrefixed(s);
      if p.Some? {
        var r := DecPacked(f, x.items, p.value.0);
        if r.Some? { NumbersBounded(f, r.value); }
      }
    } else {
      BaseBounded(f, x);
      DecValueBounded(f, Base(f, x), s);
      var r := DecValue(f, Base(f, x), s);
      if r.Some? && (f.htype == Repeated ==> |x.items| < f.arraySize) { ReceiveBounded(f, x, r.value.0); }
    }
  }

  lemma BaseBounded(f: Field, x: Slot)
    requires WellFormedField(f) && TypedSlot(f, x) && BoundedSlot(f, x)
    ensures BoundedValue(f, Base(f, x))
  {
    InitialBounded(f);
    hide TypedValue, BoundedValue, WellFormedField, InitialValue;
  }

  lemma {:induction false} DecLoopBounded(fields: seq<Field>, m: Message, seen: set<nat>, s: seq<byte>)
    requires WellFormed(fields) && Typed(fields, m) && Bounded(fields, m)
    ensures DecLoop(fields, m, seen, s).Some? ==> Bounded(fields, DecLoop(fields, m, seen, s).value.0)
    decreases |s|, 2
  {
    hide DecField, SkipField, Decode32, BoundedSlot, BoundedItems, BoundedValue, TypedItems, TypedValue, WellFormedField, SlotOf, RequiredSeen;
    if s != [] && Decode32(s).Ok32? && Decode32(s).value != 0 {
      var key, rest := Decode32(s).value, Decode32(s).rest;
      var found := FindField(fields, key / 8);
      if found.Some? {
        var i := found.value;
        DecFieldBounded(fields[i], key % 8, Load(fields, m, i), rest);
        var r := DecField(fields[i], key % 8, Load(fields, m, i), rest);
        if r.Some? {
          StoreBounded(fields, m, i, r.value.0);
          DecLoopBounded(fields, Store(fields, m, i, r.value.0), seen + {i}, r.value.1);
        }
      } else {
        var r := SkipField(key % 8, rest);
        if r.Some? { DecLoopBounded(fields, m, seen, r.value); }
      }
    }
  }

  /** For every byte string: if pb_decode succeeds nothing was stored past the end of an array. */
  lemma DecodedWithinBounds(fields: seq<Field>, s: seq<byte>)
    requires WellFormed(fields)
    ensures Dec(fields, s).Some? ==> Bounded(fields, Dec(fields, s).value.0)
  {
    DefaultBounded(fields);
    DecLoopBounded(fields, Default(fields), {}, s);
  }
}
