/** The field iterator of pb_common.c. A descriptor is a list of fields followed by a terminator
    whose tag is zero; dest is the address of the struct. */
module PbFieldIter {
  import opened Bytes
  import opened PbMessage

  const TERMINATOR := Field(0, Varint, Required, 0, 0, 0, 0, None)

  function FieldAt(fields: seq<Field>, i: nat): Field
    requires i <= |fields|
  {
    if i < |fields| then fields[i] else TERMINATOR
  }

  /** The room field f takes in the struct. */
  function MemberSize(f: Field): nat {
    if f.htype == Repeated then f.dataSize * f.arraySize else f.dataSize
  }

  /** Where the member of field i starts, from the start of the struct. */
  function LayoutOffset(fields: seq<Field>, i: nat): nat
    requires i <= |fields|
    decreases i
  {
    if i == 0 then FieldAt(fields, 0).dataOffset
    else if i < |fields| && JoinsUnion(fields, i - 1) then LayoutOffset(fields, i - 1)
    else LayoutOffset(fields, i - 1) + MemberSize(fields[i - 1]) + FieldAt(fields, i).dataOffset
  }

  /** Where its has_ flag, count or which_ member is. */
  function LayoutSize(fields: seq<Field>, i: nat): int
    requires i <= |fields|
    decreases i
  {
    if i > 0 && i < |fields| && JoinsUnion(fields, i - 1) then LayoutSize(fields, i - 1)
    else LayoutOffset(fields, i) + FieldAt(fields, i).sizeOffset
  }

  /** Fields that share a slot are at one address, with one which_ member. */
  lemma {:induction false} SharedSlotSharesLayout(fields: seq<Field>, i: nat, j: nat)
    requires i < j < |fields| && SlotOf(fields, i) == SlotOf(fields, j)
    ensures LayoutOffset(fields, i) == LayoutOffset(fields, j)
    ensures LayoutSize(fields, i) == LayoutSize(fields, j)
    decreases j
  {
    if i + 1 < j {
      SlotOrder(fields, i, j - 1);
      SlotOrder(fields, j - 1, j);
      SharedSlotSharesLayout(fields, i, j - 1);
    }
  }

  /** A member outside unions ends before every later one starts. */
  lemma {:induction false} MembersDisjoint(fields: seq<Field>, i: nat, j: nat)
    requires i < j < |fields| && fields[i].htype != Oneof
    ensures LayoutOffset(fields, i) + MemberSize(fields[i]) <= LayoutOffset(fields, j)
    decreases j
  {
    if i + 1 < j { MembersDisjoint(fields, i, j - 1); }
  }

  /** The position k steps on from p, wrapping at n. */
  function Around(p: nat, k: nat, n: nat): nat
    requires p < n && k <= n
  {
    if p + k < n then p + k else p + k - n
  }

  class FieldIter {
    const start: seq<Field>
    const dest: int
    var pos: nat
    var requiredFieldIndex: nat
    var pData: int
    var pSize: int

    /** Positions are those the iterator reaches: never the terminator of a non-empty descriptor.
        Whatever route led here, the pointers and the count are those of the position. */
    ghost predicate Valid()
      reads this
    {
      && (forall i :: 0 <= i < |start| ==> start[i].tag != 0)
      && (pos < |start| || (start == [] && pos == 0))
      && requiredFieldIndex == RequiredBefore(start, pos)
      && pData == dest + LayoutOffset(start, pos)
      && pSize == dest + LayoutSize(start, pos)
    }

    /** pb_field_iter_begin. */
    constructor (fields: seq<Field>, dest: int)
      requires forall i :: 0 <= i < |fields| ==> fields[i].tag != 0
      ensures Valid() && start == fields && this.dest == dest && pos == 0
    {
      start := fields;
      this.dest := dest;
      pos := 0;
      requiredFieldIndex := 0;
      pData := dest + FieldAt(fields, 0).dataOffset;
      pSize := dest + FieldAt(fields, 0).dataOffset + FieldAt(fields, 0).sizeOffset;
    }

    method Begin() returns (more: bool)
      requires forall i :: 0 <= i < |start| ==> start[i].tag != 0
      modifies this
      ensures Valid() && pos == 0
      ensures more <==> start != []
    {
      pos := 0;
      requiredFieldIndex := 0;
      pData := dest + FieldAt(start, 0).dataOffset;
      pSize := pData + FieldAt(start, 0).sizeOffset;
      more := FieldAt(start, pos).tag != 0;
    }

    /** pb_field_iter_next: one field on, or back at the start. */
    method Next() returns (more: bool)
      requires Valid()
      modifies this
      ensures Valid()
      ensures more <==> old(pos) + 1 < |start|
      ensures pos == if more then old(pos) + 1 else 0
    {
      var prev := FieldAt(start, pos);
      if prev.tag == 0 {
        return false;
      }
      pos := pos + 1;
      if FieldAt(start, pos).tag == 0 {
        var _ := Begin();
        return false;
      }
      var prevSize := prev.dataSize;
      if prev.htype == Oneof && start[pos].htype == Oneof && start[pos].dataOffset == PB_SIZE_MAX {
        return true;
      } else if prev.htype == Repeated {
        prevSize := prevSize * prev.arraySize;
      }
      if prev.htype == Required {
        requiredFieldIndex := requiredFieldIndex + 1;
      }
      pData := pData + prevSize + start[pos].dataOffset;
      pSize := pData + start[pos].sizeOffset;
      return true;
    }

    /** pb_field_iter_find, from wherever the iterator is: it stops at the first field with the
        tag in cyclic order, and comes back to where it was when there is none. */
    method Find(tag: nat) returns (found: bool)
      requires Valid()
      modifies this
      ensures Valid()
      ensures start == [] ==> (found <==> tag == 0)
      ensures start != [] ==> (found <==> exists i :: 0 <= i < |start| && start[i].tag == tag)
      ensures found && start != [] ==>
                exists k: nat :: k < |start| && pos == Around(old(pos), k, |start|) && start[pos].tag == tag
                  && forall j: nat :: j < k ==> start[Around(old(pos), j, |start|)].tag != tag
      ensures !found ==> pos == old(pos)
    {
      hide LayoutOffset, LayoutSize, RequiredBefore;
      var begin := pos;
      var n := |start|;
      if FieldAt(start, pos).tag == tag {
        assert start != [] ==> pos == Around(begin, 0, n);
        return true;
      }
      var _ := Next();
      ghost var k := 1;
      while pos != begin
        invariant Valid() && (start == [] ==> pos == begin && tag != 0)
        invariant start != [] ==> 1 <= k <= n && pos == Around(begin, k, n)
        invariant start != [] ==> forall j: nat :: j < k ==> start[Around(begin, j, n)].tag != tag
        decreases n - k
      {
        if FieldAt(start, pos).tag == tag {
          return true;
        }
        var _ := Next();
        k := k + 1;
      }
      if start != [] {
        forall i | 0 <= i < n ensures start[i].tag != tag {
          var j := if i >= pos then i - pos else i - pos + n;
          assert start[Around(pos, j, n)].tag != tag;
        }
      }
      return false;
    }
  }
}
