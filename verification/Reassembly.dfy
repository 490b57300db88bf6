/** hm_fragment of d1_both.cc: one incoming DTLS handshake message, its data buffer and the
    bitmask of the octets that have arrived. */
module Reassembly {
  import opened Bits
  import opened Bytes
  import opened HandshakeFragments

  /** An 8-bit mask with bits start (inclusive) to end (exclusive) set. The shifts are of a
      32-bit one by at most 8, so they do not overflow. */
  function BitRange(start: nat, end: nat): (m: byte)
    requires start <= 8 && end <= 8
  {
    var r := Low(And(Not(Pow2(start) - 1, 32), Pow2(end) - 1), 8);
    LowFits(And(Not(Pow2(start) - 1, 32), Pow2(end) - 1), 8);
    ByteFits(r);
    r
  }

  lemma ByteFits(m: nat)
    ensures Fits(m, 8) <==> m < 256
  {
    FitsIsBound(m, 8);
    assert Pow2(8) == 256;
  }

  lemma BitRangeBits(start: nat, end: nat, k: nat)
    requires start <= 8 && end <= 8
    ensures Bit(BitRange(start, end), k) <==> start <= k < end
  {
    hide Bit, Low, And, Not, Pow2, Fits;
    LowBits(And(Not(Pow2(start) - 1, 32), Pow2(end) - 1), 8, k);
    AndBits(Not(Pow2(start) - 1, 32), Pow2(end) - 1, k);
    NotBits(Pow2(start) - 1, 32, k);
    OnesBits(start, k);
    OnesBits(end, k);
  }

  /** Octet k of the message is marked in the mask. */
  predicate Marked(mask: seq<byte>, k: nat)
    requires k / 8 < |mask|
  {
    Bit(mask[k / 8], k % 8)
  }

  /** mask is base with exactly the octets from lo to hi added. */
  ghost predicate Adds(mask: seq<byte>, base: seq<byte>, lo: nat, hi: nat) {
    && |mask| == |base|
    && forall k: nat :: k / 8 < |mask| ==> (Marked(mask, k) <==> Marked(base, k) || lo <= k < hi)
  }

  /** Changing one octet of the mask adds the positions that octet gained. */
  lemma AddInByte(mask: seq<byte>, base: seq<byte>, lo: nat, mid: nat, i: nat, b: byte, s: nat, e: nat)
    requires Adds(mask, base, lo, mid) && i < |mask|
    requires s <= e <= 8 && (mid == 8 * i + s || lo == mid)
    requires lo <= mid && (lo == mid ==> lo == 8 * i + s)
    requires forall j: nat :: j < 8 ==> (Bit(b, j) <==> Bit(mask[i], j) || s <= j < e)
    ensures Adds(mask[i := b], base, lo, 8 * i + e)
  {
    var mask' := mask[i := b];
    forall k: nat | k / 8 < |mask'|
      ensures Marked(mask', k) <==> Marked(base, k) || lo <= k < 8 * i + e
    {
      assert Marked(mask, k) <==> Marked(base, k) || lo <= k < mid;
      if k / 8 == i {
        assert k == 8 * i + k % 8;
        assert Bit(b, k % 8) <==> Bit(mask[i], k % 8) || s <= k % 8 < e;
      } else {
        assert mask'[k / 8] == mask[k / 8];
        assert k < 8 * i || k >= 8 * i + 8;
      }
    }
  }

  lemma OrBitRange(b: byte, s: nat, e: nat)
    requires s <= e <= 8
    ensures Or(b, BitRange(s, e)) < 256
    ensures forall j: nat :: Bit(Or(b, BitRange(s, e)), j) <==> Bit(b, j) || s <= j < e
  {
    ByteFits(b);
    ByteFits(BitRange(s, e));
    OrFits(b, BitRange(s, e), 8);
    ByteFits(Or(b, BitRange(s, e)));
    forall j: nat ensures Bit(Or(b, BitRange(s, e)), j) <==> Bit(b, j) || s <= j < e {
      OrBits(b, BitRange(s, e), j);
      BitRangeBits(s, e, j);
    }
  }

  ghost predicate AllBelow(b: byte, n: nat) {
    forall j: nat :: j < n ==> Bit(b, j)
  }

  /** An octet holds all of the bits below n exactly when it equals the mask r of those bits. */
  lemma LowRangeTest(b: byte, r: byte, n: nat)
    requires n <= 8
    requires forall j: nat :: j < 8 ==> (Bit(r, j) <==> j < n)
    requires forall j: nat :: n <= j < 8 ==> !Bit(b, j)
    ensures b == r <==> AllBelow(b, n)
  {
    if b == r {
      forall j: nat | j < n ensures Bit(b, j) { assert Bit(r, j) <==> j < n; }
    } else if AllBelow(b, n) {
      forall j: nat | j < 8 ensures Bit(b, j) <==> Bit(r, j) {
        assert Bit(r, j) <==> j < n;
        if j < n { assert Bit(b, j); } else { assert !Bit(b, j); }
      }
      SameBits(b, r);
    }
  }

  lemma SameBits(a: byte, b: byte)
    requires forall j: nat :: j < 8 ==> (Bit(a, j) <==> Bit(b, j))
    ensures a == b
  {
    ByteFits(a);
    ByteFits(b);
    WordsEqual(a, b, 8);
  }

  lemma FullByte(b: byte)
    ensures b == 0xff <==> AllBelow(b, 8)
  {
    forall j: nat | j < 8 ensures Bit(0xff, j) { OnesBits(8, j); assert Pow2(8) == 256; }
    LowRangeTest(b, 0xff, 8);
  }

  /** No bit past the message length is ever set. */
  ghost predicate TailClear(mask: seq<byte>, msgLen: nat) {
    && |mask| == (msgLen + 7) / 8
    && forall k: nat :: msgLen <= k && k / 8 < |mask| ==> !Marked(mask, k)
  }

  /** The completeness scan: every whole octet is 0xff and the last partial one is full. */
  ghost predicate ScanComplete(mask: seq<byte>, msgLen: nat)
    requires |mask| == (msgLen + 7) / 8
  {
    && (forall i: nat :: i < msgLen / 8 ==> mask[i] == 0xff)
    && (msgLen % 8 != 0 ==> mask[msgLen / 8] == BitRange(0, msgLen % 8))
  }

  ghost predicate AllMarked(mask: seq<byte>, msgLen: nat)
    requires |mask| == (msgLen + 7) / 8
  {
    forall k: nat :: k < msgLen ==> Marked(mask, k)
  }

  lemma ScanMeansAllMarked(mask: seq<byte>, msgLen: nat)
    requires TailClear(mask, msgLen)
    ensures ScanComplete(mask, msgLen) <==> AllMarked(mask, msgLen)
  {
    if ScanComplete(mask, msgLen) {
      ScanFindsAll(mask, msgLen);
    }
    if AllMarked(mask, msgLen) {
      forall i: nat | i < msgLen / 8 ensures mask[i] == 0xff { WholeByteFull(mask, msgLen, i); }
      if msgLen % 8 != 0 { LastByteFull(mask, msgLen); }
    }
  }

  lemma ScanFindsAll(mask: seq<byte>, msgLen: nat)
    requires TailClear(mask, msgLen) && ScanComplete(mask, msgLen)
    ensures AllMarked(mask, msgLen)
  {
    forall k: nat | k < msgLen ensures Marked(mask, k) {
      if k / 8 < msgLen / 8 {
        assert mask[k / 8] == 0xff;
        FullByte(mask[k / 8]);
      } else {
        BitRangeBits(0, msgLen % 8, k % 8);
      }
    }
  }

  lemma WholeByteFull(mask: seq<byte>, msgLen: nat, i: nat)
    requires |mask| == (msgLen + 7) / 8 && AllMarked(mask, msgLen)
    requires i < msgLen / 8
    ensures mask[i] == 0xff
  {
    forall j: nat | j < 8 ensures Bit(mask[i], j) {
      assert (8 * i + j) / 8 == i && (8 * i + j) % 8 == j;
      assert Marked(mask, 8 * i + j);
    }
    FullByte(mask[i]);
  }

  lemma LastByteFull(mask: seq<byte>, msgLen: nat)
    requires TailClear(mask, msgLen) && AllMarked(mask, msgLen)
    requires msgLen % 8 != 0
    ensures mask[msgLen / 8] == BitRange(0, msgLen % 8)
  {
    var last := msgLen / 8;
    forall j: nat | j < 8 ensures Bit(mask[last], j) <==> j < msgLen % 8 {
      assert (8 * last + j) / 8 == last && (8 * last + j) % 8 == j;
      if j < msgLen % 8 { assert Marked(mask, 8 * last + j); } else { assert !Marked(mask, 8 * last + j); }
    }
    forall j: nat | j < 8 ensures Bit(BitRange(0, msgLen % 8), j) <==> j < msgLen % 8 {
      BitRangeBits(0, msgLen % 8, j);
    }
    LowRangeTest(mask[last], BitRange(0, msgLen % 8), msgLen % 8);
  }

  /** A message being reassembled, with the octets that have arrived. */
  datatype Slot = Empty | Slot(typ: byte, seqNum: nat, msgLen: nat, got: map<nat, byte>)

  function At(off: nat, body: seq<byte>, k: nat): byte
    requires off <= k < off + |body|
  {
    body[k - off]
  }

  /** The octets of a message that one fragment carries. */
  function Range(off: nat, body: seq<byte>): map<nat, byte> {
    map k: nat | off <= k < off + |body| :: At(off, body, k)
  }

  predicate Complete(s: Slot) {
    s.Slot? && forall k: nat :: k < s.msgLen ==> k in s.got
  }

  /** The header of a message held whole, as one fragment. */
  function WholeHeader(typ: byte, seqNum: nat, msgLen: nat): seq<byte>
    requires seqNum < 0x1_0000 && msgLen < 0x100_0000
  {
    [typ] + (U24(msgLen) + (U16(seqNum) + (U24(0) + U24(msgLen))))
  }

  class HmFragment {
    const typ: byte
    const seqNum: nat
    const msgLen: nat
    const data: array<byte>
    /** null once the whole message has arrived. */
    var reassembly: array?<byte>

    ghost predicate Valid()
      reads this, data, reassembly
    {
      && seqNum < 0x1_0000 && msgLen < 0x100_0000
      && data.Length == HM_HEADER_LENGTH + msgLen
      && data[..HM_HEADER_LENGTH] == WholeHeader(typ, seqNum, msgLen)
      && (reassembly != null ==>
            && (reassembly as object) != data
            && TailClear(reassembly[..], msgLen)
            && exists k: nat :: k < msgLen && !Marked(reassembly[..], k))
    }

    /** Octet k of the body has arrived. */
    ghost predicate Has(k: nat)
      requires Valid() && k < msgLen
      reads this, data, reassembly
    {
      reassembly == null || Marked(reassembly[..], k)
    }

    ghost function View(): (s: Slot)
      requires Valid()
      reads this, data, reassembly
      ensures s.Slot?
    {
      Slot(typ, seqNum, msgLen, map k: nat | k < msgLen && Has(k) :: data[HM_HEADER_LENGTH + k])
    }

    /** The octets set aside for this message: what it owns on the heap. */
    ghost function Repr(): set<object>
      reads this
    {
      {this, data} + if reassembly == null then {} else {reassembly}
    }

    /** dtls1_hm_fragment_new: the header of the reassembled message describes one fragment
        holding all of it; the body is uninitialised and nothing has arrived. */
    constructor (typ: byte, seqNum: nat, msgLen: nat)
      requires seqNum < 0x1_0000 && msgLen < 0x100_0000
      ensures Valid() && fresh(Repr())
      ensures this.typ == typ && this.seqNum == seqNum && this.msgLen == msgLen
      ensures forall k: nat :: k < msgLen ==> !Has(k)
    {
      this.typ, this.seqNum, this.msgLen := typ, seqNum, msgLen;
      var d := new byte[HM_HEADER_LENGTH + msgLen];
      var header := WholeHeader(typ, seqNum, msgLen);
      forall i | 0 <= i < HM_HEADER_LENGTH { d[i] := header[i]; }
      data := d;
      var mask: array?<byte> := null;
      if msgLen > 0 {
        mask := new byte[(msgLen + 7) / 8](_ => 0);
      }
      reassembly := mask;
      new;
      assert d[..HM_HEADER_LENGTH] == header;
      if msgLen > 0 {
        forall k: nat | k / 8 < mask.Length ensures !Marked(mask[..], k) { ZeroBits(k % 8); }
        assert !Marked(reassembly[..], 0);
      }
    }

    /** The message is complete exactly when the mask has been dropped. */
    lemma CompleteView()
      requires Valid()
      ensures Complete(View()) <==> reassembly == null
    {
      if reassembly != null {
        var missing: nat :| missing < msgLen && !Marked(reassembly[..], missing);
        assert missing !in View().got;
      } else {
        forall k: nat | k < msgLen ensures k in View().got { assert Has(k); }
      }
    }

    /** A complete message reads as one serialised fragment holding all of it. */
    lemma WholeMessage()
      requires Valid() && reassembly == null
      ensures var body := data[HM_HEADER_LENGTH..];
              && |body| == msgLen && |body| == View().msgLen
              && (forall k: nat :: k < |body| ==> k in View().got && body[k] == View().got[k])
              && data[..] == Serialize(Fragment(typ, |body|, seqNum, 0, body))
    {
      var body := data[HM_HEADER_LENGTH..];
      assert data[..] == data[..HM_HEADER_LENGTH] + body;
      assert data[..] == Serialize(Fragment(typ, |body|, seqNum, 0, body));
      forall k: nat | k < |body| ensures k in View().got && body[k] == View().got[k] { assert Has(k); }
    }

    /** The memcpy of a fragment into the message, then the mark. */
    method Deposit(off: nat, body: seq<byte>)
      requires Valid() && reassembly != null
      requires off + |body| <= msgLen
      modifies this`reassembly, data, reassembly
      ensures Valid() && Repr() <= old(Repr())
      ensures View() == Slot(typ, seqNum, msgLen, old(View().got) + Range(off, body))
    {
      hide Marked, TailClear, WholeHeader;
      ghost var mask := reassembly[..];
      ghost var before := View();
      forall k | 0 <= k < |body| {
        data[HM_HEADER_LENGTH + off + k] := body[k];
      }
      assert data[..HM_HEADER_LENGTH] == old(data[..HM_HEADER_LENGTH]);
      assert reassembly[..] == mask;
      Mark(off, off + |body|);
      ghost var got := before.got + Range(off, body);
      forall k: nat | k < msgLen
        ensures (k in View().got <==> k in got) && (k in got ==> View().got[k] == got[k])
      {
        assert Has(k) <==> old(Has(k)) || off <= k < off + |body|;
        if off <= k < off + |body| { assert k in Range(off, body); } else { assert k in got <==> k in before.got; }
      }
      assert View().got == got;
    }

    /** Marks octets start to end as received; the message is complete, and the mask is
        dropped, exactly when every octet has been marked. */
    method Mark(start: nat, end: nat)
      requires Valid() && reassembly != null
      requires start <= end <= msgLen
      modifies this`reassembly, reassembly
      ensures Valid()
      ensures reassembly == null || reassembly == old(reassembly)
      ensures forall k: nat :: k < msgLen ==> (Has(k) <==> old(Has(k)) || start <= k < end)
      ensures reassembly == null <==> forall k: nat :: k < msgLen ==> Has(k)
    {
      ghost var missing: nat :| missing < msgLen && !Marked(reassembly[..], missing);
      assert !Has(missing);
      if start == end {
        return;
      }
      ghost var base := reassembly[..];
      MarkRange(reassembly, start, end);
      MarkedTailClear(reassembly[..], base, start, end);
      var complete := ScanMask(reassembly, msgLen);
      ScanMeansAllMarked(reassembly[..], msgLen);
      if complete {
        reassembly := null;
      } else {
        ghost var k: nat :| k < msgLen && !Marked(reassembly[..], k);
        assert !Has(k);
      }
    }

    /** The or-ing half of dtls1_hm_fragment_mark. */
    static method MarkRange(mask: array<byte>, start: nat, end: nat)
      requires start < end <= 8 * mask.Length
      modifies mask
      ensures Adds(mask[..], old(mask[..]), start, end)
    {
      ghost var base := mask[..];
      if start / 8 == end / 8 {
        MarkFirst(mask, start / 8, start % 8, end % 8, base);
      } else {
        MarkFirst(mask, start / 8, start % 8, 8, base);
        var i := start / 8 + 1;
        while i < end / 8
          invariant start / 8 < i <= end / 8
          invariant Adds(mask[..], base, start, 8 * i)
        {
          FullByte(0xff);
          AddInByte(mask[..], base, start, 8 * i, i, 0xff, 0, 8);
          ghost var before := mask[..];
          mask[i] := 0xff;
          assert mask[..] == before[i := 0xff];
          i := i + 1;
        }
        if end % 8 != 0 {
          OrBitRange(mask[i], 0, end % 8);
          AddInByte(mask[..], base, start, 8 * i, i, Or(mask[i], BitRange(0, end % 8)), 0, end % 8);
          ghost var before := mask[..];
          mask[end / 8] := Or(mask[end / 8], BitRange(0, end % 8));
          assert mask[..] == before[i := mask[i]];
        }
      }
    }

    /** The completeness check that ends dtls1_hm_fragment_mark. */
    static method ScanMask(mask: array<byte>, msgLen: nat) returns (complete: bool)
      requires mask.Length == (msgLen + 7) / 8
      ensures complete <==> ScanComplete(mask[..], msgLen)
    {
      var i := 0;
      while i < msgLen / 8
        invariant i <= msgLen / 8
        invariant forall j: nat :: j < i ==> mask[j] == 0xff
      {
        if mask[i] != 0xff {
          return false;
        }
        i := i + 1;
      }
      complete := !(msgLen % 8 != 0 && mask[msgLen / 8] != BitRange(0, msgLen % 8));
    }

    /** The first octet of the mask the range touches. */
    static method MarkFirst(mask: array<byte>, i: nat, s: nat, e: nat, ghost base: seq<byte>)
      requires i < mask.Length && s <= e <= 8 && mask[..] == base
      modifies mask
      ensures Adds(mask[..], base, 8 * i + s, 8 * i + e)
    {
      OrBitRange(mask[i], s, e);
      AddInByte(base, base, 8 * i + s, 8 * i + s, i, Or(mask[i], BitRange(s, e)), s, e);
      mask[i] := Or(mask[i], BitRange(s, e));
      assert mask[..] == base[i := mask[i]];
    }

    static lemma MarkedTailClear(mask: seq<byte>, base: seq<byte>, start: nat, end: nat)
      requires Adds(mask, base, start, end)
      ensures forall n: nat :: TailClear(base, n) && end <= n ==> TailClear(mask, n)
    {
      forall n: nat, k: nat | TailClear(base, n) && end <= n && n <= k && k / 8 < |mask|
        ensures !Marked(mask, k)
      {
        assert !Marked(base, k);
      }
    }
  }
}
