/** The ring of incoming handshake messages of d1_both.cc: what each slot knows, and how
    one fragment changes it. */
module IncomingRing {
  import opened Bytes
  import opened HandshakeFragments
  import opened Reassembly

  const SSL_AD_UNEXPECTED_MESSAGE: nat := 10
  const SSL_AD_ILLEGAL_PARAMETER: nat := 47
  const SSL_AD_DECODE_ERROR: nat := 50
  const SSL_AD_INTERNAL_ERROR: nat := 80

  datatype Ring = Ring(slots: seq<Slot>, readSeq: nat)

  datatype Status = Ok | Fail(alert: nat)

  const EMPTY_RING := Ring([Empty, Empty, Empty, Empty, Empty, Empty, Empty], 0)

  /** A non-null slot i holds a message of the current flight whose number is i modulo 7. */
  ghost predicate RingInv(r: Ring) {
    && |r.slots| == SSL_MAX_HANDSHAKE_FLIGHT
    && forall i: nat :: i < SSL_MAX_HANDSHAKE_FLIGHT && r.slots[i].Slot? ==>
         var s := r.slots[i];
         && s.seqNum % SSL_MAX_HANDSHAKE_FLIGHT == i
         && r.readSeq <= s.seqNum < r.readSeq + SSL_MAX_HANDSHAKE_FLIGHT
         && s.seqNum < 0x1_0000 && s.msgLen < 0x100_0000
         && forall k :: k in s.got ==> k < s.msgLen
  }

  function Index(seqNum: nat): (i: nat)
    ensures i < SSL_MAX_HANDSHAKE_FLIGHT
  {
    seqNum % SSL_MAX_HANDSHAKE_FLIGHT
  }

  /** dtls1_get_incoming_message: finds or creates the slot for a fragment. */
  function GetIncoming(r: Ring, f: Fragment): (Ring, Status)
    requires |r.slots| == SSL_MAX_HANDSHAKE_FLIGHT
  {
    if f.seqNum < r.readSeq || f.seqNum - r.readSeq >= SSL_MAX_HANDSHAKE_FLIGHT then
      (r, Fail(SSL_AD_INTERNAL_ERROR))
    else
      var idx := Index(f.seqNum);
      var s := r.slots[idx];
      if s.Slot? then
        if s.typ != f.typ || s.msgLen != f.msgLen then (r, Fail(SSL_AD_ILLEGAL_PARAMETER)) else (r, Ok)
      else
        (r.(slots := r.slots[idx := Slot(f.typ, f.seqNum, f.msgLen, map[])]), Ok)
  }

  /** Stores the fragment's octets unless the message is already assembled. */
  function Store(r: Ring, f: Fragment): Ring
    requires |r.slots| == SSL_MAX_HANDSHAKE_FLIGHT
  {
    var idx := Index(f.seqNum);
    var s := r.slots[idx];
    if s.Empty? || Complete(s) then r
    else r.(slots := r.slots[idx := s.(got := s.got + Range(f.fragOff, f.body))])
  }

  /** One turn of the loop of dtls1_open_handshake. epochOne is r_epoch == 1. */
  function TakeFragment(r: Ring, f: Fragment, maxMsgLen: nat, epochOne: bool): (Ring, Status)
    requires |r.slots| == SSL_MAX_HANDSHAKE_FLIGHT
  {
    if f.fragOff > f.msgLen || f.fragOff + |f.body| > f.msgLen || f.msgLen > maxMsgLen then
      (r, Fail(SSL_AD_ILLEGAL_PARAMETER))
    else if epochOne && f.seqNum != r.readSeq then
      (r, Fail(SSL_AD_UNEXPECTED_MESSAGE))
    else if f.seqNum < r.readSeq || f.seqNum > r.readSeq + SSL_MAX_HANDSHAKE_FLIGHT then
      (r, Ok)
    else
      var (r', status) := GetIncoming(r, f);
      if status.Fail? then (r', status) else (Store(r', f), Ok)
  }

  lemma TakeFragmentShape(r: Ring, f: Fragment, maxMsgLen: nat, epochOne: bool)
    requires |r.slots| == SSL_MAX_HANDSHAKE_FLIGHT
    ensures |TakeFragment(r, f, maxMsgLen, epochOne).0.slots| == SSL_MAX_HANDSHAKE_FLIGHT
    ensures TakeFragment(r, f, maxMsgLen, epochOne).0.readSeq == r.readSeq
  {
  }

  /** Every fragment, well formed or not, keeps the ring invariant. */
  lemma TakeFragmentKeepsInv(r: Ring, f: Fragment, maxMsgLen: nat, epochOne: bool)
    requires RingInv(r) && Encodable(f)
    ensures RingInv(TakeFragment(r, f, maxMsgLen, epochOne).0)
  {
  }

  /** So the slot a fragment maps to is empty or holds the same message number: the assert
      on frag->seq never fails. */
  lemma SlotNumberMatches(r: Ring, f: Fragment)
    requires RingInv(r)
    requires r.readSeq <= f.seqNum < r.readSeq + SSL_MAX_HANDSHAKE_FLIGHT
    ensures var s := r.slots[Index(f.seqNum)]; s.Slot? ==> s.seqNum == f.seqNum
  {
  }

  /** The filter lets message number readSeq + 7 through, and the slot lookup then fails the
      connection; one further ahead is silently dropped. */
  lemma FutureBoundary(r: Ring, f: Fragment, maxMsgLen: nat)
    requires |r.slots| == SSL_MAX_HANDSHAKE_FLIGHT
    requires f.fragOff + |f.body| <= f.msgLen <= maxMsgLen
    ensures f.seqNum >= r.readSeq + SSL_MAX_HANDSHAKE_FLIGHT ==>
              TakeFragment(r, f, maxMsgLen, false) ==
              (r, if f.seqNum == r.readSeq + SSL_MAX_HANDSHAKE_FLIGHT then Fail(SSL_AD_INTERNAL_ERROR) else Ok)
  {
  }

  /** The fragment loop over one record; stops at the first bad fragment. */
  function TakeRecord(r: Ring, record: seq<byte>, maxMsgLen: nat, epochOne: bool): (res: (Ring, Status))
    requires |r.slots| == SSL_MAX_HANDSHAKE_FLIGHT
    ensures |res.0.slots| == SSL_MAX_HANDSHAKE_FLIGHT && res.0.readSeq == r.readSeq
    decreases |record|
  {
    if record == [] then (r, Ok)
    else match ParseFragment(record)
      case None => (r, Fail(SSL_AD_DECODE_ERROR))
      case Some((f, rest)) =>
        TakeFragmentShape(r, f, maxMsgLen, epochOne);
        SerializeParsed(record);
        var (r', status) := TakeFragment(r, f, maxMsgLen, epochOne);
        if status.Fail? then (r', status) else TakeRecord(r', rest, maxMsgLen, epochOne)
  }

  lemma {:induction false} TakeRecordKeepsInv(r: Ring, record: seq<byte>, maxMsgLen: nat, epochOne: bool)
    requires RingInv(r)
    ensures RingInv(TakeRecord(r, record, maxMsgLen, epochOne).0)
    decreases |record|
  {
    if record != [] && ParseFragment(record).Some? {
      var (f, rest) := ParseFragment(record).value;
      SerializeParsed(record);
      TakeFragmentKeepsInv(r, f, maxMsgLen, epochOne);
      var (r', status) := TakeFragment(r, f, maxMsgLen, epochOne);
      if status.Ok? { TakeRecordKeepsInv(r', rest, maxMsgLen, epochOne); }
    }
  }

  /** dtls1_next_message on the abstract ring. */
  function Advance(r: Ring): Ring
    requires |r.slots| == SSL_MAX_HANDSHAKE_FLIGHT
  {
    Ring(r.slots[Index(r.readSeq) := Empty], r.readSeq + 1)
  }

  lemma AdvanceKeepsInv(r: Ring)
    requires RingInv(r)
    ensures RingInv(Advance(r))
  {
  }

  /** incoming_messages and handshake_read_seq of DTLS1_STATE. */
  class IncomingMessages {
    const incoming: array<HmFragment?>
    var readSeq: nat
    ghost var Repr: set<object>

    ghost predicate Owns(i: nat)
      requires i < incoming.Length
      reads this, incoming, incoming[i], Repr
    {
      incoming[i] != null ==>
        && incoming[i].Repr() <= Repr
        && this !in incoming[i].Repr() && incoming !in incoming[i].Repr()
        && incoming[i].Valid()
    }

    ghost predicate Apart(i: nat, j: nat)
      requires i < incoming.Length && j < incoming.Length
      reads this, incoming, incoming[i], incoming[j]
    {
      incoming[i] != null && incoming[j] != null ==> incoming[i].Repr() !! incoming[j].Repr()
    }

    ghost predicate Shape()
      reads this, Repr
    {
      && this in Repr && incoming in Repr
      && incoming.Length == SSL_MAX_HANDSHAKE_FLIGHT
      && readSeq < 0x1_0000
      && (forall i: nat :: i < 7 && incoming[i] != null ==> incoming[i] in Repr)
      && (forall i: nat :: i < 7 ==> Owns(i))
      && (forall i: nat, j: nat :: i < 7 && j < 7 && i != j ==> Apart(i, j))
    }

    ghost function SlotView(i: nat): Slot
      requires Shape() && i < 7
      reads this, Repr
    {
      if incoming[i] == null then Empty
      else
        assert Owns(i);
        incoming[i].View()
    }

    ghost function View(): (r: Ring)
      requires Shape()
      reads this, Repr
      ensures |r.slots| == 7 && forall i: nat :: i < 7 ==> r.slots[i] == SlotView(i)
    {
      Ring(seq(7, i requires Shape() && 0 <= i < 7 reads this, Repr => SlotView(i)), readSeq)
    }

    ghost predicate Valid()
      reads this, Repr
    {
      Shape() && RingInv(View())
    }

    constructor ()
      ensures Valid() && fresh(Repr) && View() == EMPTY_RING
    {
      var slots := new HmFragment?[SSL_MAX_HANDSHAKE_FLIGHT](_ => null);
      incoming, readSeq := slots, 0;
      Repr := {this, slots};
    }

    /** Puts a new fragment into an empty slot. */
    method Insert(idx: nat, frag: HmFragment)
      requires Shape() && idx < 7 && incoming[idx] == null
      requires frag.Valid() && frag.Repr() !! Repr
      modifies this`Repr, incoming
      ensures Shape() && Repr == old(Repr) + frag.Repr() && incoming[idx] == frag
      ensures View() == old(View()).(slots := old(View()).slots[idx := frag.View()])
    {
      ghost var before := View();
      incoming[idx] := frag;
      Repr := Repr + frag.Repr();
      forall i: nat | i < 7 ensures Owns(i) {
        assert old(Owns(i));
      }
      forall i: nat, j: nat | i < 7 && j < 7 && i != j ensures Apart(i, j) {
        assert old(Owns(i)) && old(Owns(j)) && old(Apart(i, j));
      }
      assert Shape();
      forall i: nat | i < 7 && i != idx ensures SlotView(i) == old(SlotView(i)) {
        assert old(Owns(i));
      }
      assert View().slots == before.slots[idx := frag.View()];
    }

    /** dtls1_get_incoming_message. */
    method GetIncomingMessage(f: Fragment) returns (frag: HmFragment?, alert: nat)
      requires Valid() && Encodable(f)
      modifies this`Repr, incoming
      ensures Valid() && fresh(Repr - old(Repr))
      ensures (View(), if frag == null then Fail(alert) else Ok) == GetIncoming(old(View()), f)
      ensures frag != null ==> frag == incoming[Index(f.seqNum)] && frag.msgLen == f.msgLen
    {
      alert := 0;
      if f.seqNum < readSeq || f.seqNum - readSeq >= SSL_MAX_HANDSHAKE_FLIGHT {
        return null, SSL_AD_INTERNAL_ERROR;
      }
      var idx := f.seqNum % SSL_MAX_HANDSHAKE_FLIGHT;
      frag := incoming[idx];
      assert View().slots[idx] == SlotView(idx);
      if frag != null {
        assert Owns(idx);
        if frag.typ != f.typ || frag.msgLen != f.msgLen {
          return null, SSL_AD_ILLEGAL_PARAMETER;
        }
        return;
      }
      frag := new HmFragment(f.typ, f.seqNum, f.msgLen);
      assert frag.View() == Slot(f.typ, f.seqNum, f.msgLen, map[]);
      Insert(idx, frag);
    }

    /** One turn of the loop of dtls1_open_handshake: the range checks, the epoch check, the
        window filter, and then the copy and mark. */
    method TakeOne(f: Fragment, maxMsgLen: nat, epochOne: bool) returns (status: Status)
      requires Valid() && Encodable(f)
      modifies this, Repr
      ensures Valid() && fresh(Repr - old(Repr))
      ensures (View(), status) == TakeFragment(old(View()), f, maxMsgLen, epochOne)
    {
      if f.fragOff > f.msgLen || f.fragOff + |f.body| > f.msgLen || f.msgLen > maxMsgLen {
        return Fail(SSL_AD_ILLEGAL_PARAMETER);
      }
      if epochOne && f.seqNum != readSeq {
        return Fail(SSL_AD_UNEXPECTED_MESSAGE);
      }
      if f.seqNum < readSeq || f.seqNum > readSeq + SSL_MAX_HANDSHAKE_FLIGHT {
        return Ok;
      }
      hide Range, Encodable, RingInv;
      var frag, alert := GetIncomingMessage(f);
      if frag == null {
        return Fail(alert);
      }
      var idx := Index(f.seqNum);
      assert Owns(idx) && View().slots[idx] == SlotView(idx) == frag.View();
      frag.CompleteView();
      TakeFragmentKeepsInv(old(View()), f, maxMsgLen, epochOne);
      if frag.reassembly == null {
        return Ok;
      }
      DepositAt(idx, frag, f.fragOff, f.body);
      return Ok;
    }

    /** The memcpy into the fragment and the mark; no other slot is touched. */
    method DepositAt(idx: nat, frag: HmFragment, off: nat, body: seq<byte>)
      requires Shape() && idx < 7 && incoming[idx] == frag
      requires frag.Valid() && frag.reassembly != null
      requires off + |body| <= frag.msgLen
      modifies frag`reassembly, frag.data, frag.reassembly
      ensures Shape() && Repr == old(Repr)
      ensures var s := old(View()).slots[idx];
              s.Slot? && View() == old(View()).(slots := old(View()).slots[idx := s.(got := s.got + Range(off, body))])
    {
      ghost var before := View();
      assert Owns(idx) && before.slots[idx] == SlotView(idx) == frag.View();
      frag.Deposit(off, body);
      forall i: nat | i < 7 ensures Owns(i) {
        assert old(Owns(i));
        if i != idx { assert old(Apart(i, idx)); }
      }
      forall i: nat, j: nat | i < 7 && j < 7 && i != j ensures Apart(i, j) {
        assert old(Apart(i, j));
      }
      assert Shape();
      forall i: nat | i < 7 && i != idx ensures SlotView(i) == old(SlotView(i)) {
        assert old(Owns(i)) && old(Apart(i, idx));
      }
      assert View().slots == before.slots[idx := frag.View()];
    }

    /** The fragment loop over the body of one handshake record. */
    method TakeAll(record: seq<byte>, maxMsgLen: nat, epochOne: bool) returns (status: Status)
      requires Valid()
      modifies this, Repr
      ensures Valid() && fresh(Repr - old(Repr))
      ensures (View(), status) == TakeRecord(old(View()), record, maxMsgLen, epochOne)
    {
      var cbs := record;
      while cbs != []
        invariant Valid() && fresh(Repr - old(Repr))
        invariant TakeRecord(View(), cbs, maxMsgLen, epochOne) == TakeRecord(old(View()), record, maxMsgLen, epochOne)
        decreases |cbs|
      {
        var parsed := ParseFragment(cbs);
        if parsed.None? {
          return Fail(SSL_AD_DECODE_ERROR);
        }
        SerializeParsed(cbs);
        var (f, rest) := parsed.value;
        status := TakeOne(f, maxMsgLen, epochOne);
        if status.Fail? {
          return;
        }
        cbs := rest;
      }
      return Ok;
    }

    /** dtls1_is_current_message_complete. */
    method IsCurrentMessageComplete() returns (complete: bool)
      requires Valid()
      ensures complete <==> Complete(View().slots[Index(readSeq)])
    {
      var frag := incoming[readSeq % SSL_MAX_HANDSHAKE_FLIGHT];
      assert Owns(Index(readSeq)) && View().slots[Index(readSeq)] == SlotView(Index(readSeq));
      if frag != null { frag.CompleteView(); }
      complete := frag != null && frag.reassembly == null;
    }

    /** dtls1_get_message: type, body and the whole serialised message. */
    method GetMessage() returns (msg: Option<(byte, seq<byte>, seq<byte>)>)
      requires Valid()
      ensures msg.Some? <==> Complete(View().slots[Index(readSeq)])
      ensures msg.Some? ==>
                var (typ, body, raw) := msg.value;
                var s := View().slots[Index(readSeq)];
                && s.typ == typ && s.seqNum == readSeq && |body| == s.msgLen
                && (forall k: nat :: k < |body| ==> k in s.got && body[k] == s.got[k])
                && Encodable(Fragment(typ, |body|, readSeq, 0, body))
                && raw == Serialize(Fragment(typ, |body|, readSeq, 0, body))
    {
      var complete := IsCurrentMessageComplete();
      if !complete {
        return None;
      }
      ghost var idx := Index(readSeq);
      var frag := incoming[readSeq % SSL_MAX_HANDSHAKE_FLIGHT];
      assert Owns(idx) && View().slots[idx] == SlotView(idx) == frag.View();
      frag.CompleteView();
      frag.WholeMessage();
      return Some((frag.typ, frag.data[HM_HEADER_LENGTH..], frag.data[..]));
    }

    /** dtls1_next_message: drops the current message. */
    method NextMessage()
      requires Valid() && readSeq < 0xffff
      requires Complete(View().slots[Index(readSeq)])
      modifies this`readSeq, incoming
      ensures Valid() && Repr == old(Repr)
      ensures View() == Advance(old(View()))
    {
      ghost var before := View();
      ghost var idx := Index(readSeq);
      var index := readSeq % SSL_MAX_HANDSHAKE_FLIGHT;
      incoming[index] := null;
      readSeq := readSeq + 1;
      forall i: nat | i < 7 ensures Owns(i) {
        assert old(Owns(i));
      }
      forall i: nat, j: nat | i < 7 && j < 7 && i != j ensures Apart(i, j) {
        assert old(Apart(i, j));
      }
      assert Shape();
      forall i: nat | i < 7 && i != idx ensures SlotView(i) == old(SlotView(i)) {
        assert old(Owns(i));
      }
      assert View().slots == before.slots[idx := Empty];
      AdvanceKeepsInv(before);
    }

    /** The slot loop of dtls_has_unprocessed_handshake_data. */
    method HasBufferedMessage(hasMessage: bool) returns (found: bool)
      requires Valid()
      ensures found <==> exists i: nat :: i < 7 && View().slots[i].Slot? && !(hasMessage && i == Index(readSeq))
    {
      var current := readSeq % SSL_MAX_HANDSHAKE_FLIGHT;
      for i := 0 to SSL_MAX_HANDSHAKE_FLIGHT
        invariant forall j: nat :: j < i ==> View().slots[j].Empty? || (hasMessage && j == current)
      {
        if hasMessage && i == current {
          continue;
        }
        assert View().slots[i] == SlotView(i);
        if incoming[i] != null {
          return true;
        }
      }
      return false;
    }
  }
}
