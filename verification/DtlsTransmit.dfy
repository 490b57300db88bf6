/** One whole transmission of a flight over a transport that takes every datagram, and when it
    gets to its end. */
module DtlsTransmit {
  import opened Bytes
  import opened HandshakeFragments
  import opened DtlsRecord
  import opened DtlsSender

  lemma NextPacketTiles(s: Sender, maxOut: nat)
    requires SenderOk(s) && Resting(s) && s.written < |s.msgs|
    ensures var (s', packed) := SealNextPacket(s, maxOut);
            && SenderOk(s') && SameQueue(s, s') && Resting(s')
            && (packed.Packed? ==>
                  && (forall i :: 0 <= i < |packed.recs| ==> SentOk(packed.recs[i]))
                  && |WireAll(packed.recs)| <= maxOut
                  && Tiles(packed.recs, s.msgs, s.written, s.offset, s'.written, s'.offset)
                  && (s'.written > s.written || (s'.written == s.written && OctetsLeft(s') < OctetsLeft(s))))
  {
    hide SealNextMessage, Body, Tiles, Wire, SentOk;
    PackTiles(s, maxOut);
  }

  /** The datagrams of a transmission from where the flight stands, nothing if one of them cannot
      be built. */
  function Transmit(s: Sender, mtu: nat): (Sender, Option<seq<seq<Sent>>>)
    requires SenderOk(s) && Resting(s)
    decreases |s.msgs| - s.written, OctetsLeft(s)
  {
    if s.written == |s.msgs| then (s, Some([]))
    else
      NextPacketTiles(s, mtu);
      var (s', packed) := SealNextPacket(s, mtu);
      if packed.PackError? then (s', None)
      else
        var (s'', more) := Transmit(s', mtu);
        (s'', if more.None? then None else Some([packed.recs] + more.value))
  }

  /** The datagrams of packets ahead of more. */
  function Behind(packets: seq<seq<Sent>>, more: Option<seq<seq<Sent>>>): Option<seq<seq<Sent>>> {
    if more.None? then None else Some(packets + more.value)
  }

  lemma BehindNone(more: Option<seq<seq<Sent>>>)
    ensures Behind([], more) == more
  {
    if more.Some? { assert [] + more.value == more.value; }
  }

  /** One datagram more, or none. */
  lemma TransmitNext(s: Sender, mtu: nat, packets: seq<seq<Sent>>)
    requires SenderOk(s) && Resting(s) && s.written < |s.msgs|
    ensures var (s', packed) := SealNextPacket(s, mtu);
            && (packed.PackError? ==> Transmit(s, mtu).1.None?)
            && (packed.Packed? ==>
                  && SenderOk(s') && Resting(s') && Transmit(s, mtu).0 == Transmit(s', mtu).0
                  && Behind(packets, Transmit(s, mtu).1) == Behind(packets + [packed.recs], Transmit(s', mtu).1))
  {
    hide SealNextPacket, Body, Tiles, WireAll, SentOk, Resting, SenderOk;
    NextPacketTiles(s, mtu);
    var (s', packed) := SealNextPacket(s, mtu);
    if packed.Packed? {
      var more := Transmit(s', mtu).1;
      if more.Some? { assert packets + ([packed.recs] + more.value) == packets + [packed.recs] + more.value; }
    }
  }

  lemma TransmitEnds(s: Sender, mtu: nat, packets: seq<seq<Sent>>)
    requires SenderOk(s) && Resting(s) && s.written == |s.msgs|
    ensures Transmit(s, mtu).0 == s && Behind(packets, Transmit(s, mtu).1) == Some(packets)
  {
    assert packets + [] == packets;
  }

  // --------------------------------------------------------------------- progress

  /** The most records it takes to send messages i and up. */
  function RecordsFrom(msgs: seq<OutMsg>, i: nat): nat
    requires i <= |msgs|
    decreases |msgs| - i
  {
    if i == |msgs| then 0 else |Body(msgs[i])| + 1 + RecordsFrom(msgs, i + 1)
  }

  function RecordsLeft(s: Sender): int
    requires s.written <= |s.msgs|
  {
    RecordsFrom(s.msgs, s.written) - s.offset
  }

  /** The keys of message m are held and it is well formed. */
  predicate Sendable(s: Sender, m: OutMsg) {
    UsePrevious(s, m).Some? && (m.isCcs || Stored(m).Some?)
  }

  /** Nothing stands in the way of sealing what is left: the ciphers keep to their overhead, every
      message can be sent, and the counters are far enough from their last value. */
  ghost predicate Sealable(s: Sender) {
    && SenderOk(s) && Resting(s) && AeadsOk(s)
    && (forall k :: s.written <= k < |s.msgs| ==> Sendable(s, s.msgs[k]))
    && s.w.writeSeq + RecordsLeft(s) < SEQ_LIMIT && s.w.lastSeq + RecordsLeft(s) < SEQ_LIMIT
  }

  /** A datagram has room for one octet of a message under either key, and one record fills it. */
  predicate MtuOk(s: Sender, mtu: nat) {
    && HM_HEADER_LENGTH + 1 + MaxSealOverhead(s.w, false) <= mtu
    && HM_HEADER_LENGTH + 1 + MaxSealOverhead(s.w, true) <= mtu
    && mtu <= DTLS1_RT_HEADER_LENGTH + 0xffff
  }

  /** A record that keeps to the overhead of its cipher is sealed. */
  lemma SealsWithin(s: Sender, previous: bool, room: nat, content: Content)
    requires SenderOk(s) && AeadsOk(s) && (previous ==> s.w.wEpoch >= 1)
    requires |content.plain| + MaxSealOverhead(s.w, previous) <= room <= DTLS1_RT_HEADER_LENGTH + 0xffff
    requires UsedSeq(s.w, previous) + 1 < SEQ_LIMIT
    ensures var (s', rec) := SealAs(s, previous, room, content);
            && rec.Some? && s'.w == Bump(s.w, previous) && s' == s.(w := s'.w)
  {
    hide WireRecord;
    assert |Ciphertext(s.w, previous, content.typ, content.plain)| <= |content.plain| + UsedAead(s.w, previous).maxOverhead;
  }

  lemma PlansWithin(s: Sender, room: nat)
    requires Sealable(s) && s.written < |s.msgs|
    ensures var plan := PlanNext(s, room);
            && !plan.Refuse? && (MtuOk(s, room) ==> !plan.NoRoom?)
  {
    hide Serialize, Stored, RecordsFrom;
    assert Sendable(s, s.msgs[s.written]);
  }

  lemma RecordsAhead(s: Sender)
    requires Resting(s) && s.written < |s.msgs|
    ensures RecordsLeft(s) >= 1 + RecordsFrom(s.msgs, s.written + 1)
  {
  }

  /** Sealing moves no counter by more than one. */
  lemma BumpByOne(w: WriteState, previous: bool)
    requires WriteStateOk(w) && UsedSeq(w, previous) + 1 < SEQ_LIMIT
    ensures var w' := Bump(w, previous); w'.writeSeq <= w.writeSeq + 1 && w'.lastSeq <= w.lastSeq + 1
  {
  }

  lemma SealableMeans(s: Sender)
    requires Sealable(s)
    ensures SenderOk(s) && Resting(s) && AeadsOk(s) && s.written <= |s.msgs|
    ensures s.written < |s.msgs| ==>
              && s.w.writeSeq + 1 + RecordsFrom(s.msgs, s.written + 1) < SEQ_LIMIT
              && s.w.lastSeq + 1 + RecordsFrom(s.msgs, s.written + 1) < SEQ_LIMIT
  {
    hide AeadsOk;
    if s.written < |s.msgs| { RecordsAhead(s); }
  }

  /** One record of a plan that fits is sealed, and moves no counter by more than one. */
  lemma PlannedSeals(s: Sender, previous: bool, room: nat, content: Content)
    requires SenderOk(s) && AeadsOk(s) && (previous ==> s.w.wEpoch >= 1)
    requires |content.plain| + MaxSealOverhead(s.w, previous) <= room <= DTLS1_RT_HEADER_LENGTH + 0xffff
    requires s.w.writeSeq + 1 < SEQ_LIMIT && s.w.lastSeq + 1 < SEQ_LIMIT
    ensures var (s', rec) := SealAs(s, previous, room, content);
            rec.Some? && s'.w.writeSeq <= s.w.writeSeq + 1 && s'.w.lastSeq <= s.w.lastSeq + 1
  {
    SealsWithin(s, previous, room, content);
    BumpByOne(s.w, previous);
    hide *;
  }

  lemma NextSealed(s: Sender, room: nat)
    requires Sealable(s) && s.written < |s.msgs| && room <= DTLS1_RT_HEADER_LENGTH + 0xffff
    ensures var (s', sealed) := SealNextMessage(s, room);
            && !sealed.SealError? && (MtuOk(s, room) ==> !sealed.NoProgress?) && (sealed.NoProgress? ==> s' == s)
            && s'.w.writeSeq <= s.w.writeSeq + 1 && s'.w.lastSeq <= s.w.lastSeq + 1
  {
    hide Sealable, Serialize, Stored, SealAs, PlanNext, IsPiece, MtuOk, AeadsOk, SenderOk, Resting, MaxSealOverhead, RecordsFrom;
    SealableMeans(s);
    PlansWithin(s, room);
    PlanFits(s, room);
    match PlanNext(s, room)
    case Refuse =>
    case NoRoom =>
    case SendCcs(previous) =>
      PlannedSeals(s, previous, room, CcsContent(s.written));
    case SendPiece(previous, frag) =>
      PieceEncodable(s.msgs[s.written], frag);
      SerializeLength(frag);
      PlannedSeals(s, previous, room, PieceContent(s.written, frag));
  }

  /** A later state of the same queue, with fewer records to go and counters not much further. */
  lemma StaysSealable(s: Sender, s': Sender)
    requires Sealable(s) && s.written < |s.msgs| && SenderOk(s') && SameQueue(s, s') && Resting(s')
    requires s.written <= s'.written && RecordsLeft(s') < RecordsLeft(s)
    requires s'.w.writeSeq <= s.w.writeSeq + 1 && s'.w.lastSeq <= s.w.lastSeq + 1
    ensures Sealable(s')
  {
    hide RecordsLeft, Resting, SenderOk, Stored;
    forall k | s'.written <= k < |s'.msgs| ensures Sendable(s', s'.msgs[k]) {
      assert Sendable(s, s.msgs[k]);
    }
  }

  lemma FewerLeft(s: Sender, s': Sender)
    requires s'.msgs == s.msgs && s.written < |s.msgs| && Resting(s) && s'.written <= |s.msgs|
    requires (s'.written == s.written && s.offset < s'.offset) || (s'.written == s.written + 1 && s'.offset == 0)
    ensures RecordsLeft(s') < RecordsLeft(s)
  {
    hide Body;
  }

  lemma NextSealable(s: Sender, room: nat)
    requires Sealable(s) && s.written < |s.msgs| && room <= DTLS1_RT_HEADER_LENGTH + 0xffff
    ensures SenderOk(s)
    ensures var (s', sealed) := SealNextMessage(s, room);
            && !sealed.SealError? && (MtuOk(s, room) ==> !sealed.NoProgress?) && s'.msgs == s.msgs
            && Sealable(if sealed.Whole? then s'.(written := s.written + 1) else s')
  {
    hide SealNextMessage, MtuOk, Tiles, Wire, SentOk, Body, Sealable, RecordsLeft, AeadsOk;
    SealableMeans(s);
    NextSealed(s, room);
    SealNextShape(s, room);
    SealNextTiles(s, room);
    var (s', sealed) := SealNextMessage(s, room);
    if sealed.Whole? {
      var s1 := s'.(written := s.written + 1);
      FewerLeft(s, s1);
      StaysSealable(s, s1);
    } else if sealed.Part? {
      FewerLeft(s, s');
      StaysSealable(s, s');
    }
  }

  lemma {:induction false} PackSealable(s: Sender, room: nat)
    requires Sealable(s) && room <= DTLS1_RT_HEADER_LENGTH + 0xffff
    ensures SenderOk(s)
    ensures var (s', packed) := Pack(s, room);
            packed.Packed? && Sealable(s') && (s.written < |s.msgs| && MtuOk(s, room) ==> packed.recs != [])
    decreases |s.msgs| - s.written
  {
    hide SealNextMessage, MtuOk, Wire, SentOk, Sealable, AeadsOk, SenderOk, Pack, Resting, SameQueue, RecordsFrom;
    SealableMeans(s);
    PrependNone(Pack(s, room).1);
    PackStops(s, room, []);
    if s.written < |s.msgs| {
      NextSealable(s, room);
      SealNextShape(s, room);
      var (s', sealed) := SealNextMessage(s, room);
      if sealed.Whole? {
        PackWhole(s, room, []);
        PackSealable(s'.(written := s.written + 1), room - |Wire(sealed.rec)|);
      }
    }
  }

  /** Where nothing stands in the way the whole flight can be built into datagrams. */
  lemma {:induction false} TransmitSucceeds(s: Sender, mtu: nat)
    requires Sealable(s) && MtuOk(s, mtu)
    ensures Transmit(s, mtu).1.Some?
    decreases |s.msgs| - s.written, OctetsLeft(s)
  {
    hide Pack, Sealable, Body, Tiles, WireAll, SentOk, AeadsOk, OctetsLeft;
    SealableMeans(s);
    if s.written < |s.msgs| {
      NextPacketTiles(s, mtu);
      PackSealable(s, mtu);
      OctetsLeftNat(s);
      TransmitSucceeds(SealNextPacket(s, mtu).0, mtu);
    }
  }

  lemma OctetsLeftNat(s: Sender)
    requires Resting(s)
    ensures OctetsLeft(s) >= 0
  {
  }
}
