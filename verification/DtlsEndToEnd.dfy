/** A sender, a network that loses, duplicates and reorders datagrams, and a receiver.
    Every step is one the two halves take on their own; the network is the set of datagrams
    ever sent, and a delivery picks any of them, any number of times. */
module DtlsEndToEnd {
  import opened Bytes
  import opened HandshakeFragments
  import opened Reassembly
  import opened IncomingRing
  import opened ReplayWindow
  import opened DtlsRecord
  import opened DtlsSender
  import opened DtlsFlight
  import opened DtlsReader

  /** The keys of each epoch: what the sender seals with and the receiver opens with. */
  datatype Keys = Keys(sealing: nat -> Aead, opening: nat -> Aead)

  ghost predicate KeysOk(keys: Keys) {
    && (forall e: nat :: keys.sealing(e).recordVersion < 0x1_0000)
    && (forall e: nat :: Opens(keys.sealing(e), keys.opening(e)))
  }

  /** queued lists the messages by number; handedUp those the receiver has consumed. */
  datatype World = World(
    sender: Sender,
    queued: seq<(byte, seq<byte>)>,
    network: set<seq<Sent>>,
    reader: Reader,
    handedUp: seq<(byte, seq<byte>)>)

  datatype Step =
    | QueueMessage(typ: byte, body: seq<byte>)
    | QueueCcs
    | BeginFlush
    | SendPacket(maxOut: nat, accepted: bool)
    | Rewind
    | NewWriteEpoch
    | Deliver(datagram: seq<Sent>, from: nat, maxMsgLen: nat)
    | ConsumeMessage
    | NewReadEpoch

  /** What the source asks of each call, and that the 16-bit counters do not wrap. */
  ghost predicate Enabled(x: World, step: Step)
    requires |x.reader.ring.slots| == SSL_MAX_HANDSHAKE_FLIGHT
  {
    match step
    case QueueMessage(typ, body) => |body| < 0x100_0000 && x.sender.writeSeq < 0xffff
    case SendPacket(_, _) => x.sender.written < |x.sender.msgs|
    case NewWriteEpoch => x.sender.w.wEpoch + 1 < EPOCH_LIMIT
    case Deliver(datagram, from, _) =>
      datagram in x.network && from <= |datagram| && forall i :: 0 <= i < |datagram| ==> SentOk(datagram[i])
    case ConsumeMessage => Current(x.reader) && x.reader.ring.readSeq < 0xffff
    case NewReadEpoch => x.reader.rEpoch + 1 < EPOCH_LIMIT
    case _ => true
  }

  /** The message dtls1_get_message reads out of the current slot. */
  function CurrentMessage(r: Reader): (byte, seq<byte>)
    requires |r.ring.slots| == SSL_MAX_HANDSHAKE_FLIGHT && Current(r)
  {
    var s := r.ring.slots[Index(r.ring.readSeq)];
    (s.typ, seq(s.msgLen, k requires 0 <= k < s.msgLen => s.got[k]))
  }

  ghost function Next(keys: Keys, x: World, step: Step): World
    requires SenderOk(x.sender) && |x.reader.ring.slots| == SSL_MAX_HANDSHAKE_FLIGHT && Enabled(x, step)
  {
    match step
    case QueueMessage(typ, body) =>
      var data := Serialize(Fragment(typ, |body|, x.sender.writeSeq, 0, body));
      var (s, ok) := Added(x.sender, false, data);
      x.(sender := s, queued := if ok then x.queued + [(typ, body)] else x.queued)
    case QueueCcs => x.(sender := Added(x.sender, true, []).0)
    case BeginFlush => x.(sender := x.sender.(complete := true))
    case SendPacket(maxOut, accepted) =>
      var (s, packed) := SealNextPacket(x.sender, maxOut);
      if packed.PackError? then x.(sender := s)
      else if accepted then x.(sender := s, network := x.network + {packed.recs})
      else x.(sender := s.(written := x.sender.written, offset := x.sender.offset))
    case Rewind => x.(sender := x.sender.(written := 0, offset := 0))
    case NewWriteEpoch => x.(sender := x.sender.(w := AfterChange(x.sender.w, keys.sealing(x.sender.w.wEpoch + 1))))
    case Deliver(datagram, from, maxMsgLen) =>
      var rest := datagram[from..];
      assert forall i :: 0 <= i < |rest| ==> rest[i] == datagram[from + i];
      x.(reader := OpenHandshake(x.reader, WireAll(rest), maxMsgLen).0)
    case ConsumeMessage =>
      x.(reader := DtlsReader.Next(x.reader), handedUp := x.handedUp + [CurrentMessage(x.reader)])
    case NewReadEpoch => x.(reader := ChangeReadState(x.reader, keys.opening(x.reader.rEpoch + 1)).0)
  }

  function Init(keys: Keys): World {
    World(Sender(WriteState(0, 0, 0, keys.sealing(0), keys.sealing(0)), [], 0, 0, false, false, 0), [], {},
          Reader(EMPTY_RING, EMPTY_WINDOW, 0, keys.opening(0), false, false), [])
  }

  // ------------------------------------------------------------------ invariant

  /** The fragment is a piece of a queued message. */
  predicate Genuine(f: Fragment, queued: seq<(byte, seq<byte>)>) {
    && Encodable(f) && f.seqNum < |queued|
    && var (typ, body) := queued[f.seqNum];
    && f.typ == typ && f.msgLen == |body|
    && f.fragOff + |f.body| <= |body|
    && f.body == body[f.fragOff..f.fragOff + |f.body|]
  }

  /** The record is sealed under its epoch's key and carries a piece of a queued message or
      a ChangeCipherSpec. */
  ghost predicate RecordGenuine(keys: Keys, r: Sent, queued: seq<(byte, seq<byte>)>) {
    && SentOk(r)
    && r.ciphertext == keys.sealing(r.epoch).seal(r.content.typ, r.version, Sequence(r.epoch, r.num), r.content.plain)
    && if r.content.isCcs then r.content.typ == SSL3_RT_CHANGE_CIPHER_SPEC
       else r.content.typ == SSL3_RT_HANDSHAKE
            && exists f: Fragment :: Genuine(f, queued) && r.content.plain == Serialize(f)
  }

  ghost predicate SenderInv(keys: Keys, s: Sender, queued: seq<(byte, seq<byte>)>) {
    && SenderOk(s) && Resting(s)
    && |queued| == s.writeSeq
    && (forall i :: 0 <= i < |s.msgs| && Stored(s.msgs[i]).Some? && !s.msgs[i].isCcs ==>
          Genuine(Stored(s.msgs[i]).value, queued))
    && s.w.aead == keys.sealing(s.w.wEpoch)
    && (s.w.wEpoch >= 1 ==> s.w.lastAead == keys.sealing(s.w.wEpoch - 1))
  }

  ghost predicate SlotGenuine(s: Slot, queued: seq<(byte, seq<byte>)>) {
    s.Slot? ==>
      && s.seqNum < |queued|
      && var (typ, body) := queued[s.seqNum];
      && s.typ == typ && s.msgLen == |body|
      && forall k :: k in s.got ==> k < |body| && s.got[k] == body[k]
  }

  ghost predicate RingGenuine(r: Ring, queued: seq<(byte, seq<byte>)>) {
    forall i :: 0 <= i < |r.slots| ==> SlotGenuine(r.slots[i], queued)
  }

  ghost predicate Inv(keys: Keys, x: World) {
    && SenderInv(keys, x.sender, x.queued)
    && (forall d, i :: d in x.network && 0 <= i < |d| ==> RecordGenuine(keys, d[i], x.queued))
    && ReaderInv(x.reader) && x.reader.aead == keys.opening(x.reader.rEpoch)
    && RingGenuine(x.reader.ring, x.queued)
    && x.reader.ring.readSeq <= |x.queued|
    && x.handedUp == x.queued[..x.reader.ring.readSeq]
  }

  lemma InitInv(keys: Keys)
    requires KeysOk(keys)
    ensures Inv(keys, Init(keys))
  {
  }

  // ---------------------------------------------------------------- the receiver

  /** A piece of a queued message keeps every slot equal to the message it is for. */
  lemma TakeGenuine(r: Ring, f: Fragment, queued: seq<(byte, seq<byte>)>, maxMsgLen: nat, epochOne: bool)
    requires RingInv(r) && RingGenuine(r, queued) && Genuine(f, queued)
    ensures RingGenuine(TakeFragment(r, f, maxMsgLen, epochOne).0, queued)
  {
    var r' := TakeFragment(r, f, maxMsgLen, epochOne).0;
    var (typ, body) := queued[f.seqNum];
    if r.readSeq <= f.seqNum < r.readSeq + SSL_MAX_HANDSHAKE_FLIGHT { SlotNumberMatches(r, f); }
    forall i | 0 <= i < |r'.slots| ensures SlotGenuine(r'.slots[i], queued) {
      assert SlotGenuine(r.slots[i], queued);
    }
  }

  lemma TakeSerialized(r: Ring, f: Fragment, maxMsgLen: nat, epochOne: bool)
    requires |r.slots| == SSL_MAX_HANDSHAKE_FLIGHT && Encodable(f)
    ensures TakeRecord(r, Serialize(f), maxMsgLen, epochOne) == TakeFragment(r, f, maxMsgLen, epochOne)
  {
    hide Serialize, TakeFragment;
    ParseSerialized(f, []);
    SerializeLength(f);
    assert Serialize(f) + [] == Serialize(f);
    TakeFragmentShape(r, f, maxMsgLen, epochOne);
    var (r', status) := TakeFragment(r, f, maxMsgLen, epochOne);
    assert TakeRecord(r', [], maxMsgLen, epochOne) == (r', Ok);
  }

  /** Opening a genuine record yields what was sealed, or nothing. */
  lemma OpenGenuine(keys: Keys, r: Reader, rec: Sent, rest: seq<byte>, queued: seq<(byte, seq<byte>)>)
    requires KeysOk(keys) && RecordGenuine(keys, rec, queued)
    requires r.aead == keys.opening(r.rEpoch)
    ensures var unsealed := OpenRecord(r, Wire(rec) + rest).1;
            unsealed.Record? ==> unsealed.typ == rec.content.typ && unsealed.plain == rec.content.plain
  {
    hide WireRecord, ParseRecord, Discards, ReplayWindow.Record, VersionOk;
    var sequence := Sequence(rec.epoch, rec.num);
    ParseWireRecord(rec.content.typ, rec.version, sequence, rec.ciphertext, rest);
    U16RoundTrip(rec.epoch, U48(rec.num));
    assert GetU16(sequence) == rec.epoch;
    if rec.epoch == r.rEpoch {
      assert Opens(keys.sealing(rec.epoch), r.aead);
      assert r.aead.open(rec.content.typ, rec.version, sequence, rec.ciphertext) == Some(rec.content.plain);
    }
  }

  lemma DeliverKeepsInv(keys: Keys, r: Reader, recs: seq<Sent>, queued: seq<(byte, seq<byte>)>, maxMsgLen: nat)
    requires KeysOk(keys) && forall i :: 0 <= i < |recs| ==> RecordGenuine(keys, recs[i], queued)
    requires ReaderInv(r) && r.aead == keys.opening(r.rEpoch) && RingGenuine(r.ring, queued)
    requires forall i :: 0 <= i < |recs| ==> SentOk(recs[i])
    ensures var r' := OpenHandshake(r, WireAll(recs), maxMsgLen).0;
            && ReaderInv(r') && r'.aead == r.aead && r'.rEpoch == r.rEpoch && r'.ring.readSeq == r.ring.readSeq
            && RingGenuine(r'.ring, queued)
  {
    assert |r.ring.slots| == SSL_MAX_HANDSHAKE_FLIGHT;
    hide OpenRecord, OpenHandshake, TakeRecord, WireAll, TakeFragment, RingGenuine, Serialize, RingInv, KeysOk, RecordGenuine, SentOk;
    var input := WireAll(recs);
    OpenKeepsInv(r, input, maxMsgLen);
    HandshakeRing(r, input, maxMsgLen);
    var unsealed := OpenRecord(r, input).1;
    if unsealed.Record? && unsealed.typ == SSL3_RT_HANDSHAKE {
      var f := OpenedPiece(keys, r, recs, queued);
      TakeSerialized(r.ring, f, maxMsgLen, r.rEpoch == 1);
      TakeGenuine(r.ring, f, queued, maxMsgLen, r.rEpoch == 1);
    }
  }

  /** A handshake record that opens holds a piece of a queued message. */
  lemma OpenedPiece(keys: Keys, r: Reader, recs: seq<Sent>, queued: seq<(byte, seq<byte>)>) returns (f: Fragment)
    requires KeysOk(keys) && forall i :: 0 <= i < |recs| ==> RecordGenuine(keys, recs[i], queued)
    requires forall i :: 0 <= i < |recs| ==> SentOk(recs[i])
    requires r.aead == keys.opening(r.rEpoch)
    requires var unsealed := OpenRecord(r, WireAll(recs)).1; unsealed.Record? && unsealed.typ == SSL3_RT_HANDSHAKE
    ensures Genuine(f, queued) && OpenRecord(r, WireAll(recs)).1.plain == Serialize(f)
  {
    hide OpenRecord, Wire, Serialize;
    if recs == [] {
      OpenNothing(r);
      assert false;
    }
    var rec := recs[0];
    assert RecordGenuine(keys, rec, queued);
    OpenGenuine(keys, r, rec, WireAll(recs[1..]), queued);
    f :| Genuine(f, queued) && rec.content.plain == Serialize(f);
  }

  /** Only a handshake record touches the ring. */
  lemma HandshakeRing(r: Reader, input: seq<byte>, maxMsgLen: nat)
    requires |r.ring.slots| == SSL_MAX_HANDSHAKE_FLIGHT
    ensures var r' := OpenHandshake(r, input, maxMsgLen).0;
            var unsealed := OpenRecord(r, input).1;
            && r'.aead == r.aead && r'.rEpoch == r.rEpoch && r'.ring.readSeq == r.ring.readSeq
            && r'.ring == if unsealed.Record? && unsealed.typ == SSL3_RT_HANDSHAKE
                          then TakeRecord(r.ring, unsealed.plain, maxMsgLen, r.rEpoch == 1).0 else r.ring
  {
    hide OpenRecord, TakeRecord;
  }

  lemma OpenNothing(r: Reader)
    ensures OpenRecord(r, []).1 == Partial
  {
  }

  /** The current message, once complete, is the queued one of that number. */
  lemma CurrentIsQueued(keys: Keys, x: World)
    requires Inv(keys, x) && Current(x.reader)
    ensures x.reader.ring.readSeq < |x.queued|
    ensures CurrentMessage(x.reader) == x.queued[x.reader.ring.readSeq]
  {
    var s := x.reader.ring.slots[Index(x.reader.ring.readSeq)];
    assert SlotGenuine(s, x.queued);
    assert s.seqNum == x.reader.ring.readSeq;
    var (typ, body) := x.queued[s.seqNum];
    assert CurrentMessage(x.reader).1 == body;
  }

  // ------------------------------------------------------------------ the sender

  /** Queueing one more message leaves every earlier piece genuine. */
  lemma GenuineGrows(f: Fragment, queued: seq<(byte, seq<byte>)>, m: (byte, seq<byte>))
    requires Genuine(f, queued)
    ensures Genuine(f, queued + [m])
  {
  }

  lemma QueueKeepsInv(keys: Keys, s: Sender, queued: seq<(byte, seq<byte>)>, typ: byte, body: seq<byte>)
    requires SenderInv(keys, s, queued) && |body| < 0x100_0000 && s.writeSeq < 0xffff
    ensures var f := Fragment(typ, |body|, s.writeSeq, 0, body);
            var (s', ok) := Added(s, false, Serialize(f));
            SenderInv(keys, s', if ok then queued + [(typ, body)] else queued)
  {
    hide Serialize, Body;
    var f := Fragment(typ, |body|, s.writeSeq, 0, body);
    var data := Serialize(f);
    var (s', ok) := Added(s, false, data);
    ParseSerialized(f, []);
    assert data + [] == data;
    if ok {
      var queued' := queued + [(typ, body)];
      var m := OutMsg(data, s.w.wEpoch, false);
      assert Stored(m) == Some(f);
      assert queued'[|queued|] == (typ, body) && body[0..|body|] == body;
      assert Genuine(f, queued');
      forall i | 0 <= i < |s'.msgs| && Stored(s'.msgs[i]).Some? && !s'.msgs[i].isCcs
        ensures Genuine(Stored(s'.msgs[i]).value, queued')
      {
        if i < |s'.msgs| - 1 {
          assert s'.msgs[i] == s.msgs[i];
          GenuineGrows(Stored(s.msgs[i]).value, queued, (typ, body));
        } else {
          assert s'.msgs[i] == m;
        }
      }
    }
  }

  /** Each packed record is sealed under the key of the epoch written in its header. */
  ghost predicate SealedUnder(keys: Keys, r: Sent) {
    && SentOk(r)
    && r.ciphertext == keys.sealing(r.epoch).seal(r.content.typ, r.version, Sequence(r.epoch, r.num), r.content.plain)
  }

  ghost predicate HoldsKeys(keys: Keys, s: Sender) {
    && s.w.aead == keys.sealing(s.w.wEpoch)
    && (s.w.wEpoch >= 1 ==> s.w.lastAead == keys.sealing(s.w.wEpoch - 1))
  }

  lemma SealNextSealed(keys: Keys, s: Sender, maxOut: nat)
    requires SenderOk(s) && s.written < |s.msgs| && HoldsKeys(keys, s)
    ensures var sealed := SealNextMessage(s, maxOut).1;
            sealed.Part? || sealed.Whole? ==> SealedUnder(keys, sealed.rec)
  {
    hide PlanNext, Wire, CcsContent, PieceContent, Serialize, IsPiece, WireRecord;
    SealNextShape(s, maxOut);
    PlanFits(s, maxOut);
    match PlanNext(s, maxOut)
    case Refuse =>
    case NoRoom =>
    case SendCcs(previous) =>
    case SendPiece(previous, frag) => PieceEncodable(s.msgs[s.written], frag);
  }

  lemma {:induction false} PackSealed(keys: Keys, s: Sender, maxOut: nat)
    requires SenderOk(s) && HoldsKeys(keys, s)
    ensures var packed := Pack(s, maxOut).1;
            packed.Packed? ==> forall i :: 0 <= i < |packed.recs| ==> SealedUnder(keys, packed.recs[i])
    decreases |s.msgs| - s.written
  {
    hide SealNextMessage, SealedUnder, Wire, SentOk;
    if s.written < |s.msgs| {
      SealNextShape(s, maxOut);
      SealNextSealed(keys, s, maxOut);
      var (s1, sealed) := SealNextMessage(s, maxOut);
      var packed := Pack(s, maxOut).1;
      if sealed.Whole? {
        var s2 := s1.(written := s.written + 1);
        PackSealed(keys, s2, maxOut - |Wire(sealed.rec)|);
        var more := Pack(s2, maxOut - |Wire(sealed.rec)|).1;
        if packed.Packed? {
          assert packed.recs == [sealed.rec] + more.recs;
          forall i | 0 <= i < |packed.recs| ensures SealedUnder(keys, packed.recs[i]) {
            if i > 0 { assert packed.recs[i] == more.recs[i - 1] && SealedUnder(keys, more.recs[i - 1]); }
          }
        }
      } else if sealed.Part? {
        assert packed.recs == [sealed.rec];
      } else if sealed.NoProgress? {
        assert packed.recs == [];
      }
    }
  }

  /** Every record of a tiling carries a piece of the message it names. */
  lemma {:induction false} TilesCarry(recs: seq<Sent>, msgs: seq<OutMsg>, idx: nat, off: nat, idx': nat, off': nat, i: nat)
    requires Tiles(recs, msgs, idx, off, idx', off') && i < |recs|
    ensures recs[i].content.idx < |msgs|
    ensures exists o: nat :: Carries(recs[i].content, msgs[recs[i].content.idx], o)
    decreases |recs|
  {
    hide Carries, Body;
    var c := recs[0].content;
    if i > 0 {
      if off + |c.piece| == |Body(msgs[idx])| {
        TilesCarry(recs[1..], msgs, idx + 1, 0, idx', off', i - 1);
      } else {
        TilesCarry(recs[1..], msgs, idx, off + |c.piece|, idx', off', i - 1);
      }
    }
  }

  lemma CarriesGenuine(keys: Keys, r: Sent, m: OutMsg, off: nat, queued: seq<(byte, seq<byte>)>)
    requires Carries(r.content, m, off) && SealedUnder(keys, r)
    requires Stored(m).Some? && !m.isCcs ==> Genuine(Stored(m).value, queued)
    ensures RecordGenuine(keys, r, queued)
  {
    hide Serialize, Stored;
    if !r.content.isCcs {
      var frag: Fragment :| IsPiece(m, frag) && Encodable(frag) && r.content == PieceContent(r.content.idx, frag);
      var (typ, body) := queued[Stored(m).value.seqNum];
      assert Stored(m).value.body == body[0..|body|] == body;
      assert Genuine(frag, queued);
    }
  }

  lemma PacketGenuine(keys: Keys, s: Sender, queued: seq<(byte, seq<byte>)>, maxOut: nat)
    requires SenderInv(keys, s, queued) && s.written < |s.msgs|
    ensures var (s', packed) := SealNextPacket(s, maxOut);
            && SenderInv(keys, s', queued)
            && SenderInv(keys, s'.(written := s.written, offset := s.offset), queued)
            && (packed.Packed? ==> forall i :: 0 <= i < |packed.recs| ==> RecordGenuine(keys, packed.recs[i], queued))
  {
    hide Pack, Tiles, Carries, SealedUnder, RecordGenuine, Body, Stored, SentOk, WireAll;
    var (s', packed) := SealNextPacket(s, maxOut);
    PackTiles(s, maxOut);
    PackSealed(keys, s, maxOut);
    if packed.Packed? {
      forall i | 0 <= i < |packed.recs| ensures RecordGenuine(keys, packed.recs[i], queued) {
        TilesCarry(packed.recs, s.msgs, s.written, s.offset, s'.written, s'.offset, i);
        var r := packed.recs[i];
        var o: nat :| Carries(r.content, s.msgs[r.content.idx], o);
        CarriesGenuine(keys, r, s.msgs[r.content.idx], o, queued);
      }
    }
  }

  // -------------------------------------------------------------------- the runs

  lemma GrowInv(keys: Keys, x: World, m: (byte, seq<byte>))
    requires Inv(keys, x)
    ensures forall d, i :: d in x.network && 0 <= i < |d| ==> RecordGenuine(keys, d[i], x.queued + [m])
    ensures RingGenuine(x.reader.ring, x.queued + [m])
    ensures x.handedUp == (x.queued + [m])[..x.reader.ring.readSeq]
  {
    var queued' := x.queued + [m];
    forall d: seq<Sent>, i: int | d in x.network && 0 <= i < |d| ensures RecordGenuine(keys, d[i], queued') {
      assert RecordGenuine(keys, d[i], x.queued);
      if !d[i].content.isCcs {
        var f: Fragment :| Genuine(f, x.queued) && d[i].content.plain == Serialize(f);
        GenuineGrows(f, x.queued, m);
      }
    }
    forall i | 0 <= i < |x.reader.ring.slots| ensures SlotGenuine(x.reader.ring.slots[i], queued') {
      assert SlotGenuine(x.reader.ring.slots[i], x.queued);
    }
  }

  /** Every step of either half and of the network keeps the invariant. */
  lemma StepKeepsInv(keys: Keys, x: World, step: Step)
    requires KeysOk(keys) && Inv(keys, x) && Enabled(x, step)
    ensures Inv(keys, Next(keys, x, step))
  {
    hide RecordGenuine, SlotGenuine, RingInv, OpenHandshake, Serialize, Pack, Stored, Body, KeysOk;
    match step
    case QueueMessage(typ, body) =>
      QueueKeepsInv(keys, x.sender, x.queued, typ, body);
      GrowInv(keys, x, (typ, body));
    case QueueCcs =>
    case BeginFlush =>
    case SendPacket(maxOut, accepted) => PacketGenuine(keys, x.sender, x.queued, maxOut);
    case Rewind =>
    case NewWriteEpoch =>
      assert keys.sealing(x.sender.w.wEpoch + 1).recordVersion < 0x1_0000 by { KeyVersion(keys, x.sender.w.wEpoch + 1); }
    case Deliver(datagram, from, maxMsgLen) =>
      var rest := datagram[from..];
      forall i | 0 <= i < |rest| ensures RecordGenuine(keys, rest[i], x.queued) && SentOk(rest[i]) {
        assert rest[i] == datagram[from + i];
      }
      DeliverKeepsInv(keys, x.reader, rest, x.queued, maxMsgLen);
    case ConsumeMessage =>
      CurrentIsQueued(keys, x);
      AdvanceKeepsInv(x.reader.ring);
      AdvanceGenuine(x.reader.ring, x.queued);
    case NewReadEpoch =>
  }

  lemma KeyVersion(keys: Keys, e: nat)
    requires KeysOk(keys)
    ensures keys.sealing(e).recordVersion < 0x1_0000
  {
  }

  lemma AdvanceGenuine(r: Ring, queued: seq<(byte, seq<byte>)>)
    requires RingInv(r) && RingGenuine(r, queued)
    ensures RingGenuine(Advance(r), queued)
  {
    var r' := Advance(r);
    forall i | 0 <= i < |r'.slots| ensures SlotGenuine(r'.slots[i], queued) {
      assert SlotGenuine(r.slots[i], queued);
    }
  }

  /** A run: every step enabled where it is taken. */
  ghost predicate Run(keys: Keys, x: World, steps: seq<Step>, end: World)
    decreases |steps|
  {
    if steps == [] then x == end
    else
      && SenderOk(x.sender) && |x.reader.ring.slots| == SSL_MAX_HANDSHAKE_FLIGHT && Enabled(x, steps[0])
      && Run(keys, Next(keys, x, steps[0]), steps[1..], end)
  }

  lemma {:induction false} RunKeepsInv(keys: Keys, x: World, steps: seq<Step>, end: World)
    requires KeysOk(keys) && Inv(keys, x) && Run(keys, x, steps, end)
    ensures Inv(keys, end)
    decreases |steps|
  {
    hide Inv, KeysOk, Next;
    if steps != [] {
      StepKeepsInv(keys, x, steps[0]);
      RunKeepsInv(keys, Next(keys, x, steps[0]), steps[1..], end);
    }
  }

  /** End to end: for every run, whatever messages are queued, however they are cut and
      retransmitted, and whatever the network loses, repeats or reorders, the receiver has
      handed up exactly the first readSeq messages the sender queued, in order, each with the
      type and body it was queued with; and the next one, once complete, is the queued message
      of that number. */
  lemma EndToEnd(keys: Keys, steps: seq<Step>, end: World)
    requires KeysOk(keys) && Run(keys, Init(keys), steps, end)
    ensures end.reader.ring.readSeq <= |end.queued|
    ensures end.handedUp == end.queued[..end.reader.ring.readSeq]
    ensures RingInv(end.reader.ring)
    ensures Current(end.reader) ==>
              && end.reader.ring.readSeq < |end.queued|
              && CurrentMessage(end.reader) == end.queued[end.reader.ring.readSeq]
  {
    InitInv(keys);
    RunKeepsInv(keys, Init(keys), steps, end);
    if Current(end.reader) { CurrentIsQueued(keys, end); }
  }

  // ------------------------------------------------------------------ completion

  /** The ring after a list of fragments, in the order they arrive. */
  function TakeFragments(r: Ring, frags: seq<Fragment>, maxMsgLen: nat, epochOne: bool): (r': Ring)
    requires |r.slots| == SSL_MAX_HANDSHAKE_FLIGHT
    ensures |r'.slots| == SSL_MAX_HANDSHAKE_FLIGHT
    decreases |frags|
  {
    if frags == [] then r
    else
      TakeFragmentShape(r, frags[0], maxMsgLen, epochOne);
      TakeFragments(TakeFragment(r, frags[0], maxMsgLen, epochOne).0, frags[1..], maxMsgLen, epochOne)
  }

  /** Octet k of message n has arrived. */
  predicate Arrived(r: Ring, n: nat, k: nat)
    requires |r.slots| == SSL_MAX_HANDSHAKE_FLIGHT
  {
    var s := r.slots[Index(n)];
    s.Slot? && s.seqNum == n && (k < s.msgLen ==> k in s.got)
  }

  /** Octets that have arrived stay, and those of a genuine fragment of a message inside the
      window all arrive. */
  lemma TakeArrives(r: Ring, f: Fragment, queued: seq<(byte, seq<byte>)>, maxMsgLen: nat, n: nat, k: nat)
    requires RingInv(r) && RingGenuine(r, queued) && Genuine(f, queued) && f.msgLen <= maxMsgLen
    requires r.readSeq <= n < r.readSeq + SSL_MAX_HANDSHAKE_FLIGHT
    ensures var r' := TakeFragment(r, f, maxMsgLen, false).0;
            && (Arrived(r, n, k) ==> Arrived(r', n, k))
            && (f.seqNum == n && (f.fragOff <= k < f.fragOff + |f.body| || k >= f.msgLen) ==> Arrived(r', n, k))
  {
    hide Encodable, Range;
    if r.readSeq <= f.seqNum < r.readSeq + SSL_MAX_HANDSHAKE_FLIGHT { SlotNumberMatches(r, f); }
    assert SlotGenuine(r.slots[Index(f.seqNum)], queued);
    RangeHas(f, k);
    if Index(n) == Index(f.seqNum) && r.readSeq <= f.seqNum < r.readSeq + SSL_MAX_HANDSHAKE_FLIGHT {
      assert n == f.seqNum;
    }
  }

  lemma RangeHas(f: Fragment, k: nat)
    ensures k in Range(f.fragOff, f.body) <==> f.fragOff <= k < f.fragOff + |f.body|
  {
  }

  /** Some fragment of frags carries octet k of message n; an empty message needs only one
      fragment of its own. */
  ghost predicate Covers(frags: seq<Fragment>, n: nat, k: nat) {
    exists i :: 0 <= i < |frags| && frags[i].seqNum == n
      && (frags[i].fragOff <= k < frags[i].fragOff + |frags[i].body| || k >= frags[i].msgLen)
  }

  lemma {:induction false} CoveredArrives(r: Ring, frags: seq<Fragment>, queued: seq<(byte, seq<byte>)>,
                                          maxMsgLen: nat, n: nat, k: nat)
    requires RingInv(r) && RingGenuine(r, queued)
    requires forall i :: 0 <= i < |frags| ==> Genuine(frags[i], queued) && frags[i].msgLen <= maxMsgLen
    requires r.readSeq <= n < r.readSeq + SSL_MAX_HANDSHAKE_FLIGHT
    requires Arrived(r, n, k) || Covers(frags, n, k)
    ensures Arrived(TakeFragments(r, frags, maxMsgLen, false), n, k)
    decreases |frags|
  {
    assert |r.slots| == SSL_MAX_HANDSHAKE_FLIGHT;
    hide Arrived, TakeFragment, Genuine, RingGenuine, RingInv;
    if frags != [] {
      var f, rest := frags[0], frags[1..];
      assert Genuine(f, queued) ==> Encodable(f) by { GenuineEncodable(f, queued); }
      TakeFragmentShape(r, f, maxMsgLen, false);
      TakeFragmentKeepsInv(r, f, maxMsgLen, false);
      TakeGenuine(r, f, queued, maxMsgLen, false);
      TakeArrives(r, f, queued, maxMsgLen, n, k);
      var r' := TakeFragment(r, f, maxMsgLen, false).0;
      if !Arrived(r', n, k) {
        var i :| 0 <= i < |frags| && frags[i].seqNum == n
          && (frags[i].fragOff <= k < frags[i].fragOff + |frags[i].body| || k >= frags[i].msgLen);
        assert rest[i - 1] == frags[i];
      }
      CoveredArrives(r', rest, queued, maxMsgLen, n, k);
    }
  }

  lemma GenuineEncodable(f: Fragment, queued: seq<(byte, seq<byte>)>)
    ensures Genuine(f, queued) ==> Encodable(f)
  {
  }

  /** Reassembly does not depend on order or repetition: once the fragments taken, in whatever
      order, among whatever other fragments and however often, carry every octet of a message
      in the window, that message is complete. */
  lemma CoveredIsComplete(r: Ring, frags: seq<Fragment>, queued: seq<(byte, seq<byte>)>, maxMsgLen: nat, n: nat)
    requires RingInv(r) && RingGenuine(r, queued)
    requires forall i :: 0 <= i < |frags| ==> Genuine(frags[i], queued) && frags[i].msgLen <= maxMsgLen
    requires r.readSeq <= n < r.readSeq + SSL_MAX_HANDSHAKE_FLIGHT
    requires forall k: nat :: Covers(frags, n, k)
    ensures Complete(TakeFragments(r, frags, maxMsgLen, false).slots[Index(n)])
  {
    assert |r.slots| == SSL_MAX_HANDSHAKE_FLIGHT;
    hide TakeFragment, Genuine, RingGenuine, RingInv, Covers;
    var r' := TakeFragments(r, frags, maxMsgLen, false);
    CoveredArrives(r, frags, queued, maxMsgLen, n, 0);
    var s := r'.slots[Index(n)];
    forall k: nat | k < s.msgLen ensures k in s.got {
      CoveredArrives(r, frags, queued, maxMsgLen, n, k);
    }
  }
}
