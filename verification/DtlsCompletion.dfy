/** One retransmission of a flight, delivered in any order: the messages are complete. */
module DtlsCompletion {
  import opened Bytes
  import opened HandshakeFragments
  import opened Reassembly
  import opened IncomingRing
  import opened ReplayWindow
  import opened DtlsRecord
  import opened DtlsSender
  import opened DtlsTransmit
  import opened DtlsReader
  import opened DtlsEndToEnd
  import opened DtlsDelivery

  // -------------------------------------------------------------- what is sent

  /** The record is of its message's epoch and no longer than the room there was. */
  predicate Stamped(msgs: seq<OutMsg>, version: nat, rec: Sent, room: nat) {
    && SentOk(rec) && rec.content.idx < |msgs| && rec.epoch == msgs[rec.content.idx].epoch
    && rec.version == version && |rec.content.plain| <= room && |rec.ciphertext| <= room
  }

  predicate AllStamped(msgs: seq<OutMsg>, version: nat, recs: seq<Sent>, room: nat) {
    forall i :: 0 <= i < |recs| ==> Stamped(msgs, version, recs[i], room)
  }

  /** The counter that numbers the records of epoch e. */
  function Counter(w: WriteState, e: nat): nat {
    if e == w.wEpoch then w.writeSeq else w.lastSeq
  }

  predicate Held(w: WriteState, e: nat) {
    e == w.wEpoch || (w.wEpoch >= 1 && e == w.wEpoch - 1)
  }

  /** From w to w' the records took the numbers of their epoch one after the other. */
  ghost predicate Numbered(w: WriteState, recs: seq<Sent>, w': WriteState) {
    && w'.wEpoch == w.wEpoch
    && (forall e: nat :: Counter(w, e) <= Counter(w', e) <= Counter(w, e) + |recs|)
    && (forall i :: 0 <= i < |recs| ==>
          Held(w, recs[i].epoch) && Counter(w, recs[i].epoch) <= recs[i].num < Counter(w', recs[i].epoch))
    && (forall i, j :: 0 <= i < j < |recs| && recs[i].epoch == recs[j].epoch ==> recs[i].num < recs[j].num)
  }

  lemma NumberedNone(w: WriteState)
    ensures Numbered(w, [], w)
  {
  }

  lemma NumberedJoin(w: WriteState, a: seq<Sent>, w1: WriteState, b: seq<Sent>, w2: WriteState)
    requires Numbered(w, a, w1) && Numbered(w1, b, w2)
    ensures Numbered(w, a + b, w2)
  {
    var c := a + b;
    forall e: nat ensures Counter(w, e) <= Counter(w2, e) <= Counter(w, e) + |c| {
      assert Counter(w, e) <= Counter(w1, e) <= Counter(w, e) + |a|;
    }
    forall i | 0 <= i < |c|
      ensures Held(w, c[i].epoch) && Counter(w, c[i].epoch) <= c[i].num < Counter(w2, c[i].epoch)
    {
      var e := c[i].epoch;
      assert Counter(w, e) <= Counter(w1, e) <= Counter(w2, e);
      if i >= |a| { assert c[i] == b[i - |a|]; }
    }
    forall i, j | 0 <= i < j < |c| && c[i].epoch == c[j].epoch ensures c[i].num < c[j].num {
      if i >= |a| {
        assert c[i] == b[i - |a|] && c[j] == b[j - |a|];
      } else if j >= |a| {
        assert c[j] == b[j - |a|] && a[i].num < Counter(w1, a[i].epoch) <= c[j].num;
      }
    }
  }

  lemma StampedJoin(msgs: seq<OutMsg>, version: nat, a: seq<Sent>, b: seq<Sent>, room: nat, less: nat)
    requires AllStamped(msgs, version, a, room) && AllStamped(msgs, version, b, less) && less <= room
    ensures AllStamped(msgs, version, a + b, room)
  {
    hide SentOk;
    forall i | 0 <= i < |a + b| ensures Stamped(msgs, version, (a + b)[i], room) {
      if i >= |a| { assert (a + b)[i] == b[i - |a|]; }
    }
  }

  lemma OneNumbered(w: WriteState, previous: bool, rec: Sent)
    requires WriteStateOk(w) && (previous ==> w.wEpoch >= 1) && UsedSeq(w, previous) + 1 < SEQ_LIMIT
    requires rec.epoch == UsedEpoch(w, previous) && rec.num == UsedSeq(w, previous)
    ensures Numbered(w, [rec], Bump(w, previous))
  {
    BumpByOne(w, previous);
  }

  lemma SealAsNumbers(s: Sender, previous: bool, room: nat, content: Content)
    requires SenderOk(s) && (previous ==> s.w.wEpoch >= 1) && content.idx < |s.msgs|
    requires UsedEpoch(s.w, previous) == s.msgs[content.idx].epoch && |content.plain| <= room
    ensures var (s', rec) := SealAs(s, previous, room, content);
            rec.Some? ==>
              Numbered(s.w, [rec.value], s'.w) && Stamped(s.msgs, s.w.aead.recordVersion, rec.value, room)
  {
    hide Numbered, WireRecord, Ciphertext;
    SealExactly(s.w, previous, content.typ, content.plain, room);
    var (s', rec) := SealAs(s, previous, room, content);
    if rec.Some? { OneNumbered(s.w, previous, rec.value); }
  }

  lemma SealNextNumbers(s: Sender, room: nat)
    requires SenderOk(s) && s.written < |s.msgs|
    ensures var (s', sealed) := SealNextMessage(s, room);
            && (sealed.Part? || sealed.Whole? ==>
                  Numbered(s.w, [sealed.rec], s'.w) && Stamped(s.msgs, s.w.aead.recordVersion, sealed.rec, room))
            && (sealed.NoProgress? ==> s' == s)
  {
    hide SealAs, Numbered, Stamped, Serialize, Stored, IsPiece, PlanPiece;
    PlanFits(s, room);
    var (s', sealed) := SealNextMessage(s, room);
    match PlanNext(s, room)
    case Refuse =>
    case NoRoom =>
    case SendCcs(previous) =>
      SealAsNumbers(s, previous, room, CcsContent(s.written));
      var (s1, rec) := SealAs(s, previous, room, CcsContent(s.written));
      assert rec.Some? ==> sealed == Whole(rec.value) && s' == s1;
    case SendPiece(previous, frag) =>
      PieceEncodable(s.msgs[s.written], frag);
      SerializeLength(frag);
      PlanKeys(s, room);
      SealAsNumbers(s, previous, room, PieceContent(s.written, frag));
      var (s1, rec) := SealAs(s, previous, room, PieceContent(s.written, frag));
      assert rec.Some? ==> sealed.rec == rec.value && s'.w == s1.w;
  }

  /** A piece goes out under the keys of its message's epoch. */
  lemma PlanKeys(s: Sender, room: nat)
    requires SenderOk(s) && s.written < |s.msgs| && PlanNext(s, room).SendPiece?
    ensures var previous := PlanNext(s, room).previous;
            (previous ==> s.w.wEpoch >= 1) && UsedEpoch(s.w, previous) == s.msgs[s.written].epoch
  {
    hide Stored, IsPiece;
  }

  lemma {:induction false} PackNumbers(s: Sender, room: nat)
    requires SenderOk(s)
    ensures var (s', packed) := Pack(s, room);
            packed.Packed? ==> Numbered(s.w, packed.recs, s'.w) && AllStamped(s.msgs, s.w.aead.recordVersion, packed.recs, room)
    decreases |s.msgs| - s.written
  {
    hide SealNextMessage, Wire, SentOk, Numbered, Stamped, Pack, AllStamped;
    PrependNone(Pack(s, room).1);
    PackStops(s, room, []);
    NumberedNone(s.w);
    var version := s.w.aead.recordVersion;
    OneStamped(s.msgs, version, room);
    if s.written < |s.msgs| {
      SealNextNumbers(s, room);
      SealNextShape(s, room);
      var (s1, sealed) := SealNextMessage(s, room);
      if sealed.Part? {
        OneStamps(s.msgs, version, sealed.rec, room);
        assert [] + [sealed.rec] == [sealed.rec];
      } else if sealed.Whole? {
        PackWhole(s, room, []);
        var s2, less := s1.(written := s.written + 1), room - |Wire(sealed.rec)|;
        PackNumbers(s2, less);
        var (s3, more) := Pack(s2, less);
        if more.Packed? {
          OneStamps(s.msgs, version, sealed.rec, room);
          NumberedJoin(s.w, [sealed.rec], s1.w, more.recs, s3.w);
          StampedJoin(s.msgs, version, [sealed.rec], more.recs, room, less);
          assert [] + [sealed.rec] == [sealed.rec];
        }
      }
    }
  }

  lemma OneStamped(msgs: seq<OutMsg>, version: nat, room: nat)
    ensures AllStamped(msgs, version, [], room)
  {
  }

  lemma OneStamps(msgs: seq<OutMsg>, version: nat, rec: Sent, room: nat)
    requires Stamped(msgs, version, rec, room)
    ensures AllStamped(msgs, version, [rec], room)
  {
  }

  /** What the records of a stretch of the flight are. */
  ghost predicate Stretch(keys: Keys, s: Sender, recs: seq<Sent>, s': Sender, room: nat, queued: seq<(byte, seq<byte>)>) {
    && Numbered(s.w, recs, s'.w) && AllStamped(s.msgs, s.w.aead.recordVersion, recs, room)
    && (forall i :: 0 <= i < |recs| ==> RecordGenuine(keys, recs[i], queued))
    && Tiles(recs, s.msgs, s.written, s.offset, s'.written, s'.offset)
  }

  lemma StretchNone(keys: Keys, s: Sender, room: nat, queued: seq<(byte, seq<byte>)>)
    ensures Stretch(keys, s, [], s, room, queued)
  {
    NumberedNone(s.w);
    TilesNil(s.msgs, s.written, s.offset);
  }

  lemma StretchJoin(keys: Keys, s: Sender, a: seq<Sent>, s1: Sender, b: seq<Sent>, s2: Sender, room: nat, queued: seq<(byte, seq<byte>)>)
    requires Stretch(keys, s, a, s1, room, queued) && Stretch(keys, s1, b, s2, room, queued) && SameQueue(s, s1)
    ensures Stretch(keys, s, a + b, s2, room, queued)
  {
    hide Numbered, AllStamped, RecordGenuine, Tiles;
    NumberedJoin(s.w, a, s1.w, b, s2.w);
    StampedJoin(s.msgs, s.w.aead.recordVersion, a, b, room, room);
    TilesAppend(a, b, s.msgs, s.written, s.offset, s1.written, s1.offset, s2.written, s2.offset);
  }

  lemma PacketStretch(keys: Keys, s: Sender, mtu: nat, queued: seq<(byte, seq<byte>)>)
    requires SenderInv(keys, s, queued) && s.written < |s.msgs|
    ensures SenderOk(s) && Resting(s)
    ensures var (s', packed) := SealNextPacket(s, mtu);
            && SenderInv(keys, s', queued) && SameQueue(s, s')
            && (packed.Packed? ==> Stretch(keys, s, packed.recs, s', mtu, queued))
  {
    hide Pack, Tiles, RecordGenuine, Body, Stored, SentOk, WireAll, Numbered, Stamped, AllStamped;
    PacketGenuine(keys, s, queued, mtu);
    PackTiles(s, mtu);
    PackNumbers(s, mtu);
  }

  lemma {:induction false} TransmitStretch(keys: Keys, s: Sender, mtu: nat, queued: seq<(byte, seq<byte>)>)
    requires SenderInv(keys, s, queued)
    ensures SenderOk(s) && Resting(s)
    ensures var (s', packets) := Transmit(s, mtu);
            packets.Some? ==> Stretch(keys, s, Flatten(packets.value), s', mtu, queued) && s'.written == |s.msgs| && s'.offset == 0
    decreases |s.msgs| - s.written, OctetsLeft(s)
  {
    InvRests(keys, s, queued);
    hide SealNextPacket, Stretch, Flatten, SenderInv, Resting, SenderOk, OctetsLeft, SameQueue, Tiles, SentOk, WireAll, Transmit;
    if s.written == |s.msgs| {
      StretchNone(keys, s, mtu, queued);
      FlattenNone();
      TransmitEnds(s, mtu, []);
      BehindNone(Transmit(s, mtu).1);
    } else {
      NextPacketTiles(s, mtu);
      PacketStretch(keys, s, mtu, queued);
      TransmitNext(s, mtu, []);
      BehindNone(Transmit(s, mtu).1);
      var (s1, packed) := SealNextPacket(s, mtu);
      if packed.Packed? {
        OctetsLeftNat(s);
        SameMsgs(s, s1);
        TransmitStretch(keys, s1, mtu, queued);
        var (s2, more) := Transmit(s1, mtu);
        if more.Some? {
          StretchJoin(keys, s, packed.recs, s1, Flatten(more.value), s2, mtu, queued);
          var all := [packed.recs] + more.value;
          FlattenFirst(all);
          assert all[1..] == more.value && [] + [packed.recs] == [packed.recs];
        }
      }
    }
  }

  lemma SameMsgs(s: Sender, s': Sender)
    requires SameQueue(s, s')
    ensures s'.msgs == s.msgs
  {
  }

  lemma InvRests(keys: Keys, s: Sender, queued: seq<(byte, seq<byte>)>)
    requires SenderInv(keys, s, queued)
    ensures SenderOk(s) && Resting(s) && s.written <= |s.msgs| && (s.written == |s.msgs| ==> s.offset == 0)
  {
  }

  // ------------------------------------------------------------- what it brings

  /** Some record of a tiling brings octet k of message j. */
  lemma {:induction false} TilesReach(recs: seq<Sent>, msgs: seq<OutMsg>, idx: nat, off: nat, j: nat, k: nat) returns (i: nat, o: nat)
    requires Tiles(recs, msgs, idx, off, |msgs|, 0) && idx <= j < |msgs|
    requires j == idx ==> off <= k || k >= |Body(msgs[j])|
    ensures i < |recs| && recs[i].content.idx == j && Carries(recs[i].content, msgs[j], o)
    ensures o <= k < o + |recs[i].content.piece| || k >= |Body(msgs[j])|
    decreases |recs|
  {
    hide Carries, Body;
    var c := recs[0].content;
    if idx == j && (k < off + |c.piece| || k >= |Body(msgs[j])|) {
      return 0, off;
    }
    if off + |c.piece| == |Body(msgs[idx])| {
      i, o := TilesReach(recs[1..], msgs, idx + 1, 0, j, k);
    } else {
      i, o := TilesReach(recs[1..], msgs, idx, off + |c.piece|, j, k);
    }
    i := i + 1;
  }

  /** The fragment in a record that carries a piece of m. */
  lemma CarriesPieceOf(rec: Sent, m: OutMsg, o: nat)
    requires Carries(rec.content, m, o)
    ensures rec.content.isCcs == m.isCcs && (m.isCcs ==> rec.content.plain == [SSL3_MT_CCS])
    ensures !m.isCcs ==>
              && Piece(rec).Some? && Stored(m).Some?
              && Piece(rec).value.seqNum == Stored(m).value.seqNum && Piece(rec).value.msgLen == |Body(m)|
              && Piece(rec).value.fragOff == o && Piece(rec).value.body == rec.content.piece
  {
    hide Serialize, Stored;
    if !m.isCcs {
      var frag: Fragment :| IsPiece(m, frag) && Encodable(frag) && frag.fragOff == o && rec.content == PieceContent(rec.content.idx, frag);
      ParseSerialized(frag, []);
      assert Serialize(frag) + [] == Serialize(frag);
    }
  }

  /** The reader can make something of every message of its epoch. */
  ghost predicate CanReceive(keys: Keys, r: Reader, s: Sender, mtu: nat, queued: seq<(byte, seq<byte>)>, maxMsgLen: nat) {
    && Receiving(keys, r, queued) && VersionOk(r.aead, s.w.aead.recordVersion) && mtu <= SSL3_RT_MAX_PLAIN_LENGTH
    && forall j :: 0 <= j < |s.msgs| && s.msgs[j].epoch == r.rEpoch ==>
         if s.msgs[j].isCcs then r.aead.isNull
         else Stored(s.msgs[j]).Some? ==> InReach(r.ring, Stored(s.msgs[j]).value, maxMsgLen, r.rEpoch == 1)
  }

  lemma FlightLegible(keys: Keys, r: Reader, s: Sender, recs: seq<Sent>, s': Sender, mtu: nat, queued: seq<(byte, seq<byte>)>, maxMsgLen: nat, i: nat)
    requires Stretch(keys, s, recs, s', mtu, queued) && CanReceive(keys, r, s, mtu, queued, maxMsgLen) && i < |recs|
    ensures Legible(keys, r, recs[i], queued, maxMsgLen)
  {
    hide Numbered, RecordGenuine, Tiles, Carries, Stored, Body, VersionOk, SentOk, Piece;
    TilesCarry(recs, s.msgs, s.written, s.offset, s'.written, s'.offset, i);
    var rec := recs[i];
    assert Stamped(s.msgs, s.w.aead.recordVersion, rec, mtu);
    var m := s.msgs[rec.content.idx];
    var o: nat :| Carries(rec.content, m, o);
    CarriesPieceOf(rec, m, o);
    if !m.isCcs { StoredLength(m); }
  }

  lemma StoredLength(m: OutMsg)
    requires !m.isCcs && Stored(m).Some?
    ensures Stored(m).value.msgLen == |Body(m)|
  {
  }

  // ---------------------------------------------------------------- record numbers

  lemma ValueOf48(num: nat)
    requires num < SEQ_LIMIT
    ensures U64Be(U48(num)) == num
  {
    var hi, lo := num / 0x100_0000, num % 0x100_0000;
    U24RoundTrip(hi, []);
    U24RoundTrip(lo, []);
    assert U24(hi) + [] == U24(hi) && U24(lo) + [] == U24(lo);
    SixOctets(U48(num));
  }

  lemma {:induction false} ValueJoin(a: seq<byte>, b: seq<byte>)
    requires |b| == 6
    ensures U64Be(a + b) == U64Be(a) * SEQ_LIMIT + U64Be(b)
  {
    SixOctets(b);
    hide U64Be;
    var a1 := a + [b[0]];
    var a2 := a1 + [b[1]];
    var a3 := a2 + [b[2]];
    var a4 := a3 + [b[3]];
    var a5 := a4 + [b[4]];
    OneOctet(a, [b[0]]);
    OneOctet(a1, [b[1]]);
    OneOctet(a2, [b[2]]);
    OneOctet(a3, [b[3]]);
    OneOctet(a4, [b[4]]);
    OneOctet(a5, [b[5]]);
    assert a + b == a5 + [b[5]];
  }

  lemma OneOctet(a: seq<byte>, x: seq<byte>)
    requires |x| == 1
    ensures U64Be(a + x) == U64Be(a) * 256 + x[0] as int
  {
    assert (a + x)[..|a|] == a;
  }

  /** The window's reading of a record number: the epoch above 48 bits of counter. */
  lemma SequenceValue(epoch: nat, num: nat)
    requires epoch < EPOCH_LIMIT && num < SEQ_LIMIT
    ensures U64Be(Sequence(epoch, num)) == epoch * SEQ_LIMIT + num
  {
    ValueJoin(U16(epoch), U48(num));
    ValueOf48(num);
    OneOctet([], [epoch / 0x100]);
    OneOctet([epoch / 0x100], [epoch % 0x100]);
    assert [] + [epoch / 0x100] == [epoch / 0x100] && [epoch / 0x100] + [epoch % 0x100] == U16(epoch);
  }

  /** Of epoch e no record comes for the first time 64 or more behind one that came before it. */
  predicate NoLaggards(all: seq<Sent>, e: nat) {
    forall a, i :: 0 <= a < i < |all| && all[a].epoch == e && all[i].epoch == e && all[i] !in all[..i] ==>
      all[a].num < all[i].num + WINDOW_SIZE
  }

  /** No more than 64 records numbered one after the other have no laggards, in whatever order. */
  lemma FewInTime(w: WriteState, recs: seq<Sent>, w': WriteState, all: seq<Sent>, e: nat)
    requires Numbered(w, recs, w') && |recs| <= WINDOW_SIZE
    requires forall i :: 0 <= i < |all| ==> all[i] in recs
    ensures NoLaggards(all, e)
  {
    forall i | 0 <= i < |all| && all[i].epoch == e
      ensures Counter(w, e) <= all[i].num < Counter(w, e) + WINDOW_SIZE
    {
      var k :| 0 <= k < |recs| && recs[k] == all[i];
      assert Counter(w', e) <= Counter(w, e) + |recs|;
    }
  }

  /** Nor has a flight of any size that comes in order. */
  lemma OrderInTime(w: WriteState, recs: seq<Sent>, w': WriteState, e: nat)
    requires Numbered(w, recs, w')
    ensures NoLaggards(recs, e)
  {
  }

  lemma FlightNumbers(w: WriteState, recs: seq<Sent>, w': WriteState, all: seq<Sent>, e: nat)
    requires Numbered(w, recs, w') && AllSent(recs)
    requires forall i :: 0 <= i < |all| ==> all[i] in recs
    ensures AllSent(all) && OneContent(all, e)
  {
    hide SentOk;
    forall i | 0 <= i < |all| ensures SentOk(all[i]) { var k :| 0 <= k < |recs| && recs[k] == all[i]; }
    hide Val;
    forall i, j | 0 <= i < |all| && 0 <= j < |all| && all[i].epoch == e && all[j].epoch == e && Val(all[i]) == Val(all[j])
      ensures all[i].content == all[j].content
    {
      NumValue(all[i]);
      NumValue(all[j]);
      OneRecord(w, recs, w', all[i], all[j]);
    }
  }

  /** Where record x first comes, and that it comes in time. */
  lemma FirstInTime(all: seq<Sent>, x: Sent, max: nat) returns (at: nat)
    requires AllSent(all) && x in all && NoLaggards(all, x.epoch) && SentOk(x) && max <= Val(x)
    ensures at < |all| && all[at] == x && InTime(all, at, max)
  {
    hide SentOk, Val;
    at := FirstAt(all, x);
    forall a | 0 <= a < at && all[a].epoch == x.epoch ensures Val(all[a]) < Val(x) + WINDOW_SIZE {
      NumValue(all[a]);
      NumValue(x);
    }
  }

  lemma FirstAt(all: seq<Sent>, x: Sent) returns (at: nat)
    requires x in all
    ensures at < |all| && all[at] == x && x !in all[..at]
    decreases |all|
  {
    var n := |all| - 1;
    if x in all[..n] {
      at := FirstAt(all[..n], x);
      assert all[..n][..at] == all[..at];
    } else {
      at := n;
    }
  }

  lemma NumValue(rec: Sent)
    requires SentOk(rec)
    ensures Val(rec) == rec.epoch * SEQ_LIMIT + rec.num
  {
    SequenceValue(rec.epoch, rec.num);
  }

  lemma OneRecord(w: WriteState, recs: seq<Sent>, w': WriteState, a: Sent, b: Sent)
    requires Numbered(w, recs, w') && a in recs && b in recs && a.epoch == b.epoch && a.num == b.num
    ensures a == b
  {
    var i :| 0 <= i < |recs| && recs[i] == a;
    var j :| 0 <= j < |recs| && recs[j] == b;
    assert i == j;
  }

  // --------------------------------------------------------------------- the end

  /** Every datagram arrives at least once, in any order. */
  ghost predicate Shuffled(arrivals: seq<seq<Sent>>, packets: seq<seq<Sent>>) {
    && (forall i :: 0 <= i < |arrivals| ==> arrivals[i] in packets)
    && (forall i :: 0 <= i < |packets| ==> packets[i] in arrivals)
  }

  lemma {:induction false} InFlatten(packets: seq<seq<Sent>>, p: seq<Sent>, rec: Sent)
    requires p in packets && rec in p
    ensures rec in Flatten(packets)
    decreases |packets|
  {
    FlattenFirst(packets);
    if p != packets[0] {
      var i :| 0 <= i < |packets| && packets[i] == p;
      assert packets[1..][i - 1] == p;
      InFlatten(packets[1..], p, rec);
    }
  }

  lemma {:induction false} FromFlatten(packets: seq<seq<Sent>>, rec: Sent) returns (p: seq<Sent>)
    requires rec in Flatten(packets)
    ensures p in packets && rec in p
    decreases |packets|
  {
    FlattenFirst(packets);
    if rec in packets[0] { return packets[0]; }
    p := FromFlatten(packets[1..], rec);
  }

  lemma ShuffledFlatten(arrivals: seq<seq<Sent>>, packets: seq<seq<Sent>>, rec: Sent)
    requires Shuffled(arrivals, packets)
    ensures rec in Flatten(arrivals) <==> rec in Flatten(packets)
  {
    hide Flatten;
    if rec in Flatten(arrivals) {
      var p := FromFlatten(arrivals, rec);
      InFlatten(packets, p, rec);
    }
    if rec in Flatten(packets) {
      var p := FromFlatten(packets, rec);
      InFlatten(arrivals, p, rec);
    }
  }

  /** The reader has accepted nothing this sender has yet to number. */
  ghost predicate Unseen(r: Reader, w: WriteState, accepted: set<nat>) {
    && Represents(r.window, accepted)
    && r.rEpoch < EPOCH_LIMIT && r.window.maxSeqNum <= r.rEpoch * SEQ_LIMIT + Counter(w, r.rEpoch)
    && forall a :: a in accepted ==> a < r.rEpoch * SEQ_LIMIT + Counter(w, r.rEpoch)
  }

  lemma FlightArrives(keys: Keys, s: Sender, recs: seq<Sent>, s': Sender, mtu: nat, r: Reader, accepted: set<nat>,
                      all: seq<Sent>, queued: seq<(byte, seq<byte>)>, maxMsgLen: nat, j: nat, k: nat)
    requires KeysOk(keys) && Stretch(keys, s, recs, s', mtu, queued) && NoLaggards(all, r.rEpoch)
    requires s.written == 0 && s.offset == 0 && s'.written == |s.msgs| && s'.offset == 0
    requires CanReceive(keys, r, s, mtu, queued, maxMsgLen) && Unseen(r, s.w, accepted)
    requires forall x :: x in all <==> x in recs
    requires j < |s.msgs| && !s.msgs[j].isCcs && s.msgs[j].epoch == r.rEpoch && Stored(s.msgs[j]).Some?
    requires r.ring.readSeq <= Stored(s.msgs[j]).value.seqNum
    ensures AllLegible(keys, r, all, queued, maxMsgLen) && AllSent(all) && |r.ring.slots| == SSL_MAX_HANDSHAKE_FLIGHT
    ensures Arrived(TakeRecs(r, all, maxMsgLen).ring, Stored(s.msgs[j]).value.seqNum, k)
  {
    hide Numbered, RecordGenuine, Tiles, Carries, Stored, Body, VersionOk, SentOk, Piece, Arrived, Represents, Legible,
         Val, KeysOk, Receiving, OneContent, InTime, NoLaggards, Counter, TakeRecs, Stretch, InReach;
    EverywhereLegible(keys, r, s, recs, s', mtu, queued, maxMsgLen, all);
    StretchMeans(keys, s, recs, s', mtu, queued);
    FlightNumbers(s.w, recs, s'.w, all, r.rEpoch);
    var i, o := TilesReach(recs, s.msgs, 0, 0, j, k);
    var n := Stored(s.msgs[j]).value.seqNum;
    CarriesPieceOf(recs[i], s.msgs[j], o);
    StoredLength(s.msgs[j]);
    assert Stamped(s.msgs, s.w.aead.recordVersion, recs[i], mtu);
    assert Brings(recs[i], n, k);
    ReceivingRing(keys, r, queued);
    assert recs[i] in all;
    NumberUnseen(s.w, recs, s'.w, i, r, accepted);
    var at := FirstInTime(all, recs[i], r.window.maxSeqNum);
    assert n < r.ring.readSeq + SSL_MAX_HANDSHAKE_FLIGHT by { ReachMeans(keys, r, s, mtu, queued, maxMsgLen, j); }
    RecArrives(keys, r, all, accepted, queued, maxMsgLen, at, n, k);
  }

  lemma ReachMeans(keys: Keys, r: Reader, s: Sender, mtu: nat, queued: seq<(byte, seq<byte>)>, maxMsgLen: nat, j: nat)
    requires CanReceive(keys, r, s, mtu, queued, maxMsgLen)
    requires j < |s.msgs| && !s.msgs[j].isCcs && s.msgs[j].epoch == r.rEpoch && Stored(s.msgs[j]).Some?
    ensures Stored(s.msgs[j]).value.seqNum < r.ring.readSeq + SSL_MAX_HANDSHAKE_FLIGHT
  {
    hide Stored, Receiving, VersionOk;
  }

  lemma StretchMeans(keys: Keys, s: Sender, recs: seq<Sent>, s': Sender, mtu: nat, queued: seq<(byte, seq<byte>)>)
    requires Stretch(keys, s, recs, s', mtu, queued)
    ensures Numbered(s.w, recs, s'.w) && AllSent(recs) && AllStamped(s.msgs, s.w.aead.recordVersion, recs, mtu)
    ensures Tiles(recs, s.msgs, s.written, s.offset, s'.written, s'.offset)
  {
    hide Numbered, RecordGenuine, Tiles, SentOk;
    forall i | 0 <= i < |recs| ensures SentOk(recs[i]) { assert Stamped(s.msgs, s.w.aead.recordVersion, recs[i], mtu); }
  }

  lemma EverywhereLegible(keys: Keys, r: Reader, s: Sender, recs: seq<Sent>, s': Sender, mtu: nat, queued: seq<(byte, seq<byte>)>,
                          maxMsgLen: nat, all: seq<Sent>)
    requires Stretch(keys, s, recs, s', mtu, queued) && CanReceive(keys, r, s, mtu, queued, maxMsgLen)
    requires forall x :: x in all <==> x in recs
    ensures AllLegible(keys, r, all, queued, maxMsgLen)
  {
    hide Stretch, CanReceive, Legible;
    forall i | 0 <= i < |all| ensures Legible(keys, r, all[i], queued, maxMsgLen) {
      assert all[i] in recs;
      var k :| 0 <= k < |recs| && recs[k] == all[i];
      FlightLegible(keys, r, s, recs, s', mtu, queued, maxMsgLen, k);
    }
  }

  lemma NumberUnseen(w: WriteState, recs: seq<Sent>, w': WriteState, i: nat, r: Reader, accepted: set<nat>)
    requires Numbered(w, recs, w') && i < |recs| && SentOk(recs[i]) && Unseen(r, w, accepted) && recs[i].epoch == r.rEpoch
    ensures Val(recs[i]) !in accepted && r.window.maxSeqNum <= Val(recs[i])
  {
    NumValue(recs[i]);
    hide Val, Represents;
  }

  /** A flight retransmitted once from its start: when every datagram has arrived, in whatever order
      and however often, as long as none comes for the first time 64 or more records behind another, no
      datagram was an error, and each message of the reader's epoch and window is complete and
      reads as it was queued. */
  lemma RetransmissionCompletes(keys: Keys, s: Sender, mtu: nat, r: Reader, accepted: set<nat>, arrivals: seq<seq<Sent>>,
                                queued: seq<(byte, seq<byte>)>, maxMsgLen: nat, j: nat)
    requires KeysOk(keys) && SenderInv(keys, s, queued) && s.written == 0 && s.offset == 0
    requires Transmit(s, mtu).1.Some? && NoLaggards(Flatten(arrivals), r.rEpoch)
    requires CanReceive(keys, r, s, mtu, queued, maxMsgLen) && Unseen(r, s.w, accepted)
    requires Shuffled(arrivals, Transmit(s, mtu).1.value)
    requires j < |s.msgs| && !s.msgs[j].isCcs && s.msgs[j].epoch == r.rEpoch && Stored(s.msgs[j]).Some?
    requires r.ring.readSeq <= Stored(s.msgs[j]).value.seqNum
    ensures |r.ring.slots| == SSL_MAX_HANDSHAKE_FLIGHT
    ensures forall a, b :: 0 <= a < |arrivals| && 0 <= b < |arrivals[a]| ==> SentOk(arrivals[a][b])
    ensures var (r', ok) := DrainAll(r, arrivals, maxMsgLen);
            var n := Stored(s.msgs[j]).value.seqNum;
            var slot := r'.ring.slots[Index(n)];
            && ok && Complete(slot) && slot.seqNum == n && n < |queued|
            && slot.typ == queued[n].0 && slot.msgLen == |queued[n].1|
            && forall k: nat :: k < slot.msgLen ==> k in slot.got && slot.got[k] == queued[n].1[k]
  {
    hide SenderInv, Transmit, Flatten, Stretch, CanReceive, Unseen, Shuffled, DrainAll, TakeRecs, Stored, RingGenuine, AllLegible,
         Receiving, KeysOk, NoLaggards;
    TransmitStretch(keys, s, mtu, queued);
    var packets, recs, all := Transmit(s, mtu).1.value, Flatten(Transmit(s, mtu).1.value), Flatten(arrivals);
    var s' := Transmit(s, mtu).0;
    forall x ensures x in all <==> x in recs { ShuffledFlatten(arrivals, packets, x); }
    var n := Stored(s.msgs[j]).value.seqNum;
    FlightArrives(keys, s, recs, s', mtu, r, accepted, all, queued, maxMsgLen, j, 0);
    ReceiveMeans(keys, r, s, mtu, queued, maxMsgLen);
    DrainAllTakes(keys, r, arrivals, queued, maxMsgLen);
    var r' := TakeRecs(r, all, maxMsgLen);
    ReceivingRing(keys, r', queued);
    forall k: nat ensures Arrived(r'.ring, n, k) {
      FlightArrives(keys, s, recs, s', mtu, r, accepted, all, queued, maxMsgLen, j, k);
    }
    ArrivedReads(r'.ring, n, queued);
  }

  lemma ReceiveMeans(keys: Keys, r: Reader, s: Sender, mtu: nat, queued: seq<(byte, seq<byte>)>, maxMsgLen: nat)
    requires CanReceive(keys, r, s, mtu, queued, maxMsgLen)
    ensures Receiving(keys, r, queued)
  {
    hide Receiving, VersionOk, Stored;
  }

  /** A message all of whose octets have arrived reads as it was queued. */
  lemma ArrivedReads(ring: Ring, n: nat, queued: seq<(byte, seq<byte>)>)
    requires RingInv(ring) && RingGenuine(ring, queued) && |ring.slots| == SSL_MAX_HANDSHAKE_FLIGHT
    requires forall k: nat :: Arrived(ring, n, k)
    ensures var slot := ring.slots[Index(n)];
            && Complete(slot) && slot.seqNum == n && n < |queued|
            && slot.typ == queued[n].0 && slot.msgLen == |queued[n].1|
            && forall k: nat :: k < slot.msgLen ==> k in slot.got && slot.got[k] == queued[n].1[k]
  {
    var slot := ring.slots[Index(n)];
    assert Arrived(ring, n, 0);
    assert SlotGenuine(slot, queued);
    forall k: nat | k < slot.msgLen ensures k in slot.got { assert Arrived(ring, n, k); }
  }

  // ---------------------------------------------------------------- an instance

  /** A stretch takes no more records than there are octets and messages. */
  lemma {:induction false} TilesCount(recs: seq<Sent>, msgs: seq<OutMsg>, idx: nat, off: nat)
    requires Tiles(recs, msgs, idx, off, |msgs|, 0) && idx <= |msgs|
    ensures |recs| + off <= RecordsFrom(msgs, idx)
    decreases |recs|
  {
    hide Carries, Body;
    if recs != [] {
      var c := recs[0].content;
      if off + |c.piece| == |Body(msgs[idx])| {
        TilesCount(recs[1..], msgs, idx + 1, 0);
      } else {
        TilesCount(recs[1..], msgs, idx, off + |c.piece|);
      }
    }
  }

  function NullKeys(): Keys {
    Keys((e: nat) => NullAead(), (e: nat) => NullAead())
  }

  /** The first message of a connection, queued and flushed. */
  function FirstFlight(typ: byte, body: seq<byte>): Sender
    requires |body| < 0x100_0000
  {
    Sender(WriteState(0, 0, 0, NullAead(), NullAead()), [Queued(typ, 0, body, 0)], 0, 0, true, false, 1)
  }

  lemma FirstInv(typ: byte, body: seq<byte>)
    requires |body| < 0x100_0000
    ensures KeysOk(NullKeys()) && SenderInv(NullKeys(), FirstFlight(typ, body), [(typ, body)])
    ensures Sealable(FirstFlight(typ, body)) <== |body| < WINDOW_SIZE
  {
    StoredSerialized(typ, 0, body, 0);
    hide Serialize, Stored, Body;
    assert body[0..|body|] == body;
    var s := FirstFlight(typ, body);
    assert RecordsFrom(s.msgs, 1) == 0 && RecordsFrom(s.msgs, 0) == |body| + 1;
  }

  function FirstReader(): Reader {
    Reader(EMPTY_RING, EMPTY_WINDOW, 0, NullAead(), false, false)
  }

  lemma FirstReceives(typ: byte, body: seq<byte>)
    ensures Receiving(NullKeys(), FirstReader(), [(typ, body)]) && VersionOk(NullAead(), 0xfeff)
  {
  }

  lemma FirstReceiver(typ: byte, body: seq<byte>)
    requires |body| < WINDOW_SIZE
    ensures CanReceive(NullKeys(), FirstReader(), FirstFlight(typ, body), 100, [(typ, body)], 16384)
    ensures Unseen(FirstReader(), FirstFlight(typ, body).w, {})
  {
    hide Queued, Stored, Represents, Receiving, VersionOk, Body;
    EmptyWindowIsFresh();
    StoredSerialized(typ, 0, body, 0);
    FirstReceives(typ, body);
  }

  /** The conditions can all be met: the first message of a connection, cut for an MTU of 100. */
  lemma FirstMessageCompletes(typ: byte, body: seq<byte>, arrivals: seq<seq<Sent>>)
    requires |body| < WINDOW_SIZE
    ensures SenderOk(FirstFlight(typ, body)) && Resting(FirstFlight(typ, body))
    ensures Transmit(FirstFlight(typ, body), 100).1.Some?
    ensures var r := FirstReader();
            Shuffled(arrivals, Transmit(FirstFlight(typ, body), 100).1.value) ==>
              && (forall a, b :: 0 <= a < |arrivals| && 0 <= b < |arrivals[a]| ==> SentOk(arrivals[a][b]))
              && var (r', ok) := DrainAll(r, arrivals, 16384);
              var slot := r'.ring.slots[0];
              && ok && Complete(slot) && slot.typ == typ && slot.msgLen == |body|
              && forall k: nat :: k < |body| ==> k in slot.got && slot.got[k] == body[k]
  {
    var keys, s, queued := NullKeys(), FirstFlight(typ, body), [(typ, body)];
    var r := FirstReader();
    FirstInv(typ, body);
    StoredSerialized(typ, 0, body, 0);
    FirstReceiver(typ, body);
    assert MtuOk(s, 100);
    assert RecordsFrom(s.msgs, 1) == 0 && RecordsFrom(s.msgs, 0) == |body| + 1;
    InvRests(keys, s, queued);
    hide KeysOk, SenderInv, CanReceive, Unseen, Stored, Body, Tiles, Flatten, Transmit, Sealable, MtuOk, RecordsFrom, DrainAll, Shuffled, SentOk, NoLaggards, Numbered;
    TransmitSucceeds(s, 100);
    TransmitStretch(keys, s, 100, queued);
    StretchMeans(keys, s, Flatten(Transmit(s, 100).1.value), Transmit(s, 100).0, 100, queued);
    TilesCount(Flatten(Transmit(s, 100).1.value), s.msgs, 0, 0);
    if Shuffled(arrivals, Transmit(s, 100).1.value) {
      var packets := Transmit(s, 100).1.value;
      forall i | 0 <= i < |Flatten(arrivals)| ensures Flatten(arrivals)[i] in Flatten(packets) {
        ShuffledFlatten(arrivals, packets, Flatten(arrivals)[i]);
      }
      FewInTime(s.w, Flatten(packets), Transmit(s, 100).0.w, Flatten(arrivals), 0);
      RetransmissionCompletes(keys, s, 100, r, {}, arrivals, queued, 16384, 0);
    }
  }
}
