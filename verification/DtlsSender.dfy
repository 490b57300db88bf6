/** The sending half of d1_both.cc: the outgoing flight, cut into fragments and packed into
    datagrams of a given size. */
module DtlsSender {
  import opened Bytes
  import opened HandshakeFragments
  import opened DtlsRecord

  datatype OutMsg = OutMsg(data: seq<byte>, epoch: nat, isCcs: bool)

  datatype Sender = Sender(
    w: WriteState,
    msgs: seq<OutMsg>,
    written: nat,
    offset: nat,
    complete: bool,
    flightHasReply: bool,
    writeSeq: nat)

  /** What one record carries: octets off to off + |piece| of the
      body of message idx of the flight, or a ChangeCipherSpec. A Sent is that content sealed. */
  datatype Content = Content(idx: nat, isCcs: bool, off: nat, piece: seq<byte>, typ: byte, plain: seq<byte>)

  datatype Sent = Sent(content: Content, epoch: nat, num: nat, version: nat, ciphertext: seq<byte>)

  datatype Sealed = SealError | NoProgress | Part(rec: Sent) | Whole(rec: Sent)

  predicate SenderOk(s: Sender) {
    && WriteStateOk(s.w) && s.w.aead.recordVersion < 0x1_0000
    && s.written <= |s.msgs| <= SSL_MAX_HANDSHAKE_FLIGHT
    && s.writeSeq < 0x1_0000
  }

  ghost predicate AeadsOk(s: Sender) {
    AeadOk(s.w.aead) && AeadOk(s.w.lastAead)
  }

  function Wire(r: Sent): seq<byte>
    requires SentOk(r)
  {
    WireRecord(r.content.typ, r.version, Sequence(r.epoch, r.num), r.ciphertext)
  }

  predicate SentOk(r: Sent) {
    r.version < 0x1_0000 && r.epoch < EPOCH_LIMIT && r.num < SEQ_LIMIT && |r.ciphertext| < 0x1_0000
  }

  function WireAll(recs: seq<Sent>): seq<byte>
    requires forall i :: 0 <= i < |recs| ==> SentOk(recs[i])
  {
    if recs == [] then [] else assert SentOk(recs[0]); Wire(recs[0]) + WireAll(recs[1..])
  }

  /** The single fragment a queued message is stored as, if it is well formed. */
  function Stored(m: OutMsg): (f: Option<Fragment>)
    ensures f.Some? ==> Encodable(f.value) && f.value.fragOff == 0 && f.value.msgLen == |f.value.body|
    ensures f.Some? ==> m.data == Serialize(f.value)
  {
    match ParseFragment(m.data)
    case None => None
    case Some((f, rest)) =>
      SerializeParsed(m.data);
      if f.fragOff != 0 || f.msgLen != |f.body| || rest != [] then None else Some(f)
  }

  function Body(m: OutMsg): seq<byte> {
    if m.isCcs || Stored(m).None? then [] else Stored(m).value.body
  }

  /** frag is a fragment of the queued message m: same type, number and length, and the
      octets of its body at its offset. */
  predicate IsPiece(m: OutMsg, frag: Fragment) {
    && !m.isCcs && Stored(m).Some?
    && var f := Stored(m).value;
    && frag.typ == f.typ && frag.seqNum == f.seqNum && frag.msgLen == |f.body|
    && frag.fragOff + |frag.body| <= |f.body|
    && frag.body == f.body[frag.fragOff..frag.fragOff + |frag.body|]
  }

  lemma PieceEncodable(m: OutMsg, frag: Fragment)
    requires IsPiece(m, frag)
    ensures Encodable(frag)
  {
  }

  /** Which keys a queued message goes out under: those of its own epoch, if still held. */
  function UsePrevious(s: Sender, m: OutMsg): Option<bool> {
    if s.w.wEpoch >= 1 && m.epoch == s.w.wEpoch - 1 then Some(true)
    else if m.epoch == s.w.wEpoch then Some(false)
    else None
  }

  /** What the next record should carry, decided before anything is sealed. */
  datatype Plan = Refuse | NoRoom | SendCcs(previous: bool) | SendPiece(previous: bool, frag: Fragment)

  /** The checks of seal_next_message and the size of the next piece. */
  function PlanNext(s: Sender, maxOut: nat): Plan
    requires SenderOk(s) && s.written < |s.msgs|
  {
    var msg := s.msgs[s.written];
    var use := UsePrevious(s, msg);
    if use.None? then Refuse
    else if msg.isCcs then
      if maxOut < 1 + MaxSealOverhead(s.w, use.value) then NoRoom else SendCcs(use.value)
    else if Stored(msg).None? then Refuse
    else PlanPiece(s, use.value, Stored(msg).value, maxOut)
  }

  function PlanPiece(s: Sender, previous: bool, f: Fragment, maxOut: nat): Plan {
    var overhead := MaxSealOverhead(s.w, previous);
    var prefix := SealPrefixLen(s.w, previous);
    if s.offset > |f.body| then Refuse
    else if maxOut < HM_HEADER_LENGTH + 1 + overhead || maxOut < prefix then NoRoom
    else
      var rest := |f.body| - s.offset;
      var room := maxOut - HM_HEADER_LENGTH - overhead;
      var todo := if rest > room then room else rest;
      if HM_HEADER_LENGTH + todo > maxOut - prefix then Refuse
      else SendPiece(previous, Fragment(f.typ, f.msgLen, f.seqNum, s.offset, f.body[s.offset..s.offset + todo]))
  }

  /** Seals one planned record. */
  function SealAs(s: Sender, previous: bool, maxOut: nat, content: Content): (Sender, Option<Sent>)
    requires SenderOk(s) && (previous ==> s.w.wEpoch >= 1)
  {
    var (w', out) := SealRecord(s.w, previous, content.typ, content.plain, maxOut);
    (s.(w := w'),
     if out.None? then None
     else Some(Sent(content, UsedEpoch(s.w, previous), UsedSeq(s.w, previous), s.w.aead.recordVersion,
                    Ciphertext(s.w, previous, content.typ, content.plain))))
  }

  function CcsContent(idx: nat): Content {
    Content(idx, true, 0, [], SSL3_RT_CHANGE_CIPHER_SPEC, [SSL3_MT_CCS])
  }

  function PieceContent(idx: nat, frag: Fragment): Content
    requires Encodable(frag)
  {
    Content(idx, false, frag.fragOff, frag.body, SSL3_RT_HANDSHAKE, Serialize(frag))
  }

  lemma PlanFits(s: Sender, maxOut: nat)
    requires SenderOk(s) && s.written < |s.msgs|
    ensures var plan := PlanNext(s, maxOut);
            && (plan.SendCcs? ==> (plan.previous ==> s.w.wEpoch >= 1) && s.msgs[s.written].isCcs
                                  && 1 + MaxSealOverhead(s.w, plan.previous) <= maxOut)
            && (plan.SendPiece? ==>
                  && (plan.previous ==> s.w.wEpoch >= 1)
                  && HM_HEADER_LENGTH + |plan.frag.body| + MaxSealOverhead(s.w, plan.previous) <= maxOut
                  && IsPiece(s.msgs[s.written], plan.frag) && plan.frag.fragOff == s.offset
                  && (plan.frag.body != [] || s.offset == |Body(s.msgs[s.written])|))
  {
    hide Serialize, Stored;
  }

  /** seal_next_message. */
  function SealNextMessage(s: Sender, maxOut: nat): (Sender, Sealed)
    requires SenderOk(s) && s.written < |s.msgs|
  {
    PlanFits(s, maxOut);
    match PlanNext(s, maxOut)
    case Refuse => (s, SealError)
    case NoRoom => (s, NoProgress)
    case SendCcs(previous) =>
      var (s', rec) := SealAs(s, previous, maxOut, CcsContent(s.written));
      (s', if rec.None? then SealError else Whole(rec.value))
    case SendPiece(previous, frag) =>
      var (s', rec) := SealAs(s, previous, maxOut, PieceContent(s.written, frag));
      if rec.None? then (s', SealError)
      else if s.offset + |frag.body| == frag.msgLen then (s'.(offset := 0), Whole(rec.value))
      else (s'.(offset := s.offset + |frag.body|), Part(rec.value))
  }

  datatype Packed = PackError | Packed(recs: seq<Sent>)

  /** s' differs from s at most in the record counters and the offset. */
  ghost predicate SameQueue(s: Sender, s': Sender) {
    && s'.msgs == s.msgs && s'.writeSeq == s.writeSeq && s'.complete == s.complete
    && s'.flightHasReply == s.flightHasReply
    && s'.w.aead == s.w.aead && s'.w.lastAead == s.w.lastAead && s'.w.wEpoch == s.w.wEpoch
  }

  lemma SealAsShape(s: Sender, previous: bool, maxOut: nat, content: Content)
    requires SenderOk(s) && (previous ==> s.w.wEpoch >= 1)
    ensures var (s', rec) := SealAs(s, previous, maxOut, content);
            && SenderOk(s') && SameQueue(s, s') && s'.written == s.written && s'.offset == s.offset
            && (rec.Some? ==> SentOk(rec.value) && rec.value.content == content && |Wire(rec.value)| <= maxOut)
  {
  }

  lemma SealNextShape(s: Sender, maxOut: nat)
    requires SenderOk(s) && s.written < |s.msgs|
    ensures var (s', sealed) := SealNextMessage(s, maxOut);
            && SenderOk(s') && SameQueue(s, s') && s'.written == s.written
            && (sealed.Part? || sealed.Whole? ==> SentOk(sealed.rec) && |Wire(sealed.rec)| <= maxOut)
  {
    hide PlanNext, SealAs, Wire, CcsContent, PieceContent, Serialize, IsPiece;
    PlanFits(s, maxOut);
    match PlanNext(s, maxOut)
    case Refuse =>
    case NoRoom =>
    case SendCcs(previous) =>
      SealAsShape(s, previous, maxOut, CcsContent(s.written));
      var rec := SealAs(s, previous, maxOut, CcsContent(s.written)).1;
      assert rec.Some? ==> SealNextMessage(s, maxOut).1 == Whole(rec.value);
    case SendPiece(previous, frag) =>
      PieceEncodable(s.msgs[s.written], frag);
      SealAsShape(s, previous, maxOut, PieceContent(s.written, frag));
      var rec := SealAs(s, previous, maxOut, PieceContent(s.written, frag)).1;
      assert rec.Some? ==> SealNextMessage(s, maxOut).1.rec == rec.value;
  }

  /** The packing loop of seal_next_packet. */
  function Pack(s: Sender, maxOut: nat): (Sender, Packed)
    requires SenderOk(s)
    decreases |s.msgs| - s.written
  {
    if s.written == |s.msgs| then (s, Packed([]))
    else
      SealNextShape(s, maxOut);
      var (s', sealed) := SealNextMessage(s, maxOut);
      match sealed
      case SealError => (s', PackError)
      case NoProgress => (s', Packed([]))
      case Part(rec) => (s', Packed([rec]))
      case Whole(rec) =>
        var (s'', more) := Pack(s'.(written := s.written + 1), maxOut - |Wire(rec)|);
        (s'', if more.PackError? then PackError else Packed([rec] + more.recs))
  }

  /** seal_next_packet: an error too when not even one record fits. */
  function SealNextPacket(s: Sender, maxOut: nat): (Sender, Packed)
    requires SenderOk(s)
  {
    var (s', packed) := Pack(s, maxOut);
    (s', if packed == Packed([]) then PackError else packed)
  }

  // ------------------------------------------------------------------- tiling

  /** The record carries the piece of message idx that begins at off. */
  ghost predicate Carries(c: Content, m: OutMsg, off: nat) {
    && c.isCcs == m.isCcs
    && if c.isCcs then off == 0 && c == CcsContent(c.idx)
       else
         exists frag: Fragment :: IsPiece(m, frag) && Encodable(frag) && frag.fragOff == off && c == PieceContent(c.idx, frag)
  }

  /** The records carry consecutive pieces, from octet off of message idx up to octet off'
      of message idx', with no gap and no overlap, and each piece is nonempty unless its
      message is exhausted. */
  ghost predicate Tiles(recs: seq<Sent>, msgs: seq<OutMsg>, idx: nat, off: nat, idx': nat, off': nat)
    decreases |recs|
  {
    if recs == [] then idx == idx' && off == off'
    else
      var c := recs[0].content;
      && idx < |msgs| && c.idx == idx && Carries(c, msgs[idx], off)
      && (c.piece != [] || off == |Body(msgs[idx])|)
      && if off + |c.piece| == |Body(msgs[idx])|
         then Tiles(recs[1..], msgs, idx + 1, 0, idx', off')
         else Tiles(recs[1..], msgs, idx, off + |c.piece|, idx', off')
  }

  lemma {:induction false} TilesAppend(a: seq<Sent>, b: seq<Sent>, msgs: seq<OutMsg>, i0: nat, o0: nat,
                                       i1: nat, o1: nat, i2: nat, o2: nat)
    requires Tiles(a, msgs, i0, o0, i1, o1) && Tiles(b, msgs, i1, o1, i2, o2)
    ensures Tiles(a + b, msgs, i0, o0, i2, o2)
    decreases |a|
  {
    hide Carries, Body;
    if a == [] {
      assert a + b == b;
    } else {
      var c := a[0].content;
      assert (a + b)[0] == a[0] && (a + b)[1..] == a[1..] + b;
      if o0 + |c.piece| == |Body(msgs[i0])| {
        TilesAppend(a[1..], b, msgs, i0 + 1, 0, i1, o1, i2, o2);
      } else {
        TilesAppend(a[1..], b, msgs, i0, o0 + |c.piece|, i1, o1, i2, o2);
      }
    }
  }

  /** The octets of message k that recs carry, in order. */
  function Payload(recs: seq<Sent>, k: nat): seq<byte> {
    if recs == [] then []
    else (if recs[0].content.idx == k then recs[0].content.piece else []) + Payload(recs[1..], k)
  }

  lemma CarriesPiece(c: Content, m: OutMsg, off: nat)
    requires Carries(c, m, off)
    ensures off + |c.piece| <= |Body(m)|
    ensures c.piece == Body(m)[off..off + |c.piece|]
  {
    hide Serialize;
  }

  /** A tiling from octet off of message idx to the end of the flight carries exactly the
      rest of that message and the whole of each later one. */
  lemma {:induction false} TilingCovers(recs: seq<Sent>, msgs: seq<OutMsg>, idx: nat, off: nat, k: nat)
    requires idx <= |msgs| && k < |msgs|
    requires Tiles(recs, msgs, idx, off, |msgs|, 0)
    requires idx < |msgs| ==> off <= |Body(msgs[idx])|
    ensures Payload(recs, k) == if k < idx then [] else if k == idx then Body(msgs[k])[off..] else Body(msgs[k])
    decreases |recs|
  {
    hide Carries, Body;
    if recs != [] {
      var c := recs[0].content;
      CarriesPiece(c, msgs[idx], off);
      var b := Body(msgs[k]);
      if off + |c.piece| == |Body(msgs[idx])| {
        TilingCovers(recs[1..], msgs, idx + 1, 0, k);
        assert k == idx + 1 ==> b[0..] == b;
        assert k == idx ==> c.piece + [] == b[off..];
      } else {
        TilingCovers(recs[1..], msgs, idx, off + |c.piece|, k);
        assert k == idx ==> c.piece + b[off + |c.piece|..] == b[off..];
      }
      assert k != idx ==> [] + Payload(recs[1..], k) == Payload(recs[1..], k);
    }
  }

  /** A sealed record is the next piece of the tiling, and it makes progress. */
  lemma SealNextTiles(s: Sender, maxOut: nat)
    requires SenderOk(s) && s.written < |s.msgs|
    requires s.msgs[s.written].isCcs ==> s.offset == 0
    ensures var (s', sealed) := SealNextMessage(s, maxOut);
            match sealed
            case Part(rec) =>
              && Tiles([rec], s.msgs, s.written, s.offset, s.written, s'.offset)
              && s.offset < s'.offset < |Body(s.msgs[s.written])| && !s.msgs[s.written].isCcs
            case Whole(rec) =>
              Tiles([rec], s.msgs, s.written, s.offset, s.written + 1, 0) && s'.offset == 0
            case _ => s'.offset == s.offset
  {
    hide PlanNext, SealAs, CcsContent, PieceContent, Serialize, IsPiece, Carries, Body, Tiles;
    PlanFits(s, maxOut);
    var (s', sealed) := SealNextMessage(s, maxOut);
    var m := s.msgs[s.written];
    match PlanNext(s, maxOut)
    case Refuse =>
    case NoRoom =>
    case SendCcs(previous) =>
      SealAsShape(s, previous, maxOut, CcsContent(s.written));
      CcsCarries(m, s.written);
      var rec := SealAs(s, previous, maxOut, CcsContent(s.written)).1;
      if rec.Some? {
        assert sealed.rec == rec.value;
        TileOne(sealed.rec, s.msgs, s.written, 0);
      }
    case SendPiece(previous, frag) =>
      PieceEncodable(m, frag);
      SealAsShape(s, previous, maxOut, PieceContent(s.written, frag));
      PieceCarries(m, s.written, frag);
      var rec := SealAs(s, previous, maxOut, PieceContent(s.written, frag)).1;
      if rec.Some? {
        assert sealed.rec == rec.value;
        TileOne(sealed.rec, s.msgs, s.written, s.offset);
      }
  }

  lemma TileOne(rec: Sent, msgs: seq<OutMsg>, idx: nat, off: nat)
    requires idx < |msgs| && rec.content.idx == idx && Carries(rec.content, msgs[idx], off)
    requires rec.content.piece != [] || off == |Body(msgs[idx])|
    ensures if off + |rec.content.piece| == |Body(msgs[idx])| then Tiles([rec], msgs, idx, off, idx + 1, 0)
            else Tiles([rec], msgs, idx, off, idx, off + |rec.content.piece|)
  {
    hide Carries, Body;
    assert [rec][1..] == [];
  }

  lemma CcsCarries(m: OutMsg, idx: nat)
    requires m.isCcs
    ensures Carries(CcsContent(idx), m, 0) && Body(m) == []
    ensures CcsContent(idx).idx == idx && CcsContent(idx).piece == []
  {
  }

  lemma PieceCarries(m: OutMsg, idx: nat, frag: Fragment)
    requires IsPiece(m, frag) && Encodable(frag)
    ensures Carries(PieceContent(idx, frag), m, frag.fragOff)
    ensures PieceContent(idx, frag).idx == idx && PieceContent(idx, frag).piece == frag.body
    ensures frag.fragOff + |frag.body| <= frag.msgLen == |Body(m)| && !m.isCcs
  {
  }

  /** Where the flight stands: messages left, then octets left of the current one. */
  function OctetsLeft(s: Sender): int {
    if s.written < |s.msgs| then |Body(s.msgs[s.written])| - s.offset else 0
  }

  /** A message under way is a handshake message and its offset lies inside it. */
  predicate Resting(s: Sender) {
    s.written <= |s.msgs| &&
    (s.offset > 0 ==> s.written < |s.msgs| && !s.msgs[s.written].isCcs && s.offset < |Body(s.msgs[s.written])|)
  }

  /** For every packet size: what the packing loop sealed are the next pieces of the flight,
      in order, and together they fit the packet. */
  lemma {:induction false} PackTiles(s: Sender, maxOut: nat)
    requires SenderOk(s) && Resting(s)
    ensures var (s', packed) := Pack(s, maxOut);
            && SenderOk(s') && SameQueue(s, s') && Resting(s') && s'.written >= s.written
            && (packed.Packed? ==>
                  && (forall i :: 0 <= i < |packed.recs| ==> SentOk(packed.recs[i]))
                  && |WireAll(packed.recs)| <= maxOut
                  && Tiles(packed.recs, s.msgs, s.written, s.offset, s'.written, s'.offset))
    ensures var (s', packed) := Pack(s, maxOut);
            packed.Packed? && packed.recs != [] ==>
              s'.written > s.written || (s'.written == s.written && OctetsLeft(s') < OctetsLeft(s))
    decreases |s.msgs| - s.written
  {
    hide SealNextMessage, Body, Tiles, Wire, SentOk;
    if s.written < |s.msgs| {
      SealNextShape(s, maxOut);
      SealNextTiles(s, maxOut);
      var (s1, sealed) := SealNextMessage(s, maxOut);
      match sealed
      case SealError =>
      case NoProgress => TilesNil(s.msgs, s.written, s.offset);
      case Part(rec) => WireAllOne(rec);
      case Whole(rec) =>
        var s2 := s1.(written := s.written + 1);
        PackTiles(s2, maxOut - |Wire(rec)|);
        var (s3, more) := Pack(s2, maxOut - |Wire(rec)|);
        if more.Packed? {
          TilesAppend([rec], more.recs, s.msgs, s.written, s.offset, s2.written, 0, s3.written, s3.offset);
          assert ([rec] + more.recs)[1..] == more.recs;
        }
    } else {
      TilesNil(s.msgs, s.written, s.offset);
    }
  }

  lemma TilesNil(msgs: seq<OutMsg>, idx: nat, off: nat)
    ensures Tiles([], msgs, idx, off, idx, off)
  {
  }

  lemma WireAllNone()
    ensures WireAll([]) == []
  {
  }

  lemma WireAllOne(rec: Sent)
    requires SentOk(rec)
    ensures WireAll([rec]) == Wire(rec)
  {
    hide Wire;
    assert [rec][1..] == [];
  }

  /** What is left of the current message, as the plaintext of one record. */
  function RestPlain(s: Sender): seq<byte>
    requires s.written < |s.msgs|
    requires s.msgs[s.written].isCcs || (Stored(s.msgs[s.written]).Some? && s.offset <= |Body(s.msgs[s.written])|)
  {
    var m := s.msgs[s.written];
    if m.isCcs then [SSL3_MT_CCS]
    else
      var f := Stored(m).value;
      Serialize(Fragment(f.typ, f.msgLen, f.seqNum, s.offset, f.body[s.offset..]))
  }

  /** The record fits the room it is given, and a handshake record could do with one octet. */
  predicate HasRoom(s: Sender, previous: bool, isCcs: bool, len: nat, maxOut: nat) {
    && len + MaxSealOverhead(s.w, previous) <= maxOut
    && (!isCcs ==> HM_HEADER_LENGTH + 1 + MaxSealOverhead(s.w, previous) <= maxOut
                   && len + SealPrefixLen(s.w, previous) <= maxOut)
  }

  /** The state in which all that is left of the current message goes out as one record: its keys
      are held, it is well formed, it fits, and its number is not the last one. */
  predicate GoesWhole(s: Sender, maxOut: nat)
    requires SenderOk(s) && s.written < |s.msgs|
  {
    var m := s.msgs[s.written];
    var use := UsePrevious(s, m);
    && use.Some? && (m.isCcs || (Stored(m).Some? && s.offset <= |Body(m)|))
    && HasRoom(s, use.value, m.isCcs, |RestPlain(s)|, maxOut)
    && UsedSeq(s.w, use.value) + 1 < SEQ_LIMIT
    && var typ := if m.isCcs then SSL3_RT_CHANGE_CIPHER_SPEC else SSL3_RT_HANDSHAKE;
    && var len := |Ciphertext(s.w, use.value, typ, RestPlain(s))|;
    && len < 0x1_0000 && DTLS1_RT_HEADER_LENGTH + len <= maxOut
  }

  lemma SealExactly(w: WriteState, previous: bool, typ: byte, plain: seq<byte>, maxOut: nat)
    requires WriteStateOk(w) && w.aead.recordVersion < 0x1_0000 && (previous ==> w.wEpoch >= 1)
    ensures SealRecord(w, previous, typ, plain, maxOut).1.Some?
       <==> var len := |Ciphertext(w, previous, typ, plain)|;
            UsedSeq(w, previous) + 1 < SEQ_LIMIT && len < 0x1_0000 && DTLS1_RT_HEADER_LENGTH + len <= maxOut
  {
    hide WireRecord, Ciphertext;
  }

  lemma PieceIsRest(s: Sender, previous: bool, f: Fragment, maxOut: nat)
    requires f.msgLen == |f.body|
    ensures var plan := PlanPiece(s, previous, f, maxOut);
            var whole := s.offset <= |f.body| && HasRoom(s, previous, false, HM_HEADER_LENGTH + |f.body| - s.offset, maxOut);
            && (plan.SendPiece? ==> plan.previous == previous && plan.frag.msgLen == |f.body|)
            && (plan.SendPiece? && s.offset + |plan.frag.body| == |f.body| <==> whole)
            && (whole ==> plan.frag == Fragment(f.typ, f.msgLen, f.seqNum, s.offset, f.body[s.offset..]))
  {
  }

  lemma GoesWholeExactly(s: Sender, maxOut: nat)
    requires SenderOk(s) && s.written < |s.msgs|
    ensures SealNextMessage(s, maxOut).1.Whole? <==> GoesWhole(s, maxOut)
  {
    hide Serialize, Stored, SealRecord, Ciphertext, PlanPiece, HasRoom, IsPiece;
    PlanFits(s, maxOut);
    var m := s.msgs[s.written];
    var use := UsePrevious(s, m);
    if use.Some? {
      if m.isCcs {
        SealExactly(s.w, use.value, SSL3_RT_CHANGE_CIPHER_SPEC, [SSL3_MT_CCS], maxOut);
        CcsRoom(s, use.value, maxOut);
      } else if Stored(m).Some? {
        var f := Stored(m).value;
        PieceIsRest(s, use.value, f, maxOut);
        if s.offset <= |f.body| {
          var rest := Fragment(f.typ, f.msgLen, f.seqNum, s.offset, f.body[s.offset..]);
          SerializeLength(rest);
          assert RestPlain(s) == Serialize(rest);
          SealExactly(s.w, use.value, SSL3_RT_HANDSHAKE, Serialize(rest), maxOut);
        }
      }
    }
  }

  lemma CcsRoom(s: Sender, previous: bool, maxOut: nat)
    ensures HasRoom(s, previous, true, 1, maxOut) <==> 1 + MaxSealOverhead(s.w, previous) <= maxOut
  {
  }

  /** When a packet cannot be built, the position in the flight is what it was before exactly when
      what was left of the current message could not go out whole. Otherwise the records already
      sealed into the abandoned packet are skipped: nothing rolls the position back. */
  lemma FailedPacketPosition(s: Sender, maxOut: nat)
    requires SenderOk(s) && Resting(s) && s.written < |s.msgs|
    ensures var (s', packed) := SealNextPacket(s, maxOut);
            packed.PackError? ==>
              (s'.written == s.written && s'.offset == s.offset <==> !GoesWhole(s, maxOut))
  {
    hide SealNextMessage, Body, Tiles, Wire, SentOk, GoesWhole;
    GoesWholeExactly(s, maxOut);
    SealNextShape(s, maxOut);
    SealNextTiles(s, maxOut);
    var (s1, sealed) := SealNextMessage(s, maxOut);
    if sealed.Whole? {
      PackTiles(s1.(written := s.written + 1), maxOut - |Wire(sealed.rec)|);
    }
  }

  /** The sender behind a first record that goes out whole, and the room left in the packet. */
  function BehindFirst(s: Sender, maxOut: nat): (res: (Sender, nat))
    requires SenderOk(s) && s.written < |s.msgs| && SealNextMessage(s, maxOut).1.Whole?
    ensures SenderOk(res.0) && res.0.written == s.written + 1 && res.0.msgs == s.msgs && res.0.w.wEpoch == s.w.wEpoch
    ensures res.0.w.aead == s.w.aead
  {
    SealNextShape(s, maxOut);
    var (s1, sealed) := SealNextMessage(s, maxOut);
    (s1.(written := s.written + 1), maxOut - |Wire(sealed.rec)|)
  }

  lemma SecondFails(s: Sender, maxOut: nat)
    requires SenderOk(s) && Resting(s) && s.written + 1 < |s.msgs| && SealNextMessage(s, maxOut).1.Whole?
    requires var (s2, room) := BehindFirst(s, maxOut);
             var (s3, sealed) := SealNextMessage(s2, room);
             sealed == SealError && s3.written == s2.written && s3.offset == s2.offset
    ensures var (s', packed) := SealNextPacket(s, maxOut);
            packed.PackError? && s'.written == s.written + 1 && s'.offset == 0
  {
    hide Wire, SentOk, SealNextMessage, Body, Tiles, WireAll;
    SealNextShape(s, maxOut);
    SealNextTiles(s, maxOut);
    var (s2, room) := BehindFirst(s, maxOut);
    assert Pack(s2, room) == (SealNextMessage(s2, room).0, PackError);
  }

  /** A message whose keys are no longer held fails the packet behind one that goes out whole, and
      the position is left past the first. */
  lemma SecondRefused(s: Sender, maxOut: nat)
    requires SenderOk(s) && Resting(s) && s.written + 1 < |s.msgs| && GoesWhole(s, maxOut)
    requires UsePrevious(s, s.msgs[s.written + 1]).None?
    ensures var (s', packed) := SealNextPacket(s, maxOut);
            packed.PackError? && s'.written == s.written + 1 && s'.offset == 0
  {
    hide Wire, SentOk, GoesWhole, SealNextMessage, SealNextPacket, BehindFirst;
    GoesWholeExactly(s, maxOut);
    var (s2, room) := BehindFirst(s, maxOut);
    RefusedError(s2, room);
    SecondFails(s, maxOut);
  }

  lemma RefusedError(s: Sender, maxOut: nat)
    requires SenderOk(s) && s.written < |s.msgs| && UsePrevious(s, s.msgs[s.written]).None?
    ensures SealNextMessage(s, maxOut) == (s, SealError)
  {
  }

  /** A message as add_outgoing is given it. */
  function Queued(typ: byte, seqNum: nat, body: seq<byte>, epoch: nat): OutMsg
    requires |body| < 0x100_0000 && seqNum < 0x1_0000
  {
    OutMsg(Serialize(Fragment(typ, |body|, seqNum, 0, body)), epoch, false)
  }

  lemma StoredSerialized(typ: byte, seqNum: nat, body: seq<byte>, epoch: nat)
    requires |body| < 0x100_0000 && seqNum < 0x1_0000
    ensures var m := Queued(typ, seqNum, body, epoch);
            Stored(m) == Some(Fragment(typ, |body|, seqNum, 0, body)) && Body(m) == body
  {
    hide Serialize;
    var f := Fragment(typ, |body|, seqNum, 0, body);
    ParseSerialized(f, []);
    assert Serialize(f) + [] == Serialize(f);
  }

  /** A flight this happens to: a handshake message and the ChangeCipherSpec behind it in one
      datagram, with one record number left. */
  lemma SkippedRecord(typ: byte, seqNum: nat, body: seq<byte>) returns (s: Sender, maxOut: nat)
    requires |body| < 0x8000 && seqNum < 0x1_0000
    ensures s.msgs == [Queued(typ, seqNum, body, 0), OutMsg([], 0, true)] && s.written == 0
    ensures SenderOk(s) && Resting(s) && AeadsOk(s) && GoesWhole(s, maxOut)
    ensures var (s', packed) := SealNextPacket(s, maxOut);
            packed.PackError? && s'.written == 1 && s'.offset == 0
  {
    var a := NullAead();
    maxOut := |body| + 100;
    s := Sender(WriteState(0, SEQ_LIMIT - 2, 0, a, a), [Queued(typ, seqNum, body, 0), OutMsg([], 0, true)], 0, 0, true, false, 0);
    StoredSerialized(typ, seqNum, body, 0);
    LastNumber(s, maxOut);
    hide Wire, SentOk, SealNextMessage, SealNextPacket, GoesWhole, Queued, Body, BehindFirst, Resting;
    GoesWholeExactly(s, maxOut);
    NoNumber(BehindFirst(s, maxOut).0, BehindFirst(s, maxOut).1);
    SecondFails(s, maxOut);
  }

  /** A message that takes the last number but one and leaves room for a ChangeCipherSpec. */
  lemma LastNumber(s: Sender, maxOut: nat)
    requires SenderOk(s) && s.written < |s.msgs| && s.offset == 0 && s.msgs[s.written].epoch == s.w.wEpoch == 0
    requires !s.msgs[s.written].isCcs && Stored(s.msgs[s.written]).Some? && |Body(s.msgs[s.written])| < 0x8000
    requires s.w.aead == NullAead() && s.w.writeSeq == SEQ_LIMIT - 2 && maxOut == |Body(s.msgs[s.written])| + 100
    ensures GoesWhole(s, maxOut) && SealNextMessage(s, maxOut).1.Whole?
    ensures BehindFirst(s, maxOut).0.w.writeSeq == SEQ_LIMIT - 1
    ensures BehindFirst(s, maxOut).1 >= DTLS1_RT_HEADER_LENGTH + 1
  {
    hide Serialize, Stored, SealRecord, Wire, Ciphertext, PlanPiece, HasRoom, IsPiece, Body, SealAs;
    var f := Stored(s.msgs[s.written]).value;
    var rest := Fragment(f.typ, f.msgLen, f.seqNum, 0, f.body[0..]);
    assert Body(s.msgs[s.written]) == f.body by { BodyStored(s.msgs[s.written]); }
    SerializeLength(rest);
    PieceIsRest(s, false, f, maxOut);
    NullRoom(s, HM_HEADER_LENGTH + |f.body|, maxOut);
    NullSeals(s, maxOut, PieceContent(s.written, rest));
    GoesWholeExactly(s, maxOut);
  }

  lemma BodyStored(m: OutMsg)
    requires !m.isCcs && Stored(m).Some?
    ensures Body(m) == Stored(m).value.body
  {
  }

  lemma NullRoom(s: Sender, len: nat, maxOut: nat)
    requires s.w.aead == NullAead() && HM_HEADER_LENGTH <= len && maxOut >= len + 14
    ensures HasRoom(s, false, false, len, maxOut)
  {
  }

  lemma NullSeals(s: Sender, maxOut: nat, content: Content)
    requires SenderOk(s) && s.w.aead == NullAead() && s.w.writeSeq + 1 < SEQ_LIMIT
    requires |content.plain| < 0x1_0000 && DTLS1_RT_HEADER_LENGTH + |content.plain| <= maxOut
    ensures var (s', rec) := SealAs(s, false, maxOut, content);
            && rec.Some? && SentOk(rec.value) && |Wire(rec.value)| == DTLS1_RT_HEADER_LENGTH + |content.plain|
            && s'.w.writeSeq == s.w.writeSeq + 1
  {
    assert |Ciphertext(s.w, false, content.typ, content.plain)| == |content.plain|;
    hide Ciphertext;
  }

  lemma NoNumber(s: Sender, maxOut: nat)
    requires SenderOk(s) && s.written < |s.msgs| && s.msgs[s.written].isCcs && s.msgs[s.written].epoch == s.w.wEpoch == 0
    requires s.w.aead == NullAead() && s.w.writeSeq == SEQ_LIMIT - 1 && maxOut >= DTLS1_RT_HEADER_LENGTH + 1
    ensures SealNextMessage(s, maxOut).1 == SealError && SealNextMessage(s, maxOut).0.written == s.written
    ensures SealNextMessage(s, maxOut).0.offset == s.offset
  {
    hide WireRecord;
  }

  function WireAllOf(packets: seq<seq<Sent>>): seq<seq<byte>>
    requires forall i, j :: 0 <= i < |packets| && 0 <= j < |packets[i]| ==> SentOk(packets[i][j])
  {
    seq(|packets|, i requires 0 <= i < |packets| => WireAll(packets[i]))
  }

  function Flatten(packets: seq<seq<Sent>>): seq<Sent> {
    if packets == [] then [] else Flatten(packets[..|packets| - 1]) + packets[|packets| - 1]
  }

  function Prepend(recs: seq<Sent>, packed: Packed): Packed {
    if packed.PackError? then PackError else Packed(recs + packed.recs)
  }

  lemma PrependNone(packed: Packed)
    ensures Prepend([], packed) == packed
  {
    if packed.Packed? { assert [] + packed.recs == packed.recs; }
  }

  lemma {:induction false} WireAllAppend(a: seq<Sent>, b: seq<Sent>)
    requires forall i :: 0 <= i < |a| ==> SentOk(a[i])
    requires forall i :: 0 <= i < |b| ==> SentOk(b[i])
    ensures forall i :: 0 <= i < |a + b| ==> SentOk((a + b)[i])
    ensures WireAll(a + b) == WireAll(a) + WireAll(b)
  {
    hide Wire;
    if a == [] {
      assert a + b == b;
    } else {
      assert (a + b)[1..] == a[1..] + b;
      WireAllAppend(a[1..], b);
    }
  }

  /** One turn of the packing loop, seen from the records already packed. */
  lemma PackWhole(s: Sender, maxOut: nat, packed: seq<Sent>)
    requires SenderOk(s) && s.written < |s.msgs| && SealNextMessage(s, maxOut).1.Whole?
    ensures var (s1, sealed) := SealNextMessage(s, maxOut);
            && SenderOk(s1.(written := s.written + 1)) && SentOk(sealed.rec) && |Wire(sealed.rec)| <= maxOut
            && var (s2, more) := Pack(s1.(written := s.written + 1), maxOut - |Wire(sealed.rec)|);
            && Pack(s, maxOut).0 == s2
            && Prepend(packed, Pack(s, maxOut).1) == Prepend(packed + [sealed.rec], more)
  {
    hide SealNextMessage, Wire, SentOk;
    SealNextShape(s, maxOut);
    var (s1, sealed) := SealNextMessage(s, maxOut);
    var (s2, more) := Pack(s1.(written := s.written + 1), maxOut - |Wire(sealed.rec)|);
    if more.Packed? {
      assert packed + ([sealed.rec] + more.recs) == (packed + [sealed.rec]) + more.recs;
    }
  }

  /** The turns that end the packing loop. */
  lemma PackStops(s: Sender, maxOut: nat, packed: seq<Sent>)
    requires SenderOk(s)
    ensures s.written == |s.msgs| ==> Pack(s, maxOut).0 == s && Prepend(packed, Pack(s, maxOut).1) == Packed(packed)
    ensures s.written < |s.msgs| ==>
              var (s1, sealed) := SealNextMessage(s, maxOut);
              && (!sealed.Whole? ==> Pack(s, maxOut).0 == s1)
              && (sealed.SealError? ==> Prepend(packed, Pack(s, maxOut).1) == PackError)
              && (sealed.NoProgress? ==> Prepend(packed, Pack(s, maxOut).1) == Packed(packed))
              && (sealed.Part? ==> Prepend(packed, Pack(s, maxOut).1) == Packed(packed + [sealed.rec]))
  {
    hide SealNextMessage, Wire, SentOk;
    assert packed + [] == packed;
    if s.written < |s.msgs| {
      SealNextShape(s, maxOut);
      var (s1, sealed) := SealNextMessage(s, maxOut);
      assert sealed.Part? ==> Pack(s, maxOut) == (s1, Packed([sealed.rec]));
    }
  }

  lemma AppendRecord(recs: seq<Sent>, rec: Sent)
    requires forall i :: 0 <= i < |recs| ==> SentOk(recs[i])
    requires SentOk(rec)
    ensures forall i :: 0 <= i < |recs + [rec]| ==> SentOk((recs + [rec])[i])
    ensures WireAll(recs + [rec]) == WireAll(recs) + Wire(rec)
  {
    WireAllAppend(recs, [rec]);
    WireAllOne(rec);
  }
}
