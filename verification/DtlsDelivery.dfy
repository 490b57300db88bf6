/** Datagrams that arrive while no message is consumed: in any order, any number of times. */
module DtlsDelivery {
  import opened Bytes
  import opened HandshakeFragments
  import opened Reassembly
  import opened IncomingRing
  import opened ReplayWindow
  import opened DtlsRecord
  import opened DtlsSender
  import opened DtlsReader
  import opened DtlsEndToEnd

  /** The record number as the replay window sees it. */
  function Val(rec: Sent): nat
    requires SentOk(rec)
  {
    U64Be(Sequence(rec.epoch, rec.num))
  }

  /** The fragment a handshake record carries. */
  function Piece(rec: Sent): Option<Fragment> {
    if rec.content.isCcs then None
    else
      match ParseFragment(rec.content.plain)
      case None => None
      case Some((f, _)) => Some(f)
  }

  /** A fragment the ring takes without an error. */
  predicate InReach(r: Ring, f: Fragment, maxMsgLen: nat, epochOne: bool) {
    f.msgLen <= maxMsgLen && f.seqNum < r.readSeq + SSL_MAX_HANDSHAKE_FLIGHT && (epochOne ==> f.seqNum == r.readSeq)
  }

  /** A genuine record the reader can make something of, should it be of its epoch. */
  ghost predicate Legible(keys: Keys, r: Reader, rec: Sent, queued: seq<(byte, seq<byte>)>, maxMsgLen: nat) {
    && RecordGenuine(keys, rec, queued)
    && VersionOk(r.aead, rec.version)
    && |rec.ciphertext| <= SSL3_RT_MAX_ENCRYPTED_LENGTH && |rec.content.plain| <= SSL3_RT_MAX_PLAIN_LENGTH
    && (rec.epoch == r.rEpoch ==>
          if rec.content.isCcs then r.aead.isNull && rec.content.plain == [SSL3_MT_CCS]
          else Piece(rec).Some? && InReach(r.ring, Piece(rec).value, maxMsgLen, r.rEpoch == 1))
  }

  ghost predicate Receiving(keys: Keys, r: Reader, queued: seq<(byte, seq<byte>)>) {
    ReaderInv(r) && r.aead == keys.opening(r.rEpoch) && RingGenuine(r.ring, queued)
  }

  predicate Fresh(r: Reader, rec: Sent)
    requires SentOk(rec)
  {
    rec.epoch == r.rEpoch && !Discards(r.window, Val(rec))
  }

  /** What one record does to the reader. */
  function TakeRec(r: Reader, rec: Sent, maxMsgLen: nat): (r': Reader)
    requires |r.ring.slots| == SSL_MAX_HANDSHAKE_FLIGHT && SentOk(rec)
    ensures |r'.ring.slots| == SSL_MAX_HANDSHAKE_FLIGHT
  {
    if !Fresh(r, rec) then r
    else
      var r1 := r.(window := ReplayWindow.Record(r.window, Val(rec)));
      match Piece(rec)
      case None => r1.(hasCcs := true)
      case Some(f) =>
        TakeFragmentShape(r.ring, f, maxMsgLen, r.rEpoch == 1);
        r1.(ring := TakeFragment(r.ring, f, maxMsgLen, r.rEpoch == 1).0)
  }

  lemma PieceGenuine(keys: Keys, rec: Sent, queued: seq<(byte, seq<byte>)>)
    requires RecordGenuine(keys, rec, queued) && !rec.content.isCcs
    ensures Piece(rec).Some? && Genuine(Piece(rec).value, queued) && rec.content.plain == Serialize(Piece(rec).value)
  {
    hide Serialize;
    var f: Fragment :| Genuine(f, queued) && rec.content.plain == Serialize(f);
    ParseSerialized(f, []);
    assert Serialize(f) + [] == Serialize(f);
  }

  /** A fragment in reach that agrees with what the ring holds is no error. */
  lemma ReachTaken(r: Ring, f: Fragment, queued: seq<(byte, seq<byte>)>, maxMsgLen: nat, epochOne: bool)
    requires RingInv(r) && RingGenuine(r, queued) && Genuine(f, queued) && InReach(r, f, maxMsgLen, epochOne)
    ensures TakeFragment(r, f, maxMsgLen, epochOne).1 == Ok
    ensures TakeFragment(r, f, maxMsgLen, epochOne) == TakeFragment(r, f, maxMsgLen, false)
  {
    hide Encodable, Range;
    if r.readSeq <= f.seqNum {
      SlotNumberMatches(r, f);
      assert SlotGenuine(r.slots[Index(f.seqNum)], queued);
    }
  }

  /** dtls_open_record on a genuine record: it is consumed, and what comes of it is what was sealed
      or, if it is of another epoch or a replay, nothing. */
  lemma OpenOne(keys: Keys, r: Reader, rec: Sent, rest: seq<byte>, queued: seq<(byte, seq<byte>)>, maxMsgLen: nat)
    requires KeysOk(keys) && Receiving(keys, r, queued) && Legible(keys, r, rec, queued, maxMsgLen)
    ensures SentOk(rec) && |Wire(rec)| > 0
    ensures OpenRecord(r, Wire(rec) + rest)
         == if Fresh(r, rec)
            then (ReplayWindow.Record(r.window, Val(rec)), Opened.Record(rec.content.typ, rec.content.plain), |Wire(rec)|)
            else (r.window, Discard, |Wire(rec)|)
  {
    hide ParseRecord, Discards, ReplayWindow.Record, VersionOk, RingGenuine, ReaderInv, Piece;
    var sequence := Sequence(rec.epoch, rec.num);
    ParseWireRecord(rec.content.typ, rec.version, sequence, rec.ciphertext, rest);
    U16RoundTrip(rec.epoch, U48(rec.num));
    assert GetU16(sequence) == rec.epoch;
    if rec.epoch == r.rEpoch {
      assert Opens(keys.sealing(rec.epoch), r.aead);
      assert r.aead.open(rec.content.typ, rec.version, sequence, rec.ciphertext) == Some(rec.content.plain);
    }
  }

  /** dtls1_open_handshake on it is no error and does what TakeRec says. */
  lemma HandshakeOne(keys: Keys, r: Reader, rec: Sent, rest: seq<byte>, queued: seq<(byte, seq<byte>)>, maxMsgLen: nat)
    requires KeysOk(keys) && Receiving(keys, r, queued) && Legible(keys, r, rec, queued, maxMsgLen)
    ensures SentOk(rec) && |r.ring.slots| == SSL_MAX_HANDSHAKE_FLIGHT && |Wire(rec)| > 0
    ensures var (r', outcome, consumed) := OpenHandshake(r, Wire(rec) + rest, maxMsgLen);
            && r' == TakeRec(r, rec, maxMsgLen) && consumed == |Wire(rec)| && (outcome == Success || outcome == Discarded)
  {
    hide OpenRecord, Wire, TakeFragment, TakeRecord, Fresh, Serialize, ReplayWindow.Record, VersionOk, Receiving, Legible, KeysOk, Val, SentOk;
    LegibleMeans(keys, r, rec, queued, maxMsgLen);
    OpenOne(keys, r, rec, rest, queued, maxMsgLen);
    if Fresh(r, rec) && !rec.content.isCcs {
      PieceTaken(keys, r, rec, queued, maxMsgLen);
    }
  }

  lemma LegibleMeans(keys: Keys, r: Reader, rec: Sent, queued: seq<(byte, seq<byte>)>, maxMsgLen: nat)
    requires KeysOk(keys) && Receiving(keys, r, queued) && Legible(keys, r, rec, queued, maxMsgLen)
    ensures SentOk(rec) && |r.ring.slots| == SSL_MAX_HANDSHAKE_FLIGHT
    ensures rec.content.typ == if rec.content.isCcs then SSL3_RT_CHANGE_CIPHER_SPEC else SSL3_RT_HANDSHAKE
    ensures Fresh(r, rec) && rec.content.isCcs ==> r.aead.isNull && rec.content.plain == [SSL3_MT_CCS]
  {
    hide RingGenuine, Discards, Val;
  }

  lemma PieceTaken(keys: Keys, r: Reader, rec: Sent, queued: seq<(byte, seq<byte>)>, maxMsgLen: nat)
    requires KeysOk(keys) && Receiving(keys, r, queued) && Legible(keys, r, rec, queued, maxMsgLen)
    requires SentOk(rec) && Fresh(r, rec) && !rec.content.isCcs
    ensures |r.ring.slots| == SSL_MAX_HANDSHAKE_FLIGHT && Piece(rec).Some?
    ensures TakeRecord(r.ring, rec.content.plain, maxMsgLen, r.rEpoch == 1)
         == (TakeFragment(r.ring, Piece(rec).value, maxMsgLen, r.rEpoch == 1).0, Ok)
  {
    hide Discards, Val, RingGenuine, TakeFragment, Serialize, KeysOk;
    PieceGenuine(keys, rec, queued);
    TakeSerialized(r.ring, Piece(rec).value, maxMsgLen, r.rEpoch == 1);
    ReachTaken(r.ring, Piece(rec).value, queued, maxMsgLen, r.rEpoch == 1);
  }

  /** Nothing about the reader changes that a later record's legibility depends on. */
  lemma TakeRecKeeps(keys: Keys, r: Reader, rec: Sent, queued: seq<(byte, seq<byte>)>, maxMsgLen: nat)
    requires KeysOk(keys) && Receiving(keys, r, queued) && Legible(keys, r, rec, queued, maxMsgLen)
    ensures SentOk(rec) && |r.ring.slots| == SSL_MAX_HANDSHAKE_FLIGHT
    ensures var r' := TakeRec(r, rec, maxMsgLen);
            && Receiving(keys, r', queued) && r'.rEpoch == r.rEpoch && r'.aead == r.aead && r'.ring.readSeq == r.ring.readSeq
  {
    HandshakeOne(keys, r, rec, [], queued, maxMsgLen);
    OpenKeepsInv(r, Wire(rec) + [], maxMsgLen);
    hide Wire, OpenHandshake, Fresh, ReaderInv, RingGenuine, TakeFragment;
    if !rec.content.isCcs {
      PieceGenuine(keys, rec, queued);
      GenuineEncodable(Piece(rec).value, queued);
      TakeFragmentShape(r.ring, Piece(rec).value, maxMsgLen, r.rEpoch == 1);
      assert RingInv(r.ring) by { ReaderRing(r); }
      TakeGenuine(r.ring, Piece(rec).value, queued, maxMsgLen, r.rEpoch == 1);
    }
  }

  lemma ReaderRing(r: Reader)
    requires ReaderInv(r)
    ensures RingInv(r.ring) && |r.ring.slots| == SSL_MAX_HANDSHAKE_FLIGHT
  {
  }

  // ------------------------------------------------------------- whole datagrams

  /** One datagram, record by record; false if one of them is an error. */
  function Drain(r: Reader, input: seq<byte>, maxMsgLen: nat): (res: (Reader, bool))
    requires |r.ring.slots| == SSL_MAX_HANDSHAKE_FLIGHT
    ensures |res.0.ring.slots| == SSL_MAX_HANDSHAKE_FLIGHT
    decreases |input|
  {
    if input == [] then (r, true)
    else
      OpenConsumes(r, input);
      var (r', outcome, consumed) := OpenHandshake(r, input, maxMsgLen);
      if outcome == Success || outcome == Discarded then Drain(r', input[consumed..], maxMsgLen) else (r', false)
  }

  /** Datagrams in the order they arrive. */
  function DrainAll(r: Reader, arrivals: seq<seq<Sent>>, maxMsgLen: nat): (res: (Reader, bool))
    requires |r.ring.slots| == SSL_MAX_HANDSHAKE_FLIGHT
    requires forall i, j :: 0 <= i < |arrivals| && 0 <= j < |arrivals[i]| ==> SentOk(arrivals[i][j])
    ensures |res.0.ring.slots| == SSL_MAX_HANDSHAKE_FLIGHT
    decreases |arrivals|
  {
    if arrivals == [] then (r, true)
    else
      var (r', ok) := Drain(r, WireAll(arrivals[0]), maxMsgLen);
      if ok then DrainAll(r', arrivals[1..], maxMsgLen) else (r', false)
  }

  function TakeRecs(r: Reader, recs: seq<Sent>, maxMsgLen: nat): (r': Reader)
    requires |r.ring.slots| == SSL_MAX_HANDSHAKE_FLIGHT
    requires forall i :: 0 <= i < |recs| ==> SentOk(recs[i])
    ensures |r'.ring.slots| == SSL_MAX_HANDSHAKE_FLIGHT
    decreases |recs|
  {
    if recs == [] then r else TakeRecs(TakeRec(r, recs[0], maxMsgLen), recs[1..], maxMsgLen)
  }

  ghost predicate AllLegible(keys: Keys, r: Reader, recs: seq<Sent>, queued: seq<(byte, seq<byte>)>, maxMsgLen: nat) {
    forall i :: 0 <= i < |recs| ==> Legible(keys, r, recs[i], queued, maxMsgLen)
  }

  lemma LegibleLater(keys: Keys, r: Reader, r': Reader, recs: seq<Sent>, queued: seq<(byte, seq<byte>)>, maxMsgLen: nat)
    requires AllLegible(keys, r, recs, queued, maxMsgLen)
    requires r'.rEpoch == r.rEpoch && r'.aead == r.aead && r'.ring.readSeq == r.ring.readSeq
    ensures AllLegible(keys, r', recs, queued, maxMsgLen)
    ensures forall i :: 0 <= i < |recs| ==> SentOk(recs[i])
  {
    hide RecordGenuine, VersionOk, Piece;
    forall i | 0 <= i < |recs| ensures Legible(keys, r', recs[i], queued, maxMsgLen) && SentOk(recs[i]) {
      assert Legible(keys, r, recs[i], queued, maxMsgLen);
      GenuineSent(keys, recs[i], queued);
    }
  }

  lemma GenuineSent(keys: Keys, rec: Sent, queued: seq<(byte, seq<byte>)>)
    requires RecordGenuine(keys, rec, queued)
    ensures SentOk(rec)
  {
  }

  /** A datagram of genuine records is taken record by record and no record is an error. */
  lemma {:induction false} DrainTakes(keys: Keys, r: Reader, recs: seq<Sent>, queued: seq<(byte, seq<byte>)>, maxMsgLen: nat)
    requires KeysOk(keys) && Receiving(keys, r, queued) && AllLegible(keys, r, recs, queued, maxMsgLen)
    ensures |r.ring.slots| == SSL_MAX_HANDSHAKE_FLIGHT && forall i :: 0 <= i < |recs| ==> SentOk(recs[i])
    ensures Drain(r, WireAll(recs), maxMsgLen) == (TakeRecs(r, recs, maxMsgLen), true)
    ensures var r' := TakeRecs(r, recs, maxMsgLen);
            && Receiving(keys, r', queued) && r'.rEpoch == r.rEpoch && r'.aead == r.aead && r'.ring.readSeq == r.ring.readSeq
    decreases |recs|
  {
    hide Legible, Receiving, KeysOk, OpenHandshake, TakeRec, Wire, SentOk, RingGenuine;
    LegibleLater(keys, r, r, recs, queued, maxMsgLen);
    ReceivingRing(keys, r, queued);
    if recs != [] {
      var rest := WireAll(recs[1..]);
      assert Legible(keys, r, recs[0], queued, maxMsgLen);
      HandshakeOne(keys, r, recs[0], rest, queued, maxMsgLen);
      TakeRecKeeps(keys, r, recs[0], queued, maxMsgLen);
      var r1 := TakeRec(r, recs[0], maxMsgLen);
      assert AllLegible(keys, r, recs[1..], queued, maxMsgLen);
      LegibleLater(keys, r, r1, recs[1..], queued, maxMsgLen);
      DrainTakes(keys, r1, recs[1..], queued, maxMsgLen);
      assert WireAll(recs) == Wire(recs[0]) + rest && (Wire(recs[0]) + rest)[|Wire(recs[0])|..] == rest;
    }
  }

  lemma ReceivingRing(keys: Keys, r: Reader, queued: seq<(byte, seq<byte>)>)
    requires Receiving(keys, r, queued)
    ensures RingInv(r.ring) && RingGenuine(r.ring, queued) && |r.ring.slots| == SSL_MAX_HANDSHAKE_FLIGHT
  {
    hide RingGenuine;
  }

  lemma {:induction false} TakeRecsAppend(r: Reader, a: seq<Sent>, b: seq<Sent>, maxMsgLen: nat)
    requires |r.ring.slots| == SSL_MAX_HANDSHAKE_FLIGHT
    requires (forall i :: 0 <= i < |a| ==> SentOk(a[i])) && (forall i :: 0 <= i < |b| ==> SentOk(b[i]))
    ensures forall i :: 0 <= i < |a + b| ==> SentOk((a + b)[i])
    ensures TakeRecs(r, a + b, maxMsgLen) == TakeRecs(TakeRecs(r, a, maxMsgLen), b, maxMsgLen)
    decreases |a|
  {
    hide TakeRec, SentOk;
    if a == [] {
      assert a + b == b;
    } else {
      assert (a + b)[0] == a[0] && (a + b)[1..] == a[1..] + b;
      TakeRecsAppend(TakeRec(r, a[0], maxMsgLen), a[1..], b, maxMsgLen);
    }
  }

  lemma {:induction false} FlattenFirst(packets: seq<seq<Sent>>)
    requires packets != []
    ensures Flatten(packets) == packets[0] + Flatten(packets[1..])
    decreases |packets|
  {
    var n := |packets| - 1;
    if n > 0 {
      FlattenFirst(packets[..n]);
      assert packets[..n][0] == packets[0] && packets[..n][1..] == packets[1..][..n - 1] && packets[1..][n - 1] == packets[n];
      assert packets[0] + Flatten(packets[1..][..n - 1]) + packets[n] == packets[0] + (Flatten(packets[1..][..n - 1]) + packets[n]);
    } else {
      assert packets[..0] == [] && packets[1..] == [];
      assert [] + packets[0] == packets[0] + [];
    }
  }

  lemma {:induction false} DrainAllTakes(keys: Keys, r: Reader, arrivals: seq<seq<Sent>>, queued: seq<(byte, seq<byte>)>, maxMsgLen: nat)
    requires KeysOk(keys) && Receiving(keys, r, queued) && AllLegible(keys, r, Flatten(arrivals), queued, maxMsgLen)
    ensures |r.ring.slots| == SSL_MAX_HANDSHAKE_FLIGHT
    ensures forall i, j :: 0 <= i < |arrivals| && 0 <= j < |arrivals[i]| ==> SentOk(arrivals[i][j])
    ensures forall i :: 0 <= i < |Flatten(arrivals)| ==> SentOk(Flatten(arrivals)[i])
    ensures DrainAll(r, arrivals, maxMsgLen) == (TakeRecs(r, Flatten(arrivals), maxMsgLen), true)
    ensures Receiving(keys, TakeRecs(r, Flatten(arrivals), maxMsgLen), queued)
    decreases |arrivals|
  {
    hide Legible, Receiving, KeysOk, TakeRec, Drain, WireAll, SentOk, RingGenuine, Flatten;
    ReceivingRing(keys, r, queued);
    LegibleLater(keys, r, r, Flatten(arrivals), queued, maxMsgLen);
    if arrivals == [] {
      FlattenNone();
    } else {
      FlattenFirst(arrivals);
      var a, b := arrivals[0], Flatten(arrivals[1..]);
      forall i | 0 <= i < |a| ensures Legible(keys, r, a[i], queued, maxMsgLen) { assert (a + b)[i] == a[i]; }
      forall i | 0 <= i < |b| ensures Legible(keys, r, b[i], queued, maxMsgLen) { assert (a + b)[|a| + i] == b[i]; }
      DrainTakes(keys, r, a, queued, maxMsgLen);
      var r1 := TakeRecs(r, a, maxMsgLen);
      LegibleLater(keys, r, r1, b, queued, maxMsgLen);
      DrainAllTakes(keys, r1, arrivals[1..], queued, maxMsgLen);
      TakeRecsAppend(r, a, b, maxMsgLen);
      forall i, j | 0 <= i < |arrivals| && 0 <= j < |arrivals[i]| ensures SentOk(arrivals[i][j]) {
        if i > 0 { assert arrivals[1..][i - 1] == arrivals[i]; }
      }
    }
  }

  lemma FlattenNone()
    ensures Flatten([]) == []
  {
  }

  // -------------------------------------------------------------- what has arrived

  /** The record carries octet k of message n, or shows that the message is shorter. */
  predicate Brings(rec: Sent, n: nat, k: nat) {
    var f := Piece(rec);
    f.Some? && f.value.seqNum == n && (f.value.fragOff <= k < f.value.fragOff + |f.value.body| || k >= f.value.msgLen)
  }

  lemma ArrivedStays(keys: Keys, r: Reader, rec: Sent, queued: seq<(byte, seq<byte>)>, maxMsgLen: nat, n: nat, k: nat)
    requires KeysOk(keys) && Receiving(keys, r, queued) && Legible(keys, r, rec, queued, maxMsgLen)
    requires r.ring.readSeq <= n < r.ring.readSeq + SSL_MAX_HANDSHAKE_FLIGHT
    ensures SentOk(rec) && |r.ring.slots| == SSL_MAX_HANDSHAKE_FLIGHT
    ensures Arrived(r.ring, n, k) || (Fresh(r, rec) && Brings(rec, n, k)) ==> Arrived(TakeRec(r, rec, maxMsgLen).ring, n, k)
  {
    hide Arrived, RingGenuine, RingInv, TakeFragment, VersionOk, Discards, Val, KeysOk;
    ReceivingRing(keys, r, queued);
    GenuineSent(keys, rec, queued);
    if Fresh(r, rec) && !rec.content.isCcs {
      PieceGenuine(keys, rec, queued);
      var f := Piece(rec).value;
      ReachTaken(r.ring, f, queued, maxMsgLen, r.rEpoch == 1);
      TakeArrives(r.ring, f, queued, maxMsgLen, n, k);
    }
  }

  lemma {:induction false} ArrivedStaysAll(keys: Keys, r: Reader, recs: seq<Sent>, queued: seq<(byte, seq<byte>)>,
                                           maxMsgLen: nat, n: nat, k: nat)
    requires KeysOk(keys) && Receiving(keys, r, queued) && AllLegible(keys, r, recs, queued, maxMsgLen)
    requires r.ring.readSeq <= n < r.ring.readSeq + SSL_MAX_HANDSHAKE_FLIGHT
    ensures |r.ring.slots| == SSL_MAX_HANDSHAKE_FLIGHT && forall i :: 0 <= i < |recs| ==> SentOk(recs[i])
    ensures Arrived(r.ring, n, k) ==> Arrived(TakeRecs(r, recs, maxMsgLen).ring, n, k)
    decreases |recs|
  {
    hide Legible, Receiving, KeysOk, TakeRec, SentOk, Arrived, Fresh, Brings;
    LegibleLater(keys, r, r, recs, queued, maxMsgLen);
    ReceivingRing(keys, r, queued);
    if recs != [] {
      assert Legible(keys, r, recs[0], queued, maxMsgLen);
      ArrivedStays(keys, r, recs[0], queued, maxMsgLen, n, k);
      TakeRecKeeps(keys, r, recs[0], queued, maxMsgLen);
      assert AllLegible(keys, r, recs[1..], queued, maxMsgLen);
      LegibleLater(keys, r, TakeRec(r, recs[0], maxMsgLen), recs[1..], queued, maxMsgLen);
      ArrivedStaysAll(keys, TakeRec(r, recs[0], maxMsgLen), recs[1..], queued, maxMsgLen, n, k);
    }
  }

  predicate AllSent(recs: seq<Sent>) {
    forall i :: 0 <= i < |recs| ==> SentOk(recs[i])
  }

  /** Of epoch e a number means one content. */
  ghost predicate OneContent(recs: seq<Sent>, e: nat)
    requires AllSent(recs)
  {
    forall i, j :: 0 <= i < |recs| && 0 <= j < |recs| && recs[i].epoch == e && recs[j].epoch == e ==>
      Val(recs[i]) == Val(recs[j]) ==> recs[i].content == recs[j].content
  }

  /** Record i does not come 64 or more behind max or behind one of its epoch that came before it. */
  ghost predicate InTime(recs: seq<Sent>, i: nat, max: nat)
    requires AllSent(recs) && i < |recs|
  {
    && max < Val(recs[i]) + WINDOW_SIZE
    && forall a :: 0 <= a < i && recs[a].epoch == recs[i].epoch ==> Val(recs[a]) < Val(recs[i]) + WINDOW_SIZE
  }

  lemma RestInTime(recs: seq<Sent>, i: nat, max: nat, max': nat)
    requires AllSent(recs) && 0 < i < |recs| && OneContent(recs, recs[i].epoch) && InTime(recs, i, max)
    requires max' == max || (recs[0].epoch == recs[i].epoch && max' == Val(recs[0]))
    ensures AllSent(recs[1..]) && recs[1..][i - 1] == recs[i]
    ensures OneContent(recs[1..], recs[i].epoch) && InTime(recs[1..], i - 1, max')
  {
    hide Val, SentOk;
    var rest, e := recs[1..], recs[i].epoch;
    forall j | 0 <= j < |rest| ensures SentOk(rest[j]) { assert rest[j] == recs[j + 1]; }
    forall a, b | 0 <= a < |rest| && 0 <= b < |rest| && rest[a].epoch == e && rest[b].epoch == e && Val(rest[a]) == Val(rest[b])
      ensures rest[a].content == rest[b].content
    {
      assert rest[a] == recs[a + 1] && rest[b] == recs[b + 1];
    }
    forall a | 0 <= a < i - 1 && rest[a].epoch == e ensures Val(rest[a]) < Val(recs[i]) + WINDOW_SIZE {
      assert rest[a] == recs[a + 1];
    }
  }

  /** What the window stands for after one record. */
  lemma WindowAfter(r: Reader, rec: Sent, accepted: set<nat>, maxMsgLen: nat)
    requires |r.ring.slots| == SSL_MAX_HANDSHAKE_FLIGHT && SentOk(rec) && Represents(r.window, accepted)
    ensures rec.epoch == r.rEpoch && r.window.maxSeqNum < Val(rec) + WINDOW_SIZE ==> (Fresh(r, rec) <==> Val(rec) !in accepted)
    ensures var r' := TakeRec(r, rec, maxMsgLen);
            && Represents(r'.window, if Fresh(r, rec) then accepted + {Val(rec)} else accepted)
            && (r'.window.maxSeqNum == r.window.maxSeqNum || (rec.epoch == r.rEpoch && r'.window.maxSeqNum == Val(rec)))
  {
    hide Discards, Represents, ReplayWindow.Record, Val, Piece, TakeFragment;
    DiscardMeaning(r.window, accepted, Val(rec));
    if Fresh(r, rec) { RecordMeaning(r.window, accepted, Val(rec)); }
  }

  /** A record of the reader's epoch that was not accepted before is, if it comes in time, and what
      it brings has arrived from then on. */
  lemma {:induction false} RecArrives(keys: Keys, r: Reader, recs: seq<Sent>, accepted: set<nat>, queued: seq<(byte, seq<byte>)>,
                                      maxMsgLen: nat, i: nat, n: nat, k: nat)
    requires KeysOk(keys) && Receiving(keys, r, queued) && AllLegible(keys, r, recs, queued, maxMsgLen) && AllSent(recs)
    requires r.ring.readSeq <= n < r.ring.readSeq + SSL_MAX_HANDSHAKE_FLIGHT
    requires i < |recs| && recs[i].epoch == r.rEpoch && Brings(recs[i], n, k)
    requires Represents(r.window, accepted) && OneContent(recs, r.rEpoch) && InTime(recs, i, r.window.maxSeqNum)
    requires |r.ring.slots| == SSL_MAX_HANDSHAKE_FLIGHT
    requires Val(recs[i]) in accepted ==> Arrived(r.ring, n, k)
    ensures Arrived(TakeRecs(r, recs, maxMsgLen).ring, n, k)
    decreases |recs|
  {
    hide Legible, Receiving, KeysOk, TakeRec, SentOk, Arrived, Fresh, Represents, Val, OneContent, InTime;
    var h, rest := recs[0], recs[1..];
    assert Legible(keys, r, h, queued, maxMsgLen);
    HeadInTime(recs, r.rEpoch, r.window.maxSeqNum, i);
    assert Val(h) == Val(recs[i]) && h.epoch == r.rEpoch ==> Brings(h, n, k) by { SameBrings(h, recs[i], n, k); }
    ArrivedStays(keys, r, h, queued, maxMsgLen, n, k);
    WindowAfter(r, h, accepted, maxMsgLen);
    TakeRecKeeps(keys, r, h, queued, maxMsgLen);
    var r1 := TakeRec(r, h, maxMsgLen);
    assert AllLegible(keys, r, rest, queued, maxMsgLen);
    LegibleLater(keys, r, r1, rest, queued, maxMsgLen);
    if Arrived(r1.ring, n, k) {
      ArrivedStaysAll(keys, r1, rest, queued, maxMsgLen, n, k);
    } else {
      assert !(h.epoch == r.rEpoch && Val(h) == Val(recs[i]));
      RestInTime(recs, i, r.window.maxSeqNum, r1.window.maxSeqNum);
      NotFreshElsewhere(r, h);
      RecArrives(keys, r1, rest, if Fresh(r, h) then accepted + {Val(h)} else accepted, queued, maxMsgLen, i - 1, n, k);
    }
  }

  lemma NotFreshElsewhere(r: Reader, rec: Sent)
    requires SentOk(rec)
    ensures Fresh(r, rec) ==> rec.epoch == r.rEpoch
  {
  }

  lemma HeadInTime(recs: seq<Sent>, e: nat, max: nat, i: nat)
    requires AllSent(recs) && i < |recs| && OneContent(recs, e) && InTime(recs, i, max) && recs[i].epoch == e
    ensures max < Val(recs[i]) + WINDOW_SIZE
    ensures recs[0].epoch == e && Val(recs[0]) == Val(recs[i]) ==> recs[0].content == recs[i].content
  {
    hide Val, SentOk;
  }

  lemma SameBrings(a: Sent, b: Sent, n: nat, k: nat)
    ensures a.content == b.content && Brings(b, n, k) ==> Brings(a, n, k)
  {
  }
}
