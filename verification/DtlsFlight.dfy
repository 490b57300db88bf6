/** The outgoing flight as DTLS1_STATE keeps it, and the loops of d1_both.cc over it. */
module DtlsFlight {
  import opened Bytes
  import opened HandshakeFragments
  import opened DtlsRecord
  import opened DtlsSender
  import opened DtlsTransmit

  datatype SealResult = seal_error | seal_no_progress | seal_partial | seal_success

  /** dtls_clear_outgoing_messages. */
  function Cleared(s: Sender): Sender {
    s.(msgs := [], written := 0, offset := 0, complete := false, flightHasReply := false)
  }

  /** add_outgoing: a new flight begins once the last one was flushed. */
  function Added(s: Sender, isCcs: bool, data: seq<byte>): (Sender, bool) {
    var s1 := if s.complete then Cleared(s) else s;
    if |s1.msgs| >= SSL_MAX_HANDSHAKE_FLIGHT || |data| > 0xffff_ffff then (s1, false)
    else
      (s1.(msgs := s1.msgs + [OutMsg(data, s1.w.wEpoch, isCcs)],
           writeSeq := if isCcs then s1.writeSeq else s1.writeSeq + 1), true)
  }

  /** A datagram transport. Each write or flush takes its result from a script, and succeeds once
      that has run out, so a statement for every script is a statement for every behaviour of
      the network stack; log holds the packets accepted for sending. */
  class DatagramBio {
    var script: seq<int>
    var log: seq<seq<byte>>

    /** It never refuses. */
    ghost predicate Willing()
      reads this
    {
      forall k :: 0 <= k < |script| ==> script[k] > 0
    }

    method Write(packet: seq<byte>) returns (ret: int)
      modifies this
      ensures ret > 0 ==> log == old(log) + [packet]
      ensures ret <= 0 ==> log == old(log)
      ensures script == if old(script) == [] then [] else old(script)[1..]
      ensures ret == if old(script) == [] then 1 else old(script)[0]
      ensures old(Willing()) ==> Willing() && ret > 0
    {
      ret := Take();
      if ret > 0 {
        log := log + [packet];
      }
    }

    method Take() returns (ret: int)
      modifies this`script
      ensures script == if old(script) == [] then [] else old(script)[1..]
      ensures ret == if old(script) == [] then 1 else old(script)[0]
      ensures old(Willing()) ==> Willing() && ret > 0
    {
      if script == [] {
        return 1;
      }
      ret := script[0];
      script := script[1..];
    }
  }

  class OutgoingFlight {
    const records: RecordWriter
    const outgoing: array<OutMsg>
    var len: nat
    var written: nat
    var offset: nat
    var complete: bool
    var hasReply: bool
    var writeSeq: nat
    var writeShutdown: bool

    ghost predicate Valid()
      reads this, outgoing, records, records.write.seq_, records.last.seq_
    {
      && outgoing.Length == SSL_MAX_HANDSHAKE_FLIGHT
      && len <= outgoing.Length
      && records.Valid()
      && SenderOk(View())
    }

    ghost function View(): Sender
      requires len <= outgoing.Length && records.Valid()
      reads this, outgoing, records, records.write.seq_, records.last.seq_
    {
      Sender(records.View(), outgoing[..len], written, offset, complete, hasReply, writeSeq)
    }

    constructor (aead: Aead)
      requires aead.recordVersion < 0x1_0000
      ensures Valid()
      ensures View() == Sender(WriteState(0, 0, 0, aead, aead), [], 0, 0, false, false, 0)
    {
      var r := new RecordWriter(aead);
      records := r;
      outgoing := new OutMsg[SSL_MAX_HANDSHAKE_FLIGHT](_ => OutMsg([], 0, false));
      len, written, offset, complete, hasReply, writeSeq, writeShutdown := 0, 0, 0, false, false, 0, false;
    }

    /** dtls1_init_message and dtls1_finish_message: the header goes in with a zero message
        length, which is then copied from the fragment length. */
    method BuildMessage(typ: byte, body: seq<byte>) returns (msg: seq<byte>)
      requires writeSeq < 0x1_0000 && |body| < 0x100_0000
      ensures msg == Serialize(Fragment(typ, |body|, writeSeq, 0, body))
    {
      var out := [typ] + (U24(0) + (U16(writeSeq) + (U24(0) + (U24(|body|) + body))));
      var a := new byte[|out|](i requires 0 <= i < |out| => out[i]);
      assert a[..] == out;
      forall i | 0 <= i < 3 {
        a[1 + i] := a[HM_HEADER_LENGTH - 3 + i];
      }
      msg := a[..];
      assert msg == [typ] + (U24(|body|) + (U16(writeSeq) + (U24(0) + (U24(|body|) + body))));
    }

    method Clear()
      requires Valid()
      modifies this
      ensures Valid() && View() == Cleared(old(View())) && writeShutdown == old(writeShutdown)
    {
      len, written, offset, complete, hasReply := 0, 0, 0, false, false;
    }

    /** add_outgoing. The message counter is a uint16_t and is assumed not to wrap. */
    method AddOutgoing(isCcs: bool, data: seq<byte>) returns (ok: bool)
      requires Valid() && (!isCcs ==> writeSeq < 0xffff)
      modifies this, outgoing
      ensures Valid() && (View(), ok) == Added(old(View()), isCcs, data) && writeShutdown == old(writeShutdown)
    {
      if complete {
        Clear();
      }
      if len >= SSL_MAX_HANDSHAKE_FLIGHT || |data| > 0xffff_ffff {
        return false;
      }
      if !isCcs {
        writeSeq := writeSeq + 1;
      }
      outgoing[len] := OutMsg(data, records.wEpoch, isCcs);
      len := len + 1;
      assert outgoing[..len] == outgoing[..len - 1] + [outgoing[len - 1]];
      return true;
    }

    /** The first half of seal_next_message: which keys, and how much fits. */
    method PlanRecord(maxOut: nat) returns (plan: Plan)
      requires Valid() && written < len
      ensures plan == PlanNext(View(), maxOut)
    {
      hide Serialize;
      var msg := outgoing[written];
      assert View().msgs[written] == msg;
      var previous := false;
      if records.wEpoch >= 1 && msg.epoch == records.wEpoch - 1 {
        previous := true;
      } else if msg.epoch != records.wEpoch {
        return Refuse;
      }
      var key := if previous then records.lastAead else records.aead;
      var overhead := DTLS1_RT_HEADER_LENGTH + key.maxOverhead;
      if msg.isCcs {
        return if maxOut < 1 + overhead then NoRoom else SendCcs(previous);
      }
      var parsed := ParseFragment(msg.data);
      if parsed.None? || parsed.value.0.fragOff != 0 || parsed.value.0.msgLen != |parsed.value.0.body|
         || offset > |parsed.value.0.body| || parsed.value.1 != [] {
        return Refuse;
      }
      plan := PlanFragment(previous, key, parsed.value.0, maxOut);
    }

    /** How much of the message still to be sent fits in maxOut octets. */
    method PlanFragment(previous: bool, key: Aead, hdr: Fragment, maxOut: nat) returns (plan: Plan)
      requires Valid() && offset <= |hdr.body|
      requires key == UsedAead(records.View(), previous)
      ensures plan == PlanPiece(View(), previous, hdr, maxOut)
    {
      var overhead := DTLS1_RT_HEADER_LENGTH + key.maxOverhead;
      var prefix := DTLS1_RT_HEADER_LENGTH + key.explicitNonceLen;
      var body := hdr.body[offset..];
      if maxOut < HM_HEADER_LENGTH + 1 + overhead || maxOut < prefix {
        return NoRoom;
      }
      var todo := |body|;
      if todo > maxOut - HM_HEADER_LENGTH - overhead {
        todo := maxOut - HM_HEADER_LENGTH - overhead;
      }
      if HM_HEADER_LENGTH + todo > maxOut - prefix {
        return Refuse;
      }
      assert body[..todo] == hdr.body[offset..offset + todo];
      return SendPiece(previous, Fragment(hdr.typ, hdr.msgLen, hdr.seqNum, offset, body[..todo]));
    }

    /** Seals one planned record. */
    method SealContent(previous: bool, maxOut: nat, content: Content) returns (out: Option<seq<byte>>, ghost rec: Option<Sent>)
      requires Valid() && (previous ==> records.wEpoch >= 1)
      modifies records.write.seq_, records.last.seq_
      ensures Valid() && (View(), rec) == SealAs(old(View()), previous, maxOut, content)
      ensures out.Some? <==> rec.Some?
      ensures rec.Some? ==> SentOk(rec.value) && out == Some(Wire(rec.value))
    {
      hide WireRecord, Ciphertext;
      ghost var s := View();
      SealAsShape(s, previous, maxOut, content);
      rec := SealAs(s, previous, maxOut, content).1;
      out := records.Seal(content.typ, content.plain, maxOut, previous);
    }

    /** seal_next_message. */
    method SealNext(maxOut: nat) returns (ret: SealResult, out: seq<byte>, ghost sealed: Sealed)
      requires Valid() && written < len
      modifies this`offset, records.write.seq_, records.last.seq_
      ensures Valid() && (View(), sealed) == SealNextMessage(old(View()), maxOut)
      ensures ret == match sealed case SealError => seal_error case NoProgress => seal_no_progress
                                  case Part(_) => seal_partial case Whole(_) => seal_success
      ensures sealed.Part? || sealed.Whole? ==> SentOk(sealed.rec) && out == Wire(sealed.rec)
    {
      hide PlanNext, Serialize, IsPiece, SealAs, Wire, AeadOk;
      ghost var s := View();
      SealNextShape(s, maxOut);
      PlanFits(s, maxOut);
      ghost var rec;
      var sent;
      out := [];
      var plan := PlanRecord(maxOut);
      match plan {
        case Refuse => return seal_error, [], SealError;
        case NoRoom => return seal_no_progress, [], NoProgress;
        case SendCcs(previous) =>
          sent, rec := SealContent(previous, maxOut, CcsContent(written));
          if sent.None? {
            return seal_error, [], SealError;
          }
          return seal_success, sent.value, Whole(rec.value);
        case SendPiece(previous, frag) =>
          PieceEncodable(s.msgs[s.written], frag);
          sent, rec := SealContent(previous, maxOut, PieceContent(written, frag));
          if sent.None? {
            return seal_error, [], SealError;
          }
          if offset + |frag.body| == frag.msgLen {
            offset := 0;
            return seal_success, sent.value, Whole(rec.value);
          }
          offset := offset + |frag.body|;
          return seal_partial, sent.value, Part(rec.value);
      }
    }

    /** seal_next_packet: as many records as fit, or an error when not one does. */
    method SealPacket(maxOut: nat) returns (out: Option<seq<byte>>, ghost recs: seq<Sent>)
      requires Valid() && written < len
      modifies this`written, this`offset, records.write.seq_, records.last.seq_
      ensures Valid()
      ensures (View(), if out.None? then PackError else Packed(recs)) == SealNextPacket(old(View()), maxOut)
      ensures forall i :: 0 <= i < |recs| ==> SentOk(recs[i])
      ensures out.Some? ==> out.value == WireAll(recs)
    {
      hide SealNextMessage, Wire, SentOk, AeadOk, Pack, Prepend, SenderOk, RecordWriter.View, RecordWriter.Valid, WireAll;
      ghost var s := View();
      recs := [];
      PrependNone(Pack(s, maxOut).1);
      WireAllNone();
      var madeProgress := false;
      var room := maxOut;
      var packet := [];
      ghost var result := Pack(s, maxOut);
      while written < len
        invariant Valid() && written <= len
        invariant forall i :: 0 <= i < |recs| ==> SentOk(recs[i])
        invariant packet == WireAll(recs) && madeProgress == (recs != [])
        invariant result == (Pack(View(), room).0, Prepend(recs, Pack(View(), room).1))
        decreases len - written
      {
        ghost var before := View();
        PackStops(before, room, recs);
        var ret, bytes; ghost var sealed;
        ret, bytes, sealed := SealNext(room);
        match ret {
          case seal_error => return None, recs;
          case seal_no_progress =>
            assert result == (View(), Packed(recs));
            break;
          case seal_partial =>
            packet, madeProgress := packet + bytes, true;
            AppendRecord(recs, sealed.rec);
            recs := recs + [sealed.rec];
            assert result == (View(), Packed(recs));
            break;
          case seal_success =>
            PackWhole(before, room, recs);
            packet, madeProgress := packet + bytes, true;
            room := room - |bytes|;
            AppendRecord(recs, sealed.rec);
            recs := recs + [sealed.rec];
            written := written + 1;
        }
      }
      PackStops(View(), room, recs);
      assert result == (View(), Packed(recs));
      if !madeProgress {
        return None, recs;
      }
      return Some(packet), recs;
    }

    /** One turn of the loop of send_flight: a transport that refuses the packet leaves the
        flight where it was before the packet was built. */
    method SendPacket(bio: DatagramBio, mtu: nat) returns (ret: int, ghost recs: seq<Sent>, ghost sealFailed: bool)
      requires Valid() && Resting(View()) && written < len
      modifies bio, this`written, this`offset, records.write.seq_, records.last.seq_
      ensures Valid() && Resting(View()) && SameQueue(old(View()), View())
      ensures forall i :: 0 <= i < |recs| ==> SentOk(recs[i])
      ensures ret > 0 ==>
                && !sealFailed && |WireAll(recs)| <= mtu && bio.log == old(bio.log) + [WireAll(recs)]
                && Tiles(recs, View().msgs, old(written), old(offset), written, offset)
                && (written > old(written) || (written == old(written) && OctetsLeft(View()) < old(OctetsLeft(View()))))
      ensures ret <= 0 ==> bio.log == old(bio.log)
      ensures ret <= 0 && !sealFailed ==> written == old(written) && offset == old(offset)
      ensures sealFailed <==> SealNextPacket(old(View()), mtu).1.PackError?
      ensures sealFailed ==> ret <= 0
      ensures ret > 0 ==> SealNextPacket(old(View()), mtu) == (View(), Packed(recs))
      ensures old(bio.Willing()) ==> bio.Willing() && (ret <= 0 ==> sealFailed)
    {
      hide Tiles, Wire, SentOk, SealNextPacket, Body, WireAll, AeadOk;
      ghost var before := View();
      var oldWritten, oldOffset := written, offset;
      var packet;
      packet, recs := SealPacket(mtu);
      NextPacketTiles(before, mtu);
      if packet.None? {
        return -1, recs, true;
      }
      ret := bio.Write(packet.value);
      sealFailed := false;
      if ret <= 0 {
        written, offset := oldWritten, oldOffset;
      }
    }

    /** send_flight: packs and writes until the flight is out. packets lists, for the datagrams
        the transport accepted, what each carries. Whatever the transport does and whatever
        sealing comes to, those are the next pieces of the flight, up to the position the flight is
        left at; so a datagram the transport refused is rebuilt from the same range. Only an error
        while sealing may leave the position past what was sent (FailedPacketPosition). Over a
        transport that never refuses it succeeds exactly when the datagrams can be built. */
    method SendFlight(bio: DatagramBio, mtu: nat) returns (ret: int, ghost packets: seq<seq<Sent>>, ghost sealFailed: bool)
      requires Valid() && Resting(View())
      modifies bio, this`written, this`offset, records.write.seq_, records.last.seq_
      ensures Valid() && Resting(View()) && SameQueue(old(View()), View())
      ensures PacketsOk(packets, mtu) && bio.log == old(bio.log) + WireAllOf(packets)
      ensures exists w: nat, o: nat :: Tiles(Flatten(packets), View().msgs, old(written), old(offset), w, o)
      ensures !sealFailed ==>
                Tiles(Flatten(packets), View().msgs, old(written), old(offset), written, offset)
      ensures ret == 1 ==> !writeShutdown && !sealFailed && written == len
      ensures writeShutdown ==> packets == []
      ensures ret == 1 ==> Transmit(old(View()), mtu) == (View(), Some(packets))
      ensures old(bio.Willing()) && !writeShutdown ==> (ret == 1 <==> Transmit(old(View()), mtu).1.Some?)
    {
      hide Tiles, Wire, SentOk, SealNextPacket, Body, WireAll, AeadOk, Transmit, DatagramBio.Willing, SoFar, SenderOk;
      ghost var s, log := View(), bio.log;
      ghost var willing := bio.Willing();
      packets, sealFailed := [], false;
      NothingYet(s, mtu, log);
      if writeShutdown {
        SoFarMeans(s, s, packets, mtu, log, log);
        return -1, packets, sealFailed;
      }
      while written < len
        invariant Valid() && Resting(View()) && SameQueue(s, View())
        invariant !sealFailed && written <= len && (willing ==> bio.Willing())
        invariant SoFar(s, View(), packets, mtu, log, bio.log)
        decreases len - written, OctetsLeft(View())
      {
        ghost var before, log1 := View(), bio.log;
        ghost var recs;
        ret, recs, sealFailed := SendPacket(bio, mtu);
        if ret <= 0 {
          SoFarMeans(s, before, packets, mtu, log, log1);
          RefusedHere(s, before, packets, mtu, log, log1);
          return ret, packets, sealFailed;
        }
        OneMore(s, before, View(), packets, recs, mtu, log, log1);
        packets := packets + [recs];
        OctetsLeftNat(View());
      }
      SoFarMeans(s, View(), packets, mtu, log, bio.log);
      var flushed := bio.Take();
      if flushed <= 0 {
        return -1, packets, sealFailed;
      }
      return 1, packets, sealFailed;
    }

    /** dtls1_flush_flight, without its timer. */
    method FlushFlight(bio: DatagramBio, mtu: nat) returns (ret: int, ghost packets: seq<seq<Sent>>, ghost sealFailed: bool)
      requires Valid() && Resting(View())
      modifies bio, this`complete, this`written, this`offset, records.write.seq_, records.last.seq_
      ensures Valid() && Resting(View()) && SameQueue(old(View()).(complete := true), View())
      ensures PacketsOk(packets, mtu) && bio.log == old(bio.log) + WireAllOf(packets)
      ensures !sealFailed ==> Tiles(Flatten(packets), View().msgs, old(written), old(offset), written, offset)
      ensures ret == 1 ==> !sealFailed && written == len
      ensures old(bio.Willing()) && !writeShutdown ==> (ret == 1 <==> Transmit(old(View()).(complete := true), mtu).1.Some?)
    {
      hide Tiles, Transmit, Body, PacketsOk;
      complete := true;
      ret, packets, sealFailed := SendFlight(bio, mtu);
    }

    /** dtls1_retransmit_outgoing_messages: rewinds and sends the whole flight again. A
        completed retransmission carries every message of the flight from end to end. */
    method RetransmitFlight(bio: DatagramBio, mtu: nat) returns (ret: int, ghost packets: seq<seq<Sent>>)
      requires Valid()
      modifies bio, this`written, this`offset, records.write.seq_, records.last.seq_
      ensures Valid() && Resting(View()) && SameQueue(old(View()), View())
      ensures PacketsOk(packets, mtu) && bio.log == old(bio.log) + WireAllOf(packets)
      ensures ret == 1 ==>
                forall k: nat :: k < len ==> Payload(Flatten(packets), k) == Body(View().msgs[k])
      ensures ret == 1 ==> Transmit(old(View()).(written := 0, offset := 0), mtu) == (View(), Some(packets))
      ensures old(bio.Willing()) && !writeShutdown ==> (ret == 1 <==> Transmit(old(View()).(written := 0, offset := 0), mtu).1.Some?)
    {
      hide Tiles, Wire, SentOk, Body, Transmit;
      written, offset := 0, 0;
      ghost var sealFailed;
      ret, packets, sealFailed := SendFlight(bio, mtu);
      if ret == 1 {
        forall k: nat | k < len ensures Payload(Flatten(packets), k) == Body(View().msgs[k]) {
          TilingCovers(Flatten(packets), View().msgs, 0, 0, k);
          assert Body(View().msgs[k])[0..] == Body(View().msgs[k]);
        }
      }
    }
  }

  /** Every record is well formed and every datagram fits the MTU. */
  ghost predicate PacketsOk(packets: seq<seq<Sent>>, mtu: nat) {
    && (forall i, j :: 0 <= i < |packets| && 0 <= j < |packets[i]| ==> SentOk(packets[i][j]))
    && (forall i :: 0 <= i < |packets| ==> |WireAll(packets[i])| <= mtu)
  }

  /** From s the flight has got to here by these datagrams: they tile it so far, they are what the
      transport has, and what is still to come is what is to come of the whole transmission. */
  ghost predicate SoFar(s: Sender, here: Sender, packets: seq<seq<Sent>>, mtu: nat, log: seq<seq<byte>>, log': seq<seq<byte>>)
    requires SenderOk(s) && Resting(s) && SenderOk(here) && Resting(here)
  {
    && PacketsOk(packets, mtu) && log' == log + WireAllOf(packets)
    && Tiles(Flatten(packets), s.msgs, s.written, s.offset, here.written, here.offset)
    && Transmit(s, mtu).0 == Transmit(here, mtu).0
    && Transmit(s, mtu).1 == Behind(packets, Transmit(here, mtu).1)
  }

  lemma NothingYet(s: Sender, mtu: nat, log: seq<seq<byte>>)
    requires SenderOk(s) && Resting(s)
    ensures SoFar(s, s, [], mtu, log, log)
  {
    hide Transmit;
    TilesNil(s.msgs, s.written, s.offset);
    BehindNone(Transmit(s, mtu).1);
    assert log + [] == log;
  }

  lemma SoFarMeans(s: Sender, here: Sender, packets: seq<seq<Sent>>, mtu: nat, log: seq<seq<byte>>, log': seq<seq<byte>>)
    requires SenderOk(s) && Resting(s) && SenderOk(here) && Resting(here) && SoFar(s, here, packets, mtu, log, log')
    ensures PacketsOk(packets, mtu) && log' == log + WireAllOf(packets)
    ensures Tiles(Flatten(packets), s.msgs, s.written, s.offset, here.written, here.offset)
    ensures here.written == |here.msgs| ==> Transmit(s, mtu) == (here, Some(packets))
  {
    hide Tiles, WireAll, SentOk;
    if here.written == |here.msgs| { TransmitEnds(here, mtu, packets); }
  }

  lemma RefusedHere(s: Sender, here: Sender, packets: seq<seq<Sent>>, mtu: nat, log: seq<seq<byte>>, log': seq<seq<byte>>)
    requires SenderOk(s) && Resting(s) && SenderOk(here) && Resting(here) && SoFar(s, here, packets, mtu, log, log')
    requires here.written < |here.msgs|
    ensures SealNextPacket(here, mtu).1.PackError? ==> Transmit(s, mtu).1.None?
  {
    hide Tiles, WireAll, SentOk, SealNextPacket, Transmit;
    TransmitNext(here, mtu, packets);
  }

  lemma OneMore(s: Sender, here: Sender, next: Sender, packets: seq<seq<Sent>>, recs: seq<Sent>, mtu: nat,
                log: seq<seq<byte>>, log': seq<seq<byte>>)
    requires SenderOk(s) && Resting(s) && SenderOk(here) && Resting(here) && SoFar(s, here, packets, mtu, log, log')
    requires here.written < |here.msgs| && here.msgs == s.msgs
    requires SealNextPacket(here, mtu) == (next, Packed(recs)) && SenderOk(next) && Resting(next)
    requires (forall i :: 0 <= i < |recs| ==> SentOk(recs[i])) && |WireAll(recs)| <= mtu
    requires Tiles(recs, s.msgs, here.written, here.offset, next.written, next.offset)
    ensures SoFar(s, next, packets + [recs], mtu, log, log' + [WireAll(recs)])
  {
    hide Tiles, WireAll, SentOk, SealNextPacket, Transmit, Resting, SenderOk, Behind, PacketsOk;
    TransmitNext(here, mtu, packets);
    AddPacket(packets, recs, mtu);
    TilesAppend(Flatten(packets), recs, s.msgs, s.written, s.offset, here.written, here.offset, next.written, next.offset);
  }

  lemma AddPacket(packets: seq<seq<Sent>>, recs: seq<Sent>, mtu: nat)
    requires PacketsOk(packets, mtu)
    requires forall i :: 0 <= i < |recs| ==> SentOk(recs[i])
    requires |WireAll(recs)| <= mtu
    ensures PacketsOk(packets + [recs], mtu)
    ensures WireAllOf(packets + [recs]) == WireAllOf(packets) + [WireAll(recs)]
    ensures Flatten(packets + [recs]) == Flatten(packets) + recs
  {
    hide WireAll, SentOk;
    assert (packets + [recs])[..|packets|] == packets;
  }
}
