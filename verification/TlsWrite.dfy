/** The TLS write path of s3_pkt.cc and s3_both.cc: two buffers in front of one transport that
    accepts what it likes. Sealing a record is an abstract function of its number, type and
    plaintext; plains is the list of all records sealed, and Wire what they look like sealed. */
module TlsWrite {
  import opened Bytes
  import opened SslBuffer

  const SSL3_RT_MAX_PLAIN_LENGTH: nat := 16384
  const SSL3_RT_CHANGE_CIPHER_SPEC: byte := 20
  const SSL3_RT_HANDSHAKE: byte := 22
  const SSL3_RT_APPLICATION_DATA: byte := 23
  const SSL3_MT_CCS: byte := 1
  const INT_MAX: nat := 0x7fff_ffff

  type Sealer = (nat, byte, seq<byte>) -> Option<seq<byte>>

  datatype Plain = Plain(kind: byte, body: seq<byte>)

  /** The sealed form of record number n, nothing if sealing it failed. */
  function SealedOne(seal: Sealer, n: nat, p: Plain): seq<byte> {
    var r := seal(n, p.kind, p.body);
    if r.Some? then r.value else []
  }

  /** All records on the wire, in sealing order. */
  function Wire(seal: Sealer, plains: seq<Plain>): seq<byte>
    decreases |plains|
  {
    if plains == [] then []
    else
      var n := |plains| - 1;
      Wire(seal, plains[..n]) + SealedOne(seal, n, plains[n])
  }

  /** The application data among the records. */
  function AppData(plains: seq<Plain>): seq<byte>
    decreases |plains|
  {
    if plains == [] then []
    else
      var last := plains[|plains| - 1];
      AppData(plains[..|plains| - 1]) + (if last.kind == SSL3_RT_APPLICATION_DATA then last.body else [])
  }

  /** Every record past the first n carries application data, of at most max octets. */
  predicate OnlyAppSince(plains: seq<Plain>, n: nat, max: nat) {
    forall k :: n <= k < |plains| ==> plains[k].kind == SSL3_RT_APPLICATION_DATA && 0 < |plains[k].body| <= max
  }

  lemma NoneSince(plains: seq<Plain>, max: nat)
    ensures OnlyAppSince(plains, |plains|, max)
  {
  }

  lemma OneMore(before: seq<Plain>, now: seq<Plain>, p: Plain, max: nat)
    requires before <= now && OnlyAppSince(now, |before|, max)
    requires p.kind == SSL3_RT_APPLICATION_DATA && 0 < |p.body| <= max
    ensures before <= now + [p] && OnlyAppSince(now + [p], |before|, max)
  {
  }

  lemma WireSnoc(seal: Sealer, plains: seq<Plain>, p: Plain)
    ensures Wire(seal, plains + [p]) == Wire(seal, plains) + SealedOne(seal, |plains|, p)
  {
    assert (plains + [p])[..|plains|] == plains;
  }

  lemma AppDataSnoc(plains: seq<Plain>, p: Plain)
    ensures AppData(plains + [p])
         == AppData(plains) + (if p.kind == SSL3_RT_APPLICATION_DATA then p.body else [])
  {
    assert (plains + [p])[..|plains|] == plains;
  }

  /** The chunks ssl3_add_message cuts a message into. */
  function Chunks(msg: seq<byte>, max: nat): (c: seq<seq<byte>>)
    requires max > 0
    ensures |c| >= 1
    decreases |msg|
  {
    if |msg| <= max then [msg] else [msg[..max]] + Chunks(msg[max..], max)
  }

  /** They are the message, none is longer than max, and only an empty message has an empty one. */
  lemma {:induction false} ChunksTile(msg: seq<byte>, max: nat)
    requires max > 0
    ensures Concat(Chunks(msg, max)) == msg
    ensures forall k :: 0 <= k < |Chunks(msg, max)| ==> |Chunks(msg, max)[k]| <= max && (msg != [] ==> Chunks(msg, max)[k] != [])
    decreases |msg|
  {
    if |msg| <= max {
      assert Concat([msg]) == msg + Concat([]);
    } else {
      ChunksTile(msg[max..], max);
      assert Chunks(msg, max)[1..] == Chunks(msg[max..], max);
    }
  }

  function Handshake(chunks: seq<seq<byte>>): seq<Plain> {
    seq(|chunks|, i requires 0 <= i < |chunks| => Plain(SSL3_RT_HANDSHAKE, chunks[i]))
  }

  lemma Associative<T>(a: seq<T>, b: seq<T>, c: seq<T>)
    ensures a + b + c == a + (b + c)
  {
  }

  lemma NoChunks()
    ensures Handshake([]) == []
  {
  }

  lemma HandshakeSnoc(done: seq<seq<byte>>, chunk: seq<byte>)
    ensures Handshake(done + [chunk]) == Handshake(done) + [Plain(SSL3_RT_HANDSHAKE, chunk)]
  {
  }

  lemma NextChunk(rest: seq<byte>, max: nat, n: nat)
    requires max > 0 && n == if |rest| < max then |rest| else max
    ensures Chunks(rest, max)[0] == rest[..n]
    ensures Chunks(rest, max)[1..] == if rest[n..] == [] then [] else Chunks(rest[n..], max)
    ensures Chunks(rest, max) == [rest[..n]] + Chunks(rest, max)[1..]
  {
    assert rest[..|rest|] == rest;
  }

  /** Octets the transport takes from the front of a queue stay in their place in the whole. */
  lemma TakenFromFront(sent: seq<byte>, queue: seq<byte>, tail: seq<byte>, n: nat)
    requires n <= |queue|
    ensures sent + queue[..n] + queue[n..] + tail == sent + queue + tail
  {
    assert queue == queue[..n] + queue[n..];
  }

  lemma Moved(sent: seq<byte>, flight: seq<byte>)
    ensures sent + [] + flight == sent + flight + []
  {
  }

  lemma AppendedToFront(sent: seq<byte>, content: seq<byte>, octets: seq<byte>)
    ensures sent + (content + octets) + [] == sent + content + [] + octets
  {
  }

  /** A byte stream transport. The script says, call by call, how much it takes; it blocks where
      the script has a value below one, and takes everything once the script has run out. */
  class StreamBio {
    var script: seq<int>
    var sent: seq<byte>

    /** It never blocks. */
    ghost predicate Willing()
      reads this`script
    {
      forall k :: 0 <= k < |script| ==> script[k] > 0
    }

    /** The next result; all is what it comes to when the script has run out. */
    method Take(all: int) returns (ret: int)
      requires all > 0
      modifies this`script
      ensures old(Willing()) ==> Willing() && ret > 0
    {
      if script == [] { return all; }
      ret := script[0];
      script := script[1..];
    }

    /** BIO_write. */
    method Write(b: seq<byte>) returns (ret: int)
      requires b != []
      modifies this
      ensures ret <= |b| && sent == old(sent) + b[..if ret > 0 then ret else 0]
      ensures old(Willing()) ==> Willing() && ret > 0
    {
      ret := Take(|b|);
      if ret > |b| { ret := |b|; }
      sent := sent + b[..if ret > 0 then ret else 0];
    }
  }

  class WritePath {
    const seal: Sealer
    const overhead: nat
    const alignPrefixLen: nat
    const maxSendFragment: nat
    const partialWrite: bool
    const movingBuffer: bool
    const writeBuffer: SSLBuffer
    const bio: StreamBio
    var writeShutdown: bool
    var pendingFlight: Option<seq<byte>>
    var pendingFlightOffset: nat
    var wnum: nat
    var wpendTot: nat
    var wpendBuf: int
    var wpendType: byte
    var wpendRet: nat
    var wpendPending: bool
    var writeSeq: nat
    ghost var plains: seq<Plain>

    ghost predicate SealOk() {
      forall n: nat, t: byte, p: seq<byte> :: seal(n, t, p).Some? ==> |seal(n, t, p).value| <= |p| + overhead
    }

    ghost function FlightRest(): seq<byte>
      reads this`pendingFlight, this`pendingFlightOffset
    {
      if pendingFlight.Some? && pendingFlightOffset <= |pendingFlight.value| then pendingFlight.value[pendingFlightOffset..]
      else []
    }

    /** What the transport was given, what is in write_buffer and what is left of pending_flight
        are all the sealed records, in the order they were sealed. */
    ghost predicate InOrder()
      requires writeBuffer.Valid()
      reads this`pendingFlight, this`pendingFlightOffset, this`plains, writeBuffer, writeBuffer.buf, bio
    {
      bio.sent + writeBuffer.Content() + FlightRest() == Wire(seal, plains)
    }

    ghost predicate Valid()
      reads this, writeBuffer, writeBuffer.buf, bio
    {
      && writeBuffer.Valid() && writeBuffer.Room()
      && 0 < maxSendFragment <= SSL3_RT_MAX_PLAIN_LENGTH
      && SSL3_RT_MAX_PLAIN_LENGTH + overhead + SSL3_ALIGN_PAYLOAD - 1 <= UINT16_MAX
      && (if pendingFlight.Some? then pendingFlightOffset <= |pendingFlight.value| else pendingFlightOffset == 0)
      && (wpendPending ==> 0 < wpendRet == wpendTot) && writeSeq == |plains|
      && InOrder()
    }

    constructor (seal: Sealer, overhead: nat, alignPrefixLen: nat, maxSendFragment: nat, partialWrite: bool,
                 movingBuffer: bool, bio: StreamBio)
      requires 0 < maxSendFragment <= SSL3_RT_MAX_PLAIN_LENGTH && bio.sent == []
      requires SSL3_RT_MAX_PLAIN_LENGTH + overhead + SSL3_ALIGN_PAYLOAD - 1 <= UINT16_MAX
      ensures Valid() && plains == [] && wnum == 0 && !wpendPending && this.bio == bio && fresh(writeBuffer)
    {
      this.seal, this.overhead, this.alignPrefixLen, this.maxSendFragment := seal, overhead, alignPrefixLen, maxSendFragment;
      this.partialWrite, this.movingBuffer, this.bio := partialWrite, movingBuffer, bio;
      writeBuffer := new SSLBuffer();
      writeShutdown := false;
      pendingFlight, pendingFlightOffset := None, 0;
      wnum, wpendTot, wpendBuf, wpendType, wpendRet, wpendPending := 0, 0, 0, 0, 0, false;
      plains, writeSeq := [], 0;
    }

    /** tls_seal_record: the octets of the next record. */
    method SealRecord(kind: byte, body: seq<byte>) returns (ok: bool, octets: seq<byte>)
      modifies this`plains, this`writeSeq
      requires writeSeq == |plains|
      ensures writeSeq == |plains|
      ensures ok <==> seal(old(writeSeq), kind, body).Some?
      ensures ok ==> plains == old(plains) + [Plain(kind, body)] && octets == seal(old(writeSeq), kind, body).value
      ensures ok ==> Wire(seal, plains) == Wire(seal, old(plains)) + octets
      ensures !ok ==> plains == old(plains)
    {
      var r := seal(writeSeq, kind, body);
      if r.None? {
        return false, [];
      }
      WireSnoc(seal, plains, Plain(kind, body));
      plains := plains + [Plain(kind, body)];
      writeSeq := writeSeq + 1;
      return true, r.value;
    }

    /** add_record_to_flight. A flight is never added to while it is being written out. */
    method AddRecordToFlight(kind: byte, body: seq<byte>) returns (ok: bool)
      requires Valid() && pendingFlightOffset == 0
      modifies this`pendingFlight, this`plains, this`writeSeq
      ensures Valid()
      ensures ok <==> seal(old(writeSeq), kind, body).Some?
      ensures plains == if ok then old(plains) + [Plain(kind, body)] else old(plains)
    {
      hide Wire, AppData;
      if pendingFlight.None? {
        pendingFlight := Some([]);
      }
      assert FlightRest() == pendingFlight.value;
      var octets;
      ok, octets := SealRecord(kind, body);
      if !ok { return; }
      Associative(bio.sent + writeBuffer.Content(), pendingFlight.value, octets);
      pendingFlight := Some(pendingFlight.value + octets);
    }

    /** ssl3_add_message: the message in records of at most max_send_fragment, at least one. */
    method AddMessage(msg: seq<byte>) returns (ok: bool)
      requires Valid() && pendingFlightOffset == 0
      modifies this`pendingFlight, this`plains, this`writeSeq
      ensures Valid()
      ensures ok ==> plains == old(plains) + Handshake(Chunks(msg, maxSendFragment))
      ensures !ok ==> exists k :: 0 <= k < |Chunks(msg, maxSendFragment)|
                        && plains == old(plains) + Handshake(Chunks(msg, maxSendFragment)[..k])
    {
      hide Wire, AppData, Chunks, Handshake;
      var rest := msg;
      ghost var before, all, done, left := plains, Chunks(msg, maxSendFragment), [], Chunks(msg, maxSendFragment);
      NoChunks();
      assert plains == before + Handshake([]) && all == done + left;
      var first := true;
      while first || rest != []
        invariant Valid() && pendingFlightOffset == 0
        invariant left == if first || rest != [] then Chunks(rest, maxSendFragment) else []
        invariant all == done + left && plains == before + Handshake(done)
        decreases first, |rest|
      {
        first := false;
        var n := if |rest| < maxSendFragment then |rest| else maxSendFragment;
        var chunk := rest[..n];
        NextChunk(rest, maxSendFragment, n);
        assert all[..|done|] == done;
        rest := rest[n..];
        ok := AddRecordToFlight(SSL3_RT_HANDSHAKE, chunk);
        if !ok { return; }
        HandshakeSnoc(done, chunk);
        Associative(before, Handshake(done), [Plain(SSL3_RT_HANDSHAKE, chunk)]);
        Associative(done, [chunk], left[1..]);
        done, left := done + [chunk], left[1..];
      }
      assert done + [] == done;
      ok := true;
    }

    /** ssl3_add_change_cipher_spec. */
    method AddChangeCipherSpec() returns (ok: bool)
      requires Valid() && pendingFlightOffset == 0
      modifies this`pendingFlight, this`plains, this`writeSeq
      ensures Valid()
      ensures plains == if ok then old(plains) + [Plain(SSL3_RT_CHANGE_CIPHER_SPEC, [SSL3_MT_CCS])] else old(plains)
    {
      ok := AddRecordToFlight(SSL3_RT_CHANGE_CIPHER_SPEC, [SSL3_MT_CCS]);
    }

    /** One BIO_write of the loop of tls_write_buffer_flush. */
    method WriteFromBuffer() returns (ret: int)
      requires Valid() && writeBuffer.size != 0
      modifies writeBuffer, bio
      ensures Valid()
      ensures if ret > 0 then writeBuffer.size < old(writeBuffer.size) else writeBuffer.size == old(writeBuffer.size)
      ensures writeBuffer.buf == old(writeBuffer.buf)
      ensures old(bio.Willing()) ==> bio.Willing() && ret > 0
    {
      hide Wire, AppData, StreamBio.Willing;
      ghost var content, sent, tail := writeBuffer.Content(), bio.sent, FlightRest();
      ret := bio.Write(writeBuffer.buf[writeBuffer.offset..writeBuffer.offset + writeBuffer.size]);
      assert writeBuffer.Content() == content;
      if ret > 0 {
        writeBuffer.Consume(ret);
        TakenFromFront(sent, content, tail, ret);
      } else {
        assert bio.sent == sent;
      }
    }

    /** tls_write_buffer_flush. */
    method WriteBufferFlush() returns (ret: int)
      requires Valid()
      modifies writeBuffer, bio
      ensures Valid()
      ensures ret > 0 <==> writeBuffer.Content() == []
      ensures ret <= 1 && (writeBuffer.buf == null || writeBuffer.buf == old(writeBuffer.buf))
      ensures old(bio.Willing()) ==> bio.Willing() && ret > 0
    {
      hide Wire, AppData, StreamBio.Willing;
      while writeBuffer.size != 0
        invariant Valid() && writeBuffer.buf == old(writeBuffer.buf)
        invariant old(bio.Willing()) ==> bio.Willing()
        modifies writeBuffer, bio
        decreases writeBuffer.size
      {
        ret := WriteFromBuffer();
        if ret <= 0 { return; }
      }
      assert writeBuffer.Content() == [];
      writeBuffer.Clear();
      return 1;
    }

    /** One BIO_write of the loop of ssl3_flush_flight. */
    method WriteFromFlight() returns (ret: int)
      requires Valid() && pendingFlight.Some? && pendingFlightOffset < |pendingFlight.value| && writeBuffer.Content() == []
      modifies this`pendingFlightOffset, bio
      ensures Valid()
      ensures if ret > 0 then pendingFlightOffset > old(pendingFlightOffset) else pendingFlightOffset == old(pendingFlightOffset)
      ensures old(bio.Willing()) ==> bio.Willing() && ret > 0
    {
      hide Wire, AppData, StreamBio.Willing;
      ghost var rest, sent := FlightRest(), bio.sent;
      ret := bio.Write(pendingFlight.value[pendingFlightOffset..]);
      if ret > 0 {
        TakenFromFront(sent, rest, [], ret);
        assert sent + [] + rest == sent + rest + [];
        assert sent + rest[..ret] + [] + rest[ret..] == sent + rest[..ret] + rest[ret..] + [];
        assert rest[ret..] == pendingFlight.value[pendingFlightOffset + ret..];
        pendingFlightOffset := pendingFlightOffset + ret;
      } else {
        assert bio.sent == sent;
      }
    }

    /** ssl3_flush_flight: first what is in write_buffer, then the flight. Over a transport that
        does not block it fails exactly when writing is shut down or the flight is too long. */
    method FlushFlight() returns (ret: int)
      requires Valid()
      modifies this`pendingFlight, this`pendingFlightOffset, writeBuffer, bio
      ensures Valid()
      ensures ret > 0 ==> pendingFlight.None?
      ensures ret > 0 && old(pendingFlight).Some? ==> bio.sent == Wire(seal, plains)
      ensures old(pendingFlight).None? ==> ret > 0
      ensures old(pendingFlight).Some? && old(bio.Willing()) ==>
                (ret > 0 <==> !writeShutdown && |old(pendingFlight).value| <= INT_MAX)
    {
      hide Wire, AppData, StreamBio.Willing;
      if pendingFlight.None? {
        return 1;
      }
      if writeShutdown {
        return -1;
      }
      if |pendingFlight.value| > INT_MAX {
        return -1;
      }
      if writeBuffer.size != 0 {
        ret := WriteBufferFlush();
        if ret <= 0 { return; }
      }
      while pendingFlightOffset < |pendingFlight.value|
        invariant Valid() && pendingFlight.Some? && writeBuffer.Content() == []
        invariant old(bio.Willing()) ==> bio.Willing()
        modifies this`pendingFlightOffset, bio
        decreases |pendingFlight.value| - pendingFlightOffset
      {
        ret := WriteFromFlight();
        if ret <= 0 { return; }
      }
      ret := bio.Take(1);
      if ret <= 0 {
        return -1;
      }
      assert FlightRest() == [];
      pendingFlight, pendingFlightOffset := None, 0;
      return 1;
    }

    /** A retry of the write that is pending: as long at least, of its type, and from its place. */
    ghost predicate GoodRetry(kind: byte, in_: int, len: nat)
      reads this`wpendTot, this`wpendType, this`wpendBuf
    {
      wpendTot <= len && wpendType == kind && (movingBuffer || wpendBuf == in_)
    }

    /** ssl3_write_pending: in is the address of the octets, len their number. */
    method WritePending(kind: byte, in_: int, len: nat) returns (ret: int)
      requires Valid() && wpendPending
      modifies this`wpendPending, writeBuffer, bio
      ensures Valid()
      ensures ret > 0 ==> ret == wpendRet && !wpendPending && writeBuffer.Content() == []
      ensures ret <= 0 ==> wpendPending
      ensures writeBuffer.buf == null || writeBuffer.buf == old(writeBuffer.buf)
      ensures ret > 0 ==> GoodRetry(kind, in_, len)
      ensures old(bio.Willing()) ==> bio.Willing() && (ret > 0 <==> GoodRetry(kind, in_, len))
    {
      hide InOrder, Wire, AppData, StreamBio.Willing;
      if wpendTot > len || (!movingBuffer && wpendBuf != in_) || wpendType != kind {
        return -1;
      }
      ret := WriteBufferFlush();
      if ret <= 0 { return; }
      wpendPending := false;
      return wpendRet;
    }

    /** A write of len octets leaves room for the alignment slack, or is refused outright. */
    ghost predicate Aligns(len: nat)
      reads this`pendingFlight, this`pendingFlightOffset
    {
      var total := |FlightRest()| + len + overhead;
      total + SSL3_ALIGN_PAYLOAD - 1 <= UINT16_MAX || total > UINT16_MAX
    }

    ghost predicate AlignsAny()
      reads this`pendingFlight, this`pendingFlightOffset
    {
      var least := |FlightRest()| + overhead;
      least + maxSendFragment + SSL3_ALIGN_PAYLOAD - 1 <= UINT16_MAX || least > UINT16_MAX
    }

    /** write_buffer can be made large enough for the flight and a record of len octets. */
    ghost predicate CanHold(len: nat)
      reads this`pendingFlight, this`pendingFlightOffset
    {
      |FlightRest()| + len + overhead <= UINT16_MAX
    }

    /** do_ssl3_write takes what is left of the flight into write_buffer, with room for more. */
    method TakeFlight(headerLen: nat, room: nat) returns (ok: bool)
      requires Valid() && writeBuffer.size == 0 && room > 0
      requires |FlightRest()| + room + SSL3_ALIGN_PAYLOAD - 1 <= UINT16_MAX || |FlightRest()| + room > UINT16_MAX
      modifies this`pendingFlight, this`pendingFlightOffset, writeBuffer, writeBuffer.buf
      ensures Valid() && (writeBuffer.buf == old(writeBuffer.buf) || fresh(writeBuffer.buf))
      ensures ok ==> pendingFlight.None? && writeBuffer.buf != null && writeBuffer.cap - writeBuffer.size >= room
      ensures !ok ==> writeBuffer.size == 0 && pendingFlight == old(pendingFlight)
      ensures FlightRest() == if ok then [] else old(FlightRest())
      ensures ok <==> old(|FlightRest()|) + room <= UINT16_MAX
    {
      hide Wire, AppData;
      ghost var flight, sent := FlightRest(), bio.sent;
      var flightLen := if pendingFlight.Some? then |pendingFlight.value| - pendingFlightOffset else 0;
      var address: nat := *;
      ok := writeBuffer.EnsureCap(flightLen + headerLen, room + flightLen, address);
      if !ok { return; }
      assert writeBuffer.Content() == [];
      Moved(sent, flight);
      if pendingFlight.Some? {
        writeBuffer.Append(pendingFlight.value[pendingFlightOffset..]);
        pendingFlight, pendingFlightOffset := None, 0;
        assert writeBuffer.Content() == [] + flight == flight;
      }
    }

    /** The part of do_ssl3_write that fills write_buffer: the unwritten flight, then the record. */
    method SealIntoBuffer(kind: byte, body: seq<byte>) returns (ok: bool)
      requires Valid() && SealOk() && writeBuffer.size == 0 && body != [] && Aligns(|body|)
      modifies this`pendingFlight, this`pendingFlightOffset, this`plains, this`writeSeq, writeBuffer, writeBuffer.buf
      ensures Valid() && (writeBuffer.buf == old(writeBuffer.buf) || fresh(writeBuffer.buf))
      ensures plains == if ok then old(plains) + [Plain(kind, body)] else old(plains)
      ensures ok ==> pendingFlight.None?
      ensures ok <==> old(CanHold(|body|)) && seal(old(writeSeq), kind, body).Some?
      ensures FlightRest() == old(FlightRest()) || FlightRest() == []
    {
      hide Wire, AppData;
      ok := TakeFlight(alignPrefixLen, |body| + overhead);
      if !ok { return; }
      ghost var content, sent := writeBuffer.Content(), bio.sent;
      var octets;
      ok, octets := SealRecord(kind, body);
      if !ok { return; }
      assert |octets| <= |body| + overhead;
      writeBuffer.Append(octets);
      AppendedToFront(sent, content, octets);
    }

    /** What do_ssl3_write asks of the state: a good retry, or a record of a proper length with
        nothing in write_buffer and room to be made there. */
    ghost predicate Writable(kind: byte, in_: int, len: nat)
      reads this`wpendPending, this`wpendTot, this`wpendType, this`wpendBuf, this`pendingFlight, this`pendingFlightOffset,
            writeBuffer
    {
      if wpendPending then GoodRetry(kind, in_, len)
      else 0 < len <= SSL3_RT_MAX_PLAIN_LENGTH && writeBuffer.size == 0 && CanHold(len)
    }

    /** do_ssl3_write. */
    method DoWrite(kind: byte, in_: int, body: seq<byte>) returns (ret: int)
      requires Valid() && SealOk() && (wpendPending || Aligns(|body|))
      modifies this`pendingFlight, this`pendingFlightOffset, this`plains, this`writeSeq,
               this`wpendTot, this`wpendBuf, this`wpendType, this`wpendRet, this`wpendPending,
               writeBuffer, writeBuffer.buf, bio
      ensures Valid() && (writeBuffer.buf == null || writeBuffer.buf == old(writeBuffer.buf) || fresh(writeBuffer.buf))
      ensures old(wpendPending) ==>
                && plains == old(plains) && wpendType == old(wpendType) && wpendRet == old(wpendRet)
                && (if ret > 0 then ret == wpendRet <= |body| && wpendType == kind && !wpendPending else wpendPending)
      ensures !old(wpendPending) ==>
                || (ret <= 0 && plains == old(plains) && !wpendPending)
                || (&& plains == old(plains) + [Plain(kind, body)] && 0 < |body| <= SSL3_RT_MAX_PLAIN_LENGTH
                    && wpendType == kind && wpendRet == |body|
                    && (if ret > 0 then ret == |body| && !wpendPending else wpendPending))
      ensures !old(wpendPending) && body == [] ==> ret <= 0
      ensures FlightRest() == old(FlightRest()) || FlightRest() == []
      ensures ret > 0 ==> writeBuffer.size == 0
      ensures old(bio.Willing()) ==>
                bio.Willing() && (ret > 0 <==> old(Writable(kind, in_, |body|)) && (old(wpendPending) || seal(old(writeSeq), kind, body).Some?))
    {
      hide InOrder, Wire, AppData, Aligns, StreamBio.Willing;
      if wpendPending {
        ret := WritePending(kind, in_, |body|);
        return;
      }
      if |body| > SSL3_RT_MAX_PLAIN_LENGTH || writeBuffer.size > 0 {
        return -1;
      }
      if |body| == 0 {
        return 0;
      }
      var ok := SealIntoBuffer(kind, body);
      if !ok {
        return -1;
      }
      wpendTot, wpendBuf, wpendType, wpendRet, wpendPending := |body|, in_, kind, |body|, true;
      ret := WritePending(kind, in_, |body|);
    }

    /** What of the current write has been sealed but not returned as written. */
    ghost function Outstanding(): nat
      reads this
    {
      if wpendPending && wpendType == SSL3_RT_APPLICATION_DATA then wpendRet else 0
    }

    /** A write of data, begun when base had been sealed, has got to wnum, and the record after
        that may be waiting in write_buffer. */
    ghost predicate InWrite(base: seq<byte>, data: seq<byte>)
      reads this
    {
      && wnum + Outstanding() <= |data|
      && AppData(plains) == base + data[..wnum + Outstanding()]
    }

    /** A retry may offer more than the write before it, as long as what that one had stays. */
    lemma LongerRetry(base: seq<byte>, data: seq<byte>, longer: seq<byte>)
      requires InWrite(base, data) && data <= longer
      ensures InWrite(base, longer)
    {
      assert longer[..wnum + Outstanding()] == data[..wnum + Outstanding()];
    }

    ghost predicate AlwaysSeals() {
      forall n: nat, t: byte, p: seq<byte> :: seal(n, t, p).Some?
    }

    /** How much of data goes into the record at tot. */
    function Portion(data: seq<byte>, tot: nat): nat
      requires tot <= |data|
    {
      if |data| - tot > maxSendFragment then maxSendFragment else |data| - tot
    }

    /** Nothing but the transport stands in the way of writing data from tot on. */
    ghost predicate Ready(in_: int, data: seq<byte>, tot: nat)
      reads this`wpendPending, this`wpendTot, this`wpendType, this`wpendBuf, this`pendingFlight, this`pendingFlightOffset,
            writeBuffer
    {
      && tot < |data| && AlwaysSeals() && CanHold(maxSendFragment)
      && Writable(SSL3_RT_APPLICATION_DATA, in_ + tot, Portion(data, tot))
    }

    lemma StillReady(in_: int, data: seq<byte>, tot: nat)
      requires 0 < maxSendFragment <= SSL3_RT_MAX_PLAIN_LENGTH && !wpendPending && writeBuffer.size == 0
      requires tot < |data| && AlwaysSeals() && CanHold(maxSendFragment)
      ensures Ready(in_, data, tot)
    {
    }

    /** ssl3_write_app_data without early data; data is at address in_. A call that is not a
        misuse either returns how much is written and done with, or leaves a write that the same
        or a longer call takes up where it stopped; over a transport that does not block it is the
        former. */
    method WriteAppData(in_: int, data: seq<byte>, ghost base: seq<byte>) returns (ret: int)
      requires Valid() && SealOk() && AlignsAny()
      modifies this, writeBuffer, writeBuffer.buf, bio
      ensures Valid() && old(plains) <= plains && OnlyAppSince(plains, |old(plains)|, maxSendFragment)
      ensures old(InWrite(base, data)) ==>
                if ret > 0 then
                  && ret <= |data| && (!partialWrite ==> ret == |data|)
                  && AppData(plains) == base + data[..ret] && wnum == 0 && !wpendPending
                else InWrite(base, data)
      ensures !old(writeShutdown) && old(wnum) > |data| ==> ret == -1 && wnum == 0 && plains == old(plains)
      ensures old(!writeShutdown && bio.Willing() && Ready(in_, data, wnum)) ==> ret > 0
    {
      hide InOrder, Wire, AppData, StreamBio.Willing, AlwaysSeals, Writable;
      if writeShutdown {
        return -1;
      }
      var tot := wnum;
      wnum := 0;
      if |data| < tot {
        return -1;
      }
      ret, tot := WriteRecords(in_, data, tot, base, old(InWrite(base, data)));
      if ret <= 0 {
        wnum := tot;
      }
    }

    /** The loop of ssl3_write_app_data from tot on: what to return, and where it stopped. */
    method WriteRecords(in_: int, data: seq<byte>, start: nat, ghost base: seq<byte>, ghost good: bool)
      returns (ret: int, tot: nat)
      requires Valid() && SealOk() && AlignsAny() && start <= |data|
      requires good ==> start + Outstanding() <= |data| && AppData(plains) == base + data[..start + Outstanding()]
      modifies this`pendingFlight, this`pendingFlightOffset, this`plains, this`writeSeq,
               this`wpendTot, this`wpendBuf, this`wpendType, this`wpendRet, this`wpendPending,
               writeBuffer, writeBuffer.buf, bio
      ensures Valid() && old(plains) <= plains && OnlyAppSince(plains, |old(plains)|, maxSendFragment)
      ensures ret > 0 ==> ret <= |data| && (!partialWrite ==> ret == |data|) && !wpendPending
      ensures good ==>
                var at := if ret > 0 then ret else tot + Outstanding();
                at <= |data| && AppData(plains) == base + data[..at]
      ensures old(bio.Willing() && Ready(in_, data, start)) ==> ret > 0
    {
      hide InOrder, Wire, AppData, OnlyAppSince, StreamBio.Willing, AlwaysSeals, Writable, SealOk;
      NoneSince(plains, maxSendFragment);
      tot := start;
      while true
        invariant Valid() && AlignsAny() && tot <= |data|
        invariant old(plains) <= plains && OnlyAppSince(plains, |old(plains)|, maxSendFragment)
        invariant good ==> tot + Outstanding() <= |data| && AppData(plains) == base + data[..tot + Outstanding()]
        invariant writeBuffer.buf == null || writeBuffer.buf == old(writeBuffer.buf) || fresh(writeBuffer.buf)
        invariant old(bio.Willing() && Ready(in_, data, start)) ==> bio.Willing() && Ready(in_, data, tot)
        decreases |data| - tot
      {
        var n := |data| - tot;
        var nw := if n > maxSendFragment then maxSendFragment else n;
        ghost var now := plains;
        ret := WriteRecord(in_ + tot, data, tot, nw, base, good);
        if plains != now {
          OneMore(old(plains), now, Plain(SSL3_RT_APPLICATION_DATA, data[tot..tot + nw]), maxSendFragment);
        }
        if ret <= 0 {
          return;
        }
        if ret == n || partialWrite {
          return tot + ret, tot;
        }
        tot := tot + ret;
        if AlwaysSeals() && CanHold(maxSendFragment) { StillReady(in_, data, tot); }
      }
    }

    /** One round of ssl3_write_app_data. */
    method WriteRecord(in_: int, data: seq<byte>, tot: nat, nw: nat, ghost base: seq<byte>, ghost good: bool)
      returns (ret: int)
      requires Valid() && SealOk() && AlignsAny() && tot + nw <= |data| && nw <= maxSendFragment
      requires good ==> tot + Outstanding() <= |data| && AppData(plains) == base + data[..tot + Outstanding()]
      modifies this`pendingFlight, this`pendingFlightOffset, this`plains, this`writeSeq,
               this`wpendTot, this`wpendBuf, this`wpendType, this`wpendRet, this`wpendPending,
               writeBuffer, writeBuffer.buf, bio
      ensures Valid() && (writeBuffer.buf == null || writeBuffer.buf == old(writeBuffer.buf) || fresh(writeBuffer.buf))
      ensures AlignsAny() && ret <= nw && (ret > 0 ==> !wpendPending && writeBuffer.size == 0)
      ensures FlightRest() == old(FlightRest()) || FlightRest() == []
      ensures old(bio.Willing() && AlwaysSeals() && Writable(SSL3_RT_APPLICATION_DATA, in_, nw)) ==> bio.Willing() && ret > 0
      ensures plains == old(plains) || (plains == old(plains) + [Plain(SSL3_RT_APPLICATION_DATA, data[tot..tot + nw])] && nw > 0)
      ensures good ==>
                var at := tot + (if ret > 0 then ret else Outstanding());
                at <= |data| && AppData(plains) == base + data[..at]
    {
      hide InOrder, Wire, AppData, StreamBio.Willing, Writable;
      ghost var body := data[tot..tot + nw];
      AppDataSnoc(plains, Plain(SSL3_RT_APPLICATION_DATA, body));
      ret := DoWrite(SSL3_RT_APPLICATION_DATA, in_, data[tot..tot + nw]);
      assert data[..tot + nw] == data[..tot] + body;
      Associative(base, data[..tot], body);
    }
  }
}
