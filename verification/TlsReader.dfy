/** The incoming handshake buffer of s3_both.cc: records are appended to hs_buf, messages are
    taken from its front. Where one record ends and the next begins does not matter. */
module TlsReader {
  import opened Bytes
  import opened TlsWrite

  const SSL3_HM_HEADER_LENGTH: nat := 4
  const SSL3_RT_ALERT: byte := 21

  /** How many records without content may follow one another. */
  const K_MAX_EMPTY_RECORDS: nat := 32

  datatype HandshakeMessage = HandshakeMessage(typ: byte, body: seq<byte>)

  predicate Encodable(m: HandshakeMessage) {
    |m.body| < 0x100_0000
  }

  predicate AllEncodable(msgs: seq<HandshakeMessage>) {
    forall i :: 0 <= i < |msgs| ==> Encodable(msgs[i])
  }

  /** What ssl3_init_message and ssl3_finish_message build. */
  function Serialize(m: HandshakeMessage): seq<byte>
    requires Encodable(m)
  {
    [m.typ] + U24(|m.body|) + m.body
  }

  /** The octets of a list of messages, one after the other. */
  function Stream(msgs: seq<HandshakeMessage>): seq<byte>
    requires AllEncodable(msgs)
  {
    if msgs == [] then [] else Serialize(msgs[0]) + Stream(msgs[1..])
  }

  /** parse_message: the first message of buf and what follows it, if it is all there. */
  function Parse(buf: seq<byte>): Option<(HandshakeMessage, seq<byte>)> {
    if |buf| < SSL3_HM_HEADER_LENGTH then None
    else
      var len := GetU24(buf[1..]);
      if |buf| < SSL3_HM_HEADER_LENGTH + len then None
      else Some((HandshakeMessage(buf[0], buf[4..4 + len]), buf[4 + len..]))
  }

  /** out_bytes_needed of parse_message, where it finds no message. */
  function BytesNeeded(buf: seq<byte>): nat {
    if |buf| < SSL3_HM_HEADER_LENGTH then SSL3_HM_HEADER_LENGTH else SSL3_HM_HEADER_LENGTH + GetU24(buf[1..])
  }

  /** tls_can_accept_handshake_data. */
  predicate CanAccept(buf: seq<byte>, maxLen: nat) {
    Parse(buf).None? && BytesNeeded(buf) <= SSL3_HM_HEADER_LENGTH + maxLen
  }

  lemma ParseSerialized(m: HandshakeMessage, rest: seq<byte>)
    requires Encodable(m)
    ensures Parse(Serialize(m) + rest) == Some((m, rest))
  {
    var buf := Serialize(m) + rest;
    assert buf[1..] == U24(|m.body|) + (m.body + rest);
    U24RoundTrip(|m.body|, m.body + rest);
    assert buf[4..4 + |m.body|] == m.body && buf[4 + |m.body|..] == rest;
  }

  lemma SerializeParsed(buf: seq<byte>)
    requires Parse(buf).Some?
    ensures var (m, rest) := Parse(buf).value; Encodable(m) && buf == Serialize(m) + rest && |rest| < |buf|
  {
    GetU24Inverse(buf[1..]);
    var (m, rest) := Parse(buf).value;
    assert buf == [buf[0]] + buf[1..][..3] + m.body + rest;
  }

  /** What arrives later changes neither a complete message nor the length in a header. */
  lemma ParseMore(buf: seq<byte>, more: seq<byte>)
    ensures Parse(buf).Some? ==> Parse(buf + more) == Some((Parse(buf).value.0, Parse(buf).value.1 + more))
    ensures |buf| >= SSL3_HM_HEADER_LENGTH ==> BytesNeeded(buf + more) == BytesNeeded(buf)
  {
    if |buf| >= SSL3_HM_HEADER_LENGTH {
      assert (buf + more)[1..] == buf[1..] + more;
      var len := GetU24(buf[1..]);
      if Parse(buf).Some? {
        assert (buf + more)[4..4 + len] == buf[4..4 + len];
        assert (buf + more)[4 + len..] == buf[4 + len..] + more;
      }
    }
  }

  lemma {:induction false} StreamAppend(a: seq<HandshakeMessage>, b: seq<HandshakeMessage>)
    requires AllEncodable(a) && AllEncodable(b)
    ensures Stream(a + b) == Stream(a) + Stream(b)
  {
    if a == [] {
      assert a + b == b;
    } else {
      assert (a + b)[1..] == a[1..] + b;
      StreamAppend(a[1..], b);
    }
  }

  lemma StreamSnoc(msgs: seq<HandshakeMessage>, m: HandshakeMessage)
    requires AllEncodable(msgs) && Encodable(m)
    ensures Stream(msgs + [m]) == Stream(msgs) + Serialize(m)
  {
    StreamAppend(msgs, [m]);
    assert Stream([m]) == Serialize(m) + Stream([]);
  }

  /** All the complete messages at the front of buf, as they are taken one by one. */
  function Split(buf: seq<byte>): (r: (seq<HandshakeMessage>, seq<byte>))
    ensures Parse(r.1).None?
    decreases |buf|
  {
    var p := Parse(buf);
    if p.None? then ([], buf)
    else
      var (more, rest) := Split(p.value.1);
      ([p.value.0] + more, rest)
  }

  /** empty_record_count after one more record. */
  function CountEmpty(empties: nat, body: seq<byte>): nat {
    if body == [] then empties + 1 else 0
  }

  /** Records of handshake data come in; after each, the complete messages are taken. Nothing is
      opened once the buffer wants more octets than the limit allows. */
  function Receive(buf: seq<byte>, empties: nat, records: seq<seq<byte>>, maxLen: nat)
    : Option<(seq<HandshakeMessage>, seq<byte>)>
    decreases |records|
  {
    if records == [] then Some(([], buf))
    else if !CanAccept(buf, maxLen) || CountEmpty(empties, records[0]) > K_MAX_EMPTY_RECORDS then None
    else
      var (msgs, rest) := Split(buf + records[0]);
      var r := Receive(rest, CountEmpty(empties, records[0]), records[1..], maxLen);
      if r.None? then None else Some((msgs + r.value.0, r.value.1))
  }

  /** No more than K_MAX_EMPTY_RECORDS empty records in a row, after empties of them. */
  predicate FewEmpty(empties: nat, records: seq<seq<byte>>)
    decreases |records|
  {
    records == [] ||
    (CountEmpty(empties, records[0]) <= K_MAX_EMPTY_RECORDS && FewEmpty(CountEmpty(empties, records[0]), records[1..]))
  }

  predicate AllWithin(msgs: seq<HandshakeMessage>, maxLen: nat) {
    forall i :: 0 <= i < |msgs| ==> |msgs[i].body| <= maxLen
  }

  /** When a is the first part of a stream of messages, those that end within a are split off. */
  lemma {:induction false} SplitPrefix(msgs: seq<HandshakeMessage>, a: seq<byte>, b: seq<byte>) returns (k: nat)
    requires AllEncodable(msgs) && a + b == Stream(msgs)
    ensures k <= |msgs| && Split(a).0 == msgs[..k] && Split(a).1 + b == Stream(msgs[k..])
    decreases |msgs|
  {
    if Parse(a).None? {
      return 0;
    }
    ParseMore(a, b);
    ParseSerialized(msgs[0], Stream(msgs[1..]));
    var rest := Parse(a).value.1;
    k := SplitPrefix(msgs[1..], rest, b);
    k := k + 1;
    assert msgs[..k] == [msgs[0]] + msgs[1..][..k - 1] && msgs[1..][k - 1..] == msgs[k..];
  }

  /** The limit never stands in the way of messages that keep to it. */
  lemma AcceptsWithin(msgs: seq<HandshakeMessage>, buf: seq<byte>, more: seq<byte>, maxLen: nat)
    requires AllEncodable(msgs) && AllWithin(msgs, maxLen) && buf + more == Stream(msgs) && Parse(buf).None?
    ensures CanAccept(buf, maxLen)
  {
    if |buf| >= SSL3_HM_HEADER_LENGTH {
      ParseMore(buf, more);
      ParseSerialized(msgs[0], Stream(msgs[1..]));
    }
  }

  lemma {:induction false} ReceiveFrom(msgs: seq<HandshakeMessage>, buf: seq<byte>, empties: nat,
                                       records: seq<seq<byte>>, maxLen: nat)
    requires AllEncodable(msgs) && AllWithin(msgs, maxLen)
    requires buf + Concat(records) == Stream(msgs) && Parse(buf).None?
    ensures Receive(buf, empties, records, maxLen) == if FewEmpty(empties, records) then Some((msgs, [])) else None
    decreases |records|
  {
    if records == [] {
      assert buf == Stream(msgs);
      if msgs != [] { ParseSerialized(msgs[0], Stream(msgs[1..])); }
    } else {
      hide Parse, GetU24, CanAccept, Split, Stream, Serialize;
      AcceptsWithin(msgs, buf, Concat(records), maxLen);
      var a, b := buf + records[0], Concat(records[1..]);
      Associative(buf, records[0], b);
      var k := SplitPrefix(msgs, a, b);
      ReceiveFrom(msgs[k..], Split(a).1, CountEmpty(empties, records[0]), records[1..], maxLen);
      assert msgs == msgs[..k] + msgs[k..] && msgs[k..] + [] == msgs[k..];
    }
  }

  /** For every way of cutting the octets of the messages into records the same messages come
      out, in order, and none is left in the buffer, unless too many records in a row are empty. */
  lemma AnyRecords(msgs: seq<HandshakeMessage>, records: seq<seq<byte>>, maxLen: nat)
    requires AllEncodable(msgs) && AllWithin(msgs, maxLen) && Concat(records) == Stream(msgs)
    ensures Receive([], 0, records, maxLen) == if FewEmpty(0, records) then Some((msgs, [])) else None
  {
    ReceiveFrom(msgs, [], 0, records, maxLen);
  }

  /** The records ssl3_add_message makes of the messages. */
  function Records(msgs: seq<HandshakeMessage>, max: nat): seq<seq<byte>>
    requires AllEncodable(msgs) && max > 0
  {
    if msgs == [] then [] else Chunks(Serialize(msgs[0]), max) + Records(msgs[1..], max)
  }

  lemma {:induction false} RecordsTile(msgs: seq<HandshakeMessage>, max: nat)
    requires AllEncodable(msgs) && max > 0
    ensures Concat(Records(msgs, max)) == Stream(msgs)
  {
    if msgs != [] {
      ChunksTile(Serialize(msgs[0]), max);
      RecordsTile(msgs[1..], max);
      ConcatAppend(Chunks(Serialize(msgs[0]), max), Records(msgs[1..], max));
    }
  }

  lemma RecordsFewEmpty(msgs: seq<HandshakeMessage>, max: nat, empties: nat)
    requires AllEncodable(msgs) && max > 0
    ensures FewEmpty(empties, Records(msgs, max))
  {
    forall k | 0 <= k < |Records(msgs, max)| ensures Records(msgs, max)[k] != [] { NoEmptyRecord(msgs, max, k); }
    NoneEmpty(empties, Records(msgs, max));
  }

  lemma {:induction false} NoEmptyRecord(msgs: seq<HandshakeMessage>, max: nat, k: nat)
    requires AllEncodable(msgs) && max > 0 && k < |Records(msgs, max)|
    ensures Records(msgs, max)[k] != []
    decreases |msgs|
  {
    var first := Chunks(Serialize(msgs[0]), max);
    ChunksTile(Serialize(msgs[0]), max);
    if k >= |first| { NoEmptyRecord(msgs[1..], max, k - |first|); }
  }

  lemma {:induction false} NoneEmpty(empties: nat, records: seq<seq<byte>>)
    requires forall k :: 0 <= k < |records| ==> records[k] != []
    ensures FewEmpty(empties, records)
    decreases |records|
  {
    if records != [] { NoneEmpty(0, records[1..]); }
  }

  /** What one side adds message by message the other side takes message by message. */
  lemma SentIsReceived(msgs: seq<HandshakeMessage>, maxSendFragment: nat, maxLen: nat)
    requires AllEncodable(msgs) && AllWithin(msgs, maxLen) && maxSendFragment > 0
    ensures Receive([], 0, Records(msgs, maxSendFragment), maxLen) == Some((msgs, []))
  {
    RecordsTile(msgs, maxSendFragment);
    RecordsFewEmpty(msgs, maxSendFragment, 0);
    AnyRecords(msgs, Records(msgs, maxSendFragment), maxLen);
  }

  /** Whoever has taken messages off the front of a stream has taken the first of those sent. */
  lemma {:induction false} TakenIsPrefix(taken: seq<HandshakeMessage>, rest: seq<byte>, sent: seq<HandshakeMessage>)
    requires AllEncodable(taken) && AllEncodable(sent) && Stream(taken) + rest <= Stream(sent)
    ensures taken <= sent
    decreases |taken|
  {
    if taken != [] {
      var later := Stream(sent)[|Stream(taken) + rest|..];
      assert Serialize(taken[0]) + (Stream(taken[1..]) + rest + later) == Stream(sent);
      ParseSerialized(taken[0], Stream(taken[1..]) + rest + later);
      assert sent != [];
      ParseSerialized(sent[0], Stream(sent[1..]));
      TakenIsPrefix(taken[1..], rest, sent[1..]);
    }
  }

  class HandshakeReader {
    var hsBuf: Option<seq<byte>>
    var hasMessage: bool
    var emptyRecordCount: nat
    /** All handshake octets that were opened, and all messages that were released. */
    ghost var received: seq<byte>
    ghost var taken: seq<HandshakeMessage>

    ghost function Content(): seq<byte>
      reads this`hsBuf
    {
      if hsBuf.Some? then hsBuf.value else []
    }

    /** No octet is lost or kept twice. */
    ghost predicate Valid()
      reads this
    {
      && AllEncodable(taken) && received == Stream(taken) + Content()
      && (hasMessage ==> Parse(Content()).Some?)
    }

    constructor ()
      ensures Valid() && received == [] && taken == [] && Content() == [] && emptyRecordCount == 0
    {
      hsBuf, hasMessage, emptyRecordCount, received, taken := None, false, 0, [], [];
    }

    /** parse_message. */
    method ParseMessage() returns (ok: bool, msg: HandshakeMessage, raw: nat, needed: nat)
      ensures ok <==> Parse(Content()).Some?
      ensures ok ==> raw == SSL3_HM_HEADER_LENGTH + |msg.body| <= |Content()|
      ensures ok ==> Parse(Content()) == Some((msg, Content()[raw..]))
      ensures !ok ==> needed == BytesNeeded(Content())
    {
      msg, raw, needed := HandshakeMessage(0, []), 0, SSL3_HM_HEADER_LENGTH;
      if hsBuf.None? || |hsBuf.value| < SSL3_HM_HEADER_LENGTH {
        return false, msg, raw, needed;
      }
      var buf := hsBuf.value;
      var len := GetU24(buf[1..]);
      if |buf| - SSL3_HM_HEADER_LENGTH < len {
        needed := SSL3_HM_HEADER_LENGTH + len;
        return false, msg, raw, needed;
      }
      return true, HandshakeMessage(buf[0], buf[4..4 + len]), 4 + len, needed;
    }

    /** ssl3_get_message: the message after those released, as often as it is asked for. */
    method GetMessage() returns (ok: bool, msg: HandshakeMessage)
      requires Valid()
      modifies this`hasMessage
      ensures Valid() && (ok <==> Parse(Content()).Some?) && (hasMessage <==> ok)
      ensures ok ==> Encodable(msg) && Stream(taken + [msg]) <= received
    {
      var raw, needed;
      ok, msg, raw, needed := ParseMessage();
      if ok {
        SerializeParsed(Content());
        StreamSnoc(taken, msg);
        hasMessage := true;
      }
    }

    /** tls_can_accept_handshake_data. */
    method CanAcceptHandshakeData(maxLen: nat) returns (ok: bool)
      ensures ok <==> CanAccept(Content(), maxLen)
    {
      var msg, raw, needed;
      ok, msg, raw, needed := ParseMessage();
      ok := !ok && needed <= SSL3_HM_HEADER_LENGTH + maxLen;
    }

    /** tls_open_record up to its checks, where the record, if it opens, opens to (kind, body).
        Nothing is opened over a complete message, and nothing else comes between the parts of one. */
    method OpenRecord(record: Option<Plain>, maxLen: nat) returns (ok: bool)
      requires Valid()
      modifies this`emptyRecordCount
      ensures ok <==> (&& CanAccept(Content(), maxLen) && record.Some?
                       && |record.value.body| <= SSL3_RT_MAX_PLAIN_LENGTH
                       && CountEmpty(old(emptyRecordCount), record.value.body) <= K_MAX_EMPTY_RECORDS
                       && record.value.kind != SSL3_RT_ALERT
                       && (record.value.kind != SSL3_RT_HANDSHAKE ==> received == Stream(taken)))
      ensures ok ==> emptyRecordCount == CountEmpty(old(emptyRecordCount), record.value.body)
    {
      ok := CanAcceptHandshakeData(maxLen);
      if !ok { return; }
      if record.None? || |record.value.body| > SSL3_RT_MAX_PLAIN_LENGTH {
        return false;
      }
      if record.value.body == [] {
        emptyRecordCount := emptyRecordCount + 1;
        if emptyRecordCount > K_MAX_EMPTY_RECORDS { return false; }
      } else {
        emptyRecordCount := 0;
      }
      if record.value.kind == SSL3_RT_ALERT {
        return false;
      }
      var unprocessed := HasUnprocessedHandshakeData();
      if record.value.kind != SSL3_RT_HANDSHAKE && unprocessed {
        return false;
      }
      ok := true;
    }

    /** ssl3_open_handshake: the whole record is appended. What is buffered stays below one message
        of the longest kind and one record. */
    method OpenHandshake(record: Option<Plain>, maxLen: nat) returns (ok: bool)
      requires Valid()
      modifies this`hsBuf, this`received, this`emptyRecordCount
      ensures Valid()
      ensures ok <==> (&& CanAccept(old(Content()), maxLen) && record.Some?
                       && |record.value.body| <= SSL3_RT_MAX_PLAIN_LENGTH
                       && CountEmpty(old(emptyRecordCount), record.value.body) <= K_MAX_EMPTY_RECORDS
                       && record.value.kind == SSL3_RT_HANDSHAKE)
      ensures received == if ok then old(received) + record.value.body else old(received)
      ensures ok ==> emptyRecordCount == CountEmpty(old(emptyRecordCount), record.value.body)
      ensures ok ==> |Content()| < SSL3_HM_HEADER_LENGTH + maxLen + SSL3_RT_MAX_PLAIN_LENGTH
      ensures !ok ==> Content() == old(Content())
    {
      if hsBuf.None? {
        hsBuf := Some([]);
      }
      ok := OpenRecord(record, maxLen);
      if !ok || record.value.kind != SSL3_RT_HANDSHAKE {
        return false;
      }
      Associative(Stream(taken), hsBuf.value, record.value.body);
      hsBuf := Some(hsBuf.value + record.value.body);
      received := received + record.value.body;
    }

    /** ssl3_next_message. Its caller has been given the message. */
    method NextMessage(inInit: bool)
      requires Valid() && Parse(Content()).Some?
      modifies this
      ensures Valid() && received == old(received) && !hasMessage
      ensures taken == old(taken) + [Parse(old(Content())).value.0]
      ensures Content() == Parse(old(Content())).value.1
    {
      var ok, msg, raw, needed := ParseMessage();
      SerializeParsed(Content());
      StreamSnoc(taken, msg);
      Associative(Stream(taken), Serialize(msg), Content()[raw..]);
      hsBuf := Some(hsBuf.value[raw..]);
      taken := taken + [msg];
      hasMessage := false;
      if !inInit && |hsBuf.value| == 0 {
        hsBuf := None;
      }
    }

    /** tls_has_unprocessed_handshake_data, which forbids a change of keys: there is none exactly
        when the octets received end with the message being processed, or with the last one. */
    method HasUnprocessedHandshakeData() returns (r: bool)
      requires Valid()
      ensures hasMessage ==> (!r <==> received == Stream(taken) + Serialize(Current()))
      ensures !hasMessage ==> (!r <==> received == Stream(taken))
    {
      var msgLen := 0;
      if hasMessage {
        var ok, msg, raw, needed := ParseMessage();
        SerializeParsed(Content());
        msgLen := raw;
      }
      r := hsBuf.Some? && |hsBuf.value| > msgLen;
    }

    ghost function Current(): (m: HandshakeMessage)
      requires Parse(Content()).Some?
      reads this`hsBuf
      ensures Encodable(m)
    {
      SerializeParsed(Content());
      Parse(Content()).value.0
    }
  }
}
