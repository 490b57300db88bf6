/** The wire form of a DTLS handshake fragment (section 4.2.2 of RFC 6347). */
module HandshakeFragments {
  import opened Bytes

  const HM_HEADER_LENGTH: nat := 12

  /** The most messages, ChangeCipherSpec included, in one flight. */
  const SSL_MAX_HANDSHAKE_FLIGHT: nat := 7

  datatype Fragment = Fragment(typ: byte, msgLen: nat, seqNum: nat, fragOff: nat, body: seq<byte>)

  /** The header fields have their wire widths. */
  predicate Encodable(f: Fragment) {
    f.msgLen < 0x100_0000 && f.seqNum < 0x1_0000 && f.fragOff < 0x100_0000 && |f.body| < 0x100_0000
  }

  function Serialize(f: Fragment): seq<byte>
    requires Encodable(f)
  {
    [f.typ] + (U24(f.msgLen) + (U16(f.seqNum) + (U24(f.fragOff) + (U24(|f.body|) + f.body))))
  }

  /** dtls1_parse_fragment: the next fragment of a record and what follows it. */
  function ParseFragment(cbs: seq<byte>): Option<(Fragment, seq<byte>)> {
    if |cbs| < HM_HEADER_LENGTH then None
    else
      var afterType := cbs[1..];
      var afterLen := afterType[3..];
      var afterSeq := afterLen[2..];
      var afterOff := afterSeq[3..];
      var rest := afterOff[3..];
      var fragLen := GetU24(afterOff);
      if |rest| < fragLen then None
      else Some((Fragment(cbs[0], GetU24(afterType), GetU16(afterLen), GetU24(afterSeq), rest[..fragLen]),
                 rest[fragLen..]))
  }

  lemma SerializeLength(f: Fragment)
    requires Encodable(f)
    ensures |Serialize(f)| == HM_HEADER_LENGTH + |f.body|
  {
  }

  lemma ParseSerialized(f: Fragment, rest: seq<byte>)
    requires Encodable(f)
    ensures ParseFragment(Serialize(f) + rest) == Some((f, rest))
  {
    var cbs := Serialize(f) + rest;
    var afterOff := U24(|f.body|) + (f.body + rest);
    var afterSeq := U24(f.fragOff) + afterOff;
    var afterLen := U16(f.seqNum) + afterSeq;
    var afterType := U24(f.msgLen) + afterLen;
    assert cbs == [f.typ] + afterType;
    assert cbs[1..] == afterType;
    assert afterType[3..] == afterLen;
    assert afterLen[2..] == afterSeq;
    assert afterSeq[3..] == afterOff;
    assert afterOff[3..] == f.body + rest;
    U24RoundTrip(|f.body|, f.body + rest);
    U24RoundTrip(f.fragOff, afterOff);
    U16RoundTrip(f.seqNum, afterSeq);
    U24RoundTrip(f.msgLen, afterLen);
  }

  /** Parsing loses nothing: what was parsed serialises back to the octets it came from. */
  lemma SerializeParsed(cbs: seq<byte>)
    requires ParseFragment(cbs).Some?
    ensures var (f, rest) := ParseFragment(cbs).value;
            Encodable(f) && cbs == Serialize(f) + rest && |rest| < |cbs|
  {
    var (f, rest) := ParseFragment(cbs).value;
    var afterType := cbs[1..];
    var afterLen := afterType[3..];
    var afterSeq := afterLen[2..];
    var afterOff := afterSeq[3..];
    GetU24Inverse(afterType);
    GetU16Inverse(afterLen);
    GetU24Inverse(afterSeq);
    GetU24Inverse(afterOff);
    var tail := afterOff[3..];
    assert tail == f.body + rest;
    assert afterOff == U24(|f.body|) + (f.body + rest);
    assert afterSeq == U24(f.fragOff) + afterOff;
    assert afterLen == U16(f.seqNum) + afterSeq;
    assert afterType == U24(f.msgLen) + afterLen;
    assert cbs == [f.typ] + afterType;
    assert Serialize(f) + rest
        == [f.typ] + (U24(f.msgLen) + (U16(f.seqNum) + (U24(f.fragOff) + (U24(|f.body|) + (f.body + rest)))));
  }
}
