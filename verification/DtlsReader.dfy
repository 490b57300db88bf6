/** The receiving half of a DTLS connection: dtls_open_record, dtls1_open_handshake and the
    operations that hand messages up and change the read epoch. */
module DtlsReader {
  import opened Bytes
  import opened HandshakeFragments
  import opened Reassembly
  import opened IncomingRing
  import opened ReplayWindow
  import opened DtlsRecord

  datatype Reader = Reader(ring: Ring, window: Window, rEpoch: nat, aead: Aead, hasCcs: bool, hasMessage: bool)

  /** What opening one record yields. Alert records are handed to the alert code, which is
      not part of this model. */
  datatype Opened = Discard | Partial | Error(alert: nat) | AlertRecord(plain: seq<byte>) | Record(typ: byte, plain: seq<byte>)

  datatype Outcome = Success | Discarded | NeedMore | Failed(alert: nat) | GotAlert(plain: seq<byte>)

  predicate VersionOk(aead: Aead, version: nat) {
    if aead.isNull then version / 0x100 == DTLS1_VERSION_MAJOR else version == aead.recordVersion
  }

  /** dtls_open_record: what was unsealed, how many octets it consumed, and the window after. */
  function OpenRecord(r: Reader, input: seq<byte>): (Window, Opened, nat) {
    if input == [] then (r.window, Partial, 0)
    else
      var parsed := ParseRecord(input);
      if parsed.None? || |parsed.value.body| > SSL3_RT_MAX_ENCRYPTED_LENGTH
         || !VersionOk(r.aead, parsed.value.version) then
        (r.window, Discard, |input|)
      else
        var p := parsed.value;
        var consumed := |input| - |p.rest|;
        if GetU16(p.sequence) != r.rEpoch || Discards(r.window, U64Be(p.sequence)) then
          (r.window, Discard, consumed)
        else
          match r.aead.open(p.typ, p.version, p.sequence, p.body)
          case None => (r.window, Discard, consumed)
          case Some(plain) =>
            if |plain| > SSL3_RT_MAX_PLAIN_LENGTH then (r.window, Error(SSL_AD_RECORD_OVERFLOW), consumed)
            else
              (ReplayWindow.Record(r.window, U64Be(p.sequence)),
               if p.typ == SSL3_RT_ALERT then AlertRecord(plain) else Opened.Record(p.typ, plain),
               consumed)
  }

  lemma OpenConsumes(r: Reader, input: seq<byte>)
    ensures var (window, unsealed, consumed) := OpenRecord(r, input);
            consumed <= |input| && (input != [] ==> consumed > 0)
  {
  }

  /** dtls1_open_handshake on the first record of a datagram. */
  function OpenHandshake(r: Reader, input: seq<byte>, maxMsgLen: nat): (Reader, Outcome, nat)
    requires |r.ring.slots| == SSL_MAX_HANDSHAKE_FLIGHT
  {
    var (window, unsealed, consumed) := OpenRecord(r, input);
    var r' := r.(window := window);
    match unsealed
    case Discard => (r', Discarded, consumed)
    case Partial => (r', NeedMore, consumed)
    case Error(alert) => (r', Failed(alert), consumed)
    case AlertRecord(plain) => (r', GotAlert(plain), consumed)
    case Record(typ, plain) =>
      if typ == SSL3_RT_APPLICATION_DATA then
        (r', if r.aead.isNull then Failed(SSL_AD_UNEXPECTED_MESSAGE) else Discarded, consumed)
      else if typ == SSL3_RT_CHANGE_CIPHER_SPEC then
        if !r.aead.isNull then (r', Failed(SSL_AD_UNEXPECTED_MESSAGE), consumed)
        else if plain != [SSL3_MT_CCS] then (r', Failed(SSL_AD_ILLEGAL_PARAMETER), consumed)
        else (r'.(hasCcs := true), Success, consumed)
      else if typ == SSL3_RT_HANDSHAKE then
        var (ring, status) := TakeRecord(r.ring, plain, maxMsgLen, r.rEpoch == 1);
        (r'.(ring := ring), if status.Ok? then Success else Failed(status.alert), consumed)
      else (r', Failed(SSL_AD_UNEXPECTED_MESSAGE), consumed)
  }

  predicate Current(r: Reader)
    requires |r.ring.slots| == SSL_MAX_HANDSHAKE_FLIGHT
  {
    Complete(r.ring.slots[Index(r.ring.readSeq)])
  }

  /** dtls_has_unprocessed_handshake_data. */
  predicate HasUnprocessed(r: Reader)
    requires |r.ring.slots| == SSL_MAX_HANDSHAKE_FLIGHT
  {
    r.hasCcs ||
    exists i: nat :: i < 7 && r.ring.slots[i].Slot? && !(r.hasMessage && i == Index(r.ring.readSeq))
  }

  function Next(r: Reader): Reader
    requires |r.ring.slots| == SSL_MAX_HANDSHAKE_FLIGHT
  {
    r.(ring := Advance(r.ring), hasMessage := false)
  }

  /** dtls1_set_read_state: refused while the current epoch has data left over. */
  function ChangeReadState(r: Reader, aead: Aead): (Reader, bool)
    requires |r.ring.slots| == SSL_MAX_HANDSHAKE_FLIGHT
  {
    if HasUnprocessed(r) then (r, false)
    else (r.(rEpoch := r.rEpoch + 1, window := EMPTY_WINDOW, aead := aead), true)
  }

  ghost predicate ReaderInv(r: Reader) {
    && RingInv(r.ring) && r.rEpoch < EPOCH_LIMIT
    && (r.hasMessage ==> Current(r))
  }

  lemma OpenKeepsInv(r: Reader, input: seq<byte>, maxMsgLen: nat)
    requires ReaderInv(r)
    ensures ReaderInv(OpenHandshake(r, input, maxMsgLen).0)
  {
    var (window, unsealed, consumed) := OpenRecord(r, input);
    if unsealed.Record? {
      TakeRecordKeepsInv(r.ring, unsealed.plain, maxMsgLen, r.rEpoch == 1);
      TakeRecordKeepsComplete(r.ring, unsealed.plain, maxMsgLen, r.rEpoch == 1);
    }
  }

  /** Once the current message is complete no fragment changes it. */
  lemma {:induction false} TakeRecordKeepsComplete(r: Ring, record: seq<byte>, maxMsgLen: nat, epochOne: bool)
    requires RingInv(r)
    ensures var i := Index(r.readSeq);
            Complete(r.slots[i]) ==> TakeRecord(r, record, maxMsgLen, epochOne).0.slots[i] == r.slots[i]
    decreases |record|
  {
    if record != [] && ParseFragment(record).Some? {
      var (f, rest) := ParseFragment(record).value;
      SerializeParsed(record);
      TakeFragmentKeepsInv(r, f, maxMsgLen, epochOne);
      var (r', status) := TakeFragment(r, f, maxMsgLen, epochOne);
      TakeFragmentKeepsComplete(r, f, maxMsgLen, epochOne);
      if status.Ok? { TakeRecordKeepsComplete(r', rest, maxMsgLen, epochOne); }
    }
  }

  lemma TakeFragmentKeepsComplete(r: Ring, f: Fragment, maxMsgLen: nat, epochOne: bool)
    requires RingInv(r)
    ensures var i := Index(r.readSeq);
            Complete(r.slots[i]) ==> TakeFragment(r, f, maxMsgLen, epochOne).0.slots[i] == r.slots[i]
  {
  }

  class DtlsConnectionReader {
    const bitmap: Dtls1Bitmap
    const messages: IncomingMessages
    var rEpoch: nat
    var aead: Aead
    var hasCcs: bool
    var hasMessage: bool

    ghost predicate Valid()
      reads this, bitmap, messages, messages.Repr
    {
      && this !in messages.Repr && bitmap !in messages.Repr
      && bitmap.Valid() && messages.Valid()
      && ReaderInv(View())
    }

    ghost function View(): (r: Reader)
      requires messages.Valid()
      reads this, bitmap, messages, messages.Repr
      ensures r.ring == messages.View()
    {
      Reader(messages.View(), bitmap.View(), rEpoch, aead, hasCcs, hasMessage)
    }

    constructor (aead: Aead)
      ensures Valid()
      ensures View() == Reader(EMPTY_RING, EMPTY_WINDOW, 0, aead, false, false)
    {
      var b := new Dtls1Bitmap();
      var m := new IncomingMessages();
      bitmap, messages := b, m;
      rEpoch := 0;
      this.aead := aead;
      hasCcs, hasMessage := false, false;
    }

    /** dtls_open_record. */
    method Open(input: seq<byte>) returns (unsealed: Opened, consumed: nat)
      requires Valid()
      modifies bitmap
      ensures Valid()
      ensures (bitmap.View(), unsealed, consumed) == OpenRecord(old(View()), input)
    {
      if input == [] {
        return Partial, 0;
      }
      var parsed := ParseRecord(input);
      if parsed.None? || |parsed.value.body| > SSL3_RT_MAX_ENCRYPTED_LENGTH {
        return Discard, |input|;
      }
      var p := parsed.value;
      if !VersionOk(aead, p.version) {
        return Discard, |input|;
      }
      consumed := |input| - |p.rest|;
      var epoch := GetU16(p.sequence);
      if epoch != rEpoch {
        return Discard, consumed;
      }
      var replay := bitmap.ShouldDiscard(p.sequence);
      if replay {
        return Discard, consumed;
      }
      var plain := aead.open(p.typ, p.version, p.sequence, p.body);
      if plain.None? {
        return Discard, consumed;
      }
      if |plain.value| > SSL3_RT_MAX_PLAIN_LENGTH {
        return Error(SSL_AD_RECORD_OVERFLOW), consumed;
      }
      bitmap.RecordSeq(p.sequence);
      unsealed := if p.typ == SSL3_RT_ALERT then AlertRecord(plain.value) else Opened.Record(p.typ, plain.value);
    }

    /** dtls1_open_handshake. */
    method OpenHandshakeRecord(input: seq<byte>, maxMsgLen: nat) returns (outcome: Outcome, consumed: nat)
      requires Valid()
      modifies this`hasCcs, bitmap, messages, messages.Repr
      ensures Valid() && fresh(messages.Repr - old(messages.Repr))
      ensures (View(), outcome, consumed) == OpenHandshake(old(View()), input, maxMsgLen)
    {
      hide OpenRecord, TakeRecord, RingInv, Complete;
      ghost var r := View();
      OpenKeepsInv(r, input, maxMsgLen);
      var unsealed;
      unsealed, consumed := Open(input);
      match unsealed {
        case Discard => return Discarded, consumed;
        case Partial => return NeedMore, consumed;
        case Error(alert) => return Failed(alert), consumed;
        case AlertRecord(plain) => return GotAlert(plain), consumed;
        case Record(typ, plain) =>
          if typ == SSL3_RT_APPLICATION_DATA {
            return if aead.isNull then Failed(SSL_AD_UNEXPECTED_MESSAGE) else Discarded, consumed;
          } else if typ == SSL3_RT_CHANGE_CIPHER_SPEC {
            if !aead.isNull {
              return Failed(SSL_AD_UNEXPECTED_MESSAGE), consumed;
            }
            if |plain| != 1 || plain[0] != SSL3_MT_CCS {
              return Failed(SSL_AD_ILLEGAL_PARAMETER), consumed;
            }
            assert plain == [SSL3_MT_CCS];
            hasCcs := true;
            return Success, consumed;
          } else if typ == SSL3_RT_HANDSHAKE {
            var status := messages.TakeAll(plain, maxMsgLen, rEpoch == 1);
            return if status.Ok? then Success else Failed(status.alert), consumed;
          } else {
            return Failed(SSL_AD_UNEXPECTED_MESSAGE), consumed;
          }
      }
    }

    /** dtls1_open_change_cipher_spec. */
    method OpenChangeCipherSpec(input: seq<byte>, maxMsgLen: nat) returns (outcome: Outcome, consumed: nat)
      requires Valid()
      modifies this`hasCcs, bitmap, messages, messages.Repr
      ensures Valid() && fresh(messages.Repr - old(messages.Repr))
      ensures old(hasCcs) ==> outcome == Success && consumed == 0 && View() == old(View()).(hasCcs := false)
      ensures !old(hasCcs) ==>
                var (r, o, c) := OpenHandshake(old(View()), input, maxMsgLen);
                && consumed == c && View() == r.(hasCcs := if o == Success then false else r.hasCcs)
                && outcome == if o == Success && !r.hasCcs then Discarded else o
    {
      consumed := 0;
      if !hasCcs {
        outcome, consumed := OpenHandshakeRecord(input, maxMsgLen);
        if outcome != Success {
          return;
        }
      }
      if hasCcs {
        hasCcs := false;
        return Success, consumed;
      }
      return Discarded, consumed;
    }

    /** dtls1_get_message. */
    method GetMessage() returns (msg: Option<(byte, seq<byte>, seq<byte>)>)
      requires Valid()
      modifies this`hasMessage
      ensures Valid()
      ensures msg.Some? <==> Current(old(View()))
      ensures View() == old(View()).(hasMessage := old(hasMessage) || msg.Some?)
      ensures msg.Some? ==>
                var (typ, body, raw) := msg.value;
                var s := old(View()).ring.slots[Index(messages.readSeq)];
                && s.typ == typ && |body| == s.msgLen
                && (forall k: nat :: k < |body| ==> k in s.got && body[k] == s.got[k])
                && Encodable(Fragment(typ, |body|, messages.readSeq, 0, body))
                && raw == Serialize(Fragment(typ, |body|, messages.readSeq, 0, body))
    {
      msg := messages.GetMessage();
      if msg.Some? && !hasMessage {
        hasMessage := true;
      }
    }

    /** dtls1_next_message. The flight_has_reply flag belongs to the sender. */
    method NextMessage()
      requires Valid() && hasMessage && messages.readSeq < 0xffff
      modifies this`hasMessage, messages, messages.Repr
      ensures Valid() && messages.Repr == old(messages.Repr)
      ensures View() == Next(old(View()))
    {
      messages.NextMessage();
      hasMessage := false;
    }

    /** dtls1_set_read_state. */
    method SetReadState(ctx: Aead) returns (ok: bool)
      requires Valid() && rEpoch + 1 < EPOCH_LIMIT
      modifies this`rEpoch, this`aead, bitmap
      ensures Valid()
      ensures (View(), ok) == ChangeReadState(old(View()), ctx)
    {
      var buffered := messages.HasBufferedMessage(hasMessage);
      if hasCcs || buffered {
        return false;
      }
      rEpoch := rEpoch + 1;
      bitmap.Reset();
      aead := ctx;
      return true;
    }
  }
}
