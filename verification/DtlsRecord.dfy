/** The DTLS record layer of dtls_record.cc and the epoch changes of dtls_method.cc.
    An AEAD is an abstract pair of functions; only "open undoes seal" and the bound on the
    overhead are ever asked of it. */
module DtlsRecord {
  import opened Bytes
  import opened ReplayWindow

  const DTLS1_RT_HEADER_LENGTH: nat := 13
  const SSL3_RT_MAX_PLAIN_LENGTH: nat := 16384
  const SSL3_RT_MAX_ENCRYPTED_LENGTH: nat := 16384 + 256 + 64
  const DTLS1_VERSION_MAJOR: nat := 0xfe

  const SSL3_RT_CHANGE_CIPHER_SPEC: byte := 20
  const SSL3_RT_ALERT: byte := 21
  const SSL3_RT_HANDSHAKE: byte := 22
  const SSL3_RT_APPLICATION_DATA: byte := 23

  const SSL3_MT_CCS: byte := 1

  const SSL_AD_RECORD_OVERFLOW: nat := 22

  const SEQ_LIMIT: nat := 0x1_0000_0000_0000
  const EPOCH_LIMIT: nat := 0x1_0000

  /** A cipher context: seal and open take the type, version and 8-octet sequence. */
  datatype Aead = Aead(
    isNull: bool,
    seal: (byte, nat, seq<byte>, seq<byte>) -> seq<byte>,
    open: (byte, nat, seq<byte>, seq<byte>) -> Option<seq<byte>>,
    maxOverhead: nat,
    explicitNonceLen: nat,
    recordVersion: nat)

  ghost predicate AeadOk(a: Aead) {
    && a.explicitNonceLen <= a.maxOverhead
    && a.recordVersion < 0x1_0000
    && forall t: byte, v: nat, s: seq<byte>, p: seq<byte> ::
         |a.seal(t, v, s, p)| <= |p| + a.maxOverhead
  }

  /** The context before any keys are set: it seals a record as it is. */
  function NullAead(): (a: Aead)
    ensures AeadOk(a) && Opens(a, a)
  {
    Aead(true, (t, v, s, p) => p, (t, v, s, c) => Some(c), 0, 0, 0xfeff)
  }

  /** b opens what a seals. */
  ghost predicate Opens(a: Aead, b: Aead) {
    forall t: byte, v: nat, s: seq<byte>, p: seq<byte> :: b.open(t, v, s, a.seal(t, v, s, p)) == Some(p)
  }

  /** The sending half: the current and the previous epoch's keys and counters. */
  datatype WriteState = WriteState(wEpoch: nat, writeSeq: nat, lastSeq: nat, aead: Aead, lastAead: Aead)

  predicate WriteStateOk(w: WriteState) {
    w.wEpoch < EPOCH_LIMIT && w.writeSeq < SEQ_LIMIT && w.lastSeq < SEQ_LIMIT
  }

  function UsedEpoch(w: WriteState, previous: bool): nat
    requires previous ==> w.wEpoch >= 1
  {
    if previous then w.wEpoch - 1 else w.wEpoch
  }

  function UsedSeq(w: WriteState, previous: bool): nat {
    if previous then w.lastSeq else w.writeSeq
  }

  function UsedAead(w: WriteState, previous: bool): Aead {
    if previous then w.lastAead else w.aead
  }

  function MaxSealOverhead(w: WriteState, previous: bool): nat {
    DTLS1_RT_HEADER_LENGTH + UsedAead(w, previous).maxOverhead
  }

  function SealPrefixLen(w: WriteState, previous: bool): nat {
    DTLS1_RT_HEADER_LENGTH + UsedAead(w, previous).explicitNonceLen
  }

  /** The record as it goes on the wire. */
  function WireRecord(typ: byte, version: nat, sequence: seq<byte>, ciphertext: seq<byte>): seq<byte>
    requires version < 0x1_0000 && |sequence| == 8 && |ciphertext| < 0x1_0000
  {
    [typ] + (U16(version) + (sequence + (U16(|ciphertext|) + ciphertext)))
  }

  datatype ParsedRecord = ParsedRecord(typ: byte, version: nat, sequence: seq<byte>, body: seq<byte>, rest: seq<byte>)

  function ParseRecord(input: seq<byte>): (p: Option<ParsedRecord>)
    ensures p.Some? ==> |p.value.sequence| == 8 && |p.value.rest| < |input|
  {
    if |input| < DTLS1_RT_HEADER_LENGTH then None
    else
      var afterType := input[1..];
      var afterVersion := afterType[2..];
      var afterSequence := afterVersion[8..];
      var rest := afterSequence[2..];
      var len := GetU16(afterSequence);
      if |rest| < len then None
      else Some(ParsedRecord(input[0], GetU16(afterType), afterVersion[..8], rest[..len], rest[len..]))
  }

  lemma ParseWireRecord(typ: byte, version: nat, sequence: seq<byte>, ciphertext: seq<byte>, rest: seq<byte>)
    requires version < 0x1_0000 && |sequence| == 8 && |ciphertext| < 0x1_0000
    ensures ParseRecord(WireRecord(typ, version, sequence, ciphertext) + rest)
         == Some(ParsedRecord(typ, version, sequence, ciphertext, rest))
  {
    var input := WireRecord(typ, version, sequence, ciphertext) + rest;
    var afterSequence := U16(|ciphertext|) + (ciphertext + rest);
    var afterVersion := sequence + afterSequence;
    var afterType := U16(version) + afterVersion;
    assert input == [typ] + afterType;
    assert input[1..] == afterType;
    assert afterType[2..] == afterVersion;
    assert afterVersion[8..] == afterSequence && afterVersion[..8] == sequence;
    assert afterSequence[2..] == ciphertext + rest;
    U16RoundTrip(|ciphertext|, ciphertext + rest);
    U16RoundTrip(version, afterVersion);
  }

  function Sequence(epoch: nat, num: nat): (s: seq<byte>)
    requires epoch < EPOCH_LIMIT && num < SEQ_LIMIT
    ensures |s| == 8
  {
    U16(epoch) + U48(num)
  }

  /** The ciphertext dtls_seal_record writes after the header. */
  function Ciphertext(w: WriteState, previous: bool, typ: byte, plain: seq<byte>): seq<byte>
    requires WriteStateOk(w) && (previous ==> w.wEpoch >= 1)
  {
    UsedAead(w, previous).seal(typ, w.aead.recordVersion, Sequence(UsedEpoch(w, previous), UsedSeq(w, previous)), plain)
  }

  /** The counter after one more record; it wraps to zero, and the seal then fails. */
  function Bump(w: WriteState, previous: bool): WriteState {
    var next := (UsedSeq(w, previous) + 1) % SEQ_LIMIT;
    if previous then w.(lastSeq := next) else w.(writeSeq := next)
  }

  /** dtls_seal_record: the record, if one was produced, and the counters afterwards. */
  function SealRecord(w: WriteState, previous: bool, typ: byte, plain: seq<byte>, maxOut: nat)
    : (WriteState, Option<seq<byte>>)
    requires WriteStateOk(w) && w.aead.recordVersion < 0x1_0000 && (previous ==> w.wEpoch >= 1)
  {
    var ct := Ciphertext(w, previous, typ, plain);
    if maxOut < DTLS1_RT_HEADER_LENGTH || |ct| > maxOut - DTLS1_RT_HEADER_LENGTH then (w, None)
    else
      var w' := Bump(w, previous);
      if UsedSeq(w', previous) == 0 || |ct| >= 0x1_0000 then (w', None)
      else
        (w', Some(WireRecord(typ, w.aead.recordVersion,
                             Sequence(UsedEpoch(w, previous), UsedSeq(w, previous)), ct)))
  }

  /** dtls1_set_write_state. */
  function AfterChange(w: WriteState, aead: Aead): WriteState {
    WriteState(w.wEpoch + 1, 0, w.writeSeq, aead, w.aead)
  }

  // -------------------------------------------------------------- record numbers

  /** Every (epoch, number) pair used so far lies below the counter that will number the
      next record of its epoch. */
  ghost predicate Below(w: WriteState, used: set<(nat, nat)>) {
    forall p :: p in used ==>
      && p.0 <= w.wEpoch
      && (p.0 == w.wEpoch ==> p.1 < w.writeSeq)
      && (p.0 + 1 == w.wEpoch ==> p.1 < w.lastSeq)
  }

  datatype WriteOp =
    | Seal(previous: bool, typ: byte, plain: seq<byte>, maxOut: nat)
    | Change(aead: Aead)

  /** The precondition each call has in the source, plus the epoch not wrapping. */
  predicate Allowed(w: WriteState, op: WriteOp) {
    match op
    case Seal(previous, _, _, _) => previous ==> w.wEpoch >= 1
    case Change(aead) => w.wEpoch + 1 < EPOCH_LIMIT && aead.recordVersion < 0x1_0000
  }

  predicate RunAllowed(w: WriteState, ops: seq<WriteOp>)
    requires WriteStateOk(w) && w.aead.recordVersion < 0x1_0000
    decreases |ops|
  {
    ops == [] || (Allowed(w, ops[0]) && RunAllowed(StepWrite(w, ops[0]), ops[1..]))
  }

  function StepWrite(w: WriteState, op: WriteOp): (w': WriteState)
    requires WriteStateOk(w) && w.aead.recordVersion < 0x1_0000 && Allowed(w, op)
    ensures WriteStateOk(w') && w'.aead.recordVersion < 0x1_0000
  {
    match op
    case Seal(previous, typ, plain, maxOut) => SealRecord(w, previous, typ, plain, maxOut).0
    case Change(aead) => AfterChange(w, aead)
  }

  /** The (epoch, number) pairs of the successful seals of a run, in order. */
  function SealedNumbers(w: WriteState, ops: seq<WriteOp>): seq<(nat, nat)>
    requires WriteStateOk(w) && w.aead.recordVersion < 0x1_0000 && RunAllowed(w, ops)
    decreases |ops|
  {
    if ops == [] then []
    else
      var rest := SealedNumbers(StepWrite(w, ops[0]), ops[1..]);
      match ops[0]
      case Seal(previous, typ, plain, maxOut) =>
        if SealRecord(w, previous, typ, plain, maxOut).1.Some?
        then [(UsedEpoch(w, previous), UsedSeq(w, previous))] + rest
        else rest
      case Change(_) => rest
  }

  /** No counter is at its last value when a record is about to be sealed with it. */
  predicate NoCounterWraps(w: WriteState, ops: seq<WriteOp>)
    requires WriteStateOk(w) && w.aead.recordVersion < 0x1_0000 && RunAllowed(w, ops)
    decreases |ops|
  {
    ops == [] ||
    ((ops[0].Seal? ==> UsedSeq(w, ops[0].previous) + 1 < SEQ_LIMIT) && NoCounterWraps(StepWrite(w, ops[0]), ops[1..]))
  }

  /** The numbers of ns are pairwise different and none is in used. */
  ghost predicate NoRepeats(ns: seq<(nat, nat)>, used: set<(nat, nat)>) {
    && (forall i :: 0 <= i < |ns| ==> ns[i] !in used)
    && (forall i, j :: 0 <= i < j < |ns| ==> ns[i] != ns[j])
  }

  lemma PrependNumber(n: (nat, nat), ns: seq<(nat, nat)>, used: set<(nat, nat)>)
    requires n !in used && NoRepeats(ns, used + {n})
    ensures NoRepeats([n] + ns, used)
  {
    forall i | 0 <= i < |ns| ensures ns[i] != n && ns[i] !in used {
      assert ns[i] !in used + {n};
    }
  }

  /** Over every run of seals under either epoch mixed with epoch changes, from any state, no record
      number is used for two successful seals if no counter wraps. RecordNumbers says exactly when. */
  lemma {:induction false} RecordNumbersUnique(w: WriteState, used: set<(nat, nat)>, ops: seq<WriteOp>)
    requires WriteStateOk(w) && w.aead.recordVersion < 0x1_0000 && RunAllowed(w, ops)
    requires Below(w, used) && NoCounterWraps(w, ops)
    ensures NoRepeats(SealedNumbers(w, ops), used)
    decreases |ops|
  {
    if ops != [] {
      var w' := StepWrite(w, ops[0]);
      var rest := SealedNumbers(w', ops[1..]);
      if ops[0].Seal? && SealRecord(w, ops[0].previous, ops[0].typ, ops[0].plain, ops[0].maxOut).1.Some? {
        var n := (UsedEpoch(w, ops[0].previous), UsedSeq(w, ops[0].previous));
        SealStaysBelow(w, used, ops[0]);
        RecordNumbersUnique(w', used + {n}, ops[1..]);
        PrependNumber(n, rest, used);
        assert SealedNumbers(w, ops) == [n] + rest;
      } else {
        if ops[0].Seal? { SealStaysBelow(w, used, ops[0]); } else { ChangeStaysBelow(w, used, ops[0].aead); }
        RecordNumbersUnique(w', used, ops[1..]);
        assert SealedNumbers(w, ops) == rest;
      }
    }
  }

  lemma SealStaysBelow(w: WriteState, used: set<(nat, nat)>, op: WriteOp)
    requires WriteStateOk(w) && w.aead.recordVersion < 0x1_0000 && op.Seal? && Allowed(w, op)
    requires Below(w, used) && UsedSeq(w, op.previous) + 1 < SEQ_LIMIT
    ensures var n := (UsedEpoch(w, op.previous), UsedSeq(w, op.previous));
            n !in used && Below(StepWrite(w, op), used)
    ensures SealRecord(w, op.previous, op.typ, op.plain, op.maxOut).1.Some? ==>
              Below(StepWrite(w, op), used + {(UsedEpoch(w, op.previous), UsedSeq(w, op.previous))})
  {
    hide WireRecord, Ciphertext;
    var w' := StepWrite(w, op);
    SealCounters(w, op.previous, op.typ, op.plain, op.maxOut);
    var bumped := Bump(w, op.previous);
    assert w' == w || w' == bumped;
    assert bumped.wEpoch == w.wEpoch && bumped.writeSeq >= w.writeSeq && bumped.lastSeq >= w.lastSeq;
    assert Below(bumped, used + {(UsedEpoch(w, op.previous), UsedSeq(w, op.previous))});
  }

  /** Sealing moves the counter it used by one, or nothing. */
  lemma SealCounters(w: WriteState, previous: bool, typ: byte, plain: seq<byte>, maxOut: nat)
    requires WriteStateOk(w) && w.aead.recordVersion < 0x1_0000 && (previous ==> w.wEpoch >= 1)
    ensures var (w', record) := SealRecord(w, previous, typ, plain, maxOut);
            w' == Bump(w, previous) || (w' == w && record.None?)
  {
  }

  lemma ChangeStaysBelow(w: WriteState, used: set<(nat, nat)>, aead: Aead)
    requires Below(w, used)
    ensures Below(AfterChange(w, aead), used)
  {
  }

  /** At the last counter value the seal fails but leaves the counter at zero, so the next record
      that fits is numbered zero in the same epoch. */
  lemma WrapReusesZero(w: WriteState, previous: bool, typ: byte, plain: seq<byte>, maxOut: nat)
    requires WriteStateOk(w) && w.aead.recordVersion < 0x1_0000 && AeadOk(UsedAead(w, previous))
    requires previous ==> w.wEpoch >= 1
    requires UsedSeq(w, previous) == SEQ_LIMIT - 1
    requires maxOut >= |plain| + MaxSealOverhead(w, previous)
    requires |plain| + MaxSealOverhead(w, previous) < 0x1_0000
    ensures var (w1, first) := SealRecord(w, previous, typ, plain, maxOut);
            && first.None? && WriteStateOk(w1)
            && UsedSeq(w1, previous) == 0 && UsedEpoch(w1, previous) == UsedEpoch(w, previous)
            && SealRecord(w1, previous, typ, plain, maxOut).1.Some?
  {
  }

  lemma {:induction false} U64BeZeros(s: seq<byte>)
    requires forall k :: 0 <= k < |s| ==> s[k] == 0
    ensures U64Be(s) == 0
  {
    if s != [] { U64BeZeros(s[..|s| - 1]); }
  }

  lemma AllWrapped(before: seq<byte>, after: seq<byte>)
    requires |before| == |after| == 6
    requires forall k :: 0 <= k < 6 ==> before[k] == 255 && after[k] == 0
    ensures U64Be(before) == SEQ_LIMIT - 1 && U64Be(after) == 0
  {
    U64BeZeros(after);
    SixOctets(before);
  }

  lemma SixOctetsBound(s: seq<byte>)
    requires |s| == 6
    ensures U64Be(s) < SEQ_LIMIT
  {
    SixOctets(s);
  }

  lemma SixOctets(s: seq<byte>)
    requires |s| == 6
    ensures U64Be(s) == ((((s[0] as int * 256 + s[1] as int) * 256 + s[2] as int) * 256 + s[3] as int) * 256
                         + s[4] as int) * 256 + s[5] as int
    ensures U64Be(s) < SEQ_LIMIT
  {
    assert s[..5][..4] == s[..4] && s[..4][..3] == s[..3] && s[..3][..2] == s[..2] && s[..2][..1] == s[..1];
    assert U64Be(s[..1]) == s[0] as int;
    assert U64Be(s[..2]) == U64Be(s[..1]) * 256 + s[1] as int;
    assert U64Be(s[..3]) == U64Be(s[..2]) * 256 + s[2] as int;
    assert U64Be(s[..4]) == U64Be(s[..3]) * 256 + s[3] as int;
    assert U64Be(s[..5]) == U64Be(s[..4]) * 256 + s[4] as int;
  }

  /** A carry that stops at octet i adds one. */
  lemma {:induction false} Carry(before: seq<byte>, after: seq<byte>, i: nat)
    requires |before| == |after| && i < |before|
    requires before[..i] == after[..i]
    requires after[i] as int == before[i] as int + 1
    requires forall k :: i < k < |before| ==> before[k] == 255 && after[k] == 0
    ensures U64Be(after) == U64Be(before) + 1
  {
    var n := |before| - 1;
    if i < n {
      assert before[..n][..i] == after[..n][..i] by {
        assert before[..n][..i] == before[..i] && after[..n][..i] == after[..i];
      }
      Carry(before[..n], after[..n], i);
    }
  }

  /** Six octets hold the big-endian form of their value. */
  lemma SixOctetsInverse(s: seq<byte>)
    requires |s| == 6
    ensures U64Be(s) < SEQ_LIMIT && U48(U64Be(s)) == s
  {
    SixOctets(s);
    var hi := (s[0] as int * 256 + s[1] as int) * 256 + s[2] as int;
    var lo := (s[3] as int * 256 + s[4] as int) * 256 + s[5] as int;
    assert U64Be(s) == hi * 0x100_0000 + lo && lo < 0x100_0000;
    assert U64Be(s) / 0x100_0000 == hi && U64Be(s) % 0x100_0000 == lo;
    GetU24Inverse(s);
    GetU24Inverse(s[3..]);
  }

  /** The counter in its memory form, and ssl_record_sequence_update on it. */
  class SequenceCounter {
    const seq_: array<byte>

    constructor ()
      ensures seq_.Length == 8 && fresh(seq_) && Value() == 0
    {
      seq_ := new byte[8](_ => 0);
      new;
      U64BeZeros(seq_[2..8]);
    }

    /** The memset to zero. */
    method Clear()
      requires seq_.Length == 8
      modifies seq_
      ensures Value() == 0
    {
      forall i | 0 <= i < 8 { seq_[i] := 0; }
      U64BeZeros(seq_[2..8]);
    }

    /** The memcpy from another counter. */
    method CopyFrom(other: SequenceCounter)
      requires seq_.Length == 8 && other.seq_.Length == 8 && seq_ != other.seq_
      modifies seq_
      ensures Value() == other.Value()
    {
      forall i | 0 <= i < 8 { seq_[i] := other.seq_[i]; }
      assert seq_[2..8] == other.seq_[2..8];
    }

    /** The six low octets as a number. */
    ghost function Value(): nat
      requires seq_.Length == 8
      reads seq_
    {
      U64Be(seq_[2..8])
    }

    /** Increments the six-octet counter; false exactly when it wrapped to zero. */
    method Update() returns (ok: bool)
      requires seq_.Length == 8
      modifies seq_
      ensures Value() == (old(Value()) + 1) % SEQ_LIMIT
      ensures ok <==> Value() != 0
      ensures seq_[..2] == old(seq_[..2])
    {
      ghost var before := seq_[2..8];
      var i := 7;
      while i >= 2
        invariant 1 <= i <= 7
        invariant forall k :: 0 <= k <= i ==> seq_[k] == old(seq_[k])
        invariant forall k :: i < k < 8 ==> seq_[k] == 0 && old(seq_[k]) == 255
      {
        seq_[i] := (seq_[i] as int + 1) % 256;
        if seq_[i] != 0 {
          ghost var after := seq_[2..8];
          forall k | 0 <= k < i - 2 ensures after[k] == before[k] {
            assert seq_[2 + k] == old(seq_[2 + k]);
          }
          assert after[..i - 2] == before[..i - 2];
          Carry(before, after, i - 2);
          SixOctetsBound(after);
          return true;
        }
        i := i - 1;
      }
      AllWrapped(before, seq_[2..8]);
      return false;
    }
  }

  /** The write half of the connection as the record layer keeps it. */
  class RecordWriter {
    var wEpoch: nat
    const write: SequenceCounter
    const last: SequenceCounter
    var aead: Aead
    var lastAead: Aead

    ghost predicate Valid()
      reads this, write.seq_, last.seq_
    {
      && write.seq_.Length == 8 && last.seq_.Length == 8 && write.seq_ != last.seq_
      && wEpoch < EPOCH_LIMIT
      && aead.recordVersion < 0x1_0000
    }

    ghost function View(): (w: WriteState)
      requires Valid()
      reads this, write.seq_, last.seq_
      ensures WriteStateOk(w)
    {
      SixOctetsBound(write.seq_[2..8]);
      SixOctetsBound(last.seq_[2..8]);
      WriteState(wEpoch, write.Value(), last.Value(), aead, lastAead)
    }

    constructor (aead: Aead)
      requires aead.recordVersion < 0x1_0000
      ensures Valid() && fresh(write.seq_) && fresh(last.seq_)
      ensures View() == WriteState(0, 0, 0, aead, aead)
    {
      wEpoch := 0;
      this.aead, lastAead := aead, aead;
      var w := new SequenceCounter();
      var l := new SequenceCounter();
      write, last := w, l;
    }

    /** dtls_seal_record. The output buffer is returned; maxOut is its size. */
    method Seal(typ: byte, plain: seq<byte>, maxOut: nat, previous: bool) returns (out: Option<seq<byte>>)
      requires Valid() && (previous ==> wEpoch >= 1)
      modifies write.seq_, last.seq_
      ensures Valid() && wEpoch == old(wEpoch)
      ensures (View(), out) == SealRecord(old(View()), previous, typ, plain, maxOut)
    {
      ghost var w := View();
      var epoch, key, counter := wEpoch, aead, write;
      if previous {
        epoch, key, counter := wEpoch - 1, lastAead, last;
      }
      if maxOut < DTLS1_RT_HEADER_LENGTH {
        return None;
      }
      var sequence := U16(epoch) + counter.seq_[2..8];
      SixOctetsInverse(counter.seq_[2..8]);
      assert sequence == Sequence(UsedEpoch(w, previous), UsedSeq(w, previous));
      var ciphertext := key.seal(typ, aead.recordVersion, sequence, plain);
      if |ciphertext| > maxOut - DTLS1_RT_HEADER_LENGTH {
        return None;
      }
      var ok := counter.Update();
      assert View() == Bump(w, previous);
      if !ok || |ciphertext| >= 0x1_0000 {
        return None;
      }
      out := Some(WireRecord(typ, aead.recordVersion, sequence, ciphertext));
    }

    /** dtls1_set_write_state. */
    method SetWriteState(ctx: Aead)
      requires Valid() && wEpoch + 1 < EPOCH_LIMIT && ctx.recordVersion < 0x1_0000
      modifies this`wEpoch, this`aead, this`lastAead, write.seq_, last.seq_
      ensures Valid() && View() == AfterChange(old(View()), ctx)
    {
      wEpoch := wEpoch + 1;
      last.CopyFrom(write);
      write.Clear();
      lastAead := aead;
      aead := ctx;
    }
  }
}
