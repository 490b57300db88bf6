/** When record numbers repeat: exactly, over every run of seals and write-state changes. */
module RecordNumbers {
  import opened Bytes
  import opened DtlsRecord

  /** The number after which a counter is back at zero. */
  const LAST_SEQ: nat := SEQ_LIMIT - 1

  /** Which of the two counters have gone past their last value in their epoch, and the numbers
      that were skipped because the ciphertext was too long for its length field. */
  datatype Laps = Laps(current: bool, last: bool, missed: set<(nat, nat)>)

  predicate RunOk(w: WriteState, ops: seq<WriteOp>) {
    WriteStateOk(w) && w.aead.recordVersion < 0x1_0000 && RunAllowed(w, ops)
  }

  function Lapped(l: Laps, previous: bool): bool {
    if previous then l.last else l.current
  }

  /** The epoch and number the next seal would use. */
  function Number(w: WriteState, previous: bool): (nat, nat)
    requires previous ==> w.wEpoch >= 1
  {
    (UsedEpoch(w, previous), UsedSeq(w, previous))
  }

  predicate Succeeds(w: WriteState, op: WriteOp)
    requires WriteStateOk(w) && w.aead.recordVersion < 0x1_0000 && Allowed(w, op)
  {
    op.Seal? && SealRecord(w, op.previous, op.typ, op.plain, op.maxOut).1.Some?
  }

  function StepLaps(w: WriteState, l: Laps, op: WriteOp): Laps
    requires WriteStateOk(w) && w.aead.recordVersion < 0x1_0000 && Allowed(w, op)
  {
    if op.Change? then Laps(false, l.current, l.missed)
    else if Succeeds(w, op) then l.(missed := l.missed - {Number(w, op.previous)})
    else if UsedSeq(StepWrite(w, op), op.previous) == UsedSeq(w, op.previous) || (UsedSeq(w, op.previous) != LAST_SEQ && Lapped(l, op.previous)) then l
    else if UsedSeq(w, op.previous) != LAST_SEQ then l.(missed := l.missed + {Number(w, op.previous)})
    else if op.previous then l.(last := true)
    else l.(current := true)
  }

  /** A counter that has lapped seals only numbers it skipped before. */
  predicate ReusesOnlyMissed(w: WriteState, l: Laps, ops: seq<WriteOp>)
    requires RunOk(w, ops)
    decreases |ops|
  {
    ops == [] ||
    (&& (Succeeds(w, ops[0]) && Lapped(l, ops[0].previous) ==> Number(w, ops[0].previous) in l.missed)
     && ReusesOnlyMissed(StepWrite(w, ops[0]), StepLaps(w, l, ops[0]), ops[1..]))
  }

  /** A counter that has lapped seals nothing. */
  predicate StopsWhenLapped(w: WriteState, l: Laps, ops: seq<WriteOp>)
    requires RunOk(w, ops)
    decreases |ops|
  {
    ops == [] ||
    (&& !(Succeeds(w, ops[0]) && Lapped(l, ops[0].previous))
     && StopsWhenLapped(StepWrite(w, ops[0]), StepLaps(w, l, ops[0]), ops[1..]))
  }

  // ------------------------------------------------------------------ accounting

  predicate Met(used: set<(nat, nat)>, missed: set<(nat, nat)>, p: (nat, nat)) {
    p in used || p in missed
  }

  /** Of epoch e exactly the numbers below bound are used or missed. */
  ghost predicate UpTo(used: set<(nat, nat)>, missed: set<(nat, nat)>, e: nat, bound: nat) {
    forall n: nat :: Met(used, missed, (e, n)) <==> n < bound
  }

  function Reach(counter: nat, lapped: bool): nat {
    if lapped then LAST_SEQ else counter
  }

  /** The numbers of the two epochs that can still be sealed under are used or missed up to the
      counter, all of them once it has lapped, and later epochs are untouched. */
  ghost predicate Account(w: WriteState, l: Laps, used: set<(nat, nat)>) {
    && used !! l.missed
    && UpTo(used, l.missed, w.wEpoch, Reach(w.writeSeq, l.current))
    && (w.wEpoch >= 1 ==> UpTo(used, l.missed, w.wEpoch - 1, Reach(w.lastSeq, l.last)))
    && forall e: nat :: e > w.wEpoch ==> UpTo(used, l.missed, e, 0)
  }

  /** Meeting the next number of epoch e moves its bound by one and no other. */
  lemma MeetNext(used: set<(nat, nat)>, missed: set<(nat, nat)>, used': set<(nat, nat)>, missed': set<(nat, nat)>,
                 e: nat, n: nat, e': nat, bound: nat)
    requires UpTo(used, missed, e', bound) && (e' == e ==> bound == n)
    requires forall p :: Met(used', missed', p) <==> Met(used, missed, p) || p == (e, n)
    ensures UpTo(used', missed', e', if e' == e then n + 1 else bound)
  {
  }

  lemma SameMet(used: set<(nat, nat)>, missed: set<(nat, nat)>, used': set<(nat, nat)>, missed': set<(nat, nat)>,
                e: nat, bound: nat)
    requires UpTo(used, missed, e, bound)
    requires forall p :: Met(used', missed', p) <==> Met(used, missed, p)
    ensures UpTo(used', missed', e, bound)
  {
  }

  /** Before its counter has lapped the next number is new; afterwards it has been met. */
  lemma NextNumber(w: WriteState, l: Laps, used: set<(nat, nat)>, previous: bool)
    requires Account(w, l, used) && (previous ==> w.wEpoch >= 1)
    ensures !Lapped(l, previous) ==> !Met(used, l.missed, Number(w, previous))
    ensures Lapped(l, previous) && UsedSeq(w, previous) < LAST_SEQ ==> Met(used, l.missed, Number(w, previous))
  {
  }

  /** The counter moves by one and at its last value back to zero. */
  lemma BumpMoves(w: WriteState, previous: bool)
    requires WriteStateOk(w)
    ensures UsedSeq(w, previous) == LAST_SEQ ==> UsedSeq(Bump(w, previous), previous) == 0
    ensures UsedSeq(w, previous) != LAST_SEQ ==> UsedSeq(Bump(w, previous), previous) == UsedSeq(w, previous) + 1
  {
  }

  /** What sealing comes to: a number used, one missed, the lap ended, or nothing. */
  lemma SealCases(w: WriteState, l: Laps, op: WriteOp)
    requires WriteStateOk(w) && w.aead.recordVersion < 0x1_0000 && op.Seal? && Allowed(w, op)
    ensures Succeeds(w, op) ==> StepWrite(w, op) == Bump(w, op.previous) && UsedSeq(w, op.previous) != LAST_SEQ
    ensures StepWrite(w, op) == Bump(w, op.previous) || (StepWrite(w, op) == w && !Succeeds(w, op))
    ensures UsedSeq(w, op.previous) != UsedSeq(Bump(w, op.previous), op.previous)
  {
    BumpMoves(w, op.previous);
    hide WireRecord, Ciphertext, Bump;
  }

  /** A counter that moved from n to n + 1, and what was met grew by n. */
  lemma Grows(w: WriteState, l: Laps, l': Laps, used: set<(nat, nat)>, used': set<(nat, nat)>, previous: bool)
    requires WriteStateOk(w) && (previous ==> w.wEpoch >= 1) && Account(w, l, used)
    requires !Lapped(l, previous) && UsedSeq(w, previous) != LAST_SEQ && used' !! l'.missed
    requires l'.current == l.current && l'.last == l.last
    requires forall p :: Met(used', l'.missed, p) <==> Met(used, l.missed, p) || p == Number(w, previous)
    ensures Account(Bump(w, previous), l', used')
  {
    BumpMoves(w, previous);
    var (e, n) := Number(w, previous);
    var w' := Bump(w, previous);
    hide UpTo, Bump;
    assert w'.wEpoch == w.wEpoch && (if previous then w'.writeSeq == w.writeSeq else w'.lastSeq == w.lastSeq) by { BumpKeeps(w, previous); }
    MeetNext(used, l.missed, used', l'.missed, e, n, w.wEpoch, Reach(w.writeSeq, l.current));
    if w.wEpoch >= 1 { MeetNext(used, l.missed, used', l'.missed, e, n, w.wEpoch - 1, Reach(w.lastSeq, l.last)); }
    forall f: nat | f > w.wEpoch ensures UpTo(used', l'.missed, f, 0) {
      MeetNext(used, l.missed, used', l'.missed, e, n, f, 0);
    }
  }

  lemma BumpKeeps(w: WriteState, previous: bool)
    ensures Bump(w, previous).wEpoch == w.wEpoch
    ensures if previous then Bump(w, previous).writeSeq == w.writeSeq else Bump(w, previous).lastSeq == w.lastSeq
  {
  }

  /** A counter that moved, or lapped, while what was met stayed the same. */
  lemma Stays(w: WriteState, l: Laps, l': Laps, used: set<(nat, nat)>, used': set<(nat, nat)>, previous: bool)
    requires WriteStateOk(w) && (previous ==> w.wEpoch >= 1) && Account(w, l, used) && used' !! l'.missed
    requires Lapped(l, previous) || UsedSeq(w, previous) == LAST_SEQ
    requires l'.current == (l.current || !previous) && l'.last == (l.last || previous)
    requires forall p :: Met(used', l'.missed, p) <==> Met(used, l.missed, p)
    ensures Account(Bump(w, previous), l', used')
  {
    var w' := Bump(w, previous);
    BumpKeeps(w, previous);
    hide UpTo, Bump;
    SameMet(used, l.missed, used', l'.missed, w.wEpoch, Reach(w.writeSeq, l.current));
    if w.wEpoch >= 1 { SameMet(used, l.missed, used', l'.missed, w.wEpoch - 1, Reach(w.lastSeq, l.last)); }
    forall f: nat | f > w.wEpoch ensures UpTo(used', l'.missed, f, 0) {
      SameMet(used, l.missed, used', l'.missed, f, 0);
    }
  }

  lemma ChangeAccounts(w: WriteState, l: Laps, used: set<(nat, nat)>, aead: Aead)
    requires Account(w, l, used)
    ensures Account(AfterChange(w, aead), Laps(false, l.current, l.missed), used)
  {
    hide UpTo;
    var e := w.wEpoch + 1;
    assert UpTo(used, l.missed, e, 0);
  }

  lemma StepAccounts(w: WriteState, l: Laps, used: set<(nat, nat)>, op: WriteOp)
    requires WriteStateOk(w) && w.aead.recordVersion < 0x1_0000 && Allowed(w, op) && Account(w, l, used)
    requires Succeeds(w, op) ==> Number(w, op.previous) !in used
    ensures var used' := if Succeeds(w, op) then used + {Number(w, op.previous)} else used;
            Account(StepWrite(w, op), StepLaps(w, l, op), used')
  {
    hide SealRecord, Bump, UpTo;
    if op.Change? {
      ChangeAccounts(w, l, used, op.aead);
    } else {
      SealCases(w, l, op);
      NextNumber(w, l, used, op.previous);
      hide Account, Succeeds, StepWrite;
      var l', n := StepLaps(w, l, op), Number(w, op.previous);
      if Succeeds(w, op) {
        if Lapped(l, op.previous) {
          Stays(w, l, l', used, used + {n}, op.previous);
        } else {
          Grows(w, l, l', used, used + {n}, op.previous);
        }
      } else if StepWrite(w, op) == Bump(w, op.previous) {
        if Lapped(l, op.previous) || UsedSeq(w, op.previous) == LAST_SEQ {
          Stays(w, l, l', used, used, op.previous);
        } else {
          Grows(w, l, l', used, used, op.previous);
        }
      }
    }
  }

  // -------------------------------------------------------------------- the runs

  lemma {:induction false} RunExactly(w: WriteState, l: Laps, used: set<(nat, nat)>, ops: seq<WriteOp>)
    requires RunOk(w, ops) && Account(w, l, used)
    ensures NoRepeats(SealedNumbers(w, ops), used) <==> ReusesOnlyMissed(w, l, ops)
    decreases |ops|
  {
    hide Account, SealRecord;
    if ops != [] {
      var op := ops[0];
      var w', l' := StepWrite(w, op), StepLaps(w, l, op);
      var rest := SealedNumbers(w', ops[1..]);
      if Succeeds(w, op) {
        var n := Number(w, op.previous);
        assert SealedNumbers(w, ops) == [n] + rest;
        SplitRepeats(n, rest, used);
        SealedWas(w, l, used, op);
        if n !in used {
          StepAccounts(w, l, used, op);
          RunExactly(w', l', used + {n}, ops[1..]);
        }
      } else {
        assert SealedNumbers(w, ops) == rest;
        StepAccounts(w, l, used, op);
        RunExactly(w', l', used, ops[1..]);
      }
    }
  }

  lemma SplitRepeats(n: (nat, nat), ns: seq<(nat, nat)>, used: set<(nat, nat)>)
    ensures NoRepeats([n] + ns, used) <==> n !in used && NoRepeats(ns, used + {n})
  {
    var all := [n] + ns;
    if NoRepeats(all, used) {
      assert all[0] == n;
      forall i | 0 <= i < |ns| ensures ns[i] !in used + {n} { assert all[i + 1] == ns[i]; }
      forall i, j | 0 <= i < j < |ns| ensures ns[i] != ns[j] { assert all[i + 1] == ns[i] && all[j + 1] == ns[j]; }
    }
    if n !in used && NoRepeats(ns, used + {n}) { PrependNumber(n, ns, used); }
  }

  /** A successful seal repeats a number exactly when its counter has lapped and it is not one
      that was missed. */
  lemma SealedWas(w: WriteState, l: Laps, used: set<(nat, nat)>, op: WriteOp)
    requires WriteStateOk(w) && w.aead.recordVersion < 0x1_0000 && Allowed(w, op) && Account(w, l, used)
    requires Succeeds(w, op)
    ensures Number(w, op.previous) in used <==> Lapped(l, op.previous) && Number(w, op.previous) !in l.missed
  {
    hide SealRecord, Bump, UpTo;
    SealCases(w, l, op);
    NextNumber(w, l, used, op.previous);
  }

  function Beginning(aead: Aead): WriteState {
    WriteState(0, 0, 0, aead, aead)
  }

  const NO_LAPS := Laps(false, false, {})

  /** Over every run of a connection: no record number is used for two successful seals if and
      only if every seal that succeeds after its counter has gone past its last value uses a
      number that was skipped the first time round. */
  lemma RecordNumbersExactly(aead: Aead, ops: seq<WriteOp>)
    requires RunOk(Beginning(aead), ops)
    ensures NoRepeats(SealedNumbers(Beginning(aead), ops), {}) <==> ReusesOnlyMissed(Beginning(aead), NO_LAPS, ops)
  {
    RunExactly(Beginning(aead), NO_LAPS, {}, ops);
  }

  /** Every record sealed fits its 16-bit length field. */
  ghost predicate ShortRecords(w: WriteState, ops: seq<WriteOp>)
    requires RunOk(w, ops)
    decreases |ops|
  {
    ops == [] ||
    (&& (ops[0].Seal? ==> AeadOk(UsedAead(w, ops[0].previous))
                          && |ops[0].plain| + MaxSealOverhead(w, ops[0].previous) < 0x1_0000)
     && ShortRecords(StepWrite(w, ops[0]), ops[1..]))
  }

  lemma ShortMisses(w: WriteState, l: Laps, op: WriteOp)
    requires WriteStateOk(w) && w.aead.recordVersion < 0x1_0000 && Allowed(w, op) && op.Seal?
    requires AeadOk(UsedAead(w, op.previous)) && |op.plain| + MaxSealOverhead(w, op.previous) < 0x1_0000
    ensures l.missed == {} ==> StepLaps(w, l, op).missed == {}
  {
    hide WireRecord;
    BumpMoves(w, op.previous);
    assert |Ciphertext(w, op.previous, op.typ, op.plain)| < 0x1_0000;
  }

  lemma {:induction false} ShortMissNothing(w: WriteState, l: Laps, ops: seq<WriteOp>)
    requires RunOk(w, ops) && ShortRecords(w, ops) && l.missed == {}
    ensures ReusesOnlyMissed(w, l, ops) <==> StopsWhenLapped(w, l, ops)
    decreases |ops|
  {
    if ops != [] {
      if ops[0].Seal? { ShortMisses(w, l, ops[0]); }
      hide SealRecord;
      assert StepLaps(w, l, ops[0]).missed == {};
      ShortMissNothing(StepWrite(w, ops[0]), StepLaps(w, l, ops[0]), ops[1..]);
    }
  }

  /** Where every record fits its length field: record numbers are unique if and only if nothing is
      sealed with a counter that has gone past its last value in its epoch. */
  lemma ShortRecordNumbers(aead: Aead, ops: seq<WriteOp>)
    requires RunOk(Beginning(aead), ops) && ShortRecords(Beginning(aead), ops)
    ensures NoRepeats(SealedNumbers(Beginning(aead), ops), {}) <==> StopsWhenLapped(Beginning(aead), NO_LAPS, ops)
  {
    RecordNumbersExactly(aead, ops);
    ShortMissNothing(Beginning(aead), NO_LAPS, ops);
  }

  // ------------------------------------------------------------------- a repeat

  function Many(op: WriteOp, k: nat): seq<WriteOp> {
    if k == 0 then [] else [op] + Many(op, k - 1)
  }

  /** Sealing the same short record again and again under the current epoch. */
  ghost predicate FitsAlways(aead: Aead, op: WriteOp) {
    && op.Seal? && !op.previous && AeadOk(aead)
    && |op.plain| + DTLS1_RT_HEADER_LENGTH + aead.maxOverhead <= op.maxOut
    && |op.plain| + DTLS1_RT_HEADER_LENGTH + aead.maxOverhead < 0x1_0000
  }

  lemma SealsNext(w: WriteState, op: WriteOp)
    requires WriteStateOk(w) && FitsAlways(w.aead, op)
    ensures StepWrite(w, op) == Bump(w, false)
    ensures Succeeds(w, op) <==> w.writeSeq != LAST_SEQ
    ensures w.writeSeq != LAST_SEQ ==> Bump(w, false) == w.(writeSeq := w.writeSeq + 1)
    ensures w.writeSeq == LAST_SEQ ==> Bump(w, false) == w.(writeSeq := 0)
  {
    hide WireRecord;
    assert |Ciphertext(w, false, op.typ, op.plain)| <= op.maxOut - DTLS1_RT_HEADER_LENGTH;
  }

  lemma SealsFirst(w: WriteState, op: WriteOp, tail: seq<WriteOp>)
    requires WriteStateOk(w) && FitsAlways(w.aead, op) && w.writeSeq != LAST_SEQ
    requires RunOk(w.(writeSeq := w.writeSeq + 1), tail)
    ensures RunOk(w, [op] + tail)
    ensures SealedNumbers(w, [op] + tail) == [(w.wEpoch, w.writeSeq)] + SealedNumbers(w.(writeSeq := w.writeSeq + 1), tail)
  {
    AlwaysAllowed(w, op);
    SealsNext(w, op);
    hide SealRecord, Bump, FitsAlways, Many;
    assert ([op] + tail)[1..] == tail;
  }

  lemma {:induction false} SealsMany(w: WriteState, op: WriteOp, k: nat, rest: seq<WriteOp>)
    requires WriteStateOk(w) && FitsAlways(w.aead, op) && w.writeSeq + k <= LAST_SEQ
    requires RunOk(w.(writeSeq := w.writeSeq + k), rest)
    ensures RunOk(w, Many(op, k) + rest)
    ensures var ns := SealedNumbers(w, Many(op, k) + rest);
            var last := SealedNumbers(w.(writeSeq := w.writeSeq + k), rest);
            && |ns| == k + |last| && ns[k..] == last && (k > 0 ==> ns[0] == (w.wEpoch, w.writeSeq))
    decreases k
  {
    hide SealRecord, Bump, FitsAlways, SealedNumbers, RunAllowed;
    if k == 0 {
      assert Many(op, 0) + rest == rest;
    } else {
      var w' := w.(writeSeq := w.writeSeq + 1);
      assert w'.(writeSeq := w'.writeSeq + (k - 1)) == w.(writeSeq := w.writeSeq + k);
      SealsMany(w', op, k - 1, rest);
      SealsFirst(w, op, Many(op, k - 1) + rest);
      assert Many(op, k) + rest == [op] + (Many(op, k - 1) + rest);
    }
  }

  lemma AlwaysAllowed(w: WriteState, op: WriteOp)
    requires FitsAlways(w.aead, op)
    ensures op.Seal? && !op.previous && Allowed(w, op) && w.aead.recordVersion < 0x1_0000
  {
  }

  /** The condition can fail: 2^48 + 1 seals of any record that fits, under one epoch, and number
      zero of that epoch has been used twice. */
  lemma ZeroRepeats(aead: Aead, op: WriteOp)
    requires FitsAlways(aead, op)
    ensures var ops := Many(op, LAST_SEQ) + [op, op];
            && RunOk(Beginning(aead), ops) && |SealedNumbers(Beginning(aead), ops)| == LAST_SEQ + 1
            && SealedNumbers(Beginning(aead), ops)[0] == SealedNumbers(Beginning(aead), ops)[LAST_SEQ] == (0, 0)
  {
    hide Many;
    var w := Beginning(aead);
    var w1 := w.(writeSeq := LAST_SEQ);
    AlwaysAllowed(w, op);
    LapsAndSeals(w1, op);
    SealsMany(w, op, LAST_SEQ, [op, op]);
  }

  /** One such input: the null cipher and an empty record. */
  lemma RepeatExists() returns (aead: Aead, ops: seq<WriteOp>)
    ensures RunOk(Beginning(aead), ops) && ShortRecords(Beginning(aead), ops)
    ensures !NoRepeats(SealedNumbers(Beginning(aead), ops), {})
  {
    aead := NullAead();
    var op := Seal(false, SSL3_RT_HANDSHAKE, [], DTLS1_RT_HEADER_LENGTH);
    ops := Many(op, LAST_SEQ) + [op, op];
    hide Many, SealRecord;
    ZeroRepeats(aead, op);
    ManyShort(Beginning(aead), op, LAST_SEQ, [op, op]);
  }

  lemma {:induction false} ManyShort(w: WriteState, op: WriteOp, k: nat, rest: seq<WriteOp>)
    requires RunOk(w, Many(op, k) + rest) && FitsAlways(w.aead, op)
    requires forall i :: 0 <= i < |rest| ==> rest[i] == op
    ensures ShortRecords(w, Many(op, k) + rest)
    decreases k, |rest|
  {
    hide SealRecord, Bump;
    var ops := Many(op, k) + rest;
    if ops != [] {
      SealsNext(w, op);
      assert StepWrite(w, op).aead == w.aead by { BumpAead(w); }
      if k > 0 {
        assert ops[0] == op && ops[1..] == Many(op, k - 1) + rest;
        ManyShort(StepWrite(w, op), op, k - 1, rest);
      } else {
        assert ops == rest && ops[0] == op && ops[1..] == Many(op, 0) + rest[1..];
        ManyShort(StepWrite(w, op), op, 0, rest[1..]);
      }
    }
  }

  lemma BumpAead(w: WriteState)
    ensures Bump(w, false).aead == w.aead
  {
  }

  lemma LapsAndSeals(w: WriteState, op: WriteOp)
    requires WriteStateOk(w) && FitsAlways(w.aead, op) && w.writeSeq == LAST_SEQ
    ensures RunOk(w, [op, op]) && SealedNumbers(w, [op, op]) == [(w.wEpoch, 0)]
  {
    AlwaysAllowed(w, op);
    SealsNext(w, op);
    var w1 := w.(writeSeq := 0);
    SealsNext(w1, op);
    var w2 := w.(writeSeq := 1);
    hide SealRecord, Bump, FitsAlways;
    assert [op, op][1..] == [op] && [op][1..] == [];
    assert RunAllowed(w2, []) && RunAllowed(w1, [op]);
    assert SealedNumbers(w2, []) == [] && SealedNumbers(w1, [op]) == [(w.wEpoch, 0)] + [];
  }
}
