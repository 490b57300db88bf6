/** The reference count of crypto/refcount_c11.c and crypto/refcount_lock.c. Threads run the
    compare-exchange loops step by step in any order; every run is one of the lock version. */
module Refcount {
  const CRYPTO_REFCOUNT_MAX: nat := 0xffff_ffff

  datatype Op = Inc | Dec

  /** What a call comes to: Crash is abort(), Answer the result of the zero test. */
  datatype Outcome = Done | Answer(zero: bool) | Crash

  /** A call that took effect, and for whom. */
  datatype Event = Event(thread: nat, op: Op, outcome: Outcome)

  // ------------------------------------------------------------- the specification

  /** One call under the lock. */
  function After(count: nat, op: Op): nat {
    match op
    case Inc => if count < CRYPTO_REFCOUNT_MAX then count + 1 else count
    case Dec => if count == 0 || count >= CRYPTO_REFCOUNT_MAX then count else count - 1
  }

  function Result(count: nat, op: Op): Outcome {
    match op
    case Inc => Done
    case Dec => if count == 0 then Crash else Answer(After(count, op) == 0)
  }

  /** The count after a sequence of calls. */
  function Replay(initial: nat, log: seq<Event>): nat
    decreases |log|
  {
    if log == [] then initial
    else After(Replay(initial, log[..|log| - 1]), log[|log| - 1].op)
  }

  /** Every call in the log had the outcome it has under the lock. */
  predicate Explains(initial: nat, log: seq<Event>) {
    forall i :: 0 <= i < |log| ==> log[i].outcome == Result(Replay(initial, log[..i]), log[i].op)
  }

  lemma ReplaySnoc(initial: nat, log: seq<Event>, e: Event)
    ensures Replay(initial, log + [e]) == After(Replay(initial, log), e.op)
    ensures Explains(initial, log) && e.outcome == Result(Replay(initial, log), e.op) ==> Explains(initial, log + [e])
  {
    var longer := log + [e];
    assert longer[..|log|] == log;
    assert forall i :: 0 <= i < |log| ==> longer[..i] == log[..i];
  }

  lemma {:induction false} ReplayAppend(initial: nat, a: seq<Event>, b: seq<Event>)
    ensures Replay(initial, a + b) == Replay(Replay(initial, a), b)
    decreases |b|
  {
    if b == [] {
      assert a + b == a;
    } else {
      assert (a + b)[..|a + b| - 1] == a + b[..|b| - 1];
      ReplayAppend(initial, a, b[..|b| - 1]);
    }
  }

  lemma {:induction false} ReplayBounded(initial: nat, log: seq<Event>)
    requires initial <= CRYPTO_REFCOUNT_MAX
    ensures Replay(initial, log) <= CRYPTO_REFCOUNT_MAX
    decreases |log|
  {
    if log != [] { ReplayBounded(initial, log[..|log| - 1]); }
  }

  /** The maximum is never left. */
  lemma {:induction false} MaxAbsorbs(log: seq<Event>)
    ensures Replay(CRYPTO_REFCOUNT_MAX, log) == CRYPTO_REFCOUNT_MAX
    decreases |log|
  {
    if log != [] { MaxAbsorbs(log[..|log| - 1]); }
  }

  function Increments(log: seq<Event>): nat
    decreases |log|
  {
    if log == [] then 0
    else Increments(log[..|log| - 1]) + (if log[|log| - 1].op == Inc then 1 else 0)
  }

  /** Decrements that did not crash. */
  function Decrements(log: seq<Event>): nat
    decreases |log|
  {
    if log == [] then 0
    else Decrements(log[..|log| - 1]) + (if log[|log| - 1].outcome.Answer? then 1 else 0)
  }

  /** Unless the maximum was reached no update is lost: the count is the initial value plus the
      increments minus the decrements. */
  lemma {:induction false} NoLostUpdate(initial: nat, log: seq<Event>)
    requires initial < CRYPTO_REFCOUNT_MAX && Explains(initial, log)
    ensures Replay(initial, log) == CRYPTO_REFCOUNT_MAX
            || Replay(initial, log) == initial + Increments(log) - Decrements(log)
    decreases |log|
  {
    if log != [] {
      var shorter := log[..|log| - 1];
      assert forall i :: 0 <= i < |shorter| ==> shorter[..i] == log[..i] && shorter[i] == log[i];
      NoLostUpdate(initial, shorter);
      var n := |log| - 1;
      assert log[n].outcome == Result(Replay(initial, log[..n]), log[n].op);
      ReplayBounded(initial, shorter);
    }
  }

  /** A test answered true where the count became zero. */
  lemma ZeroMeansZero(initial: nat, log: seq<Event>, i: nat)
    requires Explains(initial, log) && i < |log| && log[i].outcome == Answer(true)
    ensures log[i].op == Dec && Replay(initial, log[..i + 1]) == 0
  {
    assert log[..i + 1] == log[..i] + [log[i]];
    ReplaySnoc(initial, log[..i], log[i]);
  }

  predicate NoIncrement(log: seq<Event>) {
    forall k :: 0 <= k < |log| ==> log[k].op != Inc
  }

  lemma {:induction false} StaysZero(log: seq<Event>)
    requires NoIncrement(log)
    ensures Replay(0, log) == 0
    decreases |log|
  {
    if log != [] { StaysZero(log[..|log| - 1]); }
  }

  /** The count is seen to reach zero at most once as long as no increment follows: between two
      positive answers there is an increment. */
  lemma OneZeroReport(initial: nat, log: seq<Event>, i: nat, j: nat)
    requires Explains(initial, log) && i < j < |log|
    requires log[i].outcome == Answer(true) && log[j].outcome == Answer(true)
    ensures !NoIncrement(log[i + 1..j])
  {
    assert log[j].outcome == Result(Replay(initial, log[..j]), log[j].op);
    ZeroMeansZero(initial, log, i);
    assert log[..j] == log[..i + 1] + log[i + 1..j];
    ReplayAppend(initial, log[..i + 1], log[i + 1..j]);
    if NoIncrement(log[i + 1..j]) {
      StaysZero(log[i + 1..j]);
    }
  }

  // -------------------------------------------------------------- the lock version

  class LockedCount {
    var count: nat

    constructor (initial: nat)
      ensures count == initial
    {
      count := initial;
    }

    /** CRYPTO_refcount_inc, between taking and releasing the lock. */
    method Inc()
      requires count <= CRYPTO_REFCOUNT_MAX
      modifies this
      ensures count == After(old(count), Op.Inc) <= CRYPTO_REFCOUNT_MAX
    {
      if count < CRYPTO_REFCOUNT_MAX {
        count := count + 1;
      }
    }

    /** CRYPTO_refcount_dec_and_test_zero. */
    method DecAndTestZero() returns (r: Outcome)
      requires count <= CRYPTO_REFCOUNT_MAX
      modifies this
      ensures count == After(old(count), Dec) <= CRYPTO_REFCOUNT_MAX && r == Result(old(count), Dec)
    {
      if count == 0 {
        return Crash;
      }
      if count < CRYPTO_REFCOUNT_MAX {
        count := count - 1;
      }
      return Answer(count == 0);
    }
  }

  // ---------------------------------------------------- the compare-exchange loops

  /** Where a thread is: outside, before the first load, or in the loop with what it last read. */
  datatype Pc = Idle | Called(op: Op) | Loaded(op: Op, expected: nat)

  datatype Thread = Thread(pc: Pc, returned: seq<Event>)

  datatype System = System(count: nat, threads: seq<Thread>, log: seq<Event>, crashed: bool)

  /** What a value read settles: the maximum ends either loop, zero crashes a decrement. */
  predicate Settles(op: Op, value: nat) {
    value == CRYPTO_REFCOUNT_MAX || (op == Dec && value == 0)
  }

  /** The event the loop is committed to once it has read a value, if any. */
  function Commitment(t: nat, pc: Pc): seq<Event> {
    if pc.Loaded? && Settles(pc.op, pc.expected) then [Event(t, pc.op, Result(pc.expected, pc.op))] else []
  }

  /** A step of thread t; succeed is whether a compare-exchange that could succeed does. */
  datatype Step = Call(t: nat, op: Op) | Load(t: nat) | Loop(t: nat, succeed: bool)

  predicate Enabled(s: System, step: Step) {
    && !s.crashed && step.t < |s.threads|
    && match step
       case Call(t, _) => s.threads[t].pc.Idle?
       case Load(t) => s.threads[t].pc.Called?
       case Loop(t, _) => s.threads[t].pc.Loaded?
  }

  function SetPc(s: System, t: nat, pc: Pc): System
    requires t < |s.threads|
  {
    s.(threads := s.threads[t := s.threads[t].(pc := pc)])
  }

  /** Reading the count, by atomic_load or by a compare-exchange that fails. */
  function Read(s: System, t: nat, op: Op): System
    requires t < |s.threads|
  {
    var pc := Loaded(op, s.count);
    SetPc(s, t, pc).(log := s.log + Commitment(t, pc))
  }

  function Return(s: System, t: nat, e: Event): System
    requires t < |s.threads|
  {
    s.(threads := s.threads[t := Thread(Idle, s.threads[t].returned + [e])])
  }

  /** One round of a loop. */
  function Next(s: System, step: Step): System
    requires Enabled(s, step)
  {
    match step
    case Call(t, op) => SetPc(s, t, Called(op))
    case Load(t) => Read(s, t, s.threads[t].pc.op)
    case Loop(t, succeed) =>
      var op, expected := s.threads[t].pc.op, s.threads[t].pc.expected;
      if op == Dec && expected == 0 then s.(crashed := true)
      else if expected == CRYPTO_REFCOUNT_MAX then
        Return(s, t, Event(t, op, if op == Inc then Done else Answer(false)))
      else
        var newValue := if op == Inc then expected + 1 else expected - 1;
        if s.count == expected && succeed then
          var e := Event(t, op, if op == Inc then Done else Answer(newValue == 0));
          Return(s.(count := newValue, log := s.log + [e]), t, e)
        else Read(s, t, op)
  }

  function Run(s: System, steps: seq<Step>): System
    decreases |steps|
  {
    if steps == [] then s
    else
      var r := Run(s, steps[..|steps| - 1]);
      var last := steps[|steps| - 1];
      if Enabled(r, last) then Next(r, last) else r
  }

  function Start(initial: nat, n: nat): System {
    System(initial, seq(n, i => Thread(Idle, [])), [], false)
  }

  /** The events of one thread, in order. */
  function Of(log: seq<Event>, t: nat): seq<Event>
    decreases |log|
  {
    if log == [] then []
    else
      var last := log[|log| - 1];
      Of(log[..|log| - 1], t) + (if last.thread == t then [last] else [])
  }

  lemma OfSnoc(log: seq<Event>, e: Event, t: nat)
    ensures Of(log + [e], t) == Of(log, t) + (if e.thread == t then [e] else [])
  {
    assert (log + [e])[..|log|] == log;
  }

  ghost predicate Inv(s: System, initial: nat) {
    && s.count <= CRYPTO_REFCOUNT_MAX
    && s.count == Replay(initial, s.log) && Explains(initial, s.log)
    && (s.crashed ==> HasCrash(s.log))
    && forall t :: 0 <= t < |s.threads| ==> ThreadInv(s, t)
  }

  predicate HasCrash(log: seq<Event>) {
    exists i :: 0 <= i < |log| && log[i].outcome == Crash
  }

  lemma {:induction false} InLog(log: seq<Event>, t: nat)
    requires Of(log, t) != [] && Of(log, t)[|Of(log, t)| - 1].outcome == Crash
    ensures HasCrash(log)
    decreases |log|
  {
    var n := |log| - 1;
    if log[n].thread != t {
      assert Of(log, t) == Of(log[..n], t) + [] == Of(log[..n], t);
      InLog(log[..n], t);
      var i :| 0 <= i < n && log[..n][i].outcome == Crash;
      assert log[i].outcome == Crash;
    }
  }

  /** A thread has returned, or is committed to return, exactly its events in the log; and one
      that read the maximum still reads the maximum. */
  predicate ThreadInv(s: System, t: nat)
    requires t < |s.threads|
  {
    var th := s.threads[t];
    && Of(s.log, t) == th.returned + Commitment(t, th.pc)
    && (th.pc.Loaded? ==> th.pc.expected <= CRYPTO_REFCOUNT_MAX)
    && (th.pc.Loaded? && th.pc.expected == CRYPTO_REFCOUNT_MAX ==> s.count == CRYPTO_REFCOUNT_MAX)
  }

  lemma StartInv(initial: nat, n: nat)
    requires initial <= CRYPTO_REFCOUNT_MAX
    ensures Inv(Start(initial, n), initial)
  {
  }

  lemma ReadThread(s: System, t: nat, op: Op, u: nat)
    requires t < |s.threads| && u < |s.threads| && s.count <= CRYPTO_REFCOUNT_MAX
    requires ThreadInv(s, u) && Commitment(t, s.threads[t].pc) == []
    ensures ThreadInv(Read(s, t, op), u)
  {
    hide Result;
    if Settles(op, s.count) {
      OfSnoc(s.log, Event(t, op, Result(s.count, op)), u);
    } else {
      assert Read(s, t, op).log == s.log;
    }
  }

  /** Reading keeps the invariant: a settled call takes effect where it read. */
  lemma ReadKeepsInv(s: System, initial: nat, t: nat, op: Op)
    requires Inv(s, initial) && t < |s.threads| && Commitment(t, s.threads[t].pc) == []
    ensures Inv(Read(s, t, op), initial)
  {
    hide ThreadInv, Explains, Replay, Result;
    var s' := Read(s, t, op);
    if Settles(op, s.count) {
      var e := Event(t, op, Result(s.count, op));
      assert s'.log == s.log + [e];
      ReplaySnoc(initial, s.log, e);
    } else {
      assert s'.log == s.log;
    }
    if s.crashed {
      var i :| 0 <= i < |s.log| && s.log[i].outcome == Crash;
      assert s'.log[i].outcome == Crash;
    }
    forall u | 0 <= u < |s.threads| ensures ThreadInv(s', u) { ReadThread(s, t, op, u); }
  }

  /** A compare-exchange that succeeds is the call happening then and there. */
  lemma SwapKeepsInv(s: System, initial: nat, t: nat)
    requires Inv(s, initial) && Enabled(s, Loop(t, true))
    requires s.count == s.threads[t].pc.expected && !Settles(s.threads[t].pc.op, s.count)
    ensures Inv(Next(s, Loop(t, true)), initial)
  {
    var op := s.threads[t].pc.op;
    var s' := Next(s, Loop(t, true));
    var e := Event(t, op, Result(s.count, op));
    assert s'.log == s.log + [e] && s'.count == After(s.count, op);
    ReplaySnoc(initial, s.log, e);
    forall u | 0 <= u < |s.threads| ensures ThreadInv(s', u) {
      assert ThreadInv(s, u);
      OfSnoc(s.log, e, u);
    }
  }

  lemma StepKeepsInv(s: System, initial: nat, step: Step)
    requires Inv(s, initial) && Enabled(s, step)
    ensures Inv(Next(s, step), initial)
  {
    var t := step.t;
    assert ThreadInv(s, t);
    match step
    case Call(_, op) =>
      forall u | 0 <= u < |s.threads| ensures ThreadInv(Next(s, step), u) { assert ThreadInv(s, u); }
    case Load(_) => ReadKeepsInv(s, initial, t, s.threads[t].pc.op);
    case Loop(_, succeed) =>
      var op, expected := s.threads[t].pc.op, s.threads[t].pc.expected;
      if Settles(op, expected) {
        if op == Dec && expected == 0 { InLog(s.log, t); }
        forall u | 0 <= u < |s.threads| ensures ThreadInv(Next(s, step), u) { assert ThreadInv(s, u); }
      } else if s.count == expected && succeed {
        SwapKeepsInv(s, initial, t);
      } else {
        ReadKeepsInv(s, initial, t, op);
      }
  }

  lemma {:induction false} RunKeepsInv(initial: nat, n: nat, steps: seq<Step>)
    requires initial <= CRYPTO_REFCOUNT_MAX
    ensures Inv(Run(Start(initial, n), steps), initial)
    decreases |steps|
  {
    if steps == [] {
      StartInv(initial, n);
    } else {
      RunKeepsInv(initial, n, steps[..|steps| - 1]);
      var r := Run(Start(initial, n), steps[..|steps| - 1]);
      var last := steps[|steps| - 1];
      if Enabled(r, last) { StepKeepsInv(r, initial, last); }
    }
  }

  /** The effect of a call comes between its start and its return: a step adds to the log only
      for the thread that takes it, which is inside a call, and never takes anything back. */
  lemma StepGrowsLog(s: System, step: Step)
    requires Enabled(s, step)
    ensures s.log <= Next(s, step).log && |Next(s, step).log| <= |s.log| + 1
    ensures |Next(s, step).log| > |s.log| ==>
              && !s.threads[step.t].pc.Idle?
              && Next(s, step).log[|s.log|].thread == step.t && Next(s, step).log[|s.log|].op == s.threads[step.t].pc.op
  {
  }

  /** For any number of threads, any interleaving and any spurious failures, the calls have the
      outcomes they have one at a time under the lock, in an order that puts each between its
      start and its return; the count is what that order leaves; and each thread was told what
      that order told it. */
  lemma Linearizes(initial: nat, n: nat, steps: seq<Step>)
    requires initial <= CRYPTO_REFCOUNT_MAX
    ensures var s := Run(Start(initial, n), steps);
            && Explains(initial, s.log) && s.count == Replay(initial, s.log)
            && (s.crashed ==> HasCrash(s.log))
            && forall t :: 0 <= t < |s.threads| ==>
                 Of(s.log, t) == s.threads[t].returned + Commitment(t, s.threads[t].pc)
  {
    RunKeepsInv(initial, n, steps);
    var s := Run(Start(initial, n), steps);
    forall t | 0 <= t < |s.threads|
      ensures Of(s.log, t) == s.threads[t].returned + Commitment(t, s.threads[t].pc)
    {
      assert ThreadInv(s, t);
    }
  }

  // ------------------------------------------------------- the loops as they stand

  /** The shared count as one thread sees it. Before each of its accesses the script says what
      the other threads do, and whether a compare-exchange fails for no reason; when the script
      has run out the thread is left alone. */
  class SharedCount {
    var count: nat
    var script: seq<(seq<Op>, bool)>
    ghost var log: seq<Event>
    ghost const initial: nat

    ghost predicate Valid()
      reads this
    {
      count == Replay(initial, log) <= CRYPTO_REFCOUNT_MAX && Explains(initial, log)
    }

    constructor (initial: nat, script: seq<(seq<Op>, bool)>)
      requires initial <= CRYPTO_REFCOUNT_MAX
      ensures Valid() && log == [] && this.initial == initial
    {
      this.initial, this.count, this.script, this.log := initial, initial, script, [];
    }

    /** A call that happens at once. */
    ghost method Record(thread: nat, op: Op, before: nat)
      requires before == Replay(initial, log) && Explains(initial, log)
      requires count == After(before, op) && before <= CRYPTO_REFCOUNT_MAX
      modifies this`log
      ensures Valid() && log == old(log) + [Event(thread, op, Result(before, op))]
    {
      ReplaySnoc(initial, log, Event(thread, op, Result(before, op)));
      log := log + [Event(thread, op, Result(before, op))];
    }

    method Others() returns (spurious: bool)
      requires Valid()
      modifies this
      ensures Valid() && old(log) <= log && (forall k :: |old(log)| <= k < |log| ==> log[k].thread == 0)
      ensures if old(script) == [] then script == [] && !spurious && log == old(log)
              else |script| < |old(script)|
    {
      if script == [] {
        return false;
      }
      var ops := script[0].0;
      spurious := script[0].1;
      script := script[1..];
      for i := 0 to |ops|
        invariant Valid() && old(log) <= log && script == old(script)[1..]
        invariant forall k :: |old(log)| <= k < |log| ==> log[k].thread == 0
      {
        ghost var before := count;
        count := After(count, ops[i]);
        Record(0, ops[i], before);
      }
    }
  }

  /** The log went on from before, by others except for one event of this thread. */
  ghost predicate TookEffect(before: seq<Event>, after: seq<Event>, op: Op, outcome: Outcome) {
    && before <= after
    && exists i :: |before| <= i < |after| && after[i] == Event(1, op, outcome)
         && forall k :: |before| <= k < |after| && k != i ==> after[k].thread == 0
  }

  ghost predicate OnlyOthers(before: seq<Event>, after: seq<Event>) {
    before <= after && forall k :: |before| <= k < |after| ==> after[k].thread == 0
  }

  lemma Takes(before: seq<Event>, middle: seq<Event>, after: seq<Event>, e: Event)
    requires OnlyOthers(before, middle) && middle + [e] <= after && e.thread == 1
    requires forall k :: |middle| + 1 <= k < |after| ==> after[k].thread == 0
    ensures TookEffect(before, after, e.op, e.outcome)
  {
    assert after[|middle|] == e;
    assert forall k :: 0 <= k < |middle| ==> after[k] == (middle + [e])[k] == middle[k];
  }

  /** CRYPTO_refcount_inc of refcount_c11.c. */
  method CasInc(c: SharedCount)
    requires c.Valid()
    modifies c
    ensures c.Valid() && TookEffect(old(c.log), c.log, Inc, Done)
  {
    hide Replay, Explains, TookEffect;
    ghost var before := c.log;
    var spurious := c.Others();
    var expected := c.count;
    while expected != CRYPTO_REFCOUNT_MAX
      invariant c.Valid() && OnlyOthers(before, c.log)
      invariant expected == CRYPTO_REFCOUNT_MAX ==> c.count == CRYPTO_REFCOUNT_MAX
      decreases |c.script|, c.count != expected
    {
      var newValue := expected + 1;
      spurious := c.Others();
      if c.count == expected && !spurious {
        c.count := newValue;
        ghost var middle := c.log;
        c.Record(1, Inc, expected);
        Takes(before, middle, c.log, Event(1, Inc, Done));
        return;
      }
      expected := c.count;
    }
    ghost var middle := c.log;
    c.Record(1, Inc, CRYPTO_REFCOUNT_MAX);
    Takes(before, middle, c.log, Event(1, Inc, Done));
  }

  /** CRYPTO_refcount_dec_and_test_zero of refcount_c11.c. */
  method CasDecAndTestZero(c: SharedCount) returns (r: Outcome)
    requires c.Valid()
    modifies c
    ensures c.Valid() && TookEffect(old(c.log), c.log, Dec, r)
  {
    hide Replay, Explains, TookEffect;
    ghost var before := c.log;
    var spurious := c.Others();
    var expected := c.count;
    while true
      invariant c.Valid() && OnlyOthers(before, c.log) && expected <= CRYPTO_REFCOUNT_MAX
      invariant expected == 0 || expected == CRYPTO_REFCOUNT_MAX ==> c.count == expected
      decreases |c.script|, c.count != expected
    {
      if expected == 0 {
        r := Crash;
        break;
      } else if expected == CRYPTO_REFCOUNT_MAX {
        r := Answer(false);
        break;
      } else {
        var newValue := expected - 1;
        spurious := c.Others();
        if c.count == expected && !spurious {
          c.count := newValue;
          ghost var middle := c.log;
          c.Record(1, Dec, expected);
          Takes(before, middle, c.log, Event(1, Dec, Answer(newValue == 0)));
          return Answer(newValue == 0);
        }
        expected := c.count;
      }
    }
    ghost var middle := c.log;
    c.Record(1, Dec, expected);
    Takes(before, middle, c.log, Event(1, Dec, r));
  }
}
