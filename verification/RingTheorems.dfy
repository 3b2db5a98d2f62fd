/** What the ring log promises its users, proved over all media, all cuts and all runs. */
module RingTheorems {
  import opened Bytes
  import opened Crash
  import opened Slots
  import opened SlotTable
  import opened Newest
  import opened RingLog
  import opened RingRuns

  // ------------------------------------------------------------ crash atomicity

  /**
   A power cut at any byte of an append, then a reboot: the log is the one after the append, or the one before it,
   short of its oldest record if it was full and the slot's commit byte had been cleared. The checksum plays no part.
   */
  lemma CrashAtomic(f: Format, st: State, ts: u64, payload: seq<byte>, cut: Cut)
    requires Good(f, st) && CanStep(f, st, Append(ts, payload)) && CanStep(f, st, FailedAppend(ts, payload, cut))
    ensures var before, capacity := LogOn(f, st.medium), Capacity(f, st.medium);
            var after := Step(f, st, Append(ts, payload)).medium;
            var torn := Step(f, st, FailedAppend(ts, payload, cut)).medium;
            && LogOn(f, after) == Push(before, Entry(st.ram.headSeq, ts, payload), capacity)
            && LogOn(f, torn) == if cut.index == 0 then before else DropOldestIfFull(before, capacity)
  {
    StepRefinesFifo(f, st, Append(ts, payload));
    StepRefinesFifo(f, st, FailedAppend(ts, payload, cut));
  }

  // ------------------------------------------------------------ reboots

  ghost predicate InStep(f: Format, st: State) {
    Good(f, st) && Recovered(Records(f, st.medium), st.ram)
  }

  lemma StepInStep(f: Format, st: State, op: Op)
    requires Good(f, st) && CanStep(f, st, op) && !op.FailedAppend?
    ensures InStep(f, Step(f, st, op))
  {
    StepRefinesFifo(f, st, op);
    HeadFits(f, st);
    match op
    case Append(ts, p) =>
      var e := Entry(st.ram.headSeq, ts, p);
      StepRecords(f, st, op);
      AppendDone(Records(f, st.medium), st.ram, e);
      TrailIsRecovered(Records(f, st.medium)[st.ram.head := Some(e)], Advance(Capacity(f, st.medium), st.ram));
    case Clear =>
      TableBlank(f, EraseTo(st.medium, |st.medium|), Capacity(f, st.medium));
    case _ =>
  }

  lemma InStepReboots(f: Format, st: State)
    requires InStep(f, st)
    ensures Step(f, st, Reboot) == st
  {
    RecoverExactly(Records(f, st.medium), st.ram);
  }

  /** In every state reached without a failed append, recovery recomputes exactly the indices already in RAM. */
  lemma {:induction false} RebootIsIdentity(f: Format, st: State, ops: seq<Op>)
    requires InStep(f, st) && CanRun(f, st, ops) && forall i :: 0 <= i < |ops| ==> !ops[i].FailedAppend?
    ensures var st' := Run(f, st, ops); InStep(f, st') && Step(f, st', Reboot) == st'
    decreases |ops|
  {
    hide Recover;
    if ops == [] {
      InStepReboots(f, st);
    } else {
      StepRefinesFifo(f, st, ops[0]);
      StepInStep(f, st, ops[0]);
      RebootIsIdentity(f, Step(f, st, ops[0]), ops[1..]);
    }
  }

  /**
   After a failed append RAM and recovery agree unless the log was full and its oldest slot was un-committed: then
   recovery keeps the head and counts one record fewer; a log of capacity one is empty and starts over.
   */
  lemma RebootAfterFailure(f: Format, st: State, ts: u64, payload: seq<byte>, cut: Cut)
    requires InStep(f, st) && CanStep(f, st, FailedAppend(ts, payload, cut))
    ensures var r, failed := st.ram, Step(f, st, FailedAppend(ts, payload, cut));
            && r.tail < Capacity(f, st.medium)
            && failed.ram == r
            && Recover(Records(f, failed.medium)) == if cut.index == 0 then r else Rebooted(Capacity(f, st.medium), r)
  {
    var op := FailedAppend(ts, payload, cut);
    HeadFits(f, st);
    StepRecords(f, st, op);
    RecoverExactly(Records(f, st.medium), st.ram);
    FailureView(Records(f, st.medium), st.ram);
  }

  /** What recovery makes of indices `r` once the head slot is un-committed. */
  function Rebooted(capacity: nat, r: Ram): Ram
    requires r.tail < capacity
  {
    if r.count < capacity then r
    else if capacity == 1 then EMPTY
    else Ram(r.head, Next(capacity, r.tail), r.headSeq, r.count - 1)
  }

  lemma FailureView(v: Views, r: Ram)
    requires Inv(v, r) && Recovered(v, r)
    ensures r.head < |v| && r.tail < |v|
    ensures Recover(v[r.head := None]) == Rebooted(|v|, r)
  {
    InvShape(v, r);
    var v' := v[r.head := None];
    if NoneValid(v) {
      assert v' == v;
      RecoverExactly(v, r);
    } else {
      TrailIsRecovered(v, r);
      if r.count < |v| {
        PartialFailureTrail(v, r);
        RecoverTrail(v', r);
      } else {
        OpenHole(v, r);
        HoleReboots(v', r);
        if |v| > 1 {
          RecoverTrail(v', Ram(r.head, Next(|v|, r.tail), r.headSeq, r.count - 1));
        }
      }
    }
  }

  lemma PartialFailureTrail(v: Views, r: Ram)
    requires Trail(v, r) && r.count < |v|
    ensures Trail(v[r.head := None], r)
  {
    var v' := v[r.head := None];
    BackFacts(|v|, r.head);
    forall k | 1 <= k <= r.count
      ensures Holds(v', Back(|v|, r.head, k), r.headSeq - k)
    {
      assert Holds(v, Back(|v|, r.head, k), r.headSeq - k);
    }
  }

  // ------------------------------------------------------------ retries

  ghost predicate AllFailed(ops: seq<Op>) {
    forall i :: 0 <= i < |ops| ==> ops[i].FailedAppend?
  }

  lemma {:induction false} FailuresTouchOneSlot(f: Format, st: State, ops: seq<Op>)
    requires Good(f, st) && CanRun(f, st, ops) && AllFailed(ops)
    ensures var st' := Run(f, st, ops);
            && Good(f, st') && st'.ram == st.ram && st.ram.head < Capacity(f, st.medium)
            && (Records(f, st'.medium) == Records(f, st.medium) ||
                Records(f, st'.medium) == Records(f, st.medium)[st.ram.head := None])
    decreases |ops|
  {
    HeadFits(f, st);
    if ops == [] {
    } else {
      StepRefinesFifo(f, st, ops[0]);
      StepRecords(f, st, ops[0]);
      FailuresTouchOneSlot(f, Step(f, st, ops[0]), ops[1..]);
    }
  }

  /**
   Any number of failed appends, then one that succeeds: the same records in the same slots and the same indices as
   that one append alone, on a full log and on one that is not.
   */
  lemma RetryAsIfFirst(f: Format, st: State, failures: seq<Op>, ts: u64, payload: seq<byte>)
    requires Good(f, st) && CanRun(f, st, failures) && AllFailed(failures)
    requires CanStep(f, st, Append(ts, payload))
    ensures var failed := Run(f, st, failures);
            && Good(f, failed) && CanStep(f, failed, Append(ts, payload))
            && var retried, alone := Step(f, failed, Append(ts, payload)), Step(f, st, Append(ts, payload));
               retried.ram == alone.ram && Records(f, retried.medium) == Records(f, alone.medium)
  {
    FailuresTouchOneSlot(f, st, failures);
    StepRecords(f, st, Append(ts, payload));
    StepRecords(f, Run(f, st, failures), Append(ts, payload));
  }

  // ------------------------------------------------------------ nothing is invented

  ghost predicate OnMedium(f: Format, s: seq<byte>, e: Entry)
    requires f.Valid()
  {
    exists i :: 0 <= i < Capacity(f, s) && Records(f, s)[i] == Some(e)
  }

  /** The records the successful appends of a run were asked to store. */
  ghost function Appended(f: Format, st: State, ops: seq<Op>): (es: set<Entry>)
    requires Good(f, st) && CanRun(f, st, ops)
    decreases |ops|
  {
    if ops == [] then {}
    else
      StepRefinesFifo(f, st, ops[0]);
      (if ops[0].Append? then {Entry(st.ram.headSeq, ops[0].ts, ops[0].payload)} else {}) +
      Appended(f, Step(f, st, ops[0]), ops[1..])
  }

  lemma StepInventsNothing(f: Format, st: State, op: Op, e: Entry)
    requires Good(f, st) && CanStep(f, st, op) && OnMedium(f, Step(f, st, op).medium, e)
    ensures OnMedium(f, st.medium, e) || (op.Append? && e == Entry(st.ram.headSeq, op.ts, op.payload))
  {
    hide SlotAt, View, ScriptAt, LandAll, Torn;
    HeadFits(f, st);
    var n, v, s' := Capacity(f, st.medium), Records(f, st.medium), Step(f, st, op).medium;
    match op
    case Append(_, _) =>
      StepRecords(f, st, op);
    case FailedAppend(_, _, _) =>
      StepRecords(f, st, op);
    case Reboot =>
    case Clear =>
      TableBlank(f, s', n);
    case InterruptedClear(k) =>
      TableErased(f, st.medium, n, k);
    var i :| 0 <= i < n && Records(f, s')[i] == Some(e);
    if v[i] == Some(e) {
      assert OnMedium(f, st.medium, e);
    }
  }

  /**
   Over every run, interrupted clears included, each record in the log was valid on the medium at the start or is
   one a successful append of the run stored: same number, same time, same bytes.
   */
  lemma {:induction false} NothingInvented(f: Format, st: State, ops: seq<Op>, e: Entry)
    requires Good(f, st) && CanRun(f, st, ops) && OnMedium(f, Run(f, st, ops).medium, e)
    ensures OnMedium(f, st.medium, e) || e in Appended(f, st, ops)
    decreases |ops|
  {
    if ops == [] {
    } else {
      StepRefinesFifo(f, st, ops[0]);
      NothingInvented(f, Step(f, st, ops[0]), ops[1..], e);
      if OnMedium(f, Step(f, st, ops[0]).medium, e) {
        StepInventsNothing(f, st, ops[0], e);
      }
    }
  }

  /** Whatever the medium, the recovered log is made of its records, numbered without a gap. */
  lemma LogIsConsecutive(f: Format, s: seq<byte>)
    requires f.Valid() && Capacity(f, s) > 0 && NoWrap(Records(f, s))
    ensures var log := LogOn(f, s);
            && (forall i :: 0 <= i < |log| ==> OnMedium(f, s, log[i]))
            && (forall i :: 0 <= i < |log| ==> log[i].counter == log[0].counter + i)
  {
    LogNumbers(Records(f, s));
  }

  // ------------------------------------------------------------ interrupted clears

  lemma StepNoStray(f: Format, st: State, op: Op)
    requires Good(f, st) && CanStep(f, st, op) && !op.InterruptedClear? && NoStray(Records(f, st.medium))
    ensures NoStray(Records(f, Step(f, st, op).medium))
  {
    var v := Records(f, st.medium);
    if op.Append? {
      StepRecords(f, st, op);
      NoStrayAppended(v, st.ram, Entry(st.ram.headSeq, op.ts, op.payload));
    } else if op.FailedAppend? {
      StepRecords(f, st, op);
      NoStrayTorn(v, st.ram);
    } else if op.Clear? {
      TableBlank(f, EraseTo(st.medium, |st.medium|), Capacity(f, st.medium));
    }
  }

  lemma {:induction false} RunNoStray(f: Format, st: State, ops: seq<Op>)
    requires Good(f, st) && CanRun(f, st, ops) && NoStray(Records(f, st.medium)) && Tamed(f, st.medium)
    requires forall i :: 0 <= i < |ops| ==> !ops[i].InterruptedClear?
    ensures NoStray(Records(f, Run(f, st, ops).medium)) && Tamed(f, Run(f, st, ops).medium)
    decreases |ops|
  {
    if ops == [] {
    } else {
      StepRefinesFifo(f, st, ops[0]);
      StepNoStray(f, st, ops[0]);
      StepKeepsTame(f, st, ops[0]);
      RunNoStray(f, Step(f, st, ops[0]), ops[1..]);
    }
  }

  /**
   A clear stopped at any byte, after any run from a blank partition, leaves one contiguous piece of the log, in
   order and unaltered, although the 64-byte chunks of the erase straddle slots.
   */
  lemma InterruptedClearLeavesSegment(f: Format, blank: seq<byte>, ops: seq<Op>, erased: nat)
    requires f.Valid() && f.magic != U32_MAX && Capacity(f, blank) > 0
    requires forall i :: 0 <= i < |blank| ==> blank[i] == 0xFF
    requires Good(f, State(blank, EMPTY)) && CanRun(f, State(blank, EMPTY), ops) && erased <= |blank|
    requires forall i :: 0 <= i < |ops| ==> !ops[i].InterruptedClear?
    ensures var s := Run(f, State(blank, EMPTY), ops).medium;
            IsPiece(LogOn(f, EraseTo(s, erased)), LogOn(f, s))
  {
    var st := State(blank, EMPTY);
    TableBlank(f, blank, Capacity(f, blank));
    assert NoStray(Records(f, blank));
    RunNoStray(f, st, ops);
    RunKeepsGood(f, st, ops);
    var s := Run(f, st, ops).medium;
    TableErased(f, s, Capacity(f, s), erased);
    SegmentSurvives(Records(f, s), Records(f, EraseTo(s, erased)));
  }

  // ------------------------------------------------------------ the bounded FIFO

  function LastOf(log: seq<Entry>, n: nat): seq<Entry> {
    if |log| <= n then log else log[|log| - n..]
  }

  /** The records a row of appends stores when the first is numbered `next`. */
  ghost function Numbered(next: nat, ops: seq<Op>): (es: seq<Entry>)
    requires next + |ops| <= U32_MAX && forall i :: 0 <= i < |ops| ==> ops[i].Append?
  {
    seq(|ops|, i requires 0 <= i < |ops| => Entry(next + i, ops[i].ts, ops[i].payload))
  }

  lemma {:induction false} FifoKeepsLast(capacity: nat, a: Fifo, ops: seq<Op>)
    requires 0 < capacity && |a.log| <= capacity && a.next + |ops| <= U32_MAX
    requires forall i :: 0 <= i < |ops| ==> ops[i].Append?
    ensures FifoRun(capacity, a, ops) == Fifo(LastOf(a.log + Numbered(a.next, ops), capacity), a.next + |ops|)
    decreases |ops|
  {
    if ops == [] {
      assert a.log + Numbered(a.next, ops) == a.log;
    } else {
      var e := Entry(a.next, ops[0].ts, ops[0].payload);
      var rest := Numbered(a.next + 1, ops[1..]);
      NumberedCons(a.next, ops);
      PushKeepsLast(capacity, a.log, e, rest);
      assert FifoStep(capacity, a, ops[0]) == Fifo(Push(a.log, e, capacity), a.next + 1);
      hide Push, LastOf, Numbered;
      FifoKeepsLast(capacity, FifoStep(capacity, a, ops[0]), ops[1..]);
    }
  }

  lemma NumberedCons(next: nat, ops: seq<Op>)
    requires ops != [] && next + |ops| <= U32_MAX && forall i :: 0 <= i < |ops| ==> ops[i].Append?
    ensures Numbered(next, ops) == [Entry(next, ops[0].ts, ops[0].payload)] + Numbered(next + 1, ops[1..])
  {
  }

  lemma PushKeepsLast(capacity: nat, log: seq<Entry>, e: Entry, rest: seq<Entry>)
    requires 0 < capacity && |log| <= capacity
    ensures LastOf(Push(log, e, capacity) + rest, capacity) == LastOf(log + ([e] + rest), capacity)
    ensures |Push(log, e, capacity)| <= capacity
  {
    assert log + ([e] + rest) == (log + [e]) + rest;
    if |log| == capacity {
      assert (log + [e])[1..] == log[1..] + [e];
      assert ((log + [e]) + rest)[1..] == Push(log, e, capacity) + rest;
    }
  }

  /** After any row of appends to a blank partition the log is the last `capacity` records, numbered from 0 on. */
  lemma AppendsFromBlank(f: Format, blank: seq<byte>, ops: seq<Op>)
    requires f.Valid() && Capacity(f, blank) > 0 && forall i :: 0 <= i < |blank| ==> blank[i] == 0xFF
    requires |ops| <= U32_MAX
    requires forall i :: 0 <= i < |ops| ==> ops[i].Append? && WellFormed(f, |blank|, ops[i])
    ensures Good(f, State(blank, EMPTY)) && CanRun(f, State(blank, EMPTY), ops)
    ensures LogOn(f, Run(f, State(blank, EMPTY), ops).medium) == LastOf(Numbered(0, ops), Capacity(f, blank))
  {
    var st := State(blank, EMPTY);
    BlankGood(f, blank);
    LongRunsPossible(f, st, ops);
    RunRefinesFifo(f, st, ops);
    FifoKeepsLast(Capacity(f, blank), Fifo([], 0), ops);
    assert [] + Numbered(0, ops) == Numbered(0, ops);
  }

  // ------------------------------------------------------------ where the numbering ends

  /**
   The limit of the claims above. On a log with a record besides the one overwritten, the record an append writes
   is the newest after a reboot if and only if the counter has not wrapped to 0; otherwise recovery goes back to
   the record before it and the next append overwrites the new one.
   */
  lemma AppendSurvivesRebootIff(v: Views, r: Ram, e: Entry)
    requires |v| >= 2 && Recovered(v, r) && !NoneValid(v) && e.counter == r.headSeq
    ensures var v' := v[r.head := Some(e)];
            && (Recover(v').head == Next(|v|, r.head) <==> r.headSeq != 0)
            && (Recover(v').head == r.head <==> r.headSeq == 0)
  {
    var v' := v[r.head := Some(e)];
    BackFacts(|v|, r.head);
    var newest := Back(|v|, r.head, 1);
    var newest' := Back(|v|, Recover(v').head, 1);
    assert v'[newest] == v[newest] && v'[r.head] == Some(e);
    assert FirstMax(v', newest');
    if r.headSeq != 0 {
      assert newest' == r.head;
    } else {
      assert v[newest].value.counter == U32_MAX;
      assert newest' == newest;
    }
  }
}
