/**
 The ring log as a machine over bytes: every step an application, a failing device or a power cut can cause, and
 what holds after every run of such steps.
 */
module RingRuns {
  import opened Bytes
  import opened Crash
  import opened Slots
  import opened SlotTable
  import opened Newest
  import opened RingLog

  /** The partition's bytes and the indices in RAM. */
  datatype State = State(medium: seq<byte>, ram: Ram)

  /**
   A failing append leaves RAM as it is; a power cut is a failing append followed by a reboot. An erase stopped
   after `erased` bytes is followed by a reboot.
   */
  datatype Op =
    | Append(ts: u64, payload: seq<byte>)
    | FailedAppend(ts: u64, payload: seq<byte>, cut: Cut)
    | Reboot
    | Clear
    | InterruptedClear(erased: nat)

  function Capacity(f: Format, s: seq<byte>): nat {
    CapacityOf(f, |s|)
  }

  /** The slots of the partition, as records. */
  function Records(f: Format, s: seq<byte>): (v: Views)
    requires f.Valid()
    ensures |v| == Capacity(f, s) && SlotAt(f, |v|) <= |s|
  {
    Table(f, s, Capacity(f, s))
  }

  function Script(f: Format, r: Ram, ts: u64, payload: seq<byte>): (ws: seq<Write>)
    requires f.Valid() && |payload| <= f.maxPayload
  {
    ScriptAt(f, r.head, Entry(r.headSeq, ts, payload))
  }

  /** The log the medium holds. */
  ghost function LogOn(f: Format, s: seq<byte>): seq<Entry>
    requires f.Valid() && Capacity(f, s) > 0
  {
    Log(Records(f, s))
  }

  ghost predicate Good(f: Format, st: State) {
    f.Valid() && Inv(Records(f, st.medium), st.ram)
  }

  /**
   A clear may be interrupted here: on every medium unless the low byte of the magic number is 0xFF, and else on those
   whose slots pass the test of `Tame`, as all do that this code has written from a blank partition.
   */
  ghost predicate Tamed(f: Format, s: seq<byte>)
    requires f.Valid()
  {
    EraseSafe(f, s, Capacity(f, s))
  }

  /** The operation makes sense on a partition of this size. */
  ghost predicate WellFormed(f: Format, size: nat, op: Op)
    requires f.Valid()
  {
    match op
    case Append(_, p) => |p| <= f.maxPayload
    case FailedAppend(ts, p, cut) => |p| <= f.maxPayload && IsCut(SlotScript(f, Entry(0, ts, p)), cut)
    case InterruptedClear(k) => k <= size
    case _ => true
  }

  /** The steps possible here: a sequence number must not wrap, a clear be interrupted only where that is safe. */
  ghost predicate CanStep(f: Format, st: State, op: Op)
    requires Good(f, st)
  {
    && WellFormed(f, |st.medium|, op)
    && (op.Append? ==> st.ram.headSeq < U32_MAX)
    && (op.InterruptedClear? ==> Tamed(f, st.medium))
  }

  lemma HeadFits(f: Format, st: State)
    requires f.Valid() && Inv(Records(f, st.medium), st.ram)
    ensures Capacity(f, st.medium) > 0 && st.ram.head < Capacity(f, st.medium) && st.ram.tail < Capacity(f, st.medium)
    ensures SlotAt(f, st.ram.head) + f.SlotSize() <= |st.medium|
  {
    InvShape(Records(f, st.medium), st.ram);
    SlotFits(f, st.ram.head, Capacity(f, st.medium), |st.medium|);
  }

  ghost function MediumAfter(f: Format, st: State, op: Op): (m: seq<byte>)
    requires Good(f, st) && CanStep(f, st, op)
    ensures |m| == |st.medium|
  {
    hide ScriptAt, SlotScript, SlotAt;
    HeadFits(f, st);
    match op
    case Append(ts, p) => LandAll(st.medium, Script(f, st.ram, ts, p))
    case FailedAppend(ts, p, cut) =>
      CutAnywhere(f, st.ram.head, st.ram.headSeq, ts, p, cut);
      Torn(st.medium, Script(f, st.ram, ts, p), cut)
    case Reboot => st.medium
    case Clear => EraseTo(st.medium, |st.medium|)
    case InterruptedClear(k) => EraseTo(st.medium, k)
  }

  ghost function Step(f: Format, st: State, op: Op): (st': State)
    requires Good(f, st) && CanStep(f, st, op)
    ensures |st'.medium| == |st.medium|
  {
    HeadFits(f, st);
    var m := MediumAfter(f, st, op);
    match op
    case Append(_, _) => State(m, Advance(Capacity(f, st.medium), st.ram))
    case FailedAppend(_, _, _) => State(m, st.ram)
    case Clear => State(m, EMPTY)
    case _ => State(m, Recover(Records(f, m)))
  }

  /**
   What an append may come to: finished, the whole script and the indices moved on; otherwise the script cut short
   and the indices as they were.
   */
  ghost predicate AppendOutcome(f: Format, st: State, ts: u64, payload: seq<byte>, finished: bool, cut: Cut, st': State)
    requires f.Valid() && |payload| <= f.maxPayload
  {
    var ws := Script(f, st.ram, ts, payload);
    && Within(ws, 0, |st.medium|)
    && st.ram.head < Capacity(f, st.medium) && st.ram.tail < Capacity(f, st.medium)
    && if finished then st' == State(LandAll(st.medium, ws), Advance(Capacity(f, st.medium), st.ram))
       else IsCut(SlotScript(f, Entry(0, ts, payload)), cut) && IsCut(ws, cut) &&
            st' == State(Torn(st.medium, ws, cut), st.ram)
  }

  /** That is a step of the machine. */
  lemma OutcomeIsStep(f: Format, st: State, ts: u64, payload: seq<byte>, finished: bool, cut: Cut, st': State)
    requires Good(f, st) && |payload| <= f.maxPayload && AppendOutcome(f, st, ts, payload, finished, cut, st')
    ensures !finished ==>
              CanStep(f, st, FailedAppend(ts, payload, cut)) && st' == Step(f, st, FailedAppend(ts, payload, cut))
    ensures finished && st.ram.headSeq < U32_MAX ==>
              CanStep(f, st, Append(ts, payload)) && st' == Step(f, st, Append(ts, payload))
  {
  }

  // ------------------------------------------------------------ one step

  /** The bounded first-in first-out log the ring stands for. */
  datatype Fifo = Fifo(log: seq<Entry>, next: u32)

  function DropOldestIfFull(log: seq<Entry>, capacity: nat): seq<Entry> {
    if |log| == capacity && log != [] then log[1..] else log
  }

  function FifoStep(capacity: nat, a: Fifo, op: Op): Fifo
    requires capacity > 0
  {
    match op
    case Append(ts, p) => Fifo(Push(a.log, Entry(a.next, ts, p), capacity), Inc32(a.next))
    case FailedAppend(_, _, cut) => Fifo(if cut.index == 0 then a.log else DropOldestIfFull(a.log, capacity), a.next)
    case Reboot => Fifo(a.log, if a.log == [] then 0 else Inc32(a.log[|a.log| - 1].counter))
    case Clear => Fifo([], 0)
    case InterruptedClear(_) => a
  }

  ghost function Abs(f: Format, st: State): Fifo
    requires Good(f, st)
  {
    Fifo(LogOn(f, st.medium), st.ram.headSeq)
  }

  lemma RebootKeeps(v: Views)
    requires |v| > 0 && NoWrap(v)
    ensures Inv(v, Recover(v))
    ensures Recover(v).headSeq == if Log(v) == [] then 0 else Inc32(Log(v)[|Log(v)| - 1].counter)
  {
    var r := Recover(v);
    if !NoneValid(v) {
      TrailIsRecovered(v, r);
      InvShape(v, r);
      assert Holds(v, Back(|v|, r.head, 1), r.headSeq - 1);
    }
  }

  /** What an append does to the slots, by its outcome. */
  lemma StepRecords(f: Format, st: State, op: Op)
    requires Good(f, st) && CanStep(f, st, op) && (op.Append? || op.FailedAppend?)
    ensures st.ram.head < Capacity(f, st.medium)
    ensures var v, m' := Records(f, st.medium), Step(f, st, op).medium;
            && (Tamed(f, st.medium) ==> Tamed(f, m'))
            && if op.Append? then Records(f, m') == v[st.ram.head := Some(Entry(st.ram.headSeq, op.ts, op.payload))]
               else if op.cut.index == 0 then m' == st.medium
               else Records(f, m') == v[st.ram.head := None]
  {
    HeadFits(f, st);
    var n := Capacity(f, st.medium);
    var e := Entry(st.ram.headSeq, op.ts, op.payload);
    if op.Append? {
      TableDone(f, st.medium, st.ram.head, n, e);
    } else {
      TableTorn(f, st.medium, st.ram.head, n, e, op.cut);
    }
  }

  lemma StepGoodAppend(f: Format, st: State, op: Op)
    requires Good(f, st) && CanStep(f, st, op) && (op.Append? || op.FailedAppend?)
    ensures var st' := Step(f, st, op);
            Good(f, st') && Abs(f, st') == FifoStep(Capacity(f, st.medium), Abs(f, st), op)
  {
    StepRecords(f, st, op);
    HeadFits(f, st);
    var v := Records(f, st.medium);
    var e := Entry(st.ram.headSeq, op.ts, op.payload);
    if op.Append? {
      AppendDone(v, st.ram, e);
      TrailIsRecovered(v[st.ram.head := Some(e)], Advance(|v|, st.ram));
    } else {
      AppendTorn(v, st.ram);
    }
  }

  lemma StepGoodClear(f: Format, st: State, op: Op)
    requires Good(f, st) && CanStep(f, st, op) && !op.Append? && !op.FailedAppend?
    ensures var st' := Step(f, st, op);
            && Good(f, st')
            && (!op.InterruptedClear? ==> Abs(f, st') == FifoStep(Capacity(f, st.medium), Abs(f, st), op))
  {
    HeadFits(f, st);
    hide SlotAt, CapacityOf, Inv, Records, Recover, Log, View;
    match op
    case Reboot =>
      RebootKeeps(Records(f, st.medium));
    case Clear =>
      BlankGood(f, EraseTo(st.medium, |st.medium|));
    case InterruptedClear(k) =>
      ErasedGood(f, st, k);
  }

  lemma ErasedGood(f: Format, st: State, k: nat)
    requires Good(f, st) && CanStep(f, st, InterruptedClear(k))
    ensures Good(f, Step(f, st, InterruptedClear(k)))
  {
    TableErased(f, st.medium, Capacity(f, st.medium), k);
    RebootKeeps(Records(f, EraseTo(st.medium, k)));
  }

  /** Every step keeps the invariant, and every step but an interrupted clear is the step of the bounded FIFO. */
  lemma StepRefinesFifo(f: Format, st: State, op: Op)
    requires Good(f, st) && CanStep(f, st, op)
    ensures var st' := Step(f, st, op);
            && Good(f, st')
            && (!op.InterruptedClear? ==> Abs(f, st') == FifoStep(Capacity(f, st.medium), Abs(f, st), op))
  {
    if op.Append? || op.FailedAppend? {
      StepGoodAppend(f, st, op);
    } else {
      StepGoodClear(f, st, op);
    }
  }

  // ------------------------------------------------------------ where runs start

  /** `init` on any medium at all leads into the invariant, unless a sequence number there has reached its end. */
  lemma InitGood(f: Format, s: seq<byte>)
    requires f.Valid() && Capacity(f, s) > 0 && NoWrap(Records(f, s))
    ensures Good(f, State(s, Recover(Records(f, s))))
  {
    RebootKeeps(Records(f, s));
  }

  /** A blank partition is such a medium, and stands for the empty log. */
  lemma BlankGood(f: Format, s: seq<byte>)
    requires f.Valid() && Capacity(f, s) > 0 && forall i :: 0 <= i < |s| ==> s[i] == 0xFF
    ensures Good(f, State(s, EMPTY)) && Abs(f, State(s, EMPTY)) == Fifo([], 0)
    ensures f.magic != U32_MAX ==> Tamed(f, s)
  {
    TableBlank(f, s, Capacity(f, s));
    assert NoneValid(Records(f, s));
    RecoverExactly(Records(f, s), EMPTY);
    InitGood(f, s);
  }

  // ------------------------------------------------------------ all runs

  ghost predicate CanRun(f: Format, st: State, ops: seq<Op>)
    requires Good(f, st)
    decreases |ops|
  {
    ops != [] ==>
      && CanStep(f, st, ops[0])
      && (StepRefinesFifo(f, st, ops[0]); CanRun(f, Step(f, st, ops[0]), ops[1..]))
  }

  ghost function Run(f: Format, st: State, ops: seq<Op>): (st': State)
    requires Good(f, st) && CanRun(f, st, ops)
    ensures |st'.medium| == |st.medium|
    decreases |ops|
  {
    if ops == [] then st
    else
      StepRefinesFifo(f, st, ops[0]);
      Run(f, Step(f, st, ops[0]), ops[1..])
  }

  ghost function FifoRun(capacity: nat, a: Fifo, ops: seq<Op>): Fifo
    requires capacity > 0
    decreases |ops|
  {
    if ops == [] then a else FifoRun(capacity, FifoStep(capacity, a, ops[0]), ops[1..])
  }

  /** Over every run of appends, failures, cuts, reboots, clears and interrupted clears the invariant holds. */
  lemma {:induction false} RunKeepsGood(f: Format, st: State, ops: seq<Op>)
    requires Good(f, st) && CanRun(f, st, ops)
    ensures Good(f, Run(f, st, ops))
    decreases |ops|
  {
    if ops == [] {
    } else {
      StepRefinesFifo(f, st, ops[0]);
      RunKeepsGood(f, Step(f, st, ops[0]), ops[1..]);
    }
  }

  /** Over every run without an interrupted clear the ring is a bounded FIFO with consecutive numbering. */
  lemma {:induction false} RunRefinesFifo(f: Format, st: State, ops: seq<Op>)
    requires Good(f, st) && CanRun(f, st, ops)
    requires forall i :: 0 <= i < |ops| ==> !ops[i].InterruptedClear?
    ensures Good(f, Run(f, st, ops))
    ensures Abs(f, Run(f, st, ops)) == FifoRun(Capacity(f, st.medium), Abs(f, st), ops)
    decreases |ops|
  {
    if ops == [] {
    } else {
      StepRefinesFifo(f, st, ops[0]);
      RunRefinesFifo(f, Step(f, st, ops[0]), ops[1..]);
    }
  }

  /** Every step keeps the slots tame. */
  lemma StepKeepsTame(f: Format, st: State, op: Op)
    requires Good(f, st) && CanStep(f, st, op) && Tamed(f, st.medium)
    ensures Tamed(f, Step(f, st, op).medium)
  {
    match op
    case Append(_, _) => StepRecords(f, st, op);
    case FailedAppend(_, _, _) => StepRecords(f, st, op);
    case Reboot =>
    case Clear =>
      HeadFits(f, st);
      TableBlank(f, EraseTo(st.medium, |st.medium|), Capacity(f, st.medium));
    case InterruptedClear(k) =>
      TableErased(f, st.medium, Capacity(f, st.medium), k);
  }

  lemma StepHeadSeq(f: Format, st: State, op: Op)
    requires Good(f, st) && CanStep(f, st, op)
    ensures Step(f, st, op).ram.headSeq <= st.ram.headSeq + (if op.Append? then 1 else 0)
  {
    HeadFits(f, st);
    var v := Records(f, st.medium);
    if op.Reboot? {
      RebootHeadSeq(v, v, st.ram);
    } else if op.InterruptedClear? {
      TableErased(f, st.medium, Capacity(f, st.medium), op.erased);
      RebootHeadSeq(v, Records(f, EraseTo(st.medium, op.erased)), st.ram);
    }
  }

  /** A reboot after records have vanished does not raise the next number. */
  lemma RebootHeadSeq(v: Views, v': Views, r: Ram)
    requires Inv(v, r) && |v'| == |v| && forall j :: 0 <= j < |v| ==> v'[j] == v[j] || v'[j] == None
    ensures Recover(v').headSeq <= r.headSeq
  {
    InvShape(v, r);
    RecoverBelow(v', r.headSeq);
  }

  /** The numbering cannot wrap within the next `U32_MAX - headSeq` steps, so such runs are all possible. */
  lemma {:induction false} LongRunsPossible(f: Format, st: State, ops: seq<Op>)
    requires Good(f, st) && st.ram.headSeq + |ops| <= U32_MAX
    requires forall i :: 0 <= i < |ops| ==> WellFormed(f, |st.medium|, ops[i])
    requires Tamed(f, st.medium) || forall i :: 0 <= i < |ops| ==> !ops[i].InterruptedClear?
    ensures CanRun(f, st, ops)
    decreases |ops|
  {
    if ops == [] {
    } else {
      StepRefinesFifo(f, st, ops[0]);
      if Tamed(f, st.medium) {
        StepKeepsTame(f, st, ops[0]);
      }
      StepHeadSeq(f, st, ops[0]);
      LongRunsPossible(f, Step(f, st, ops[0]), ops[1..]);
    }
  }
}
