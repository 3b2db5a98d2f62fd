/**
 The versioned slots: what recovery selects, what a save does to the slots, and the single current record they
 stand for over every run.
 */
module VSlotRuns {
  import opened Bytes
  import opened Crash
  import opened Slots
  import opened SlotTable
  import opened Newest

  datatype Ram = Ram(active: nat, version: u32, hasData: bool)

  const EMPTY := Ram(0, 0, false)

  /** The partition's bytes and the fields in RAM. */
  datatype State = State(medium: seq<byte>, ram: Ram)

  /** As in the ring, a power cut is a failing save followed by a reboot, and a stopped erase is followed by one. */
  datatype Op =
    | Save(ts: u64, payload: seq<byte>)
    | FailedSave(ts: u64, payload: seq<byte>, cut: Cut)
    | Reboot
    | Clear
    | InterruptedClear(erased: nat)

  // ------------------------------------------------------------ the slots

  /** The fields are those recovery must find: the first slot with the largest valid version is the active one. */
  ghost predicate Recovered(v: Views, r: Ram) {
    if NoneValid(v) then r == EMPTY
    else r.hasData && FirstMax(v, r.active) && r.version == v[r.active].value.counter
  }

  ghost function Recover(v: Views): (r: Ram)
    ensures Recovered(v, r)
  {
    assert v[..|v|] == v;
    var b := Best(v, |v|);
    if b.None? then EMPTY else Ram(b.value, v[b.value].value.counter, true)
  }

  lemma RecoverExactly(v: Views, r: Ram)
    ensures Recovered(v, r) <==> r == Recover(v)
  {
  }

  /** The slot the next save takes. */
  function Target(n: nat, r: Ram): (slot: nat)
    requires n > 0
    ensures slot < n
  {
    if r.hasData then (r.active + 1) % n else 0
  }

  function NextVersion(r: Ram): u32 {
    if r.hasData then Inc32(r.version) else 1
  }

  /** The record `load` returns. */
  ghost function Current(v: Views, r: Ram): Option<Entry> {
    if r.hasData && r.active < |v| then v[r.active] else None
  }

  lemma SaveDone(v: Views, r: Ram, e: Entry)
    requires |v| >= 2 && Recovered(v, r) && e.counter == NextVersion(r) && (r.hasData ==> r.version < U32_MAX)
    ensures Recovered(v[Target(|v|, r) := Some(e)], Ram(Target(|v|, r), e.counter, true))
  {
    var i := Target(|v|, r);
    var v' := v[i := Some(e)];
    assert v'[i] == Some(e);
    forall j | 0 <= j < |v'| && j != i && v'[j].Some?
      ensures v'[j].value.counter < e.counter
    {
      assert v'[j] == v[j] && r.hasData;
    }
    assert FirstMax(v', i);
  }

  /** A save never touches the active slot, so one that fails changes neither what RAM says nor what recovery finds. */
  lemma SaveTorn(v: Views, r: Ram)
    requires |v| >= 2 && Recovered(v, r)
    ensures var v' := v[Target(|v|, r) := None]; Recovered(v', r) && Current(v', r) == Current(v, r)
  {
    var v' := v[Target(|v|, r) := None];
    if NoneValid(v) {
      assert NoneValid(v');
    } else {
      assert v'[r.active] == v[r.active];
    }
  }

  /**
   The limit of the claims below: a finished save is what a reboot loads if and only if the version counter has not
   just wrapped to 0.
   */
  lemma SaveSurvivesRebootIff(v: Views, r: Ram, e: Entry)
    requires |v| >= 2 && Recovered(v, r) && e.counter == NextVersion(r)
    ensures var v' := v[Target(|v|, r) := Some(e)];
            Recover(v') == Ram(Target(|v|, r), e.counter, true) <==> !(r.hasData && r.version == U32_MAX)
  {
    var v' := v[Target(|v|, r) := Some(e)];
    if r.hasData && r.version == U32_MAX {
      assert v'[r.active] == v[r.active];
      assert Recovered(v', r);
      RecoverExactly(v', r);
    } else {
      SaveDone(v, r, e);
      RecoverExactly(v', Ram(Target(|v|, r), e.counter, true));
    }
  }

  // ------------------------------------------------------------ the machine

  ghost predicate Geometry(f: Format, n: nat, size: nat) {
    f.Valid() && 2 <= n <= 3 && SlotAt(f, n) <= size
  }

  /** In every reachable state RAM is what recovery would find. */
  ghost predicate Good(f: Format, n: nat, st: State) {
    && Geometry(f, n, |st.medium|)
    && NoWrap(Table(f, st.medium, n)) && Recovered(Table(f, st.medium, n), st.ram)
  }

  ghost predicate WellFormed(f: Format, size: nat, op: Op)
    requires f.Valid()
  {
    match op
    case Save(_, p) => |p| <= f.maxPayload
    case FailedSave(ts, p, cut) => |p| <= f.maxPayload && IsCut(SlotScript(f, Entry(0, ts, p)), cut)
    case InterruptedClear(k) => k <= size
    case _ => true
  }

  /** The steps possible here: the version must stay below its end, a clear be interrupted where that is safe. */
  ghost predicate CanStep(f: Format, n: nat, st: State, op: Op)
    requires Good(f, n, st)
  {
    && WellFormed(f, |st.medium|, op)
    && (op.Save? ==> NextVersion(st.ram) < U32_MAX)
    && (op.InterruptedClear? ==> EraseSafe(f, st.medium, n))
  }

  function Script(f: Format, n: nat, r: Ram, ts: u64, payload: seq<byte>): (ws: seq<Write>)
    requires f.Valid() && n > 0 && |payload| <= f.maxPayload
  {
    ScriptAt(f, Target(n, r), Entry(NextVersion(r), ts, payload))
  }

  ghost function MediumAfter(f: Format, n: nat, st: State, op: Op): (m: seq<byte>)
    requires Good(f, n, st) && CanStep(f, n, st, op)
    ensures |m| == |st.medium|
  {
    hide ScriptAt, SlotScript, SlotAt, Target;
    SlotFits(f, Target(n, st.ram), n, |st.medium|);
    match op
    case Save(ts, p) => LandAll(st.medium, Script(f, n, st.ram, ts, p))
    case FailedSave(ts, p, cut) =>
      CutAnywhere(f, Target(n, st.ram), NextVersion(st.ram), ts, p, cut);
      Torn(st.medium, Script(f, n, st.ram, ts, p), cut)
    case Reboot => st.medium
    case Clear => EraseTo(st.medium, |st.medium|)
    case InterruptedClear(k) => EraseTo(st.medium, k)
  }

  ghost function Step(f: Format, n: nat, st: State, op: Op): (st': State)
    requires Good(f, n, st) && CanStep(f, n, st, op)
    ensures |st'.medium| == |st.medium|
  {
    var m := MediumAfter(f, n, st, op);
    match op
    case Save(_, _) => State(m, Ram(Target(n, st.ram), NextVersion(st.ram), true))
    case FailedSave(_, _, _) => State(m, st.ram)
    case Clear => State(m, EMPTY)
    case _ => State(m, Recover(Table(f, m, n)))
  }

  /**
   What a save may come to: finished, the whole script and its slot active; otherwise the script cut short and the
   fields as they were.
   */
  ghost predicate SaveOutcome(f: Format, n: nat, st: State, ts: u64, payload: seq<byte>, finished: bool, cut: Cut,
                              st': State)
    requires f.Valid() && n > 0 && |payload| <= f.maxPayload
  {
    var ws := Script(f, n, st.ram, ts, payload);
    && Within(ws, 0, |st.medium|)
    && if finished then st' == State(LandAll(st.medium, ws), Ram(Target(n, st.ram), NextVersion(st.ram), true))
       else IsCut(SlotScript(f, Entry(0, ts, payload)), cut) && IsCut(ws, cut) &&
            st' == State(Torn(st.medium, ws, cut), st.ram)
  }

  /** That is a step of the machine. */
  lemma OutcomeIsStep(f: Format, n: nat, st: State, ts: u64, payload: seq<byte>, finished: bool, cut: Cut, st': State)
    requires Good(f, n, st) && |payload| <= f.maxPayload && SaveOutcome(f, n, st, ts, payload, finished, cut, st')
    ensures !finished ==>
              CanStep(f, n, st, FailedSave(ts, payload, cut)) && st' == Step(f, n, st, FailedSave(ts, payload, cut))
    ensures finished && NextVersion(st.ram) < U32_MAX ==>
              CanStep(f, n, st, Save(ts, payload)) && st' == Step(f, n, st, Save(ts, payload))
  {
  }

  ghost function Abs(f: Format, n: nat, st: State): Option<Entry>
    requires Good(f, n, st)
  {
    Current(Table(f, st.medium, n), st.ram)
  }

  /** The one current record, versions counted from 1. */
  function CellStep(a: Option<Entry>, op: Op): Option<Entry> {
    match op
    case Save(ts, p) => Some(Entry(if a.Some? then Inc32(a.value.counter) else 1, ts, p))
    case Clear => None
    case _ => a
  }

  /** What a save does to the slots, by its outcome. */
  lemma StepTable(f: Format, n: nat, st: State, op: Op)
    requires Good(f, n, st) && CanStep(f, n, st, op) && (op.Save? || op.FailedSave?)
    ensures var v, m' := Table(f, st.medium, n), MediumAfter(f, n, st, op);
            var slot := Target(n, st.ram);
            && (EraseSafe(f, st.medium, n) ==> EraseSafe(f, m', n))
            && if op.Save? then Table(f, m', n) == v[slot := Some(Entry(NextVersion(st.ram), op.ts, op.payload))]
               else if op.cut.index == 0 then m' == st.medium
               else Table(f, m', n) == v[slot := None]
  {
    var slot := Target(n, st.ram);
    var e := Entry(NextVersion(st.ram), op.ts, op.payload);
    SlotFits(f, slot, n, |st.medium|);
    if op.Save? {
      TableDone(f, st.medium, slot, n, e);
    } else {
      TableTorn(f, st.medium, slot, n, e, op.cut);
    }
  }

  lemma StepSave(f: Format, n: nat, st: State, op: Op)
    requires Good(f, n, st) && CanStep(f, n, st, op) && (op.Save? || op.FailedSave?)
    ensures Good(f, n, Step(f, n, st, op))
    ensures Abs(f, n, Step(f, n, st, op)) == CellStep(Abs(f, n, st), op)
  {
    hide MediumAfter, EraseSafe;
    StepTable(f, n, st, op);
    if op.Save? {
      SaveDone(Table(f, st.medium, n), st.ram, Entry(NextVersion(st.ram), op.ts, op.payload));
    } else {
      SaveTorn(Table(f, st.medium, n), st.ram);
    }
  }

  /**
   Every step keeps the invariant; every step but an interrupted clear is the step of a single cell, and an
   interrupted clear leaves no record or one that was valid before it.
   */
  lemma StepRefinesCell(f: Format, n: nat, st: State, op: Op)
    requires Good(f, n, st) && CanStep(f, n, st, op)
    ensures var st' := Step(f, n, st, op);
            && Good(f, n, st')
            && (!op.InterruptedClear? ==> Abs(f, n, st') == CellStep(Abs(f, n, st), op))
            && (op.InterruptedClear? ==> Abs(f, n, st').None? || Abs(f, n, st') in Table(f, st.medium, n))
  {
    match op
    case Save(_, _) => StepSave(f, n, st, op);
    case FailedSave(_, _, _) => StepSave(f, n, st, op);
    case Reboot =>
      RecoverExactly(Table(f, st.medium, n), st.ram);
    case Clear =>
      TableBlank(f, EraseTo(st.medium, |st.medium|), n);
    case InterruptedClear(k) =>
      TableErased(f, st.medium, n, k);
      var v, v' := Table(f, st.medium, n), Table(f, EraseTo(st.medium, k), n);
      var r' := Recover(v');
      if r'.hasData {
        assert v'[r'.active] == v[r'.active];
      }
  }

  /** Every step keeps the slots tame, so a clear may be interrupted again. */
  lemma StepKeepsTame(f: Format, n: nat, st: State, op: Op)
    requires Good(f, n, st) && CanStep(f, n, st, op) && EraseSafe(f, st.medium, n)
    ensures EraseSafe(f, Step(f, n, st, op).medium, n)
  {
    if op.Save? || op.FailedSave? {
      StepTable(f, n, st, op);
    } else if op.Clear? {
      TableBlank(f, EraseTo(st.medium, |st.medium|), n);
    } else if op.InterruptedClear? {
      TableErased(f, st.medium, n, op.erased);
    }
  }

  /**
   A save cut at any byte leaves the record loaded as it was; a finished one makes it the record saved. Either way
   the state is good, so that by `RebootIsIdentity` a reboot loads the same.
   */
  lemma SaveAllOrNothing(f: Format, n: nat, st: State, ts: u64, payload: seq<byte>, cut: Cut)
    requires Good(f, n, st) && CanStep(f, n, st, Save(ts, payload)) && CanStep(f, n, st, FailedSave(ts, payload, cut))
    ensures Good(f, n, Step(f, n, st, FailedSave(ts, payload, cut)))
    ensures Abs(f, n, Step(f, n, st, FailedSave(ts, payload, cut))) == Abs(f, n, st)
    ensures Good(f, n, Step(f, n, st, Save(ts, payload)))
    ensures Abs(f, n, Step(f, n, st, Save(ts, payload))) ==
            Some(Entry(if Abs(f, n, st).Some? then Abs(f, n, st).value.counter + 1 else 1, ts, payload))
  {
    StepRefinesCell(f, n, st, Save(ts, payload));
    StepRefinesCell(f, n, st, FailedSave(ts, payload, cut));
  }

  /** In every reachable state, after failed saves too, recovery recomputes exactly the fields already in RAM. */
  lemma RebootIsIdentity(f: Format, n: nat, st: State)
    requires Good(f, n, st)
    ensures Step(f, n, st, Reboot) == st
  {
    RecoverExactly(Table(f, st.medium, n), st.ram);
  }

  // ------------------------------------------------------------ all runs

  /** `init` on any medium at all leads into the invariant, unless a version there has reached its end. */
  lemma InitGood(f: Format, n: nat, s: seq<byte>)
    requires Geometry(f, n, |s|) && NoWrap(Table(f, s, n))
    ensures Good(f, n, State(s, Recover(Table(f, s, n))))
  {
  }

  lemma BlankGood(f: Format, n: nat, s: seq<byte>)
    requires Geometry(f, n, |s|) && forall i :: 0 <= i < |s| ==> s[i] == 0xFF
    ensures Good(f, n, State(s, EMPTY)) && Abs(f, n, State(s, EMPTY)) == None && TameTable(f, s, n)
  {
    TableBlank(f, s, n);
    assert NoneValid(Table(f, s, n));
  }

  ghost predicate CanRun(f: Format, n: nat, st: State, ops: seq<Op>)
    requires Good(f, n, st)
    decreases |ops|
  {
    ops != [] ==>
      && CanStep(f, n, st, ops[0])
      && (StepRefinesCell(f, n, st, ops[0]); CanRun(f, n, Step(f, n, st, ops[0]), ops[1..]))
  }

  ghost function Run(f: Format, n: nat, st: State, ops: seq<Op>): (st': State)
    requires Good(f, n, st) && CanRun(f, n, st, ops)
    ensures |st'.medium| == |st.medium|
    decreases |ops|
  {
    if ops == [] then st
    else
      StepRefinesCell(f, n, st, ops[0]);
      Run(f, n, Step(f, n, st, ops[0]), ops[1..])
  }

  function CellRun(a: Option<Entry>, ops: seq<Op>): Option<Entry>
    decreases |ops|
  {
    if ops == [] then a else CellRun(CellStep(a, ops[0]), ops[1..])
  }

  /** Over every run, interrupted clears included, the invariant holds and a reboot changes nothing. */
  lemma {:induction false} RunKeepsGood(f: Format, n: nat, st: State, ops: seq<Op>)
    requires Good(f, n, st) && CanRun(f, n, st, ops)
    ensures Good(f, n, Run(f, n, st, ops))
    ensures Step(f, n, Run(f, n, st, ops), Reboot) == Run(f, n, st, ops)
    decreases |ops|
  {
    if ops == [] {
      RebootIsIdentity(f, n, st);
    } else {
      StepRefinesCell(f, n, st, ops[0]);
      RunKeepsGood(f, n, Step(f, n, st, ops[0]), ops[1..]);
    }
  }

  /** Over every run without an interrupted clear, what is loaded is the record of the last save that finished. */
  lemma {:induction false} RunRefinesCell(f: Format, n: nat, st: State, ops: seq<Op>)
    requires Good(f, n, st) && CanRun(f, n, st, ops)
    requires forall i :: 0 <= i < |ops| ==> !ops[i].InterruptedClear?
    ensures Good(f, n, Run(f, n, st, ops))
    ensures Abs(f, n, Run(f, n, st, ops)) == CellRun(Abs(f, n, st), ops)
    decreases |ops|
  {
    if ops == [] {
    } else {
      StepRefinesCell(f, n, st, ops[0]);
      RunRefinesCell(f, n, Step(f, n, st, ops[0]), ops[1..]);
    }
  }

  /** Without a clear the version never decreases. */
  lemma {:induction false} VersionNeverDecreases(f: Format, n: nat, st: State, ops: seq<Op>)
    requires Good(f, n, st) && CanRun(f, n, st, ops)
    requires forall i :: 0 <= i < |ops| ==> !ops[i].InterruptedClear? && !ops[i].Clear?
    ensures st.ram.version <= Run(f, n, st, ops).ram.version && (st.ram.hasData ==> Run(f, n, st, ops).ram.hasData)
    decreases |ops|
  {
    if ops == [] {
    } else {
      StepRefinesCell(f, n, st, ops[0]);
      StepVersion(f, n, st, ops[0]);
      hide Step, Good;
      VersionNeverDecreases(f, n, Step(f, n, st, ops[0]), ops[1..]);
    }
  }

  lemma StepVersion(f: Format, n: nat, st: State, op: Op)
    requires Good(f, n, st) && CanStep(f, n, st, op) && !op.InterruptedClear? && !op.Clear?
    ensures st.ram.version <= Step(f, n, st, op).ram.version && (st.ram.hasData ==> Step(f, n, st, op).ram.hasData)
  {
    if op.Reboot? {
      RebootIsIdentity(f, n, st);
    }
  }
}
