/** The ring log as the object applications hold: its indices in RAM, updated step by step over a partition. */
module Ring {
  import opened Bytes
  import opened Crc
  import opened Crash
  import opened Device
  import opened Partition
  import opened Slots
  import opened SlotTable
  import opened SlotIo
  import opened Newest
  import opened RingLog
  import RingRuns

  lemma BackNone(c: nat)
    requires 0 < c
    ensures Back(c, 0, 0) == 0
  {
  }

  /** Index arithmetic on the circle. */
  lemma Wrap(c: nat, x: nat)
    requires 0 < c && x < 2 * c
    ensures x % c == if x < c then x else x - c
  {
  }

  class FramRing {
    const pm: Pm
    const step: Step
    /** The build option that bounds the payload, itself bounded by 512. */
    const payloadLimit: nat

    var part: Part
    var format: Format
    var capacity: nat
    var head: nat
    var tail: nat
    var headSeq: u32
    var count: nat
    var ready: bool

    constructor (pm: Pm, step: Step, payloadLimit: nat)
      ensures this.pm == pm && this.step == step && this.payloadLimit == payloadLimit && !ready
    {
      this.pm, this.step, this.payloadLimit := pm, step, payloadLimit;
      part, format := Part([], 0, 0, 0), Format(0, 0, 2, step);
      capacity, head, tail, headSeq, count, ready := 0, 0, 0, 0, 0, false;
    }

    /** The geometry is that of the partition, and the three indices fit together. */
    ghost predicate Valid()
      reads this
    {
      ready ==> Configured() && head < capacity && count <= capacity && tail == Back(capacity, head, count)
    }

    ghost predicate Configured()
      reads this`part, this`format, this`capacity
    {
      && pm.Owns(part) && format.Valid() && format.lenWidth == 2 && format.step == step
      && format.maxPayload <= payloadLimit
      && capacity == CapacityOf(format, part.size) && 0 < capacity
    }

    function Indices(): Ram
      reads this`head, this`tail, this`headSeq, this`count
    {
      Ram(head, tail, headSeq, count)
    }

    ghost function Medium(): (s: seq<byte>)
      requires Configured()
      reads this`part, this`format, this`capacity, pm.dev.hal.buffer
      ensures |s| == part.size && RingRuns.Capacity(format, s) == capacity
    {
      pm.Bytes(part)
    }

    ghost function State(): RingRuns.State
      requires Configured()
      reads this, pm.dev.hal.buffer
    {
      RingRuns.State(Medium(), Indices())
    }

    /** The slots of the partition, as records. */
    ghost function Records(): (v: Views)
      requires Configured()
      reads this`part, this`format, this`capacity, pm.dev.hal.buffer
      ensures |v| == capacity
    {
      RingRuns.Records(format, Medium())
    }

    lemma SlotInBounds(slot: nat)
      requires Configured() && slot < capacity
      ensures SlotInPart(format, part, slot)
      ensures Records()[slot] == View(format, SlotBytes(format, Medium(), slot))
      ensures Records()[slot].Some? ==> |Records()[slot].value.payload| <= payloadLimit
    {
      SlotFits(format, slot, capacity, part.size);
    }

    lemma RecordsAreTable()
      requires Configured()
      ensures SlotAt(format, capacity) <= part.size && Records() == Table(format, Medium(), capacity)
    {
    }

    /** Why a slot without a record is refused. */
    ghost function Refusal(slot: nat): Err
      requires Configured() && slot < capacity
      reads this`part, this`format, this`capacity, pm.dev.hal.buffer
    {
      SlotInBounds(slot);
      ErrOf(Judge(format, SlotBytes(format, Medium(), slot)))
    }

    /** Reads one slot; on a medium that reads, it answers what the slot holds. */
    method Validate(slot: nat) returns (err: Err, hdr: SlotHeader)
      requires Configured() && slot < capacity
      modifies pm.dev.hal`opCount
      ensures err == OK ==>
                && Records()[slot].Some?
                && var e := Records()[slot].value; hdr == SlotHeader(e.counter, e.ts, |e.payload|)
      ensures pm.Healthy() ==> err == if Records()[slot].Some? then OK else Refusal(slot)
      ensures Records()[slot].None? ==> Refusal(slot) != OK
      ensures !pm.initialized || !old(pm.dev.hal.Outlasts(1)) ==> err == NOT_FOUND
      ensures pm.initialized && old(pm.dev.hal.Outlasts(1)) && pm.dev.hal.ShouldFail() ==> err == FAIL
      ensures pm.dev.hal.opCount >= old(pm.dev.hal.opCount)
    {
      SlotInBounds(slot);
      JudgeView(format, SlotBytes(format, Medium(), slot));
      hide Judge, View, SlotAt;
      err, hdr := ValidateSlot(pm, part, format, slot);
    }

    /** Recovers the indices from the medium alone. */
    method Init(name: seq<byte>, maxPayload: nat, magic: u32) returns (err: Err)
      requires pm.Valid() && payloadLimit <= 512
      modifies this, pm.dev.hal`opCount
      ensures err == if maxPayload == 0 || maxPayload > payloadLimit then INVALID_SIZE
                     else if pm.Named(name).None? then NOT_FOUND
                     else if pm.Named(name).value.size < 25 + maxPayload then INVALID_SIZE
                     else OK
      ensures err == OK ==>
                && ready && Valid() && Some(part) == pm.Named(name) && format == Format(maxPayload, magic, 2, step)
                && capacity == part.size / (25 + maxPayload)
      ensures err == OK && pm.Healthy() ==> Indices() == Recover(Records())
      ensures pm.dev.hal.opCount >= old(pm.dev.hal.opCount)
    {
      hide Records, Recover;
      if maxPayload == 0 || maxPayload > payloadLimit {
        return INVALID_SIZE;
      }
      ready := false;
      err := Configure(name, maxPayload, magic);
      if err != OK {
        return;
      }
      Recovery(Records());
      ready := true;
    }

    method Configure(name: seq<byte>, maxPayload: nat, magic: u32) returns (err: Err)
      requires pm.Valid() && 0 < maxPayload <= payloadLimit <= 512
      modifies this`part, this`format, this`capacity
      ensures err == if pm.Named(name).None? then NOT_FOUND
                     else if pm.Named(name).value.size < 25 + maxPayload then INVALID_SIZE
                     else OK
      ensures err == OK ==>
                && Configured() && Some(part) == pm.Named(name) && format == Format(maxPayload, magic, 2, step)
                && capacity == part.size / (25 + maxPayload)
    {
      hide FirstNamed;
      var found := pm.Find(name);
      if found.None? {
        return NOT_FOUND;
      }
      part := found.value;
      format := Format(maxPayload, magic, 2, step);
      CapacityIsQuotient(format, part.size);
      capacity := part.size / format.SlotSize();
      return if capacity == 0 then INVALID_SIZE else OK;
    }

    /** The scan for the newest record and the walk back along its run. */
    method Recovery(ghost v: Views)
      requires Configured() && !ready && v == Records()
      modifies this`head, this`tail, this`headSeq, this`count, pm.dev.hal`opCount
      ensures head < capacity && count <= capacity && tail == Back(capacity, head, count)
      ensures pm.Healthy() ==> Indices() == Recover(v)
      ensures pm.dev.hal.opCount >= old(pm.dev.hal.opCount)
    {
      RecordsAreTable();
      RecoverFrom(v);
      assert format.Valid() && pm.Owns(part);
      hide Records, Recover, Best, RunLength, Back, Next, IsNewest, SlotAt, Configured, View;
      var newest, newestSeq := FindNewest(pm, part, format, capacity);
      if newest.None? {
        head, tail, headSeq, count := 0, 0, 0, 0;
        BackNone(capacity);
      } else {
        var runLength := WalkBack(newest.value, newestSeq, v);
        SetIndices(newest.value, newestSeq, runLength);
      }
    }

    method SetIndices(newest: nat, newestSeq: u32, runLength: nat)
      requires newest < capacity && runLength <= capacity
      modifies this`head, this`tail, this`headSeq, this`count
      ensures Indices() == Ram(Next(capacity, newest), Back(capacity, Next(capacity, newest), runLength),
                               Inc32(newestSeq), runLength)
    {
      Wrap(capacity, newest + 1);
      count := runLength;
      head := (newest + 1) % capacity;
      headSeq := Inc32(newestSeq);
      Wrap(capacity, head + capacity - count);
      tail := (head + capacity - count) % capacity;
    }

    method WalkBack(newest: nat, newestSeq: u32, ghost v: Views) returns (runLength: nat)
      requires Configured() && newest < capacity && v == Records()
      modifies pm.dev.hal`opCount
      ensures runLength <= capacity
      ensures pm.Healthy() && IsNewest(v, newest, newestSeq) ==>
                runLength == RunLength(v, newest, newestSeq, capacity)
      ensures pm.dev.hal.opCount >= old(pm.dev.hal.opCount)
    {
      hide Records, IsNewest, RunLength, Walked, Holds, View;
      runLength := 0;
      var expected, slot: nat := newestSeq, newest;
      WalkStarts(v, newest, newestSeq);
      while runLength < capacity
        invariant Records() == v && slot < capacity && runLength < capacity
        invariant expected == Expected(newestSeq, runLength)
        invariant pm.dev.hal.opCount >= old(pm.dev.hal.opCount)
        invariant pm.Healthy() ==> Walked(v, newest, newestSeq, slot, runLength)
      {
        if Walked(v, newest, newestSeq, slot, runLength) {
          WalkStep(v, newest, newestSeq, slot, runLength);
        }
        var err, hdr := Validate(slot);
        if err != OK || hdr.counter != expected {
          return;
        }
        runLength := runLength + 1;
        if runLength >= capacity {
          break;
        }
        expected := Dec32(expected);
        StepBack(capacity, slot);
        slot := (slot + capacity - 1) % capacity;
      }
    }

    /**
     Appends a record. Finished, the head slot holds it and the indices move on; stopped by a write that fails, the
     medium holds the script cut short there and the indices are as before.
     */
    method Append(payload: seq<byte>, ts: u64) returns (err: Err, ghost cut: Cut)
      requires Valid()
      modifies this`head, this`tail, this`headSeq, this`count, pm.dev.hal`opCount, pm.dev.hal.buffer
      ensures Valid()
      ensures !ready ==> err == INVALID_STATE
      ensures ready && |payload| > format.maxPayload ==> err == INVALID_SIZE
      ensures !ready || |payload| > format.maxPayload ==>
                pm.dev.hal.Mem() == old(pm.dev.hal.Mem()) && Indices() == old(Indices())
      ensures ready && |payload| <= format.maxPayload ==>
                RingRuns.AppendOutcome(format, old(State()), ts, payload, err == OK, cut, State())
      ensures ready && |payload| <= format.maxPayload ==> err == pm.WriteResult(part)
      ensures ready ==> SameOutside(old(pm.dev.hal.Mem()), pm.dev.hal.Mem(), part.offset, part.End())
      ensures ready && part.flags % 2 == 1 ==> err != OK && pm.dev.hal.Mem() == old(pm.dev.hal.Mem())
      ensures pm.dev.hal.opCount >= old(pm.dev.hal.opCount)
    {
      cut := Cut(0, 0);
      if !ready {
        return INVALID_STATE, cut;
      }
      if |payload| > format.maxPayload || |payload| > 0xFFFF {
        return INVALID_SIZE, cut;
      }
      err, cut := AppendAtHead(payload, ts, State());
    }

    method AppendAtHead(payload: seq<byte>, ts: u64, ghost before: RingRuns.State) returns (err: Err, ghost cut: Cut)
      requires Valid() && ready && |payload| <= format.maxPayload && before == State()
      modifies this`head, this`tail, this`headSeq, this`count, pm.dev.hal`opCount, pm.dev.hal.buffer
      ensures Valid() && RingRuns.AppendOutcome(format, before, ts, payload, err == OK, cut, State())
      ensures err == pm.WriteResult(part)
      ensures SameOutside(old(pm.dev.hal.Mem()), pm.dev.hal.Mem(), part.offset, part.End())
      ensures part.flags % 2 == 1 ==> pm.dev.hal.Mem() == old(pm.dev.hal.Mem())
      ensures pm.dev.hal.opCount >= old(pm.dev.hal.opCount)
    {
      SlotInBounds(head);
      var e := Entry(headSeq, ts, payload);
      ScriptFits(format, head, e, part.size);
      hide ScriptAt, SlotScript, LandAll, Torn, Advance, View, Records, SlotAt, Back;
      err, cut := WriteSlot(pm, part, format, head, e);
      if err != OK {
        SameCutSizes(format, headSeq, ts, payload, cut);
      } else {
        MoveOn();
      }
    }

    method MoveOn()
      requires Valid() && ready
      modifies this`head, this`tail, this`headSeq, this`count
      ensures Valid() && Indices() == Advance(capacity, old(Indices()))
    {
      AdvanceFields(capacity, Indices());
      headSeq := Inc32(headSeq);
      head := (head + 1) % capacity;
      if count < capacity {
        count := count + 1;
      } else {
        tail := (tail + 1) % capacity;
      }
    }

    /** Reads the payload of a record. */
    method ReadPayload(slot: nat, len: nat) returns (err: Err, payload: seq<byte>)
      requires Configured() && slot < capacity
      requires Records()[slot].Some? && len == |Records()[slot].value.payload| > 0
      modifies pm.dev.hal`opCount
      ensures err == OK ==> payload == Records()[slot].value.payload
      ensures pm.initialized ==> err == if pm.dev.hal.ShouldFail() then FAIL else OK
      ensures !pm.initialized ==> err == INVALID_STATE
      ensures pm.dev.hal.opCount >= old(pm.dev.hal.opCount)
    {
      SlotInBounds(slot);
      hide SlotAt;
      err, payload := ReadSlotBytes(pm, part, format, slot, HEADER, len);
    }

    /** Reads one record; with too little room for its payload, only its length. */
    method ReadSlotPayload(slot: nat, room: Option<nat>)
      returns (err: Err, len: nat, payload: seq<byte>, seqNo: u32, ts: u64)
      requires Configured() && slot < capacity
      modifies pm.dev.hal`opCount
      ensures err == OK ==> Records()[slot].Some? && IsRead(Records()[slot].value, room, len, payload, seqNo, ts)
      ensures pm.Healthy() ==> err == ReadError(Records()[slot], Refusal(slot), room)
      ensures pm.Healthy() && Records()[slot].Some? ==> len == |Records()[slot].value.payload|
      ensures !pm.initialized || !old(pm.dev.hal.Outlasts(1)) ==> err == NOT_FOUND
      ensures pm.initialized && old(pm.dev.hal.Outlasts(1)) && pm.dev.hal.ShouldFail() ==> err == FAIL
      ensures pm.dev.hal.opCount >= old(pm.dev.hal.opCount)
    {
      hide Records, Refusal, Configured;
      var hdr;
      len, payload, seqNo, ts := 0, [], 0, 0;
      err, hdr := Validate(slot);
      if err != OK {
        return;
      }
      if room.Some? && room.value < hdr.len {
        return INVALID_SIZE, hdr.len, [], 0, 0;
      }
      if room.Some? && hdr.len > 0 {
        err, payload := ReadPayload(slot, hdr.len);
        if err != OK {
          return;
        }
      }
      return OK, hdr.len, payload, hdr.counter, hdr.ts;
    }

    /** The record at the tail, or its length if there is too little room for it. */
    method PeekOldest(room: Option<nat>) returns (err: Err, len: nat, payload: seq<byte>, seqNo: u32, ts: u64)
      requires Valid()
      modifies pm.dev.hal`opCount
      ensures !ready || count == 0 ==> err == NOT_FOUND
      ensures err == OK ==>
                ready && Records()[tail].Some? && IsRead(Records()[tail].value, room, len, payload, seqNo, ts)
      ensures ready && count > 0 && pm.Healthy() ==>
                && err == ReadError(Records()[tail], Refusal(tail), room)
                && (Records()[tail].Some? ==> len == |Records()[tail].value.payload|)
      ensures ready && count > 0 && (!pm.initialized || !old(pm.dev.hal.Outlasts(1))) ==> err == NOT_FOUND
      ensures ready && count > 0 && pm.initialized && old(pm.dev.hal.Outlasts(1)) && pm.dev.hal.ShouldFail() ==>
                err == FAIL
      ensures pm.dev.hal.opCount >= old(pm.dev.hal.opCount)
    {
      if !ready || count == 0 {
        return NOT_FOUND, 0, [], 0, 0;
      }
      hide Records, Back;
      err, len, payload, seqNo, ts := ReadSlotPayload(tail, room);
    }

    /** The record behind the head, or its length if there is too little room for it. */
    method PeekNewest(room: Option<nat>) returns (err: Err, len: nat, payload: seq<byte>, seqNo: u32, ts: u64)
      requires Valid()
      modifies pm.dev.hal`opCount
      ensures !ready || count == 0 ==> err == NOT_FOUND
      ensures err == OK ==>
                && ready
                && var newest := Back(capacity, head, 1);
                   Records()[newest].Some? && IsRead(Records()[newest].value, room, len, payload, seqNo, ts)
      ensures ready && count > 0 && pm.Healthy() ==>
                var newest := Back(capacity, head, 1);
                && err == ReadError(Records()[newest], Refusal(newest), room)
                && (Records()[newest].Some? ==> len == |Records()[newest].value.payload|)
      ensures ready && count > 0 && (!pm.initialized || !old(pm.dev.hal.Outlasts(1))) ==> err == NOT_FOUND
      ensures ready && count > 0 && pm.initialized && old(pm.dev.hal.Outlasts(1)) && pm.dev.hal.ShouldFail() ==>
                err == FAIL
      ensures pm.dev.hal.opCount >= old(pm.dev.hal.opCount)
    {
      if !ready || count == 0 {
        return NOT_FOUND, 0, [], 0, 0;
      }
      StepBack(capacity, head);
      hide Records, Back;
      err, len, payload, seqNo, ts := ReadSlotPayload((head + capacity - 1) % capacity, room);
    }

    /** Reads one record and hands it to the callback. */
    method VisitSlot(slot: nat, cb: Entry -> Err) returns (err: Err, e: Option<Entry>)
      requires Configured() && slot < capacity
      modifies pm.dev.hal`opCount
      ensures e.None? ==> err != OK
      ensures e.None? ==> if pm.Healthy() then err == Refusal(slot) else err == FAIL || err == NOT_FOUND
      ensures e.Some? ==> err == cb(e.value) && e == Records()[slot]
      ensures pm.Healthy() ==> e == Records()[slot]
      ensures pm.dev.hal.opCount >= old(pm.dev.hal.opCount)
    {
      SlotInBounds(slot);
      hide Records;
      var len, payload, seqNo, ts;
      err, len, payload, seqNo, ts := ReadSlotPayload(slot, Some(payloadLimit));
      if err != OK {
        return err, None;
      }
      e := Some(Entry(seqNo, ts, payload));
      err := cb(e.value);
    }

    /** Why the slots are refused that hold no record. */
    ghost function Refusals(): (errors: seq<Err>)
      requires Configured()
      reads this`part, this`format, this`capacity, pm.dev.hal.buffer
      ensures |errors| == capacity && forall slot :: 0 <= slot < capacity ==> errors[slot] == Refusal(slot)
    {
      SlotErrors(format, Medium(), capacity)
    }

    /**
     Visits the records from the oldest on, until one cannot be read or the callback declines. On a medium that reads
     the visits and the result are those of `TourOf`: if the callback declined the last record, its error, else the
     reason why the next slot is refused. On a medium that fails midway the visits are the first of those.
     */
    method Iterate(cb: Entry -> Err) returns (err: Err, visited: seq<Entry>)
      requires Valid()
      modifies pm.dev.hal`opCount
      ensures !ready ==> err == OK && visited == []
      ensures ready ==> IsIteration(Records(), Refusals(), head, count, cb, visited, err, pm.Healthy())
      ensures pm.dev.hal.opCount >= old(pm.dev.hal.opCount)
    {
      if !ready {
        return OK, [];
      }
      hide Records, Refusals, IsIteration;
      ghost var v, errors := Records(), Refusals();
      if count == 0 {
        NoVisit(v, errors, head, cb, pm.Healthy());
        return OK, [];
      }
      err, visited := IterateFromTail(cb, v, errors);
    }

    method IterateFromTail(cb: Entry -> Err, ghost v: Views, ghost errors: seq<Err>)
      returns (err: Err, visited: seq<Entry>)
      requires Valid() && ready && v == Records() && errors == Refusals()
      modifies pm.dev.hal`opCount
      ensures IsIteration(v, errors, head, count, cb, visited, err, pm.Healthy())
      ensures pm.dev.hal.opCount >= old(pm.dev.hal.opCount)
    {
      hide Records, TourOf, Back, Configured, Refusal, Refusals, IsIteration;
      err, visited := OK, [];
      var slot: nat, remaining: nat := tail, count;
      ghost var tour := TourOf(v, errors, head, count, cb);
      TourStep(v, errors, head, count, cb);
      while remaining > 0
        invariant remaining <= count && slot < capacity && slot == Back(capacity, head, remaining) && Records() == v
        invariant err == OK && (visited != [] ==> cb(visited[|visited| - 1]) == OK)
        invariant pm.dev.hal.opCount >= old(pm.dev.hal.opCount)
        invariant var rest := TourOf(v, errors, head, remaining, cb);
                  tour == Tour(visited + rest.visited, rest.err)
      {
        TourStep(v, errors, head, remaining, cb);
        var e;
        err, e := VisitSlot(slot, cb);
        if e.None? {
          Unextended(visited);
          IterationEnds(v, errors, head, count, cb, visited, err, pm.Healthy());
          return;
        }
        if err != OK {
          visited := visited + [e.value];
          IterationEnds(v, errors, head, count, cb, visited, err, pm.Healthy());
          return;
        }
        StepForward(capacity, head, remaining);
        Extended(visited, e.value, TourOf(v, errors, head, remaining - 1, cb).visited);
        visited := visited + [e.value];
        slot := (slot + 1) % capacity;
        remaining := remaining - 1;
      }
      Unextended(visited);
      IterationEnds(v, errors, head, count, cb, visited, err, pm.Healthy());
    }

    method Clear() returns (err: Err, ghost done: nat)
      requires Valid()
      modifies this`head, this`tail, this`headSeq, this`count, pm.dev.hal`opCount, pm.dev.hal.buffer
      ensures Valid()
      ensures !ready ==> err == INVALID_STATE && pm.dev.hal.Mem() == old(pm.dev.hal.Mem())
      ensures err == OK ==> ready && State() == RingRuns.State(EraseTo(old(Medium()), part.size), EMPTY)
      ensures err != OK ==> Indices() == old(Indices())
      ensures err != OK && ready ==> done <= part.size && Medium() == EraseTo(old(Medium()), done)
      ensures ready ==> err == pm.WriteResult(part)
      ensures ready && part.flags % 2 == 1 ==> err == INVALID_STATE && pm.dev.hal.Mem() == old(pm.dev.hal.Mem())
      ensures Configured() ==> SameOutside(old(pm.dev.hal.Mem()), pm.dev.hal.Mem(), part.offset, part.End())
      ensures pm.dev.hal.opCount >= old(pm.dev.hal.opCount)
    {
      done := 0;
      if !ready {
        return INVALID_STATE, 0;
      }
      err, done := pm.Erase(part);
      if err == OK {
        head, tail, headSeq, count := 0, 0, 0, 0;
      }
    }
  }

  lemma Extended(a: seq<Entry>, e: Entry, b: seq<Entry>)
    ensures a + [e] + b == a + ([e] + b)
  {
  }

  lemma Unextended(a: seq<Entry>)
    ensures a + [] == a
  {
  }

  lemma StepBack(c: nat, h: nat)
    requires h < c
    ensures (h + c - 1) % c == Back(c, h, 1)
  {
    Wrap(c, h + c - 1);
  }

  lemma StepForward(c: nat, h: nat, k: nat)
    requires h < c && 1 <= k <= c
    ensures (Back(c, h, k) + 1) % c == Back(c, h, k - 1)
  {
    Wrap(c, Back(c, h, k) + 1);
  }

  /** What an iteration hands to the callback, and what it returns. */
  datatype Tour = Tour(visited: seq<Entry>, err: Err)

  /**
   The visits an iteration made are the first of the tour, all of them if it came to the end or no operation failed.
   If the callback declined the last record, its error is returned. Otherwise, if no operation failed, an error is the
   reason why the slot after the last visited is refused.
   */
  ghost predicate IsIteration(v: Views, errors: seq<Err>, h: nat, n: nat, cb: Entry -> Err,
                              visited: seq<Entry>, err: Err, healthy: bool)
    requires h < |v| == |errors| && n <= |v|
  {
    var tour := TourOf(v, errors, h, n, cb);
    var declined := visited != [] && cb(visited[|visited| - 1]) != OK;
    && visited <= tour.visited && (err == OK ==> tour == Tour(visited, OK))
    && (healthy ==> tour == Tour(visited, err))
    && (declined ==> err == cb(visited[|visited| - 1]))
    && (healthy && err != OK && !declined ==> |visited| < n && err == errors[Back(|v|, h, n - |visited|)])
  }

  lemma IterationEnds(v: Views, errors: seq<Err>, h: nat, n: nat, cb: Entry -> Err,
                      visited: seq<Entry>, err: Err, healthy: bool)
    requires h < |v| == |errors| && n <= |v|
    requires visited <= TourOf(v, errors, h, n, cb).visited
    requires err == OK || healthy ==> TourOf(v, errors, h, n, cb) == Tour(visited, err)
    requires visited != [] && cb(visited[|visited| - 1]) != OK ==> err == cb(visited[|visited| - 1])
    ensures IsIteration(v, errors, h, n, cb, visited, err, healthy)
  {
    TourError(v, errors, h, n, cb);
  }

  lemma NoVisit(v: Views, errors: seq<Err>, h: nat, cb: Entry -> Err, healthy: bool)
    requires h < |v| == |errors|
    ensures IsIteration(v, errors, h, 0, cb, [], OK, healthy)
  {
  }

  ghost function TourOf(v: Views, errors: seq<Err>, h: nat, n: nat, cb: Entry -> Err): (t: Tour)
    requires h < |v| == |errors| && n <= |v|
  {
    if n == 0 then Tour([], OK)
    else
      var o := v[Back(|v|, h, n)];
      if o.None? then Tour([], errors[Back(|v|, h, n)])
      else if cb(o.value) != OK then Tour([o.value], cb(o.value))
      else
        var rest := TourOf(v, errors, h, n - 1, cb);
        Tour([o.value] + rest.visited, rest.err)
  }

  lemma TourStep(v: Views, errors: seq<Err>, h: nat, n: nat, cb: Entry -> Err)
    requires h < |v| == |errors| && n <= |v|
    ensures TourOf(v, errors, h, 0, cb) == Tour([], OK)
    ensures n > 0 ==>
              var o := v[Back(|v|, h, n)];
              TourOf(v, errors, h, n, cb) ==
                if o.None? then Tour([], errors[Back(|v|, h, n)])
                else if cb(o.value) != OK then Tour([o.value], cb(o.value))
                else Tour([o.value] + TourOf(v, errors, h, n - 1, cb).visited, TourOf(v, errors, h, n - 1, cb).err)
  {
  }

  /** A tour that does not end well returns the error of the callback, or why the slot after its visits is refused. */
  lemma {:induction false} TourError(v: Views, errors: seq<Err>, h: nat, n: nat, cb: Entry -> Err)
    requires h < |v| == |errors| && n <= |v|
    ensures var t := TourOf(v, errors, h, n, cb);
            && |t.visited| <= n
            && (t.err != OK && (t.visited != [] ==> cb(t.visited[|t.visited| - 1]) == OK) ==>
                  |t.visited| < n && t.err == errors[Back(|v|, h, n - |t.visited|)])
  {
    if n > 0 && v[Back(|v|, h, n)].Some? && cb(v[Back(|v|, h, n)].value) == OK {
      var rest := TourOf(v, errors, h, n - 1, cb);
      TourError(v, errors, h, n - 1, cb);
      assert TourOf(v, errors, h, n, cb).visited == [v[Back(|v|, h, n)].value] + rest.visited;
    }
  }

  lemma {:induction false} TourIsCollect(v: Views, errors: seq<Err>, h: nat, n: nat, cb: Entry -> Err)
    requires h < |v| == |errors| && n <= |v| && forall e: Entry :: cb(e) == OK
    requires forall k :: 1 <= k <= n ==> v[Back(|v|, h, k)].Some?
    ensures TourOf(v, errors, h, n, cb) == Tour(Collect(v, h, n), OK)
  {
    if n == 0 {
    } else {
      TourIsCollect(v, errors, h, n - 1, cb);
      assert Collect(v, h, n) == [Collect(v, h, n)[0]] + Collect(v, h, n - 1);
    }
  }

  /** With a callback that accepts everything, an iteration visits the whole log, oldest first, if RAM is in step. */
  lemma TourIsLog(v: Views, errors: seq<Err>, r: Ram, cb: Entry -> Err)
    requires |errors| == |v| && Inv(v, r) && Recovered(v, r) && forall e: Entry :: cb(e) == OK
    ensures r.head < |v| && TourOf(v, errors, r.head, r.count, cb) == Tour(Log(v), OK)
  {
    hide Recover, FirstMax, MaximalRun;
    InvShape(v, r);
    RecoverExactly(v, r);
    assert forall k :: 1 <= k <= r.count ==> Holds(v, Back(|v|, r.head, k), r.headSeq - k);
    TourIsCollect(v, errors, r.head, r.count, cb);
  }

  /**
   After a failed append un-committed the oldest slot of a full log, an iteration stops before the first record, with
   the reason why that slot is refused.
   */
  lemma TourStopsAtHole(v: Views, errors: seq<Err>, r: Ram, cb: Entry -> Err)
    requires |errors| == |v| && Inv(v, r) && Hole(v, r)
    ensures r.head < |v| && TourOf(v, errors, r.head, r.count, cb) == Tour([], errors[r.head])
  {
    BackFacts(|v|, r.head);
  }

  /** What a read hands out is that record, its payload included if there is a buffer for it. */
  ghost predicate IsRead(e: Entry, room: Option<nat>, len: nat, payload: seq<byte>, seqNo: u32, ts: u64) {
    && len == |e.payload| && seqNo == e.counter && ts == e.ts
    && (room.Some? ==> len <= room.value && payload == e.payload)
  }

  /** How a read of a slot ends: with the reason if it holds no record, or if its record does not fit the buffer. */
  function ReadError(o: Option<Entry>, refusal: Err, room: Option<nat>): Err {
    if o.None? then refusal
    else if room.Some? && room.value < |o.value.payload| then INVALID_SIZE
    else OK
  }

  /** The slots the two peeks read hold the two ends of the log, if RAM is in step. */
  lemma PeeksAreEnds(v: Views, r: Ram)
    requires Inv(v, r) && Recovered(v, r) && r.count > 0
    ensures r.head < |v| && r.tail < |v| && |Log(v)| == r.count
    ensures v[r.tail] == Some(Log(v)[0]) && v[Back(|v|, r.head, 1)] == Some(Log(v)[r.count - 1])
  {
    hide Recover, FirstMax, MaximalRun;
    InvShape(v, r);
    RecoverExactly(v, r);
    assert Holds(v, Back(|v|, r.head, r.count), r.headSeq - r.count);
    assert Holds(v, Back(|v|, r.head, 1), r.headSeq - 1);
  }

  /**
   After a failed append un-committed the oldest slot of a full log, the peek at the oldest finds no record although
   RAM counts it; the peek at the newest still finds the last one, unless the capacity is one.
   */
  lemma PeeksAtHole(v: Views, r: Ram)
    requires Inv(v, r) && Hole(v, r)
    ensures r.head < |v| && r.tail < |v| && r.count == |Log(v)| + 1 && v[r.tail] == None
    ensures v[Back(|v|, r.head, 1)] == if |v| == 1 then None else Some(Log(v)[|Log(v)| - 1])
  {
    hide Recover, FirstMax, MaximalRun;
    InvShape(v, r);
    BackFacts(|v|, r.head);
    HoleReboots(v, r);
    if |v| > 1 {
      assert Holds(v, Back(|v|, r.head, 1), r.headSeq - 1);
    }
  }

  /**
   The slot a failed append un-committed is refused as absent. If the log was full, the next iteration visits nothing
   and returns that.
   */
  lemma TourAfterFailure(f: Format, st: RingRuns.State, op: RingRuns.Op, cb: Entry -> Err)
    requires RingRuns.Good(f, st) && RingRuns.CanStep(f, st, op) && op.FailedAppend? && op.cut.index > 0
    ensures var m := RingRuns.Step(f, st, op).medium;
            var c := RingRuns.Capacity(f, m);
            && st.ram.head < c && SlotErrors(f, m, c)[st.ram.head] == NOT_FOUND
            && (st.ram.count == c ==>
                  TourOf(RingRuns.Records(f, m), SlotErrors(f, m, c), st.ram.head, c, cb) == Tour([], NOT_FOUND))
  {
    RingRuns.HeadFits(f, st);
    RingRuns.StepRecords(f, st, op);
    TornSlot(f, st, op);
    BackFacts(RingRuns.Capacity(f, st.medium), st.ram.head);
    hide View, Judge, SlotAt, Table, RingRuns.Good;
  }

  lemma TornSlot(f: Format, st: RingRuns.State, op: RingRuns.Op)
    requires RingRuns.Good(f, st) && RingRuns.CanStep(f, st, op) && op.FailedAppend? && op.cut.index > 0
    ensures var m := RingRuns.Step(f, st, op).medium;
            && st.ram.head < RingRuns.Capacity(f, m) && SlotAt(f, st.ram.head) + f.SlotSize() <= |m|
            && ErrOf(Judge(f, SlotBytes(f, m, st.ram.head))) == NOT_FOUND
  {
    RingRuns.HeadFits(f, st);
    var e := Entry(st.ram.headSeq, op.ts, op.payload);
    CutAnywhere(f, st.ram.head, st.ram.headSeq, op.ts, op.payload, op.cut);
    hide RingRuns.Good, RingRuns.CanStep, SlotScript, SlotAt, Torn, Inv, Table;
    TornNotFound(f, st.medium, st.ram.head, e, op.cut);
  }

  lemma TornNotFound(f: Format, s: seq<byte>, i: nat, e: Entry, c: Cut)
    requires f.Valid() && |e.payload| <= f.maxPayload && SlotAt(f, i) + f.SlotSize() <= |s|
    requires IsCut(ScriptAt(f, i, e), c) && c.index > 0
    ensures ErrOf(Judge(f, SlotBytes(f, Torn(s, ScriptAt(f, i, e), c), i))) == NOT_FOUND
  {
    hide Torn, SlotScript, SlotAt;
    SlotTorn(f, s, SlotAt(f, i), e, c);
  }

  ghost predicate IsNewest(v: Views, slot: nat, n: u32) {
    FirstMax(v, slot) && v[slot].value.counter == n
  }

  /** The counter expected `k` steps back, on a `uint32_t`. */
  function Expected(n: u32, k: nat): int {
    if n >= k then n - k else n - k + 0x1_0000_0000
  }

  /** Wrap-around below 0 matches no record, as none is newer than the newest. */
  lemma ExpectedExactly(v: Views, newest: nat, n: u32, slot: nat, k: nat)
    requires IsNewest(v, newest, n) && slot < |v| && k < 0x1_0000_0000
    ensures Holds(v, slot, n - k) <==> v[slot].Some? && v[slot].value.counter == Expected(n, k)
  {
  }

  /** The walk has passed `k` slots of the run that ends at the newest one and stands before `slot`. */
  ghost predicate Walked(v: Views, newest: nat, n: u32, slot: nat, k: nat)
    requires newest < |v| && slot < |v| && k <= |v|
  {
    IsNewest(v, newest, n) ==> RunLength(v, newest, n, |v|) == k + RunLength(v, slot, n - k, |v| - k)
  }

  lemma WalkStarts(v: Views, newest: nat, n: u32)
    requires newest < |v|
    ensures Walked(v, newest, n, newest, 0)
  {
  }

  lemma WalkStep(v: Views, newest: nat, n: u32, slot: nat, k: nat)
    requires newest < |v| && slot < |v| && k < |v| <= 0x1_0000_0000 && Walked(v, newest, n, slot, k)
    ensures var holds := v[slot].Some? && v[slot].value.counter == Expected(n, k);
            && (holds ==> Walked(v, newest, n, Back(|v|, slot, 1), k + 1))
            && (holds && k + 1 == |v| && IsNewest(v, newest, n) ==> RunLength(v, newest, n, |v|) == |v|)
            && (!holds && IsNewest(v, newest, n) ==> RunLength(v, newest, n, |v|) == k)
  {
    if IsNewest(v, newest, n) {
      ExpectedExactly(v, newest, n, slot, k);
    }
  }

  /** Recovery, put together from its two loops. */
  lemma RecoverFrom(v: Views)
    requires |v| > 0
    ensures Best(v, |v|).None? ==> Recover(v) == EMPTY
    ensures Best(v, |v|).Some? ==>
              var m := Best(v, |v|).value;
              && m < |v| && v[m].Some? && IsNewest(v, m, v[m].value.counter)
              && var n := RunLength(v, m, v[m].value.counter, |v|);
                 Recover(v) == Ram(Next(|v|, m), Back(|v|, Next(|v|, m), n), Inc32(v[m].value.counter), n)
  {
    assert v[..|v|] == v;
  }

  lemma AdvanceFields(c: nat, r: Ram)
    requires r.head < c && r.count <= c && r.tail == Back(c, r.head, r.count)
    ensures var a := Advance(c, r);
            && a == Ram((r.head + 1) % c, if r.count < c then r.tail else (r.tail + 1) % c, Inc32(r.headSeq),
                        if r.count < c then r.count + 1 else r.count)
            && a.tail == Back(c, a.head, a.count)
  {
    Wrap(c, r.head + 1);
    Wrap(c, r.tail + 1);
  }
}
