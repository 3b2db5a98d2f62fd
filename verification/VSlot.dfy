/** The versioned slots as the object applications hold. */
module VSlot {
  import opened Bytes
  import opened Crc
  import opened Crash
  import opened Device
  import opened Partition
  import opened Slots
  import opened SlotTable
  import opened SlotIo
  import opened Newest
  import opened VSlotRuns

  class FramVSlot {
    const pm: Pm
    const step: Step
    /** The build option that bounds the payload, itself bounded by 1024. */
    const payloadLimit: nat

    var part: Part
    var format: Format
    var slotCount: nat
    var active: nat
    var version: u32
    var hasData: bool
    var ready: bool

    constructor (pm: Pm, step: Step, payloadLimit: nat)
      ensures this.pm == pm && this.step == step && this.payloadLimit == payloadLimit && !ready
    {
      this.pm, this.step, this.payloadLimit := pm, step, payloadLimit;
      part, format, slotCount := Part([], 0, 0, 0), Format(0, 0, 4, step), 0;
      active, version, hasData, ready := 0, 0, false, false;
    }

    ghost predicate Valid()
      reads this
    {
      ready ==> Configured() && active < slotCount
    }

    ghost predicate Configured()
      reads this`part, this`format, this`slotCount
    {
      && pm.Owns(part) && format.Valid() && format.lenWidth == 4 && format.step == step
      && 2 <= slotCount <= 3 && SlotAt(format, slotCount) <= part.size
    }

    function Fields(): Ram
      reads this`active, this`version, this`hasData
    {
      Ram(active, version, hasData)
    }

    ghost function Medium(): (s: seq<byte>)
      requires Configured()
      reads this`part, this`format, this`slotCount, pm.dev.hal.buffer
      ensures |s| == part.size
    {
      pm.Bytes(part)
    }

    ghost function State(): VSlotRuns.State
      requires Configured()
      reads this`part, this`format, this`slotCount, this`active, this`version, this`hasData, pm.dev.hal.buffer
    {
      VSlotRuns.State(Medium(), Fields())
    }

    ghost function Records(): (v: Views)
      requires Configured()
      reads this`part, this`format, this`slotCount, pm.dev.hal.buffer
      ensures |v| == slotCount
    {
      Table(format, Medium(), slotCount)
    }

    /** Selects the first slot with the largest valid version. */
    method Init(name: seq<byte>, count: nat, maxPayload: nat, magic: u32) returns (err: Err)
      requires pm.Valid() && payloadLimit <= 1024
      modifies this, pm.dev.hal`opCount
      ensures err == if count < 2 || count > 3 then INVALID_ARG
                     else if maxPayload == 0 || maxPayload > payloadLimit then INVALID_SIZE
                     else if pm.Named(name).None? then NOT_FOUND
                     else if pm.Named(name).value.size < (25 + maxPayload) * count then INVALID_SIZE
                     else OK
      ensures err == OK ==>
                && ready && Valid() && Some(part) == pm.Named(name)
                && format == Format(maxPayload, magic, 4, step) && slotCount == count
      ensures err == OK && pm.Healthy() ==> Fields() == Recover(Records())
      ensures pm.dev.hal.opCount >= old(pm.dev.hal.opCount)
    {
      hide Records, Recover, FirstNamed;
      if count < 2 || count > 3 {
        return INVALID_ARG;
      }
      if maxPayload == 0 || maxPayload > payloadLimit {
        return INVALID_SIZE;
      }
      ready := false;
      var found := pm.Find(name);
      if found.None? {
        return NOT_FOUND;
      }
      part, slotCount, format := found.value, count, Format(maxPayload, magic, 4, step);
      SlotAtIsProduct(format, slotCount);
      if part.size < format.SlotSize() * slotCount {
        return INVALID_SIZE;
      }
      Recovery();
      ready := true;
      return OK;
    }

    method Recovery()
      requires Configured()
      modifies this`active, this`version, this`hasData, pm.dev.hal`opCount
      ensures active < slotCount
      ensures pm.Healthy() ==> Fields() == Recover(Records())
      ensures pm.dev.hal.opCount >= old(pm.dev.hal.opCount)
    {
      var newest, newestVersion := FindNewest(pm, part, format, slotCount);
      hasData := newest.Some?;
      if newest.Some? {
        active, version := newest.value, newestVersion;
      } else {
        active, version := 0, 0;
      }
    }

    lemma SlotInBounds(slot: nat)
      requires Configured() && slot < slotCount
      ensures SlotInPart(format, part, slot)
      ensures Records()[slot] == View(format, SlotBytes(format, Medium(), slot))
    {
      SlotFits(format, slot, slotCount, part.size);
    }

    /** Why a slot without a record is refused. */
    ghost function Refusal(slot: nat): Err
      requires Configured() && slot < slotCount
      reads this`part, this`format, this`slotCount, pm.dev.hal.buffer
    {
      SlotInBounds(slot);
      ErrOf(Judge(format, SlotBytes(format, Medium(), slot)))
    }

    /** Reads one slot; on a medium that reads, it answers what the slot holds. */
    method Validate(slot: nat) returns (err: Err, hdr: SlotHeader)
      requires Configured() && slot < slotCount
      modifies pm.dev.hal`opCount
      ensures err == OK ==>
                && Records()[slot].Some?
                && var e := Records()[slot].value; hdr == SlotHeader(e.counter, e.ts, |e.payload|)
      ensures pm.Healthy() ==> err == if Records()[slot].Some? then OK else Refusal(slot)
      ensures Records()[slot].None? ==> Refusal(slot) != OK
      ensures !pm.initialized || !old(pm.dev.hal.Outlasts(1)) ==> err == NOT_FOUND
      ensures pm.initialized && old(pm.dev.hal.Outlasts(1)) && pm.dev.hal.ShouldFail() ==> err == FAIL
      ensures pm.dev.hal.opCount >= old(pm.dev.hal.opCount)
    {
      SlotInBounds(slot);
      JudgeView(format, SlotBytes(format, Medium(), slot));
      hide Judge, View, SlotAt;
      err, hdr := ValidateSlot(pm, part, format, slot);
    }

    /** Reads the payload of a record. */
    method ReadPayload(slot: nat, len: nat) returns (err: Err, payload: seq<byte>)
      requires Configured() && slot < slotCount
      requires Records()[slot].Some? && len == |Records()[slot].value.payload| > 0
      modifies pm.dev.hal`opCount
      ensures err == OK ==> payload == Records()[slot].value.payload
      ensures pm.initialized ==> err == if pm.dev.hal.ShouldFail() then FAIL else OK
      ensures !pm.initialized ==> err == INVALID_STATE
      ensures pm.dev.hal.opCount >= old(pm.dev.hal.opCount)
    {
      SlotInBounds(slot);
      hide SlotAt;
      err, payload := ReadSlotBytes(pm, part, format, slot, HEADER, len);
    }

    /**
     Reads the current record. Without room, or without a buffer for a nonempty payload, only its length.
     */
    method Load(room: nat, hasBuffer: bool) returns (err: Err, len: nat, payload: seq<byte>)
      requires Valid()
      modifies pm.dev.hal`opCount
      ensures !hasData ==> err == NOT_FOUND
      ensures hasData && !ready ==> err == INVALID_STATE
      ensures err == OK ==>
                && ready
                && Current(Records(), Fields()).Some?
                && var e := Current(Records(), Fields()).value;
                   payload == e.payload && len == |payload| <= room
      ensures ready && hasData && pm.Healthy() && Current(Records(), Fields()).Some? ==>
                var e := Current(Records(), Fields()).value;
                && len == |e.payload|
                && (err == OK <==> |e.payload| <= room && (hasBuffer || e.payload == []))
                && (err != OK ==> err == INVALID_SIZE)
      ensures ready && hasData && pm.Healthy() && Current(Records(), Fields()).None? ==>
                err == Refusal(active) && err != OK && len == 0
      ensures ready && hasData && (!pm.initialized || !old(pm.dev.hal.Outlasts(1))) ==> err == NOT_FOUND
      ensures ready && hasData && pm.initialized && old(pm.dev.hal.Outlasts(1)) && pm.dev.hal.ShouldFail() ==>
                err == FAIL
      ensures pm.dev.hal.opCount >= old(pm.dev.hal.opCount)
    {
      len, payload := 0, [];
      if !hasData {
        return NOT_FOUND, len, payload;
      }
      if !ready {
        return INVALID_STATE, len, payload;
      }
      hide Records, Refusal, Configured;
      var hdr;
      err, hdr := Validate(active);
      if err != OK {
        return;
      }
      if room < hdr.len {
        return INVALID_SIZE, hdr.len, [];
      }
      if hdr.len > 0 {
        if !hasBuffer {
          return INVALID_SIZE, hdr.len, [];
        }
        err, payload := ReadPayload(active, hdr.len);
        if err == OK {
          len := hdr.len;
        }
      }
    }

    /**
     Saves into the slot after the active one. Finished, that slot is active; stopped by a write that fails, the
     medium holds the script cut short there and the fields are as before.
     */
    method Save(payload: seq<byte>, ts: u64) returns (err: Err, ghost cut: Cut)
      requires Valid()
      modifies this`active, this`version, this`hasData, pm.dev.hal`opCount, pm.dev.hal.buffer
      ensures Valid()
      ensures |payload| > format.maxPayload ==> err == INVALID_SIZE
      ensures |payload| <= format.maxPayload && !ready ==> err == INVALID_STATE
      ensures !ready || |payload| > format.maxPayload ==>
                pm.dev.hal.Mem() == old(pm.dev.hal.Mem()) && Fields() == old(Fields())
      ensures ready && |payload| <= format.maxPayload ==>
                VSlotRuns.SaveOutcome(format, slotCount, old(State()), ts, payload, err == OK, cut, State())
      ensures err == OK ==>
                && hasData && active == (if old(hasData) then (old(active) + 1) % slotCount else 0)
                && version == if !old(hasData) then 1 else if old(version) == 0xFFFF_FFFF then 0 else old(version) + 1
      ensures err != OK ==> Fields() == old(Fields())
      ensures ready && |payload| <= format.maxPayload ==> err == pm.WriteResult(part)
      ensures ready ==> SameOutside(old(pm.dev.hal.Mem()), pm.dev.hal.Mem(), part.offset, part.End())
      ensures ready && part.flags % 2 == 1 ==> err != OK && pm.dev.hal.Mem() == old(pm.dev.hal.Mem())
      ensures pm.dev.hal.opCount >= old(pm.dev.hal.opCount)
    {
      cut := Cut(0, 0);
      if |payload| > format.maxPayload {
        return INVALID_SIZE, cut;
      }
      if !ready {
        return INVALID_STATE, cut;
      }
      err, cut := SaveToNext(payload, ts, State());
    }

    method SaveToNext(payload: seq<byte>, ts: u64, ghost before: VSlotRuns.State) returns (err: Err, ghost cut: Cut)
      requires Valid() && ready && |payload| <= format.maxPayload && before == State()
      modifies this`active, this`version, this`hasData, pm.dev.hal`opCount, pm.dev.hal.buffer
      ensures Valid()
      ensures VSlotRuns.SaveOutcome(format, slotCount, before, ts, payload, err == OK, cut, State())
      ensures err == pm.WriteResult(part)
      ensures SameOutside(old(pm.dev.hal.Mem()), pm.dev.hal.Mem(), part.offset, part.End())
      ensures part.flags % 2 == 1 ==> pm.dev.hal.Mem() == old(pm.dev.hal.Mem())
      ensures pm.dev.hal.opCount >= old(pm.dev.hal.opCount)
    {
      var nextVersion := NextVersion(Fields());
      var slot := Target(slotCount, Fields());
      var e := Entry(nextVersion, ts, payload);
      SlotInBounds(slot);
      ScriptFits(format, slot, e, part.size);
      hide ScriptAt, SlotScript, LandAll, Torn, View, SlotAt, Target, NextVersion;
      err, cut := WriteSlot(pm, part, format, slot, e);
      if err == OK {
        Activate(slot, nextVersion);
      } else {
        SameCutSizes(format, nextVersion, ts, payload, cut);
      }
    }

    method Activate(slot: nat, newVersion: u32)
      requires Configured() && slot < slotCount
      modifies this`active, this`version, this`hasData
      ensures Valid() && Fields() == Ram(slot, newVersion, true)
    {
      active, version, hasData := slot, newVersion, true;
    }

    method Clear() returns (err: Err, ghost done: nat)
      requires Valid()
      modifies this`active, this`version, this`hasData, pm.dev.hal`opCount, pm.dev.hal.buffer
      ensures Valid()
      ensures !ready ==> err == INVALID_STATE && pm.dev.hal.Mem() == old(pm.dev.hal.Mem())
      ensures err == OK ==> ready && Medium() == EraseTo(old(Medium()), part.size) && Fields() == EMPTY
      ensures err != OK ==> Fields() == old(Fields())
      ensures err != OK && ready ==> done <= part.size && Medium() == EraseTo(old(Medium()), done)
      ensures ready ==> err == pm.WriteResult(part)
      ensures ready && part.flags % 2 == 1 ==> err == INVALID_STATE && pm.dev.hal.Mem() == old(pm.dev.hal.Mem())
      ensures Configured() ==> SameOutside(old(pm.dev.hal.Mem()), pm.dev.hal.Mem(), part.offset, part.End())
      ensures pm.dev.hal.opCount >= old(pm.dev.hal.opCount)
    {
      done := 0;
      if !ready {
        return INVALID_STATE, 0;
      }
      err, done := pm.Erase(part);
      if err == OK {
        hasData, version, active := false, 0, 0;
      }
    }
  }
}
