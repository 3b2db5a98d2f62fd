/** Reading and writing one slot of a partition: the steps the ring log and the versioned slots have in common. */
module SlotIo {
  import opened Bytes
  import opened Crc
  import opened Crash
  import opened Device
  import opened Partition
  import opened ScriptIo
  import opened Slots
  import opened SlotTable
  import opened Newest

  /** The header fields callers use. */
  datatype SlotHeader = SlotHeader(counter: u32, ts: u64, len: nat)

  function ErrOf(j: Verdict): Err {
    match j
    case Committed => OK
    case Absent => NOT_FOUND
    case BadSize => INVALID_SIZE
    case BadCrc => INVALID_CRC
  }

  /** Why each of the first `n` slots is refused, if it is. */
  function SlotErrors(f: Format, s: seq<byte>, n: nat): (errors: seq<Err>)
    requires f.Valid() && SlotAt(f, n) <= |s|
    ensures |errors| == n
  {
    seq(n, i requires 0 <= i < n => (SlotFits(f, i, n, |s|); ErrOf(Judge(f, SlotBytes(f, s, i)))))
  }

  ghost predicate SlotInPart(f: Format, p: Part, slot: nat) {
    f.Valid() && SlotAt(f, slot) + f.SlotSize() <= p.size
  }

  method ReadSlotBytes(pm: Pm, p: Part, f: Format, slot: nat, rel: nat, len: nat) returns (err: Err, out: seq<byte>)
    requires pm.Owns(p) && SlotInPart(f, p, slot) && rel + len <= f.SlotSize()
    modifies pm.dev.hal`opCount
    ensures err == OK && len > 0 ==> out == SlotBytes(f, pm.Bytes(p), slot)[rel..rel + len]
    ensures err == OK ==> |out| == len
    ensures pm.Healthy() ==> err == OK
    ensures !pm.initialized ==> err == INVALID_STATE
    ensures pm.initialized && len > 0 ==> err == if pm.dev.hal.ShouldFail() then FAIL else OK
    ensures pm.initialized && len == 1 ==> (err == OK <==> old(pm.dev.hal.Outlasts(1)))
    ensures pm.dev.hal.opCount >= old(pm.dev.hal.opCount)
  {
    SlotAtIsProduct(f, slot);
    err, out := pm.Read(p, slot * f.SlotSize() + rel, len);
    ghost var a := SlotAt(f, slot);
    SliceOfSlice(pm.Bytes(p), a, a + f.SlotSize(), rel, rel + len);
  }

  /**
   `validate_slot`, on the bytes of the slot: a record has the commit byte, the magic number, a legal length and the
   checksum of the 20 bytes before the stored one and of the payload. The other clauses say the same through `View`.
   A medium that fails reads as an absent slot if it fails at once, else its error is returned.
   */
  method ValidateSlot(pm: Pm, p: Part, f: Format, slot: nat) returns (err: Err, hdr: SlotHeader)
    requires pm.Owns(p) && SlotInPart(f, p, slot)
    modifies pm.dev.hal`opCount
    ensures err == OK ==>
              var e := View(f, SlotBytes(f, pm.Bytes(p), slot));
              e.Some? && hdr == SlotHeader(e.value.counter, e.value.ts, |e.value.payload|)
    ensures pm.Healthy() ==> err == ErrOf(Judge(f, SlotBytes(f, pm.Bytes(p), slot)))
    ensures pm.Healthy() ==>
              var b := SlotBytes(f, pm.Bytes(p), slot);
              var len := Decode(b[16..16 + f.lenWidth]);
              if b[24 + f.maxPayload] != 0xA5 || Decode32(b[0..4]) != f.magic then err == NOT_FOUND
              else if len > f.maxPayload then err == INVALID_SIZE
              else if Crc32(f.step, 0, b[..20] + b[24..24 + len]) != Decode32(b[20..24]) then err == INVALID_CRC
              else err == OK && hdr == SlotHeader(Decode32(b[4..8]), Decode64(b[8..16]), len)
    ensures !pm.initialized || !old(pm.dev.hal.Outlasts(1)) ==> err == NOT_FOUND
    ensures pm.initialized && old(pm.dev.hal.Outlasts(1)) && pm.dev.hal.ShouldFail() ==> err == FAIL
    ensures pm.dev.hal.opCount >= old(pm.dev.hal.opCount)
  {
    hdr := SlotHeader(0, 0, 0);
    var commit, h;
    ghost var b := SlotBytes(f, pm.Bytes(p), slot);
    JudgeExactly(f, b);
    ViewExactly(f, b);
    hide Judge, View, Crc32, SlotBytes, SlotAt, Decode32, Decode64, Decode;
    err, commit := ReadSlotBytes(pm, p, f, slot, f.CommitAt(), 1);
    if err != OK || commit[0] != COMMIT {
      return NOT_FOUND, hdr;
    }
    err, h := ReadSlotBytes(pm, p, f, slot, 0, HEADER);
    if err != OK {
      return err, hdr;
    }
    HeaderSlices(f, b, h);
    if Decode32(h[0..4]) != f.magic {
      return NOT_FOUND, hdr;
    }
    var len := Decode(h[16..16 + f.lenWidth]);
    if len > f.maxPayload {
      return INVALID_SIZE, hdr;
    }
    err := CheckPayload(pm, p, f, slot, h, len, b);
    if err == OK {
      hdr := SlotHeader(Decode32(h[4..8]), Decode64(h[8..16]), len);
    }
  }

  /** The checksum over the header and the payload, the payload read if there is one. */
  method CheckPayload(pm: Pm, p: Part, f: Format, slot: nat, h: seq<byte>, len: nat, ghost b: seq<byte>)
    returns (err: Err)
    requires pm.Owns(p) && SlotInPart(f, p, slot) && pm.Healthy() && len <= f.maxPayload
    requires b == SlotBytes(f, pm.Bytes(p), slot) && h == b[0..HEADER]
    modifies pm.dev.hal`opCount
    ensures pm.dev.hal.ShouldFail() ==> err == FAIL
    ensures !pm.dev.hal.ShouldFail() ==>
              err == if Crc32(f.step, 0, b[..20] + b[24..24 + len]) != Decode32(b[20..24]) then INVALID_CRC else OK
    ensures pm.dev.hal.opCount >= old(pm.dev.hal.opCount)
  {
    hide SlotBytes, SlotAt;
    HeaderSlices(f, b, h);
    Crc32Concat(f.step, 0, b[..20], b[24..24 + len]);
    var crc := Crc32(f.step, 0, h[..20]);
    if len > 0 {
      var payload;
      err, payload := ReadSlotBytes(pm, p, f, slot, HEADER, len);
      if err != OK {
        return;
      }
      crc := Crc32(f.step, crc, payload);
    }
    return if crc != Decode32(h[20..24]) then INVALID_CRC else OK;
  }

  /** The scan of the first `n` slots for the first with the largest valid number. */
  method FindNewest(pm: Pm, p: Part, f: Format, n: nat) returns (newest: Option<nat>, counter: u32)
    requires pm.Owns(p) && f.Valid() && SlotAt(f, n) <= p.size
    modifies pm.dev.hal`opCount
    ensures newest.Some? ==> newest.value < n
    ensures pm.Healthy() ==>
              var v := Table(f, pm.Bytes(p), n);
              && newest == Best(v, n)
              && (newest.Some? ==> v[newest.value].Some? && v[newest.value].value.counter == counter)
    ensures pm.dev.hal.opCount >= old(pm.dev.hal.opCount)
  {
    hide View, Judge, SlotAt, Crc32, Decode, Decode32, Decode64;
    ghost var v := Table(f, pm.Bytes(p), n);
    newest, counter := None, 0;
    for slot := 0 to n
      invariant newest.Some? ==> newest.value < n
      invariant pm.dev.hal.opCount >= old(pm.dev.hal.opCount)
      invariant pm.Healthy() ==>
                  && newest == Best(v, slot)
                  && (newest.Some? ==> v[newest.value].Some? && v[newest.value].value.counter == counter)
    {
      SlotFits(f, slot, n, p.size);
      JudgeView(f, SlotBytes(f, pm.Bytes(p), slot));
      var err, hdr := ValidateSlot(pm, p, f, slot);
      if err == OK && (newest.None? || hdr.counter > counter) {
        newest, counter := Some(slot), hdr.counter;
      }
    }
  }

  lemma JudgeView(f: Format, b: seq<byte>)
    requires f.Valid() && |b| == f.SlotSize()
    ensures View(f, b).Some? <==> ErrOf(Judge(f, b)) == OK
  {
  }

  lemma HeaderSlices(f: Format, b: seq<byte>, h: seq<byte>)
    requires f.Valid() && |b| == f.SlotSize() && h == b[0..HEADER]
    ensures h[0..4] == b[0..4] && h[4..8] == b[4..8] && h[8..16] == b[8..16]
    ensures h[16..16 + f.lenWidth] == b[16..16 + f.lenWidth] && h[20..24] == b[20..24] && h[..20] == b[..20]
  {
    SliceOfSlice(b, 0, HEADER, 0, 4);
    SliceOfSlice(b, 0, HEADER, 4, 8);
    SliceOfSlice(b, 0, HEADER, 8, 16);
    SliceOfSlice(b, 0, HEADER, 16, 16 + f.lenWidth);
    SliceOfSlice(b, 0, HEADER, 20, 24);
    SliceOfSlice(b, 0, HEADER, 0, 20);
  }

  /**
   The writes of one append or save, in order, stopping at the first that fails. The partition then holds the whole
   script, or the script cut short at that write.
   */
  method WriteSlot(pm: Pm, p: Part, f: Format, slot: nat, e: Entry) returns (err: Err, ghost cut: Cut)
    requires pm.Owns(p) && SlotInPart(f, p, slot) && |e.payload| <= f.maxPayload
    modifies pm.dev.hal`opCount, pm.dev.hal.buffer
    ensures err == OK ==> pm.Bytes(p) == LandAll(old(pm.Bytes(p)), ScriptAt(f, slot, e))
    ensures err != OK ==> IsCut(SlotScript(f, e), cut) && IsCut(ScriptAt(f, slot, e), cut)
                          && pm.Bytes(p) == Torn(old(pm.Bytes(p)), ScriptAt(f, slot, e), cut)
    ensures SameOutside(old(pm.dev.hal.Mem()), pm.dev.hal.Mem(), p.offset, p.End())
    ensures !pm.initialized || p.flags % 2 == 1 ==> pm.dev.hal.Mem() == old(pm.dev.hal.Mem())
    ensures err == pm.WriteResult(p)
    ensures pm.dev.hal.opCount >= old(pm.dev.hal.opCount)
  {
    SlotAtIsProduct(f, slot);
    var base, h := slot * f.SlotSize(), Header(f, e);
    ghost var s, ws := pm.Bytes(p), ScriptAt(f, slot, e);
    ScriptElements(f, slot, e);
    hide ScriptAt, SlotScript, Header, SlotAt, LandUpTo, Torn;
    WithinPart(ws, base, base + f.SlotSize(), p.size);
    LandNone(s, ws);
    err, cut := WriteNext(pm, p, base + f.CommitAt(), [0], s, ws, 0);
    if err != OK {
      return;
    }
    err, cut := WriteRecord(pm, p, base, h, e.payload, base + f.CommitAt(), s, ws);
  }

  /** Header, payload if there is one, commit byte. */
  method WriteRecord(pm: Pm, p: Part, base: nat, h: seq<byte>, payload: seq<byte>, commitAt: nat,
                     ghost s: seq<byte>, ghost ws: seq<Write>)
    returns (err: Err, ghost cut: Cut)
    requires pm.Owns(p) && |s| == p.size && Within(ws, 0, p.size)
    requires |ws| == (if |payload| > 0 then 4 else 3)
    requires ws[1] == Write(base, h) && (|payload| > 0 ==> ws[2] == Write(base + HEADER, payload))
    requires ws[|ws| - 1] == Write(commitAt, [COMMIT]) && pm.Bytes(p) == LandUpTo(s, ws, 1)
    modifies pm.dev.hal`opCount, pm.dev.hal.buffer
    ensures err == OK ==> pm.Bytes(p) == LandAll(s, ws)
    ensures err != OK ==> IsCut(ws, cut) && pm.Bytes(p) == Torn(s, ws, cut)
    ensures SameOutside(old(pm.dev.hal.Mem()), pm.dev.hal.Mem(), p.offset, p.End())
    ensures !pm.initialized || p.flags % 2 == 1 ==> pm.dev.hal.Mem() == old(pm.dev.hal.Mem())
    ensures err == pm.WriteResult(p)
    ensures pm.dev.hal.opCount >= old(pm.dev.hal.opCount)
  {
    hide LandUpTo, Torn;
    err, cut := WriteNext(pm, p, base, h, s, ws, 1);
    if err == OK && |payload| > 0 {
      err, cut := WriteNext(pm, p, base + HEADER, payload, s, ws, 2);
    }
    if err == OK {
      err, cut := WriteNext(pm, p, commitAt, [COMMIT], s, ws, |ws| - 1);
    }
  }

  lemma ScriptElements(f: Format, slot: nat, e: Entry)
    requires f.Valid() && |e.payload| <= f.maxPayload
    ensures var ws, base := ScriptAt(f, slot, e), SlotAt(f, slot);
            && Within(ws, base, base + f.SlotSize())
            && |ws| == (if |e.payload| > 0 then 4 else 3)
            && ws[0] == Write(base + f.CommitAt(), [0]) && ws[1] == Write(base, Header(f, e))
            && (|e.payload| > 0 ==> ws[2] == Write(base + HEADER, e.payload))
            && ws[|ws| - 1] == Write(base + f.CommitAt(), [COMMIT])
    ensures forall c :: IsCut(ScriptAt(f, slot, e), c) ==> IsCut(SlotScript(f, e), c)
  {
  }

  lemma ScriptFits(f: Format, slot: nat, e: Entry, size: nat)
    requires f.Valid() && |e.payload| <= f.maxPayload && SlotAt(f, slot) + f.SlotSize() <= size
    ensures Within(ScriptAt(f, slot, e), 0, size)
  {
  }

  lemma SameCutSizes(f: Format, n: u32, ts: u64, payload: seq<byte>, cut: Cut)
    requires f.Valid() && |payload| <= f.maxPayload && IsCut(SlotScript(f, Entry(n, ts, payload)), cut)
    ensures IsCut(SlotScript(f, Entry(0, ts, payload)), cut)
  {
  }
}
