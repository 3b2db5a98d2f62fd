/**
 The slot codec shared by the ring log and the versioned slots: a 24-byte packed header, a payload area of
 fixed size and one commit byte. The two formats differ in the width of the length field only (`uint16_t` and
 a zero `reserved` half-word in the ring, `uint32_t` in the versioned slots).
 */
module Slots {
  import opened Bytes
  import opened Crc
  import opened Crash

  const COMMIT: byte := 0xA5
  const HEADER: nat := 24

  /** What one primitive fixes for all its slots. */
  datatype Format = Format(maxPayload: nat, magic: u32, lenWidth: nat, step: Step) {
    function CommitAt(): nat { HEADER + maxPayload }

    function SlotSize(): nat { CommitAt() + 1 }

    ghost predicate Valid() {
      0 < maxPayload <= 1024 && (lenWidth == 2 || lenWidth == 4)
    }
  }

  /** A record a slot can hold; `counter` is the ring's `seq` and the versioned slot's `version`. */
  datatype Entry = Entry(counter: u32, ts: u64, payload: seq<byte>)

  /** What `validate_slot` answers. */
  datatype Verdict = Committed | Absent | BadSize | BadCrc

  function LenOf(f: Format, b: seq<byte>): nat
    requires f.Valid() && |b| == f.SlotSize()
  {
    Decode(b[16..16 + f.lenWidth])
  }

  function Judge(f: Format, b: seq<byte>): Verdict
    requires f.Valid() && |b| == f.SlotSize()
  {
    if b[f.CommitAt()] != COMMIT || Decode32(b[0..4]) != f.magic then Absent
    else if LenOf(f, b) > f.maxPayload then BadSize
    else if Crc32(f.step, Crc32(f.step, 0, b[..20]), b[HEADER..HEADER + LenOf(f, b)]) != Decode32(b[20..24])
    then BadCrc
    else Committed
  }

  /** The record a slot's bytes hold, if they hold one. */
  function View(f: Format, b: seq<byte>): (e: Option<Entry>)
    requires f.Valid() && |b| == f.SlotSize()
    ensures e.Some? ==> |e.value.payload| <= f.maxPayload
  {
    if Judge(f, b) == Committed
    then Some(Entry(Decode32(b[4..8]), Decode64(b[8..16]), b[HEADER..HEADER + LenOf(f, b)]))
    else None
  }

  /** The verdict on the bytes of a slot, byte by byte. */
  lemma JudgeExactly(f: Format, b: seq<byte>)
    requires f.Valid() && |b| == f.SlotSize()
    ensures |b| == 25 + f.maxPayload
    ensures var len := Decode(b[16..16 + f.lenWidth]);
            Judge(f, b) ==
              if b[24 + f.maxPayload] != 0xA5 || Decode32(b[0..4]) != f.magic then Absent
              else if len > f.maxPayload then BadSize
              else if Crc32(f.step, 0, b[..20] + b[24..24 + len]) != Decode32(b[20..24]) then BadCrc
              else Committed
  {
    var len := LenOf(f, b);
    if len <= f.maxPayload {
      Crc32Concat(f.step, 0, b[..20], b[24..24 + len]);
    }
  }

  /** What makes the bytes of a slot a record, byte by byte, and which record. */
  lemma ViewExactly(f: Format, b: seq<byte>)
    requires f.Valid() && |b| == f.SlotSize()
    ensures |b| == 25 + f.maxPayload
    ensures var len := Decode(b[16..16 + f.lenWidth]);
            View(f, b).Some? <==>
            && b[24 + f.maxPayload] == 0xA5 && Decode32(b[0..4]) == f.magic && len <= f.maxPayload
            && Crc32(f.step, 0, b[..20] + b[24..24 + len]) == Decode32(b[20..24])
    ensures View(f, b).Some? ==>
              var len := Decode(b[16..16 + f.lenWidth]);
              len <= f.maxPayload && View(f, b).value == Entry(Decode32(b[4..8]), Decode64(b[8..16]), b[24..24 + len])
  {
    JudgeExactly(f, b);
    hide Judge;
  }

  /**
   If the step loses no difference, one byte changed in a record leaves the slot without one: any byte but those of
   the length field and those behind the payload.
   */
  lemma OneByteLost(f: Format, b: seq<byte>, k: nat, x: byte)
    requires f.Valid() && |b| == f.SlotSize() && View(f, b).Some? && Injective(f.step) && k < |b| && x != b[k]
    requires k < 16 || 16 + f.lenWidth <= k < 24 + |View(f, b).value.payload| || k == 24 + f.maxPayload
    ensures View(f, b[k := x]) == None
  {
    var t, len := b[k := x], LenOf(f, b);
    ViewExactly(f, b);
    ViewExactly(f, t);
    hide View;
    assert t[16..16 + f.lenWidth] == b[16..16 + f.lenWidth];
    CheckedBytes(b, len, k, x);
    if k < 20 {
      OneByteDetected(f.step, 0, b[..20] + b[24..24 + len], k, x);
    } else if k < 24 {
      DecodeInjective(t[20..24], b[20..24]);
    } else if k < 24 + len {
      OneByteDetected(f.step, 0, b[..20] + b[24..24 + len], k - 4, x);
    }
  }

  /** What a changed byte does to the bytes the checksum is taken of, and to the checksum. */
  lemma CheckedBytes(b: seq<byte>, len: nat, k: nat, x: byte)
    requires 24 + len < |b| && k < |b| && x != b[k]
    ensures var t := b[k := x];
            var data, data' := b[..20] + b[24..24 + len], t[..20] + t[24..24 + len];
            && (k < 20 ==> data' == data[k := x])
            && (24 <= k < 24 + len ==> data' == data[k - 4 := x])
            && (20 <= k < 24 || 24 + len <= k ==> data' == data)
            && (20 <= k < 24 <==> t[20..24] != b[20..24])
  {
    if 20 <= k < 24 {
      assert b[k := x][20..24][k - 20] != b[20..24][k - 20];
    }
  }

  function HeaderPrefix(f: Format, e: Entry): (h: seq<byte>)
    requires f.Valid()
    ensures |h| == 20
  {
    Encode(f.magic, 4) + Encode(e.counter, 4) + Encode(e.ts, 8) + Encode(|e.payload|, f.lenWidth) +
    Repeat(0, 4 - f.lenWidth)
  }

  function EntryCrc(f: Format, e: Entry): u32
    requires f.Valid()
  {
    Crc32(f.step, Crc32(f.step, 0, HeaderPrefix(f, e)), e.payload)
  }

  function Header(f: Format, e: Entry): (h: seq<byte>)
    requires f.Valid()
    ensures |h| == HEADER
  {
    HeaderPrefix(f, e) + Encode(EntryCrc(f, e), 4)
  }

  /** The writes of one append or save, relative to the start of the slot: un-commit, header, payload, commit. */
  function SlotScript(f: Format, e: Entry): (ws: seq<Write>)
    requires f.Valid() && |e.payload| <= f.maxPayload
    ensures Within(ws, 0, f.SlotSize())
  {
    RawScript(f, Header(f, e), e.payload)
  }

  function RawScript(f: Format, h: seq<byte>, p: seq<byte>): (ws: seq<Write>)
    requires |h| == HEADER && |p| <= f.maxPayload
    ensures Within(ws, 0, f.SlotSize())
  {
    if p == []
    then [Write(f.CommitAt(), [0]), Write(0, h), Write(f.CommitAt(), [COMMIT])]
    else [Write(f.CommitAt(), [0]), Write(0, h), Write(HEADER, p), Write(f.CommitAt(), [COMMIT])]
  }

  lemma HeaderFields(f: Format, e: Entry)
    requires f.Valid() && |e.payload| <= f.maxPayload
    ensures var h := Header(f, e);
            && h[..20] == HeaderPrefix(f, e)
            && Decode32(h[0..4]) == f.magic
            && Decode32(h[4..8]) == e.counter
            && Decode64(h[8..16]) == e.ts
            && Decode(h[16..16 + f.lenWidth]) == |e.payload|
            && Decode32(h[20..24]) == EntryCrc(f, e)
            && forall i :: 16 + f.lenWidth <= i < 20 ==> h[i] == 0
  {
    var h := Header(f, e);
    assert forall i :: 16 + f.lenWidth <= i < 20 ==> h[i] == HeaderPrefix(f, e)[i];
    assert h[0..4] == Encode(f.magic, 4);
    assert h[4..8] == Encode(e.counter, 4);
    assert h[8..16] == Encode(e.ts, 8);
    assert h[16..16 + f.lenWidth] == Encode(|e.payload|, f.lenWidth);
    assert h[20..24] == Encode(EntryCrc(f, e), 4);
    assert Pow256(4) == 0x1_0000_0000 && Pow256(8) == 0x1_0000_0000_0000_0000 && Pow256(2) == 0x1_0000;
    DecodeEncode(f.magic, 4);
    DecodeEncode(e.counter, 4);
    DecodeEncode(e.ts, 8);
    DecodeEncode(|e.payload|, f.lenWidth);
    DecodeEncode(EntryCrc(f, e), 4);
  }

  lemma ViewOfParts(f: Format, e: Entry, b: seq<byte>)
    requires f.Valid() && |e.payload| <= f.maxPayload && |b| == f.SlotSize()
    requires b[..HEADER] == Header(f, e) && b[HEADER..HEADER + |e.payload|] == e.payload
    requires b[f.CommitAt()] == COMMIT
    ensures View(f, b) == Some(e)
  {
    HeaderFields(f, e);
    var h := b[..HEADER];
    assert b[..20] == h[..20] && b[0..4] == h[0..4] && b[4..8] == h[4..8] && b[8..16] == h[8..16];
    assert b[16..16 + f.lenWidth] == h[16..16 + f.lenWidth] && b[20..24] == h[20..24];
  }

  lemma RawScriptDone(f: Format, h: seq<byte>, p: seq<byte>, b: seq<byte>)
    requires |h| == HEADER && |p| <= f.maxPayload && |b| == f.SlotSize()
    ensures var r := LandAll(b, RawScript(f, h, p));
            && r[..HEADER] == h && r[HEADER..HEADER + |p|] == p && r[f.CommitAt()] == COMMIT
            && forall i :: HEADER + |p| <= i < f.CommitAt() ==> r[i] == b[i]
  {
    var ws := RawScript(f, h, p);
    var b1 := LandUpTo(b, ws, 1);
    var b2 := LandUpTo(b, ws, 2);
    var b3 := LandUpTo(b, ws, 3);
    assert b2[..HEADER] == h;
    if p != [] {
      assert b3[HEADER..HEADER + |p|] == p;
      var b4 := LandUpTo(b, ws, 4);
      assert b4 == LandAll(b, ws);
    }
    forall i | HEADER + |p| <= i < f.CommitAt()
      ensures LandAll(b, ws)[i] == b[i]
    {
      assert LandUpTo(b, ws, 0) == b;
      assert b2[i] == b1[i] == b[i];
      assert b3[i] == b2[i];
    }
  }

  /** Print then parse: a finished script makes the slot hold exactly the record, whatever the slot held before. */
  lemma ScriptDone(f: Format, e: Entry, b: seq<byte>)
    requires f.Valid() && |e.payload| <= f.maxPayload && |b| == f.SlotSize()
    ensures var t := LandAll(b, SlotScript(f, e));
            && View(f, t) == Some(e)
            && (forall i :: 16 + f.lenWidth <= i < 20 ==> t[i] == 0)
            && (forall i :: 24 + |e.payload| <= i < 24 + f.maxPayload ==> t[i] == b[i])
  {
    RawScriptDone(f, Header(f, e), e.payload, b);
    HeaderFields(f, e);
    hide LandAll, LandUpTo, RawScript, Header, View;
    var t := LandAll(b, SlotScript(f, e));
    ViewOfParts(f, e, t);
    assert forall i :: 16 + f.lenWidth <= i < 20 ==> t[i] == t[..HEADER][i];
  }

  /**
   A script stopped anywhere leaves the slot exactly as it was (nothing landed yet) or un-committed: no torn
   record is ever valid, whatever the checksum.
   */
  lemma ScriptTorn(f: Format, e: Entry, b: seq<byte>, c: Cut)
    requires f.Valid() && |e.payload| <= f.maxPayload && |b| == f.SlotSize()
    requires IsCut(SlotScript(f, e), c)
    ensures var t := Torn(b, SlotScript(f, e), c);
            if c.index == 0 then t == b else t[f.CommitAt()] != COMMIT && View(f, t) == None
  {
    var ws := SlotScript(f, e);
    RawScriptTorn(f, Header(f, e), e.payload, b, c);
  }

  lemma RawScriptTorn(f: Format, h: seq<byte>, p: seq<byte>, b: seq<byte>, c: Cut)
    requires |h| == HEADER && |p| <= f.maxPayload && |b| == f.SlotSize()
    requires IsCut(RawScript(f, h, p), c)
    ensures var t := Torn(b, RawScript(f, h, p), c);
            if c.index == 0 then t == b else t[f.CommitAt()] == 0
  {
    var ws := RawScript(f, h, p);
    var b1 := LandUpTo(b, ws, 1);
    if c.index >= 2 {
      var b2 := LandUpTo(b, ws, 2);
      if c.index == 3 {
        var b3 := LandUpTo(b, ws, 3);
      }
    }
  }

  /**
   Erasing a prefix of a valid slot leaves it bit-identical or invalid, as soon as an erased word differs from the
   magic number.
   */
  lemma ErasedPrefix(f: Format, b: seq<byte>, k: nat)
    requires f.Valid() && |b| == f.SlotSize() && k <= |b|
    requires f.magic != U32_MAX && View(f, b).Some?
    ensures var t := EraseTo(b, k);
            t == b || View(f, t) == None
  {
    var t := EraseTo(b, k);
    if k >= 4 {
      assert t[0..4] == [0xFF, 0xFF, 0xFF, 0xFF];
      assert Decode([0xFF, 0xFF, 0xFF, 0xFF]) == U32_MAX;
    } else if t[0..4] == b[0..4] {
      forall i | 0 <= i < |b|
        ensures t[i] == b[i]
      {
        if i < 4 {
          assert t[i] == t[0..4][i] && b[i] == b[0..4][i];
        }
      }
      assert t == b;
    } else {
      EncodeDecode(t[0..4]);
      EncodeDecode(b[0..4]);
    }
  }

  /** The magic number as it stands in a slot. */
  function Magic(f: Format): (m: seq<byte>)
    ensures |m| == 4
  {
    Encode(f.magic, 4)
  }

  lemma MagicBytes(f: Format, b: seq<byte>)
    requires |b| == 4
    ensures Decode32(b) == f.magic <==> b == Magic(f)
    ensures Magic(f) == Repeat(0xFF, 4) <==> f.magic == U32_MAX
    ensures Magic(f)[0] == f.magic % 0x100
  {
    assert Pow256(4) == 0x1_0000_0000;
    DecodeEncode(f.magic, 4);
    EncodeDecode(b);
    DecodeEncode(U32_MAX, 4);
    assert Encode(U32_MAX, 4) == Repeat(0xFF, 4) by {
      assert U32_MAX % 0x100 == 0xFF && U32_MAX / 0x100 == 0xFF_FFFF;
      assert Encode(0xFF_FFFF, 3) == [0xFF] + Encode(0xFFFF, 2);
      assert Encode(0xFFFF, 2) == [0xFF] + Encode(0xFF, 1);
    }
  }

  /** How many bytes of the magic number an erase can write: its first ones that are 0xFF. */
  function BlankBytes(f: Format): (n: nat)
    ensures n <= 3
    ensures forall i :: 0 <= i < n ==> Magic(f)[i] == 0xFF
    ensures f.magic != U32_MAX ==> Magic(f)[n] != 0xFF
    ensures n > 0 <==> f.magic % 0x100 == 0xFF
  {
    var m := Magic(f);
    MagicBytes(f, m);
    if m[0] != 0xFF then 0 else if m[1] != 0xFF then 1 else if m[2] != 0xFF then 2 else 3
  }

  /** The slot with the right magic number. */
  function WithMagic(f: Format, b: seq<byte>): (t: seq<byte>)
    requires |b| == f.SlotSize()
    ensures |t| == |b|
  {
    Magic(f) + b[4..]
  }

  /**
   The slot holds a record or an interrupted erase cannot make it one: it is not the case that all it lacks to be a
   record are such first bytes of the magic number.
   */
  predicate Tame(f: Format, b: seq<byte>)
    requires f.Valid() && |b| == f.SlotSize()
  {
    var n := BlankBytes(f);
    View(f, b).Some? || b[n..4] != Magic(f)[n..] || View(f, WithMagic(f, b)).None?
  }

  /** An erase stopped after `k` bytes keeps the slot, or leaves it without a record. */
  ghost predicate OnlyErased(f: Format, b: seq<byte>, k: nat)
    requires f.Valid() && |b| == f.SlotSize() && k <= |b|
  {
    EraseTo(b, k) == b || View(f, EraseTo(b, k)) == None
  }

  /** A slot that is not committed is tame. */
  lemma UncommittedTame(f: Format, b: seq<byte>)
    requires f.Valid() && |b| == f.SlotSize() && b[f.CommitAt()] != COMMIT
    ensures Tame(f, b)
  {
    assert WithMagic(f, b)[f.CommitAt()] == b[f.CommitAt()];
  }

  /** Every slot is, if the low byte of the magic number is not the erase value. */
  lemma LowByteTame(f: Format, b: seq<byte>)
    requires f.Valid() && |b| == f.SlotSize() && f.magic % 0x100 != 0xFF
    ensures Tame(f, b)
  {
    if b[0..4] == Magic(f) {
      assert WithMagic(f, b) == b;
    }
  }

  lemma TameErased(f: Format, b: seq<byte>, k: nat)
    requires f.Valid() && |b| == f.SlotSize() && k <= |b| && f.magic != U32_MAX && Tame(f, b)
    ensures OnlyErased(f, b, k)
  {
    var t, m, n := EraseTo(b, k), Magic(f), BlankBytes(f);
    MagicBytes(f, t[0..4]);
    MagicBytes(f, b[0..4]);
    if View(f, t).Some? {
      assert t[0..4] == m;
      forall i | 0 <= i < 4
        ensures m[i] == if i < k then 0xFF else b[i]
      {
        assert m[i] == t[0..4][i];
      }
      assert k <= n;
      assert b[n..4] == m[n..];
      assert t == WithMagic(f, b);
      if View(f, b).Some? {
        assert t == b by {
          assert b == b[0..4] + b[4..];
        }
      }
    }
  }

  /** The test is exact: a slot is tame if and only if every interrupted erase keeps it or leaves no record in it. */
  lemma TameExactly(f: Format, b: seq<byte>)
    requires f.Valid() && |b| == f.SlotSize() && f.magic != U32_MAX
    ensures Tame(f, b) <==> forall k: nat :: k <= |b| ==> OnlyErased(f, b, k)
  {
    if Tame(f, b) {
      forall k: nat | k <= |b|
        ensures OnlyErased(f, b, k)
      {
        TameErased(f, b, k);
      }
    } else {
      UntameRevives(f, b);
    }
  }

  lemma UntameRevives(f: Format, b: seq<byte>)
    requires f.Valid() && |b| == f.SlotSize() && !Tame(f, b)
    ensures View(f, b).None? && View(f, EraseTo(b, BlankBytes(f))).Some? && !OnlyErased(f, b, BlankBytes(f))
    ensures 0 < BlankBytes(f)
  {
    var m, n := Magic(f), BlankBytes(f);
    if n == 0 {
      LowByteTame(f, b);
    }
    forall i | n <= i < 4
      ensures b[i] == m[i]
    {
      assert b[n..4][i - n] == m[n..][i - n];
    }
    assert EraseTo(b, n) == WithMagic(f, b);
  }

  /** Interrupted erases may be repeated: a tame slot stays tame, and is bit-identical or invalid. */
  lemma ErasedTame(f: Format, b: seq<byte>, k: nat)
    requires f.Valid() && |b| == f.SlotSize() && k <= |b| && f.magic != U32_MAX && Tame(f, b)
    ensures var t := EraseTo(b, k);
            Tame(f, t) && (t == b || View(f, t) == None)
  {
    hide View, Tame;
    var t := EraseTo(b, k);
    TameErased(f, b, k);
    forall j: nat | j <= |t|
      ensures OnlyErased(f, t, j)
    {
      ErasedTwice(b, k, j);
      TameErased(f, b, if j > k then j else k);
    }
    TameExactly(f, t);
  }

  lemma ErasedTwice(b: seq<byte>, k: nat, j: nat)
    requires k <= |b| && j <= |b|
    ensures var m := if j > k then j else k;
            EraseTo(EraseTo(b, k), j) == EraseTo(b, m) && (EraseTo(b, m) == b ==> EraseTo(b, k) == b)
  {
    var m := if j > k then j else k;
    assert forall i :: 0 <= i < k ==> EraseTo(b, m)[i] == 0xFF;
  }

  /** A slot an erase revives, for a magic number whose low byte is the erase value. */
  function Sleeper(f: Format): (b: seq<byte>)
    requires f.Valid()
    ensures |b| == f.SlotSize()
  {
    [0] + Header(f, Entry(0, 0, []))[1..] + Repeat(0xFF, f.maxPayload) + [COMMIT]
  }

  lemma SleeperRevives(f: Format)
    requires f.Valid() && f.magic % 0x100 == 0xFF
    ensures View(f, Sleeper(f)) == None && View(f, EraseTo(Sleeper(f), 1)) == Some(Entry(0, 0, []))
  {
    var e, b := Entry(0, 0, []), Sleeper(f);
    var h, t := Header(f, e), EraseTo(b, 1);
    HeaderFields(f, e);
    MagicBytes(f, h[0..4]);
    MagicBytes(f, b[0..4]);
    assert h[0] == h[0..4][0] && b[0..4][0] == 0;
    assert t[..HEADER] == h;
    ViewOfParts(f, e, t);
  }

  /**
   Over all slots: interrupted erases never make a record out of a slot that holds none, nor another record out of
   one that does, if and only if the low byte of the magic number is not the erase value.
   */
  lemma EraseHarmlessIff(f: Format)
    requires f.Valid()
    ensures (forall b: seq<byte>, k: nat :: |b| == f.SlotSize() && k <= |b| ==> OnlyErased(f, b, k)) <==>
            f.magic % 0x100 != 0xFF
  {
    if f.magic % 0x100 != 0xFF {
      forall b: seq<byte>, k: nat | |b| == f.SlotSize() && k <= |b|
        ensures OnlyErased(f, b, k)
      {
        LowByteTame(f, b);
        TameErased(f, b, k);
      }
    } else {
      SleeperRevives(f);
      assert !OnlyErased(f, Sleeper(f), 1);
    }
  }
}
