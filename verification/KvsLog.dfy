/**
 The key-value log as bytes: how a record is printed, how the scan parses it back, and what the bytes after the
 last record must look like for the scan to stop there.
 */
module KvsLog {
  import opened Bytes
  import opened Crc
  import opened Crash

  const COMMIT: byte := 0xA5
  const HEADER: nat := 20
  const KEY_MAX: nat := 15

  datatype Config = Config(magic: u32, maxValue: nat, step: Step) {
    /** The configured value limit lies in the range the build options allow. */
    ghost predicate Valid() { 1 <= maxValue <= 4096 }
  }

  datatype Record = Record(seqNo: u32, flags: byte, key: seq<byte>, value: seq<byte>) {
    function Size(): nat { HEADER + |key| + |value| + 1 }

    /** Bit 0 of the flags marks a tombstone. */
    predicate Deleted() { flags % 2 == 1 }
  }

  ghost predicate Storable(c: Config, r: Record) {
    1 <= |r.key| <= KEY_MAX && |r.value| <= c.maxValue
  }

  // ------------------------------------------------------------ parsing

  predicate HeaderOk(c: Config, h: seq<byte>)
    requires |h| == HEADER
  {
    Decode32(h[0..4]) == c.magic && 1 <= Decode16(h[8..10]) <= KEY_MAX && Decode16(h[10..12]) <= c.maxValue
  }

  /** The bytes a record with this header takes, commit byte included. */
  function SizeOf(h: seq<byte>): nat
    requires |h| == HEADER
  {
    HEADER + Decode16(h[8..10]) + Decode16(h[10..12]) + 1
  }

  function RecordCrc(c: Config, prefix: seq<byte>, key: seq<byte>, value: seq<byte>): u32 {
    Crc32(c.step, Crc32(c.step, Crc32(c.step, 0, prefix), key), value)
  }

  function Fields(h: seq<byte>, body: seq<byte>): Record
    requires |h| == HEADER && |body| == Decode16(h[8..10]) + Decode16(h[10..12])
  {
    Record(Decode32(h[4..8]), h[12], body[..Decode16(h[8..10])], body[Decode16(h[8..10])..])
  }

  /** The record that starts at `off`, if one does. */
  function ParseAt(c: Config, s: seq<byte>, off: nat): (r: Option<Record>)
    ensures r.Some? ==> Storable(c, r.value) && off + r.value.Size() <= |s|
  {
    if off + HEADER + 1 > |s| then None
    else
      var h := s[off..off + HEADER];
      if !HeaderOk(c, h) || off + SizeOf(h) > |s| || s[off + SizeOf(h) - 1] != COMMIT then None
      else
        var r := Fields(h, s[off + HEADER..off + SizeOf(h) - 1]);
        if RecordCrc(c, h[..16], r.key, r.value) != Decode32(h[16..20]) then None else Some(r)
  }

  /** What makes the bytes at `off` a record, byte by byte, and which record. */
  lemma ParseAtExactly(c: Config, s: seq<byte>, off: nat)
    requires off + 21 <= |s|
    ensures var keyLen, valueLen := Decode16(s[off + 8..off + 10]), Decode16(s[off + 10..off + 12]);
            ParseAt(c, s, off).Some? <==>
            && Decode32(s[off..off + 4]) == c.magic && 1 <= keyLen <= 15 && valueLen <= c.maxValue
            && off + 21 + keyLen + valueLen <= |s| && s[off + 20 + keyLen + valueLen] == 0xA5
            && Crc32(c.step, 0, s[off..off + 16] + s[off + 20..off + 20 + keyLen + valueLen]) ==
               Decode32(s[off + 16..off + 20])
    ensures ParseAt(c, s, off).Some? ==>
              var keyLen, valueLen := Decode16(s[off + 8..off + 10]), Decode16(s[off + 10..off + 12]);
              && off + 20 + keyLen + valueLen < |s|
              && ParseAt(c, s, off).value ==
                 Record(Decode32(s[off + 4..off + 8]), s[off + 12], s[off + 20..off + 20 + keyLen],
                        s[off + 20 + keyLen..off + 20 + keyLen + valueLen])
  {
    var h := s[off..off + HEADER];
    HeaderFieldsAt(s, off);
    if off + SizeOf(h) <= |s| {
      BodyAt(c, s, off);
    }
  }

  /** The fields of a header, by their addresses. */
  lemma HeaderFieldsAt(s: seq<byte>, off: nat)
    requires off + HEADER <= |s|
    ensures var h := s[off..off + HEADER];
            && h[0..4] == s[off..off + 4] && h[4..8] == s[off + 4..off + 8] && h[8..10] == s[off + 8..off + 10]
            && h[10..12] == s[off + 10..off + 12] && h[12] == s[off + 12] && h[16..20] == s[off + 16..off + 20]
            && h[..16] == s[off..off + 16]
  {
    SliceOfSlice(s, off, off + HEADER, 0, 4);
    SliceOfSlice(s, off, off + HEADER, 4, 8);
    SliceOfSlice(s, off, off + HEADER, 8, 10);
    SliceOfSlice(s, off, off + HEADER, 10, 12);
    SliceOfSlice(s, off, off + HEADER, 16, 20);
    SliceOfSlice(s, off, off + HEADER, 0, 16);
  }

  /** Key and value, by their addresses; a record's checksum is that of 16 header bytes, key and value in one. */
  lemma BodyAt(c: Config, s: seq<byte>, off: nat)
    requires off + HEADER <= |s| && off + SizeOf(s[off..off + HEADER]) <= |s|
    ensures var h := s[off..off + HEADER];
            var r := Fields(h, s[off + HEADER..off + SizeOf(h) - 1]);
            var keyLen, valueLen := Decode16(h[8..10]), Decode16(h[10..12]);
            && r.key == s[off + 20..off + 20 + keyLen]
            && r.value == s[off + 20 + keyLen..off + 20 + keyLen + valueLen]
            && RecordCrc(c, h[..16], r.key, r.value) ==
               Crc32(c.step, 0, h[..16] + s[off + 20..off + 20 + keyLen + valueLen])
  {
    var h := s[off..off + HEADER];
    var keyLen: nat, valueLen: nat := Decode16(h[8..10]), Decode16(h[10..12]);
    hide Decode16;
    var end := off + SizeOf(h) - 1;
    SliceOfSlice(s, off + HEADER, end, 0, keyLen);
    SliceOfSlice(s, off + HEADER, end, keyLen, keyLen + valueLen);
    var key, value := s[off + 20..off + 20 + keyLen], s[off + 20 + keyLen..end];
    JoinSlices(s, off + 20, off + 20 + keyLen, end);
    Crc32Concat(c.step, 0, h[..16], key + value);
    Crc32Concat(c.step, Crc32(c.step, 0, h[..16]), key, value);
  }

  /**
   If the checksum loses no difference, one byte changed in a record leaves none there: any byte but those of the two
   length fields.
   */
  lemma OneByteStops(c: Config, s: seq<byte>, off: nat, k: nat, x: byte)
    requires ParseAt(c, s, off).Some? && Injective(c.step)
    requires off <= k < off + ParseAt(c, s, off).value.Size() && !(off + 8 <= k < off + 12) && x != s[k]
    ensures ParseAt(c, s[k := x], off) == None
  {
    hide ParseAt, Decode16, Decode32, Crc32, Injective;
    ParseAtExactly(c, s, off);
    var n: nat := Decode16(s[off + 8..off + 10]) + Decode16(s[off + 10..off + 12]);
    SameLengths(s, off, k, x);
    if k < off + 20 + n {
      ChecksumBreaks(c.step, s, off, n, k, x);
    }
    BrokenStops(c, s[k := x], off, n);
  }

  lemma SameLengths(s: seq<byte>, off: nat, k: nat, x: byte)
    requires off + 20 <= |s| && k < |s| && !(off + 8 <= k < off + 12)
    ensures var t := s[k := x];
            t[off + 8..off + 10] == s[off + 8..off + 10] && t[off + 10..off + 12] == s[off + 10..off + 12]
  {
  }

  /** A wrong checksum or commit byte: no record. */
  lemma BrokenStops(c: Config, t: seq<byte>, off: nat, n: nat)
    requires off + 21 + n <= |t| && n == Decode16(t[off + 8..off + 10]) + Decode16(t[off + 10..off + 12])
    requires t[off + 20 + n] != 0xA5 ||
             Crc32(c.step, 0, t[off..off + 16] + t[off + 20..off + 20 + n]) != Decode32(t[off + 16..off + 20])
    ensures ParseAt(c, t, off) == None
  {
    hide ParseAt, Decode16, Decode32, Crc32;
    ParseAtExactly(c, t, off);
  }

  lemma ChecksumBreaks(step: Step, s: seq<byte>, off: nat, n: nat, k: nat, x: byte)
    requires Injective(step) && off + 20 + n < |s| && off <= k < off + 20 + n && x != s[k]
    requires Crc32(step, 0, s[off..off + 16] + s[off + 20..off + 20 + n]) == Decode32(s[off + 16..off + 20])
    ensures var t := s[k := x];
            Crc32(step, 0, t[off..off + 16] + t[off + 20..off + 20 + n]) != Decode32(t[off + 16..off + 20])
  {
    hide Injective, Crc32, Decode32;
    var t := s[k := x];
    var data := s[off..off + 16] + s[off + 20..off + 20 + n];
    ChangedByte(s, off, n, k, x);
    if k < off + 16 {
      OneByteDetected(step, 0, data, k - off, x);
    } else if k < off + 20 {
      StoredDiffers(t[off + 16..off + 20], s[off + 16..off + 20]);
    } else {
      OneByteDetected(step, 0, data, k - off - 4, x);
    }
  }

  lemma StoredDiffers(a: seq<byte>, b: seq<byte>)
    requires |a| == |b| == 4 && a != b
    ensures Decode32(a) != Decode32(b)
  {
    DecodeInjective(a, b);
  }

  /** What a changed byte does to the bytes the checksum is taken of, and to the stored checksum. */
  lemma ChangedByte(s: seq<byte>, off: nat, n: nat, k: nat, x: byte)
    requires off + 20 + n < |s| && off <= k < |s| && x != s[k]
    ensures var t := s[k := x];
            var data := s[off..off + 16] + s[off + 20..off + 20 + n];
            var data' := t[off..off + 16] + t[off + 20..off + 20 + n];
            && (k < off + 16 ==> data' == data[k - off := x])
            && (off + 20 <= k < off + 20 + n ==> data' == data[k - off - 4 := x])
            && (off + 16 <= k < off + 20 || off + 20 + n <= k ==> data' == data)
            && (off + 16 <= k < off + 20 <==> t[off + 16..off + 20] != s[off + 16..off + 20])
  {
    if off + 16 <= k < off + 20 {
      assert s[k := x][off + 16..off + 20][k - off - 16] != s[off + 16..off + 20][k - off - 16];
    }
  }

  /** All the records a scan that starts at `off` meets. */
  function Parse(c: Config, s: seq<byte>, off: nat): (rs: seq<Record>)
    decreases |s| - off
  {
    var r := ParseAt(c, s, off);
    if r.None? then [] else [r.value] + Parse(c, s, off + r.value.Size())
  }

  /** Where that scan stops. */
  function End(c: Config, s: seq<byte>, off: nat): (end: nat)
    ensures off <= end && (off <= |s| ==> end <= |s|)
    decreases |s| - off
  {
    var r := ParseAt(c, s, off);
    if r.None? then off else End(c, s, off + r.value.Size())
  }

  ghost predicate Agree(s: seq<byte>, s': seq<byte>, lo: nat, hi: nat) {
    |s'| == |s| && forall k :: lo <= k < hi && k < |s| ==> s'[k] == s[k]
  }

  /** The record at `off` depends on its own bytes only. */
  lemma ParseAtWindow(c: Config, s: seq<byte>, s': seq<byte>, off: nat)
    requires ParseAt(c, s, off).Some? && Agree(s, s', off, off + ParseAt(c, s, off).value.Size())
    ensures ParseAt(c, s', off) == ParseAt(c, s, off)
  {
    var end := off + ParseAt(c, s, off).value.Size();
    assert s'[off..off + HEADER] == s[off..off + HEADER];
    assert s'[off + HEADER..end - 1] == s[off + HEADER..end - 1];
  }

  /** Changing bytes from the end on keeps every record; the scan then goes on with what is at the end. */
  lemma {:induction false} ParseThrough(c: Config, s: seq<byte>, s': seq<byte>, off: nat)
    requires off <= |s| && Agree(s, s', off, End(c, s, off))
    ensures var end := End(c, s, off);
            && Parse(c, s', off) == Parse(c, s, off) + Parse(c, s', end)
            && End(c, s', off) == End(c, s', end)
    decreases |s| - off
  {
    hide ParseAt;
    var end := End(c, s, off);
    var r := ParseAt(c, s, off);
    if r.None? {
      assert Parse(c, s, off) == [];
    } else {
      var next := off + r.value.Size();
      ParseAtWindow(c, s, s', off);
      ParseThrough(c, s, s', next);
      Regroup(r.value, Parse(c, s, next), Parse(c, s', end));
    }
  }

  lemma Regroup(r: Record, a: seq<Record>, b: seq<Record>)
    ensures [r] + (a + b) == [r] + a + b
  {
  }

  // ------------------------------------------------------------ printing

  function Prefix(c: Config, r: Record): (h: seq<byte>)
    requires Storable(c, r)
    ensures |h| == 16
  {
    Encode(c.magic, 4) + Encode(r.seqNo, 4) + Encode(|r.key|, 2) + Encode(|r.value|, 2) + [r.flags] + Repeat(0, 3)
  }

  function Header(c: Config, r: Record): (h: seq<byte>)
    requires Storable(c, r)
    ensures |h| == HEADER
  {
    Prefix(c, r) + Encode(RecordCrc(c, Prefix(c, r), r.key, r.value), 4)
  }

  /** The writes of one `set` or `delete`, relative to the write offset. */
  function RecordScript(c: Config, r: Record): (ws: seq<Write>)
    requires Storable(c, r)
    ensures Within(ws, 0, r.Size())
  {
    RawScript(Header(c, r), r.key, r.value)
  }

  function RawScript(h: seq<byte>, key: seq<byte>, value: seq<byte>): (ws: seq<Write>)
    requires |h| == HEADER && key != []
    ensures Within(ws, 0, HEADER + |key| + |value| + 1)
  {
    var commitAt := HEADER + |key| + |value|;
    if value == []
    then [Write(commitAt, [0]), Write(0, h), Write(HEADER, key), Write(commitAt, [COMMIT])]
    else [Write(commitAt, [0]), Write(0, h), Write(HEADER, key), Write(HEADER + |key|, value),
          Write(commitAt, [COMMIT])]
  }

  function Image(c: Config, r: Record): (b: seq<byte>)
    requires Storable(c, r)
    ensures |b| == r.Size()
  {
    Header(c, r) + r.key + r.value + [COMMIT]
  }

  lemma RawScriptDone(h: seq<byte>, key: seq<byte>, value: seq<byte>, b: seq<byte>)
    requires |h| == HEADER && key != [] && |b| == HEADER + |key| + |value| + 1
    ensures LandAll(b, RawScript(h, key, value)) == h + key + value + [COMMIT]
  {
    var ws := RawScript(h, key, value);
    var b1 := LandUpTo(b, ws, 1);
    var b2 := LandUpTo(b, ws, 2);
    var b3 := LandUpTo(b, ws, 3);
    var b4 := LandUpTo(b, ws, 4);
    if value != [] {
      var b5 := LandUpTo(b, ws, 5);
    }
  }

  lemma HeaderFields(c: Config, r: Record)
    requires c.Valid() && Storable(c, r)
    ensures var h := Header(c, r);
            && HeaderOk(c, h)
            && h[..16] == Prefix(c, r)
            && Decode32(h[4..8]) == r.seqNo && h[12] == r.flags
            && Decode16(h[8..10]) == |r.key| && Decode16(h[10..12]) == |r.value| && SizeOf(h) == r.Size()
            && Decode32(h[16..20]) == RecordCrc(c, Prefix(c, r), r.key, r.value)
            && h[8..12] == Encode(|r.key|, 2) + Encode(|r.value|, 2) && h[13] == 0 && h[14] == 0 && h[15] == 0
  {
    var h := Header(c, r);
    var crc := RecordCrc(c, Prefix(c, r), r.key, r.value);
    assert h[0..4] == Encode(c.magic, 4);
    assert h[4..8] == Encode(r.seqNo, 4);
    assert h[8..10] == Encode(|r.key|, 2);
    assert h[10..12] == Encode(|r.value|, 2);
    assert h[16..20] == Encode(crc, 4);
    assert Pow256(4) == 0x1_0000_0000 && Pow256(2) == 0x1_0000;
    DecodeEncode(c.magic, 4);
    DecodeEncode(r.seqNo, 4);
    DecodeEncode(|r.key|, 2);
    DecodeEncode(|r.value|, 2);
    DecodeEncode(crc, 4);
  }

  lemma ParseParts(c: Config, r: Record, s: seq<byte>, off: nat)
    requires c.Valid() && Storable(c, r) && off + r.Size() <= |s|
    requires s[off..off + HEADER] == Header(c, r)
    requires s[off + HEADER..off + r.Size() - 1] == r.key + r.value && s[off + r.Size() - 1] == COMMIT
    ensures ParseAt(c, s, off) == Some(r)
  {
    hide Header, Prefix, RecordCrc, HeaderOk, Decode16, Decode32, Fields, SizeOf, ParseAt, Encode;
    var h := Header(c, r);
    HeaderFields(c, r);
    FieldsOf(h, r);
    ParseStep(c, s, off, h, r);
  }

  lemma ParseStep(c: Config, s: seq<byte>, off: nat, h: seq<byte>, r: Record)
    requires |h| == HEADER && HeaderOk(c, h) && off + SizeOf(h) <= |s| && s[off..off + HEADER] == h
    requires s[off + SizeOf(h) - 1] == COMMIT && Fields(h, s[off + HEADER..off + SizeOf(h) - 1]) == r
    requires RecordCrc(c, h[..16], r.key, r.value) == Decode32(h[16..20])
    ensures ParseAt(c, s, off) == Some(r)
  {
    hide HeaderOk, RecordCrc, Fields, Decode32;
  }

  lemma FieldsOf(h: seq<byte>, r: Record)
    requires |h| == HEADER && Decode32(h[4..8]) == r.seqNo && h[12] == r.flags
    requires Decode16(h[8..10]) == |r.key| && Decode16(h[10..12]) == |r.value|
    ensures Fields(h, r.key + r.value) == r
  {
    hide Decode16, Decode32;
    assert (r.key + r.value)[..|r.key|] == r.key && (r.key + r.value)[|r.key|..] == r.value;
  }

  /** Print then parse. */
  lemma ParseImage(c: Config, r: Record, s: seq<byte>, off: nat)
    requires c.Valid() && Storable(c, r) && off + r.Size() <= |s| && s[off..off + r.Size()] == Image(c, r)
    ensures ParseAt(c, s, off) == Some(r)
  {
    ImageParts(Header(c, r), r.key, r.value, s, off);
    ParseParts(c, r, s, off);
  }

  lemma ImageParts(h: seq<byte>, key: seq<byte>, value: seq<byte>, s: seq<byte>, off: nat)
    requires |h| == HEADER
    requires var size := HEADER + |key| + |value| + 1;
             off + size <= |s| && s[off..off + size] == h + key + value + [COMMIT]
    ensures var size := HEADER + |key| + |value| + 1;
            && s[off..off + HEADER] == h
            && s[off + HEADER..off + size - 1] == key + value
            && s[off + size - 1] == COMMIT
  {
    var size := HEADER + |key| + |value| + 1;
    var w := s[off..off + size];
    assert w == h + (key + value) + [COMMIT];
    SliceOfSlice(s, off, off + size, 0, HEADER);
    SliceOfSlice(s, off, off + size, HEADER, size - 1);
    assert w[0..HEADER] == h && w[HEADER..size - 1] == key + value;
    assert s[off + size - 1] == w[size - 1] == COMMIT;
  }

  /** A finished `set` or `delete` leaves its record at the write offset and no other byte changed. */
  lemma PutDone(c: Config, r: Record, s: seq<byte>, off: nat)
    requires c.Valid() && Storable(c, r) && off + r.Size() <= |s|
    ensures var s' := LandAll(s, Shift(RecordScript(c, r), off));
            && SameOutside(s, s', off, off + r.Size())
            && s'[off..off + r.Size()] == Image(c, r)
            && ParseAt(c, s', off) == Some(r)
            && s'[off + 13] == 0 && s'[off + 14] == 0 && s'[off + 15] == 0
  {
    DoneInWindow(s, RecordScript(c, r), off, r.Size());
    RawScriptDone(Header(c, r), r.key, r.value, s[off..off + r.Size()]);
    var s' := LandAll(s, Shift(RecordScript(c, r), off));
    ParseImage(c, r, s', off);
    ReservedZero(c, r, s', off);
  }

  lemma ReservedZero(c: Config, r: Record, s: seq<byte>, off: nat)
    requires c.Valid() && Storable(c, r) && off + r.Size() <= |s| && s[off..off + r.Size()] == Image(c, r)
    ensures s[off + 13] == 0 && s[off + 14] == 0 && s[off + 15] == 0
  {
    HeaderFields(c, r);
    hide Header, Prefix;
    var w := s[off..off + r.Size()];
    assert w[13] == s[off + 13] && w[14] == s[off + 14] && w[15] == s[off + 15];
  }
}
