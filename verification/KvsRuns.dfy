/**
 The key-value store as a machine over bytes: every step an application, a failing device or a power cut can cause,
 and the finite map it stands for after every run of such steps.
 */
module KvsRuns {
  import opened Bytes
  import opened Crash
  import opened KvsLog

  type Key = seq<byte>
  type Value = seq<byte>

  datatype Ram = Ram(writeOffset: nat, nextSeq: u32)

  datatype State = State(medium: seq<byte>, ram: Ram)

  /**
   A failing `set` or `delete` leaves RAM as it is; a power cut is a failing one followed by a reboot. Argument
   errors change nothing and are not steps.
   */
  datatype Op =
    | Put(key: Key, value: Value, deleted: bool)
    | FailedPut(key: Key, value: Value, deleted: bool, cut: Cut)
    | Reboot

  // ------------------------------------------------------------ what a list of records means

  /** Last writer wins; a tombstone removes the key. */
  function MapOf(rs: seq<Record>): map<Key, Value> {
    if rs == [] then map[]
    else
      var last := rs[|rs| - 1];
      var before := MapOf(rs[..|rs| - 1]);
      if last.Deleted() then before - {last.key} else before[last.key := last.value]
  }

  /** The sequence number for the next record, from `n` on: one above the largest in use. */
  function NextSeq(rs: seq<Record>, n: u32): u32
    decreases |rs|
  {
    if rs == [] then n else NextSeq(rs[1..], if rs[0].seqNo >= n then Inc32(rs[0].seqNo) else n)
  }

  ghost predicate Numbered(rs: seq<Record>) {
    forall i :: 0 <= i < |rs| ==> rs[i].seqNo == i
  }

  lemma {:induction false} NextSeqNumbered(rs: seq<Record>, n: u32)
    requires n + |rs| <= U32_MAX && forall i :: 0 <= i < |rs| ==> rs[i].seqNo == n + i
    ensures NextSeq(rs, n) == n + |rs|
    decreases |rs|
  {
    if rs == [] {
    } else {
      assert forall i :: 0 <= i < |rs| - 1 ==> rs[1..][i] == rs[i + 1];
      NextSeqNumbered(rs[1..], n + 1);
    }
  }

  /** A record with that number, or a larger one, makes the next number the one above it. */
  lemma {:induction false} NextSeqSnoc(rs: seq<Record>, r: Record, n: u32)
    ensures NextSeq(rs + [r], n) == if r.seqNo >= NextSeq(rs, n) then Inc32(r.seqNo) else NextSeq(rs, n)
    decreases |rs|
  {
    if rs == [] {
      assert ([] + [r])[1..] == [];
    } else {
      assert (rs + [r])[1..] == rs[1..] + [r];
      NextSeqSnoc(rs[1..], r, if rs[0].seqNo >= n then Inc32(rs[0].seqNo) else n);
    }
  }

  /** On any records, the next number is above all in use if and only if none of them is 2^32 - 1. */
  lemma {:induction false} NextSeqAboveIff(rs: seq<Record>)
    ensures (forall r <- rs :: r.seqNo < NextSeq(rs, 0)) <==> (forall r <- rs :: r.seqNo != U32_MAX)
    decreases |rs|
  {
    if rs == [] {
    } else {
      var before, last := rs[..|rs| - 1], rs[|rs| - 1];
      NextSeqAboveIff(before);
      NextSeqSnoc(before, last, 0);
      assert rs == before + [last];
    }
  }

  function TotalSize(rs: seq<Record>): nat {
    if rs == [] then 0 else rs[0].Size() + TotalSize(rs[1..])
  }

  /** The scan stops after exactly the bytes of the records it met, each of which takes at least 22 bytes. */
  lemma {:induction false} EndIsTotalSize(c: Config, s: seq<byte>, off: nat)
    ensures End(c, s, off) == off + TotalSize(Parse(c, s, off))
    ensures 22 * |Parse(c, s, off)| <= TotalSize(Parse(c, s, off))
    decreases |s| - off
  {
    hide ParseAt;
    var r := ParseAt(c, s, off);
    if r.None? {
    } else {
      EndIsTotalSize(c, s, off + r.value.Size());
    }
  }

  // ------------------------------------------------------------ cut short

  lemma DecodePair(bs: seq<byte>)
    requires |bs| == 2
    ensures Decode16(bs) == bs[0] + 0x100 * (bs[1] as int)
  {
    assert bs[1..] == [bs[1]];
    assert Decode(bs[1..]) == bs[1];
  }

  lemma EncodePair(n: nat)
    requires n <= 0xFFFF
    ensures Encode(n, 2) == [n % 0x100, n / 0x100]
  {
    assert Encode(n, 2) == [n % 0x100] + Encode(n / 0x100, 1);
  }

  /** The two length fields of a header, byte by byte. */
  lemma LengthFields(h: seq<byte>)
    requires |h| == HEADER
    ensures Decode16(h[8..10]) == h[8] + 0x100 * (h[9] as int)
    ensures Decode16(h[10..12]) == h[10] + 0x100 * (h[11] as int)
  {
    DecodePair(h[8..10]);
    DecodePair(h[10..12]);
  }

  lemma HeaderLengths(c: Config, r: Record)
    requires c.Valid() && Storable(c, r)
    ensures var h := Header(c, r);
            && h[8] == |r.key| && h[9] == 0 && h[10] == |r.value| % 0x100 && h[11] == |r.value| / 0x100
            && SizeOf(h) == r.Size()
  {
    HeaderFields(c, r);
    EncodePair(|r.key|);
    EncodePair(|r.value|);
    var f := Header(c, r)[8..12];
    assert f == [|r.key| % 0x100, |r.key| / 0x100, |r.value| % 0x100, |r.value| / 0x100];
    assert f[0] == Header(c, r)[8] && f[1] == Header(c, r)[9] && f[2] == Header(c, r)[10];
    assert f[3] == Header(c, r)[11];
  }

  /**
   What a script cut short leaves of a record's window: nothing landed; or commit byte 0, part of the header, and as
   long as the header is not complete the key and value bytes that were there.
   */
  lemma RawScriptTorn(h: seq<byte>, key: seq<byte>, value: seq<byte>, b: seq<byte>, cut: Cut)
    requires |h| == HEADER && key != [] && |b| == HEADER + |key| + |value| + 1
    requires IsCut(RawScript(h, key, value), cut)
    ensures var t := Torn(b, RawScript(h, key, value), cut);
            if cut.index == 0 then t == b
            else
              && t[|b| - 1] == 0
              && (forall i :: 0 <= i < HEADER ==> t[i] == if i < Reached(cut) then h[i] else b[i])
              && (cut.index == 1 ==> forall i :: HEADER <= i < |b| - 1 ==> t[i] == b[i])
  {
    if cut.index > 0 {
      hide LandUpTo;
      RawScriptBegun(h, key, value, b, cut.index);
    }
  }

  lemma {:induction false} RawScriptBegun(h: seq<byte>, key: seq<byte>, value: seq<byte>, b: seq<byte>, n: nat)
    requires |h| == HEADER && key != [] && |b| == HEADER + |key| + |value| + 1
    requires 1 <= n < |RawScript(h, key, value)|
    ensures var t := LandUpTo(b, RawScript(h, key, value), n);
            && t[|b| - 1] == 0
            && (forall i :: 0 <= i < HEADER ==> t[i] == if n >= 2 then h[i] else b[i])
            && (n == 1 ==> forall i :: HEADER <= i < |b| - 1 ==> t[i] == b[i])
  {
    if n == 1 {
      var none := LandUpTo(b, RawScript(h, key, value), 0);
    } else {
      RawScriptBegun(h, key, value, b, n - 1);
    }
  }

  /** The script of one `set` or `delete`, at the write offset. */
  function ScriptAt(c: Config, off: nat, r: Record): (ws: seq<Write>)
    requires Storable(c, r)
    ensures Within(ws, off, off + r.Size())
  {
    Shift(RecordScript(c, r), off)
  }

  /** How much of the header a cut script has written, once it has cleared the commit byte. */
  function Reached(cut: Cut): nat {
    if cut.index == 1 then cut.landed else HEADER
  }

  /** The header at `off` when `h` has been written over it up to `reached`. */
  function HalfHeader(s: seq<byte>, off: nat, h: seq<byte>, reached: nat): (t: seq<byte>)
    requires off + HEADER <= |s| && |h| == HEADER
    ensures |t| == HEADER
    ensures forall i :: 0 <= i < HEADER ==> t[i] == if i < reached then h[i] else s[off + i]
  {
    seq(HEADER, i requires 0 <= i < HEADER => if i < reached then h[i] else s[off + i])
  }

  /** A header announces no committed record: it is not legal, or what it takes for its commit byte is not one. */
  predicate Quiet(c: Config, s: seq<byte>, off: nat, t: seq<byte>, commitAt: nat)
    requires |t| == HEADER
  {
    HeaderOk(c, t) ==>
      var at := off + SizeOf(t) - 1;
      at >= |s| || at == commitAt || s[at] != COMMIT
  }

  /** The header a cut leaves is quiet; a cut in the first write leaves none. */
  predicate CutQuiet(c: Config, s: seq<byte>, off: nat, r: Record, cut: Cut)
    requires Storable(c, r) && off + r.Size() <= |s|
  {
    cut.index == 0 || Quiet(c, s, off, HalfHeader(s, off, Header(c, r), Reached(cut)), off + r.Size() - 1)
  }

  ghost predicate KeptBeyondHeader(s: seq<byte>, t: seq<byte>, off: nat, commitAt: nat) {
    |t| == |s| && forall i :: off + HEADER <= i < |s| && i != commitAt ==> t[i] == s[i]
  }

  /** What a `set` or `delete` cut short leaves on any bytes at all, seen from the write offset. */
  lemma CutBytes(c: Config, s: seq<byte>, off: nat, r: Record, cut: Cut)
    requires c.Valid() && Storable(c, r) && off + r.Size() <= |s| && IsCut(ScriptAt(c, off, r), cut)
    ensures var t, commitAt := Torn(s, ScriptAt(c, off, r), cut), off + r.Size() - 1;
            && SameOutside(s, t, off, off + r.Size())
            && if cut.index == 0 then t == s
               else
                 && t[commitAt] == 0
                 && t[off..off + HEADER] == HalfHeader(s, off, Header(c, r), Reached(cut))
                 && (cut.index == 1 ==> KeptBeyondHeader(s, t, off, commitAt))
  {
    hide Prefix, RecordCrc, LandUpTo, Torn, RawScript;
    var t := Torn(s, ScriptAt(c, off, r), cut);
    TornInWindow(s, RecordScript(c, r), cut, off, r.Size());
    RawScriptTorn(Header(c, r), r.key, r.value, s[off..off + r.Size()], cut);
    if cut.index == 0 {
      SameWindow(s, t, off, off + r.Size());
    } else {
      WindowBytes(s, t, off, off + r.Size());
    }
  }

  /** A window of two byte sequences, read byte by byte. */
  lemma WindowBytes(s: seq<byte>, t: seq<byte>, lo: nat, hi: nat)
    requires lo <= hi <= |s| == |t|
    ensures forall i :: 0 <= i < hi - lo ==> t[lo..hi][i] == t[lo + i] && s[lo..hi][i] == s[lo + i]
    ensures forall i {:trigger t[i]} :: lo <= i < hi ==> t[lo..hi][i - lo] == t[i] && s[lo..hi][i - lo] == s[i]
  {
  }

  /** On any bytes, after a cut that leaves a quiet header the scan stops at the write offset, whatever the checksum. */
  lemma QuietStops(c: Config, s: seq<byte>, off: nat, r: Record, cut: Cut)
    requires c.Valid() && Storable(c, r) && off + r.Size() <= |s| && IsCut(ScriptAt(c, off, r), cut)
    requires cut.index > 0 && CutQuiet(c, s, off, r, cut)
    ensures ParseAt(c, Torn(s, ScriptAt(c, off, r), cut), off) == None
  {
    CutBytes(c, s, off, r, cut);
    HeaderLengths(c, r);
    hide Torn, ScriptAt, Header, ParseAt, Quiet, HeaderOk, KeptBeyondHeader;
    var half := HalfHeader(s, off, Header(c, r), Reached(cut));
    if cut.index > 1 {
      assert half == Header(c, r);
    }
    hide HalfHeader, SizeOf;
    QuietParse(c, s, Torn(s, ScriptAt(c, off, r), cut), off, off + r.Size() - 1, half);
  }

  lemma QuietParse(c: Config, s: seq<byte>, t: seq<byte>, off: nat, commitAt: nat, half: seq<byte>)
    requires off + HEADER <= commitAt < |s| == |t| && |half| == HEADER && t[off..off + HEADER] == half
    requires Quiet(c, s, off, half, commitAt) && t[commitAt] == 0
    requires off + SizeOf(half) - 1 == commitAt || KeptBeyondHeader(s, t, off, commitAt)
    ensures ParseAt(c, t, off) == None
  {
    hide HeaderOk, RecordCrc, Fields;
  }

  /** Past the length fields every cut leaves a quiet header, on any bytes and for any lengths. */
  lemma LateCutQuiet(c: Config, s: seq<byte>, off: nat, r: Record, cut: Cut)
    requires c.Valid() && Storable(c, r) && off + r.Size() <= |s| && Reached(cut) >= 12
    ensures CutQuiet(c, s, off, r, cut)
  {
    HeaderLengths(c, r);
    hide Header;
    var t := HalfHeader(s, off, Header(c, r), Reached(cut));
    LengthFields(t);
    LengthFields(Header(c, r));
  }

  // ------------------------------------------------------------ the bytes after the last record

  ghost predicate Blank(s: seq<byte>, from: nat) {
    forall k :: from <= k < |s| ==> s[k] == 0xFF
  }

  /**
   The bytes after the last record, as runs from a blank partition that never shrink a retry leave them: blank; or
   written up to `reach` by failed attempts, of which the last left lengths with this key length and this high byte
   of the value length.
   */
  datatype Tail = Clean | Pending(keyLen: nat, high: nat, reach: nat)

  ghost predicate IsTail(s: seq<byte>, end: nat, tail: Tail) {
    match tail
    case Clean => Blank(s, end)
    case Pending(keyLen, high, reach) =>
      && 1 <= keyLen <= KEY_MAX && high <= 0x10 && end + HEADER <= reach <= |s| && Blank(s, reach)
      && exists p: nat :: LengthsReached(s, end, keyLen, high, reach, p)
  }

  /**
   The first `p` of the four length bytes of the header at `end` have been written over 0xFF, and once all have, the
   commit byte they point at is 0.
   */
  ghost predicate LengthsReached(s: seq<byte>, end: nat, keyLen: nat, high: nat, reach: nat, p: nat)
    requires end + HEADER <= reach <= |s|
  {
    && p <= 4
    && s[end + 8] == (if p > 0 then keyLen else 0xFF)
    && s[end + 9] == (if p > 1 then 0 else 0xFF)
    && (p <= 2 ==> s[end + 10] == 0xFF)
    && s[end + 11] == (if p > 3 then high else 0xFF)
    && (p == 4 ==> var at := end + HEADER + keyLen + s[end + 10] + 0x100 * high; at < reach && s[at] == 0)
  }

  /** The attempts to write on such a tail that this section follows up: those like the last one, and late cuts. */
  predicate Follows(tail: Tail, r: Record, cut: Cut) {
    tail.Clean? || Reached(cut) >= 12 || (tail.keyLen == |r.key| && tail.high == |r.value| / 0x100)
  }

  function Farther(end: nat, tail: Tail, r: Record): nat {
    if tail.Pending? && tail.reach > end + r.Size() then tail.reach else end + r.Size()
  }

  /** The tail such an attempt leaves. */
  function TailAfter(end: nat, tail: Tail, r: Record, cut: Cut): Tail {
    if cut.index == 0 then tail else Pending(|r.key|, |r.value| / 0x100, Farther(end, tail, r))
  }

  /** The scan stops at a blank tail. */
  lemma BlankStops(c: Config, s: seq<byte>, end: nat)
    requires c.Valid() && Blank(s, end)
    ensures ParseAt(c, s, end) == None
  {
    if end + HEADER + 1 <= |s| {
      LengthFields(s[end..end + HEADER]);
    }
  }

  /** How far the length fields are written after one more cut. */
  function NewReach(p: nat, cut: Cut): nat {
    var q := if Reached(cut) <= 8 then 0 else if Reached(cut) >= 12 then 4 else Reached(cut) - 8;
    if q > p then q else p
  }

  /** On such a tail every attempt that follows it up, cut anywhere, leaves a quiet header. */
  lemma TailQuiet(c: Config, s: seq<byte>, end: nat, tail: Tail, r: Record, cut: Cut)
    requires c.Valid() && Storable(c, r) && end + r.Size() <= |s|
    requires IsTail(s, end, tail) && Follows(tail, r, cut)
    ensures CutQuiet(c, s, end, r, cut)
  {
    HeaderLengths(c, r);
    hide Header;
    if Reached(cut) >= 12 {
      LateCutQuiet(c, s, end, r, cut);
    } else {
      LengthFields(HalfHeader(s, end, Header(c, r), Reached(cut)));
    }
  }

  /** And a tail of that kind. */
  lemma TailTorn(c: Config, s: seq<byte>, end: nat, tail: Tail, r: Record, cut: Cut)
    requires c.Valid() && Storable(c, r) && end + r.Size() <= |s| && IsCut(ScriptAt(c, end, r), cut)
    requires IsTail(s, end, tail) && Follows(tail, r, cut)
    ensures IsTail(Torn(s, ScriptAt(c, end, r), cut), end, TailAfter(end, tail, r, cut))
  {
    CutBytes(c, s, end, r, cut);
    HeaderLengths(c, r);
    if cut.index > 0 {
      hide Torn, ScriptAt, Header;
      TailWritten(s, Torn(s, ScriptAt(c, end, r), cut), end, tail, r, Header(c, r), cut);
    }
  }

  lemma TailWritten(s: seq<byte>, t: seq<byte>, end: nat, tail: Tail, r: Record, h: seq<byte>, cut: Cut)
    requires 1 <= |r.key| <= KEY_MAX && |r.value| <= 4096 && end + r.Size() <= |s| && |h| == HEADER
    requires h[8] == |r.key| && h[9] == 0 && h[10] == |r.value| % 0x100 && h[11] == |r.value| / 0x100
    requires IsTail(s, end, tail) && Follows(tail, r, cut) && cut.index > 0
    requires SameOutside(s, t, end, end + r.Size()) && t[end + r.Size() - 1] == 0
    requires t[end..end + HEADER] == HalfHeader(s, end, h, Reached(cut))
    requires cut.index == 1 ==> KeptBeyondHeader(s, t, end, end + r.Size() - 1)
    ensures IsTail(t, end, TailAfter(end, tail, r, cut))
  {
    var half := t[end..end + HEADER];
    assert t[end + 8] == half[8] && t[end + 9] == half[9] && t[end + 10] == half[10] && t[end + 11] == half[11];
    var p: nat := 0;
    if tail.Pending? {
      p :| LengthsReached(s, end, tail.keyLen, tail.high, tail.reach, p);
    }
    assert LengthsReached(t, end, |r.key|, |r.value| / 0x100, Farther(end, tail, r), NewReach(p, cut));
  }

  // ------------------------------------------------------------ the machine

  ghost function Records(c: Config, s: seq<byte>): seq<Record> {
    Parse(c, s, 0)
  }

  function RecordOf(r: Ram, op: Op): Record
    requires !op.Reboot?
  {
    Record(r.nextSeq, if op.deleted then 1 else 0, op.key, op.value)
  }

  ghost predicate WellFormed(c: Config, op: Op) {
    op.Reboot? || (1 <= |op.key| <= KEY_MAX && |op.value| <= c.maxValue && (op.deleted ==> op.value == []))
  }

  function NewEnd(st: State, op: Op): nat
    requires !op.Reboot?
  {
    st.ram.writeOffset + RecordOf(st.ram, op).Size()
  }

  predicate HasRoom(st: State, op: Op)
    requires !op.Reboot?
  {
    NewEnd(st, op) <= |st.medium|
  }

  /** RAM agrees with the medium: both fields are what recovery computes from it. Nothing is said of the tail. */
  ghost predicate Good(c: Config, st: State) {
    c.Valid() && |st.medium| <= U32_MAX && st.ram == Recover(c, st.medium)
  }

  ghost function Recover(c: Config, s: seq<byte>): Ram {
    Ram(End(c, s, 0), NextSeq(Records(c, s), 0))
  }

  /**
   The steps for which the store is a map, on any bytes: a write must not end where some record happens to start, and
   a cut must leave a quiet header. By `LateCutQuiet` only a cut inside the first 12 bytes of the header may not.
   */
  ghost predicate CanStep(c: Config, st: State, op: Op) {
    && WellFormed(c, op)
    && (op.Put? && HasRoom(st, op) ==> ParseAt(c, st.medium, NewEnd(st, op)) == None)
    && (op.FailedPut? ==> HasRoom(st, op) && IsCut(ScriptAt(c, st.ram.writeOffset, RecordOf(st.ram, op)), op.cut) &&
                          CutQuiet(c, st.medium, st.ram.writeOffset, RecordOf(st.ram, op), op.cut))
  }

  ghost function Step(c: Config, st: State, op: Op): (st': State)
    requires WellFormed(c, op)
    requires op.FailedPut? ==> HasRoom(st, op) && IsCut(ScriptAt(c, st.ram.writeOffset, RecordOf(st.ram, op)), op.cut)
    ensures |st'.medium| == |st.medium|
  {
    match op
    case Put(_, _, _) =>
      var r := RecordOf(st.ram, op);
      if !HasRoom(st, op) then st
      else State(LandAll(st.medium, ScriptAt(c, st.ram.writeOffset, r)),
                 Ram(st.ram.writeOffset + r.Size(), Inc32(st.ram.nextSeq)))
    case FailedPut(_, _, _, cut) =>
      State(Torn(st.medium, ScriptAt(c, st.ram.writeOffset, RecordOf(st.ram, op)), cut), st.ram)
    case Reboot => State(st.medium, Recover(c, st.medium))
  }

  /** The finite map of bounded total size the store stands for. */
  datatype Store = Store(content: map<Key, Value>, used: nat, next: u32)

  function StoreStep(size: nat, a: Store, op: Op): Store {
    match op
    case Put(k, v, deleted) =>
      var need := HEADER + |k| + |v| + 1;
      if a.used + need > size then a
      else Store(if deleted then a.content - {k} else a.content[k := v], a.used + need, Inc32(a.next))
    case _ => a
  }

  ghost function Abs(c: Config, st: State): Store {
    Store(MapOf(Records(c, st.medium)), st.ram.writeOffset, st.ram.nextSeq)
  }

  lemma MapOfSnoc(rs: seq<Record>, r: Record)
    ensures MapOf(rs + [r]) == if r.Deleted() then MapOf(rs) - {r.key} else MapOf(rs)[r.key := r.value]
  {
    assert (rs + [r])[..|rs|] == rs;
  }

  /** Where the scan stops it finds nothing. */
  lemma {:induction false} EndStops(c: Config, s: seq<byte>, off: nat)
    ensures ParseAt(c, s, End(c, s, off)) == None
    decreases |s| - off
  {
    hide ParseAt;
    var r := ParseAt(c, s, off);
    if r.Some? {
      EndStops(c, s, off + r.value.Size());
    }
  }

  /**
   One `set` or `delete` on any bytes at all: the scan meets the old records, the new one, and then whatever valid
   record happens to start at the new end.
   */
  lemma PutOnAnyBytes(c: Config, s: seq<byte>, r: Record)
    requires c.Valid() && Storable(c, r) && End(c, s, 0) + r.Size() <= |s|
    ensures var end := End(c, s, 0);
            var s' := LandAll(s, ScriptAt(c, end, r));
            && SameOutside(s, s', end, end + r.Size())
            && Records(c, s') == Records(c, s) + [r] + Parse(c, s', end + r.Size())
            && End(c, s', 0) == End(c, s', end + r.Size())
  {
    var end := End(c, s, 0);
    PutDone(c, r, s, end);
    ParseOver(c, s, LandAll(s, ScriptAt(c, end, r)), r);
  }

  /**
   One `set` or `delete` cut at any byte, on any bytes at all: every record before the write offset stays, and the
   scan then goes on with what the torn bytes happen to be.
   */
  lemma CutOnAnyBytes(c: Config, s: seq<byte>, r: Record, cut: Cut)
    requires c.Valid() && Storable(c, r) && End(c, s, 0) + r.Size() <= |s|
    requires IsCut(ScriptAt(c, End(c, s, 0), r), cut)
    ensures var t := Torn(s, ScriptAt(c, End(c, s, 0), r), cut);
            Records(c, t) == Records(c, s) + Parse(c, t, End(c, s, 0))
  {
    var end := End(c, s, 0);
    TornInWindow(s, RecordScript(c, r), cut, end, r.Size());
    TornKeeps(c, s, Torn(s, ScriptAt(c, end, r), cut));
  }

  lemma TornKeeps(c: Config, s: seq<byte>, t: seq<byte>)
    requires Agree(s, t, 0, End(c, s, 0))
    ensures Records(c, t) == Records(c, s) + Parse(c, t, End(c, s, 0))
  {
    hide ParseAt;
    ParseThrough(c, s, t, 0);
  }

  lemma ParseOver(c: Config, s: seq<byte>, s': seq<byte>, r: Record)
    requires Agree(s, s', 0, End(c, s, 0)) && ParseAt(c, s', End(c, s, 0)) == Some(r)
    ensures var next := End(c, s, 0) + r.Size();
            && Records(c, s') == Records(c, s) + [r] + Parse(c, s', next)
            && End(c, s', 0) == End(c, s', next)
  {
    hide ParseAt;
    var end := End(c, s, 0);
    ParseThrough(c, s, s', 0);
    assert Parse(c, s', end) == [r] + Parse(c, s', end + r.Size());
    Regroup3(Records(c, s), [r], Parse(c, s', end + r.Size()));
  }

  lemma Regroup3(a: seq<Record>, b: seq<Record>, d: seq<Record>)
    ensures a + (b + d) == a + b + d
  {
  }

  lemma CutQuietly(c: Config, s: seq<byte>, r: Record, cut: Cut)
    requires c.Valid() && Storable(c, r) && End(c, s, 0) + r.Size() <= |s|
    requires IsCut(ScriptAt(c, End(c, s, 0), r), cut) && CutQuiet(c, s, End(c, s, 0), r, cut)
    ensures var t := Torn(s, ScriptAt(c, End(c, s, 0), r), cut);
            Records(c, t) == Records(c, s) && End(c, t, 0) == End(c, s, 0)
  {
    var end := End(c, s, 0);
    var t := Torn(s, ScriptAt(c, end, r), cut);
    CutBytes(c, s, end, r, cut);
    if cut.index > 0 {
      QuietStops(c, s, end, r, cut);
      hide ParseAt, Torn, ScriptAt;
      ParseThrough(c, s, t, 0);
      assert Parse(c, t, end) == [] && End(c, t, end) == end;
    }
  }

  /** A `set` or `delete` cut past its length fields changes no record, on any bytes at all and for any lengths. */
  lemma LateCutChangesNothing(c: Config, s: seq<byte>, r: Record, cut: Cut)
    requires c.Valid() && Storable(c, r) && End(c, s, 0) + r.Size() <= |s|
    requires IsCut(ScriptAt(c, End(c, s, 0), r), cut) && Reached(cut) >= 12
    ensures var t := Torn(s, ScriptAt(c, End(c, s, 0), r), cut);
            Records(c, t) == Records(c, s) && End(c, t, 0) == End(c, s, 0)
  {
    LateCutQuiet(c, s, End(c, s, 0), r, cut);
    CutQuietly(c, s, r, cut);
  }

  /** What starts at `off` depends only on the bytes from `off` on. */
  lemma ParseAtSuffix(c: Config, s: seq<byte>, s': seq<byte>, off: nat)
    requires Agree(s, s', off, |s|)
    ensures ParseAt(c, s', off) == ParseAt(c, s, off)
  {
    if off + HEADER + 1 <= |s| {
      var h := s[off..off + HEADER];
      assert s'[off..off + HEADER] == h;
      if off + SizeOf(h) <= |s| {
        assert s'[off + HEADER..off + SizeOf(h) - 1] == s[off + HEADER..off + SizeOf(h) - 1];
      }
    }
  }

  /** A finished write adds exactly its record, unless some record happens to start where it ends. */
  lemma Added(c: Config, s: seq<byte>, s': seq<byte>, r: Record)
    requires SameOutside(s, s', End(c, s, 0), End(c, s, 0) + r.Size()) && ParseAt(c, s', End(c, s, 0)) == Some(r)
    ensures var newEnd := End(c, s, 0) + r.Size();
            if ParseAt(c, s, newEnd) == None then Records(c, s') == Records(c, s) + [r] && End(c, s', 0) == newEnd
            else End(c, s', 0) > newEnd
  {
    var newEnd := End(c, s, 0) + r.Size();
    ParseAtSuffix(c, s, s', newEnd);
    hide ParseAt;
    ParseOver(c, s, s', r);
  }

  /** A finished write adds the record with the next number, its flags 1 for a tombstone and else 0. */
  lemma StepPut(c: Config, st: State, op: Op)
    requires Good(c, st) && CanStep(c, st, op) && op.Put? && HasRoom(st, op)
    ensures Good(c, Step(c, st, op))
    ensures Abs(c, Step(c, st, op)) == StoreStep(|st.medium|, Abs(c, st), op)
    ensures Records(c, Step(c, st, op).medium) == Records(c, st.medium) + [RecordOf(st.ram, op)]
    ensures RecordOf(st.ram, op) == Record(st.ram.nextSeq, if op.deleted then 1 else 0, op.key, op.value)
  {
    hide LandAll, RecordScript, ParseAt, Image, MapOf, Parse, End, NextSeq;
    var r := RecordOf(st.ram, op);
    PutDone(c, r, st.medium, st.ram.writeOffset);
    Added(c, st.medium, Step(c, st, op).medium, r);
    NextSeqSnoc(Records(c, st.medium), r, 0);
    MapOfSnoc(Records(c, st.medium), r);
  }

  /** The condition on a write is exact: RAM stays in step with the medium if and only if it holds. */
  lemma PutGoodIff(c: Config, st: State, op: Op)
    requires Good(c, st) && WellFormed(c, op) && op.Put? && HasRoom(st, op)
    ensures Good(c, Step(c, st, op)) <==> CanStep(c, st, op)
  {
    hide LandAll, RecordScript, ParseAt, Image, Parse, End, NextSeq;
    if CanStep(c, st, op) {
      StepPut(c, st, op);
    } else {
      PutDone(c, RecordOf(st.ram, op), st.medium, st.ram.writeOffset);
      Added(c, st.medium, Step(c, st, op).medium, RecordOf(st.ram, op));
    }
  }

  /** Every step keeps the invariant and is the step of the finite map. */
  lemma StepRefinesStore(c: Config, st: State, op: Op)
    requires Good(c, st) && CanStep(c, st, op)
    ensures Good(c, Step(c, st, op))
    ensures Abs(c, Step(c, st, op)) == StoreStep(|st.medium|, Abs(c, st), op)
    ensures Numbered(Records(c, st.medium)) ==> Numbered(Records(c, Step(c, st, op).medium))
  {
    match op
    case Put(_, _, _) =>
      if HasRoom(st, op) {
        StepPut(c, st, op);
        if Numbered(Records(c, st.medium)) {
          CountIsNext(c, st);
        }
      }
    case FailedPut(_, _, _, cut) =>
      CutQuietly(c, st.medium, RecordOf(st.ram, op), cut);
    case Reboot =>
  }

  /** Records numbered from 0 on: the end is the sum of their sizes, the next number their count. */
  lemma CountIsNext(c: Config, st: State)
    requires Good(c, st) && Numbered(Records(c, st.medium))
    ensures st.ram.writeOffset == TotalSize(Records(c, st.medium)) && st.ram.nextSeq == |Records(c, st.medium)|
  {
    hide ParseAt;
    EndIsTotalSize(c, st.medium, 0);
    NextSeqNumbered(Records(c, st.medium), 0);
  }

  /** `init` on any medium at all leads into the invariant, and a reboot there changes nothing. */
  lemma InitGood(c: Config, s: seq<byte>)
    requires c.Valid() && |s| <= U32_MAX
    ensures Good(c, State(s, Recover(c, s))) && Step(c, State(s, Recover(c, s)), Reboot) == State(s, Recover(c, s))
  {
  }

  /** An erased partition is such a medium, and stands for the empty map. */
  lemma BlankGood(c: Config, s: seq<byte>)
    requires c.Valid() && |s| <= U32_MAX && Blank(s, 0)
    ensures var st := State(s, Ram(0, 0));
            && Good(c, st) && Abs(c, st) == Store(map[], 0, 0) && Numbered(Records(c, s)) && IsTail(s, 0, Clean)
  {
    BlankStops(c, s, 0);
  }

  // ------------------------------------------------------------ all runs

  ghost predicate CanRun(c: Config, st: State, ops: seq<Op>)
    decreases |ops|
  {
    ops != [] ==> CanStep(c, st, ops[0]) && CanRun(c, Step(c, st, ops[0]), ops[1..])
  }

  ghost function Run(c: Config, st: State, ops: seq<Op>): (st': State)
    requires CanRun(c, st, ops)
    ensures |st'.medium| == |st.medium|
    decreases |ops|
  {
    if ops == [] then st else Run(c, Step(c, st, ops[0]), ops[1..])
  }

  function StoreRun(size: nat, a: Store, ops: seq<Op>): Store
    decreases |ops|
  {
    if ops == [] then a else StoreRun(size, StoreStep(size, a, ops[0]), ops[1..])
  }

  /**
   Over every run from any medium, of sets, deletes, failures cut at any byte and reboots, the store is the finite
   map: last writer wins, a failure and a lack of room change nothing, a reboot changes nothing.
   */
  lemma {:induction false} RunRefinesStore(c: Config, st: State, ops: seq<Op>)
    requires Good(c, st) && CanRun(c, st, ops)
    ensures var st' := Run(c, st, ops);
            && Good(c, st')
            && Step(c, st', Reboot) == st'
            && Abs(c, st') == StoreRun(|st.medium|, Abs(c, st), ops)
            && (Numbered(Records(c, st.medium)) ==> Numbered(Records(c, st'.medium)))
    decreases |ops|
  {
    if ops == [] {
    } else {
      StepRefinesStore(c, st, ops[0]);
      hide Step, StoreStep, Good, Abs, Numbered;
      RunRefinesStore(c, Step(c, st, ops[0]), ops[1..]);
    }
  }

  /** From a blank partition a reboot finds the sum of the record sizes and the record count, after every such run. */
  lemma RebootIsIdentity(c: Config, s: seq<byte>, ops: seq<Op>)
    requires c.Valid() && |s| <= U32_MAX && Blank(s, 0) && CanRun(c, State(s, Ram(0, 0)), ops)
    ensures var st' := Run(c, State(s, Ram(0, 0)), ops);
            && Step(c, st', Reboot) == st'
            && st'.ram.writeOffset == TotalSize(Records(c, st'.medium))
            && st'.ram.nextSeq == |Records(c, st'.medium)|
  {
    hide Step, ParseAt;
    BlankGood(c, s);
    RunRefinesStore(c, State(s, Ram(0, 0)), ops);
    CountIsNext(c, Run(c, State(s, Ram(0, 0)), ops));
  }

  // ------------------------------------------------------------ which runs are possible

  /** A write that ends no earlier than the failed attempts before it, or that fails again as `Follows` says. */
  predicate Careful(c: Config, st: State, tail: Tail, op: Op) {
    match op
    case Put(_, _, _) => tail.Pending? && HasRoom(st, op) ==> NewEnd(st, op) >= tail.reach
    case FailedPut(_, _, _, cut) => Follows(tail, RecordOf(st.ram, op), cut)
    case Reboot => true
  }

  function TailStep(st: State, tail: Tail, op: Op): Tail {
    match op
    case Put(_, _, _) => if HasRoom(st, op) then Clean else tail
    case FailedPut(_, _, _, cut) => TailAfter(st.ram.writeOffset, tail, RecordOf(st.ram, op), cut)
    case Reboot => tail
  }

  /** The operation makes sense in this state. */
  ghost predicate Applicable(c: Config, st: State, op: Op) {
    && WellFormed(c, op)
    && (op.FailedPut? ==> HasRoom(st, op) && IsCut(ScriptAt(c, st.ram.writeOffset, RecordOf(st.ram, op)), op.cut))
  }

  lemma CarefulStep(c: Config, st: State, tail: Tail, op: Op)
    requires Good(c, st) && IsTail(st.medium, st.ram.writeOffset, tail)
    requires Applicable(c, st, op) && Careful(c, st, tail, op)
    ensures CanStep(c, st, op)
    ensures IsTail(Step(c, st, op).medium, Step(c, st, op).ram.writeOffset, TailStep(st, tail, op))
  {
    match op
    case Put(_, _, _) =>
      if HasRoom(st, op) {
        PutOnAnyBytes(c, st.medium, RecordOf(st.ram, op));
        BlankStops(c, st.medium, NewEnd(st, op));
      }
    case FailedPut(_, _, _, cut) =>
      TailQuiet(c, st.medium, st.ram.writeOffset, tail, RecordOf(st.ram, op), cut);
      TailTorn(c, st.medium, st.ram.writeOffset, tail, RecordOf(st.ram, op), cut);
    case Reboot =>
  }

  ghost predicate CarefulRun(c: Config, st: State, tail: Tail, ops: seq<Op>)
    decreases |ops|
  {
    ops != [] ==>
      && Applicable(c, st, ops[0]) && Careful(c, st, tail, ops[0])
      && CarefulRun(c, Step(c, st, ops[0]), TailStep(st, tail, ops[0]), ops[1..])
  }

  /**
   From a blank tail all runs are possible in which a write after failed ones ends no earlier than they would have,
   and a failed write after failed ones has the same key length and the same high byte of the value length, or is
   cut past its length fields.
   */
  lemma {:induction false} CarefulRunsPossible(c: Config, st: State, tail: Tail, ops: seq<Op>)
    requires Good(c, st) && IsTail(st.medium, st.ram.writeOffset, tail) && CarefulRun(c, st, tail, ops)
    ensures CanRun(c, st, ops)
    decreases |ops|
  {
    if ops == [] {
    } else {
      CarefulStep(c, st, tail, ops[0]);
      StepRefinesStore(c, st, ops[0]);
      hide Step, CanStep, Good, IsTail, Careful, Applicable;
      CarefulRunsPossible(c, Step(c, st, ops[0]), TailStep(st, tail, ops[0]), ops[1..]);
    }
  }
}
