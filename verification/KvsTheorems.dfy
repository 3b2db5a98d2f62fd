/** What the key-value store promises, over all cuts and all bytes, and exactly where the promise ends. */
module KvsTheorems {
  import opened Bytes
  import Crc
  import opened Crash
  import opened KvsLog
  import opened KvsRuns

  /**
   A power cut at any byte of a `set` or `delete`, even inside the header, then any number of scans: they see the
   map before it. Finished, they see the map after it. So from every log with a blank tail, and from every tail of
   failed attempts this one follows up. The checksum plays no part.
   */
  lemma CrashAtomic(c: Config, st: State, tail: Tail, key: Key, value: Value, deleted: bool, cut: Cut)
    requires Good(c, st) && IsTail(st.medium, st.ram.writeOffset, tail) && HasRoom(st, Put(key, value, deleted))
    requires Applicable(c, st, FailedPut(key, value, deleted, cut))
    requires Careful(c, st, tail, Put(key, value, deleted)) && Careful(c, st, tail, FailedPut(key, value, deleted, cut))
    ensures var before := MapOf(Records(c, st.medium));
            var done := Step(c, st, Put(key, value, deleted));
            var torn := Step(c, st, FailedPut(key, value, deleted, cut));
            && MapOf(Records(c, torn.medium)) == before
            && MapOf(Records(c, done.medium)) == (if deleted then before - {key} else before[key := value])
            && Step(c, torn, Reboot) == torn && torn.ram == st.ram
  {
    var put, cutPut := Put(key, value, deleted), FailedPut(key, value, deleted, cut);
    CarefulStep(c, st, tail, put);
    CarefulStep(c, st, tail, cutPut);
    hide IsTail, Careful, CanStep;
    StepRefinesStore(c, st, put);
    StepRefinesStore(c, st, cutPut);
  }

  /** A key never touched by a run keeps its value. */
  lemma {:induction false} OtherKeysUntouched(size: nat, a: Store, ops: seq<Op>, key: Key)
    requires forall i :: 0 <= i < |ops| && ops[i].Put? ==> ops[i].key != key
    ensures var b := StoreRun(size, a, ops);
            (key in b.content <==> key in a.content) && (key in a.content ==> b.content[key] == a.content[key])
    decreases |ops|
  {
    if ops == [] {
    } else {
      OtherKeysUntouched(size, StoreStep(size, a, ops[0]), ops[1..], key);
    }
  }

  // ------------------------------------------------------------ a damaged byte

  /**
   If the checksum loses no difference, one byte changed in a record, outside its length fields, ends the log before
   it: a lookup then answers from the records before it only.
   */
  lemma DamageEndsLog(c: Config, s: seq<byte>, i: nat, k: nat, x: byte)
    requires Crc.Injective(c.step) && i < |Records(c, s)| && k < |s| && x != s[k]
    requires var at := TotalSize(Records(c, s)[..i]);
             at <= k < at + Records(c, s)[i].Size() && !(at + 8 <= k < at + 12)
    ensures Records(c, s[k := x]) == Records(c, s)[..i]
    ensures MapOf(Records(c, s[k := x])) == MapOf(Records(c, s)[..i])
  {
    DamageStops(c, s, 0, i, k, x);
  }

  lemma {:induction false} DamageStops(c: Config, s: seq<byte>, off: nat, i: nat, k: nat, x: byte)
    requires Crc.Injective(c.step) && i < |Parse(c, s, off)| && k < |s| && x != s[k]
    requires var at := off + TotalSize(Parse(c, s, off)[..i]);
             at <= k < at + Parse(c, s, off)[i].Size() && !(at + 8 <= k < at + 12)
    ensures Parse(c, s[k := x], off) == Parse(c, s, off)[..i]
    decreases i
  {
    hide ParseAt, Crc.Injective;
    var r, rs := ParseAt(c, s, off).value, Parse(c, s, off);
    if i == 0 {
      OneByteStops(c, s, off, k, x);
    } else {
      var next := off + r.Size();
      var rest := Parse(c, s, next);
      assert rs == [r] + rest && rs[..i] == [r] + rest[..i - 1] && rs[i] == rest[i - 1];
      assert rs[..i][1..] == rest[..i - 1];
      DamageStops(c, s, next, i - 1, k, x);
      ParseAtWindow(c, s, s[k := x], off);
      assert Parse(c, s[k := x], off) == [r] + Parse(c, s[k := x], next);
    }
  }

  // ------------------------------------------------------------ on bytes that are not blank

  /** With this checksum the cut brings a record to light where the write began. */
  ghost predicate Appears(c: Config, s: seq<byte>, off: nat, r: Record, cut: Cut, step: Crc.Step)
    requires Storable(c, r) && off + r.Size() <= |s|
  {
    var c' := Config(c.magic, c.maxValue, step);
    IsCut(ScriptAt(c', off, r), cut) && ParseAt(c', Torn(s, ScriptAt(c', off, r), cut), off).Some?
  }

  /**
   The condition on a cut is exact: on any bytes, once its first write has landed, the header it leaves is quiet if
   and only if there is no checksum for which a record appears.
   */
  lemma CutQuietExactly(c: Config, s: seq<byte>, off: nat, r: Record, cut: Cut)
    requires c.Valid() && Storable(c, r) && off + r.Size() <= |s|
    requires cut.index > 0 && IsCut(ScriptAt(c, off, r), cut)
    ensures CutQuiet(c, s, off, r, cut) <==> forall step :: !Appears(c, s, off, r, cut, step)
  {
    hide Torn, ScriptAt, ParseAt, Header, HeaderOk;
    if CutQuiet(c, s, off, r, cut) {
      forall step
        ensures !Appears(c, s, off, r, cut, step)
      {
        QuietForAll(c, s, off, r, cut, step);
      }
    } else {
      if Reached(cut) >= 12 {
        LateCutQuiet(c, s, off, r, cut);
      }
      var half := HalfHeader(s, off, Header(c, r), Reached(cut));
      var stored := Decode32(half[16..20]);
      LoudAppears(c, s, off, r, cut, half, (_: u32, _: byte) => stored);
    }
  }

  lemma QuietForAll(c: Config, s: seq<byte>, off: nat, r: Record, cut: Cut, step: Crc.Step)
    requires c.Valid() && Storable(c, r) && off + r.Size() <= |s| && cut.index > 0 && CutQuiet(c, s, off, r, cut)
    ensures !Appears(c, s, off, r, cut, step)
  {
    var c' := Config(c.magic, c.maxValue, step);
    if Reached(cut) >= 12 {
      LateCutQuiet(c', s, off, r, cut);
    } else {
      SameHalf(c, s, off, r, cut, step);
    }
    if IsCut(ScriptAt(c', off, r), cut) {
      QuietStops(c', s, off, r, cut);
    }
  }

  /** Only the last four bytes of a header depend on the checksum. */
  lemma SameHalf(c: Config, s: seq<byte>, off: nat, r: Record, cut: Cut, step: Crc.Step)
    requires Storable(c, r) && off + r.Size() <= |s| && Reached(cut) <= 16
    ensures HalfHeader(s, off, Header(Config(c.magic, c.maxValue, step), r), Reached(cut)) ==
            HalfHeader(s, off, Header(c, r), Reached(cut))
  {
    var c' := Config(c.magic, c.maxValue, step);
    assert Prefix(c', r) == Prefix(c, r);
    assert forall i :: 0 <= i < 16 ==> Header(c', r)[i] == Prefix(c, r)[i] && Header(c, r)[i] == Prefix(c, r)[i];
  }

  lemma {:induction false} ConstantCrc(step: Crc.Step, x: u32, seed: u32, data: seq<byte>)
    requires forall a: u32, b: byte :: step(a, b) == x
    ensures Crc.Crc32(step, seed, data) == if data == [] then seed else x
    decreases |data|
  {
    if data == [] {
    } else {
      ConstantCrc(step, x, step(seed, data[0]), data[1..]);
    }
  }

  lemma LoudAppears(c: Config, s: seq<byte>, off: nat, r: Record, cut: Cut, half: seq<byte>, step: Crc.Step)
    requires c.Valid() && Storable(c, r) && off + r.Size() <= |s| && Reached(cut) < 12
    requires cut.index > 0 && IsCut(ScriptAt(c, off, r), cut)
    requires half == HalfHeader(s, off, Header(c, r), Reached(cut)) && !Quiet(c, s, off, half, off + r.Size() - 1)
    requires forall a: u32, b: byte :: step(a, b) == Decode32(half[16..20])
    ensures Appears(c, s, off, r, cut, step)
  {
    var c' := Config(c.magic, c.maxValue, step);
    CutBytes(c', s, off, r, cut);
    SameHalf(c, s, off, r, cut, step);
    hide Torn, ScriptAt, Header, HeaderOk, ParseAt;
    var t := Torn(s, ScriptAt(c', off, r), cut);
    assert t[off..off + HEADER] == half;
    assert t[off + SizeOf(half) - 1] == COMMIT;
    SameLimits(c, c', half);
    LoudParse(c', t, off, half);
  }

  lemma SameLimits(c: Config, c': Config, h: seq<byte>)
    requires c'.magic == c.magic && c'.maxValue == c.maxValue && |h| == HEADER
    ensures HeaderOk(c', h) == HeaderOk(c, h)
  {
  }

  lemma LoudParse(c: Config, t: seq<byte>, off: nat, half: seq<byte>)
    requires |half| == HEADER && HeaderOk(c, half) && off + SizeOf(half) <= |t|
    requires t[off..off + HEADER] == half && t[off + SizeOf(half) - 1] == COMMIT
    requires forall a: u32, b: byte :: c.step(a, b) == Decode32(half[16..20])
    ensures ParseAt(c, t, off).Some?
  {
    hide HeaderOk, Decode32, Decode16;
    var x, f := Decode32(half[16..20]), Fields(half, t[off + HEADER..off + SizeOf(half) - 1]);
    ConstantCrc(c.step, x, 0, half[..16]);
    ConstantCrc(c.step, x, x, f.key);
    ConstantCrc(c.step, x, x, f.value);
  }

  /**
   The condition for a whole attempt, as a client does not choose the cut: all its cuts are quiet if and only if the
   twelve headers it goes through before its length fields are complete are.
   */
  lemma AttemptQuietIff(c: Config, s: seq<byte>, off: nat, r: Record)
    requires c.Valid() && Storable(c, r) && off + r.Size() <= |s|
    ensures (forall cut :: IsCut(ScriptAt(c, off, r), cut) ==> CutQuiet(c, s, off, r, cut)) <==>
            forall n: nat :: n < 12 ==> QuietAfter(c, s, off, r, n)
  {
    hide ScriptAt, HalfHeader, Quiet;
    HeaderIsWritten(c, off, r);
    if forall n: nat :: n < 12 ==> QuietAfter(c, s, off, r, n) {
      forall cut | IsCut(ScriptAt(c, off, r), cut)
        ensures CutQuiet(c, s, off, r, cut)
      {
        if Reached(cut) >= 12 {
          LateCutQuiet(c, s, off, r, cut);
        } else {
          assert QuietAfter(c, s, off, r, Reached(cut));
        }
      }
    }
    if forall cut :: IsCut(ScriptAt(c, off, r), cut) ==> CutQuiet(c, s, off, r, cut) {
      forall n: nat | n < 12
        ensures QuietAfter(c, s, off, r, n)
      {
        assert CutQuiet(c, s, off, r, Cut(1, n));
      }
    }
  }

  /** The header is quiet when its first `n` bytes are written. */
  predicate QuietAfter(c: Config, s: seq<byte>, off: nat, r: Record, n: nat)
    requires Storable(c, r) && off + r.Size() <= |s|
  {
    Quiet(c, s, off, HalfHeader(s, off, Header(c, r), n), off + r.Size() - 1)
  }

  lemma HeaderIsWritten(c: Config, off: nat, r: Record)
    requires Storable(c, r)
    ensures forall n: nat :: n < HEADER ==> IsCut(ScriptAt(c, off, r), Cut(1, n))
  {
  }

  lemma {:induction false} ParseSuffix(c: Config, s: seq<byte>, s': seq<byte>, off: nat)
    requires Agree(s, s', off, |s|)
    ensures Parse(c, s', off) == Parse(c, s, off)
    decreases |s| - off
  {
    hide ParseAt, Agree;
    ParseAtSuffix(c, s, s', off);
    var r := ParseAt(c, s, off);
    if r.Some? {
      AgreeLater(s, s', off, off + r.value.Size());
      ParseSuffix(c, s, s', off + r.value.Size());
    }
  }

  lemma AgreeLater(s: seq<byte>, s': seq<byte>, off: nat, later: nat)
    requires Agree(s, s', off, |s|) && off <= later
    ensures Agree(s, s', later, |s|) && |s'| == |s|
  {
  }

  /**
   A failed `init` leaves the store open with both fields 0. A `set` or `delete` then overwrites the log: of all its
   records none is left but those a scan meets that starts where the new record ends. So the first record alone is
   replaced if the new one has its size.
   */
  lemma PutAfterFailedInit(c: Config, s: seq<byte>, op: Op)
    requires c.Valid() && op.Put? && WellFormed(c, op) && HasRoom(State(s, Ram(0, 0)), op)
    ensures var st, r := State(s, Ram(0, 0)), RecordOf(Ram(0, 0), op);
            var s' := Step(c, st, op).medium;
            && Records(c, s') == [r] + Parse(c, s, r.Size())
            && (Records(c, s) != [] && Records(c, s)[0].Size() == r.Size() ==>
                  Records(c, s') == [r] + Records(c, s)[1..])
  {
    hide LandAll, RecordScript, ParseAt, Image, MapOf;
    var st, r := State(s, Ram(0, 0)), RecordOf(Ram(0, 0), op);
    PutDone(c, r, s, 0);
    ParseSuffix(c, s, Step(c, st, op).medium, r.Size());
  }

  // ------------------------------------------------------------ a cut that is not quiet

  /** An attempt to store 336 bytes 0xA5, cut before its commit; and one with another key, cut inside its lengths. */
  const FIRST: Op := FailedPut([1], Repeat(0xA5, 336), false, Cut(4, 0))
  const SECOND: Op := FailedPut([1, 2], Repeat(7, 16), false, Cut(1, 11))

  /** The state the first attempt leaves on a blank partition. */
  ghost predicate AfterFirst(c: Config, st: State) {
    && c.Valid() && 336 <= c.maxValue && 400 <= |st.medium| && st.ram == Ram(0, 0)
    && st.medium[0..HEADER] == Header(c, RecordOf(Ram(0, 0), FIRST)) && st.medium[294] == COMMIT
  }

  lemma FirstLeaves(c: Config, s: seq<byte>)
    requires c.Valid() && Blank(s, 0) && 400 <= |s| <= U32_MAX && 336 <= c.maxValue
    ensures var st := State(s, Ram(0, 0));
            Good(c, st) && CanStep(c, st, FIRST) && AfterFirst(c, Step(c, st, FIRST))
  {
    hide LandAll, LandUpTo, Torn, RecordScript, RawScript, ParseAt, Header, Prefix, RecordCrc, MapOf;
    var st := State(s, Ram(0, 0));
    var r := RecordOf(st.ram, FIRST);
    BlankGood(c, s);
    BlankStops(c, s, 0);
    FirstIsCut(c, r);
    LateCutQuiet(c, s, 0, r, FIRST.cut);
    CutBytes(c, s, 0, r, FIRST.cut);
    assert HalfHeader(s, 0, Header(c, r), HEADER) == Header(c, r);
    CutQuietly(c, s, r, FIRST.cut);
    ValueByte(c, s, r, 273);
  }

  lemma FirstIsCut(c: Config, r: Record)
    requires Storable(c, r) && r.value != []
    ensures IsCut(ScriptAt(c, 0, r), Cut(4, 0)) && IsCut(RecordScript(c, r), Cut(4, 0))
  {
  }

  /** Cut just before its commit, an attempt has written its whole value. */
  lemma ValueByte(c: Config, s: seq<byte>, r: Record, i: nat)
    requires c.Valid() && Storable(c, r) && r.value != [] && r.Size() <= |s| && i < |r.value|
    requires IsCut(ScriptAt(c, 0, r), Cut(4, 0))
    ensures Torn(s, ScriptAt(c, 0, r), Cut(4, 0))[HEADER + |r.key| + i] == r.value[i]
  {
    hide LandAll, LandUpTo, Torn, Header, RawScript;
    FirstIsCut(c, r);
    var t, w := Torn(s, ScriptAt(c, 0, r), Cut(4, 0)), s[0..r.Size()];
    TornInWindow(s, RecordScript(c, r), Cut(4, 0), 0, r.Size());
    ValueLanded(Header(c, r), r.key, r.value, w);
    var from := HEADER + |r.key|;
    assert t[0..r.Size()][from..from + |r.value|][i] == r.value[i];
  }

  /** The header the second attempt leaves: its key length, and a value length of which one byte is the first one's. */
  lemma SecondIsLoud(c: Config, s1: seq<byte>, first: Record, second: Record)
    requires c.Valid() && 336 <= c.maxValue && 400 <= |s1|
    requires Storable(c, first) && |first.value| == 336 && s1[0..HEADER] == Header(c, first) && s1[294] == COMMIT
    requires Storable(c, second) && |second.key| == 2 && |second.value| == 16
    ensures var half := HalfHeader(s1, 0, Header(c, second), 11);
            !Quiet(c, s1, 0, half, second.Size() - 1) && half[16..20] == Header(c, first)[16..20]
  {
    var h1, h2 := Header(c, first), Header(c, second);
    var half := HalfHeader(s1, 0, h2, 11);
    HeaderLengths(c, first);
    HeaderLengths(c, second);
    HeaderFields(c, second);
    hide Header, Prefix, RecordCrc;
    LengthFields(half);
    assert half[0..4] == h2[0..4];
    assert half[11] == s1[0..HEADER][11] == 1;
    assert half[16..20] == s1[0..HEADER][16..20];
  }

  /**
   The condition on a cut leaves something out of the runs from a blank partition: after a failed attempt the machine
   admits, another one cut inside its length fields is not admitted, and there is a checksum for which it brings a
   record to light. The mixed lengths point at a value byte of the first attempt.
   */
  lemma EarlyCutCanResurface(c: Config, s: seq<byte>)
    requires c.Valid() && Blank(s, 0) && 400 <= |s| <= U32_MAX && 336 <= c.maxValue
    ensures var st := State(s, Ram(0, 0));
            && Good(c, st) && CanStep(c, st, FIRST)
            && var st1 := Step(c, st, FIRST);
               && Applicable(c, st1, SECOND) && !CanStep(c, st1, SECOND)
               && exists step :: Appears(c, st1.medium, 0, RecordOf(st1.ram, SECOND), SECOND.cut, step)
  {
    var st := State(s, Ram(0, 0));
    FirstLeaves(c, s);
    hide Good, CanStep, Applicable, Step, Appears, AfterFirst;
    SecondRefused(c, Step(c, st, FIRST));
  }

  lemma SecondRefused(c: Config, st: State)
    requires AfterFirst(c, st)
    ensures Applicable(c, st, SECOND) && !CanStep(c, st, SECOND)
    ensures exists step :: Appears(c, st.medium, 0, RecordOf(st.ram, SECOND), SECOND.cut, step)
  {
    var r := RecordOf(st.ram, SECOND);
    SecondApplicable(c, st);
    SecondNotQuiet(c, st, RecordOf(st.ram, FIRST), r);
    hide Torn, ScriptAt, CutQuiet, Appears, AfterFirst, Repeat;
    CutQuietExactly(c, st.medium, 0, r, SECOND.cut);
  }

  lemma SecondApplicable(c: Config, st: State)
    requires AfterFirst(c, st)
    ensures Applicable(c, st, SECOND)
  {
    HeaderIsWritten(c, 0, RecordOf(st.ram, SECOND));
    hide ScriptAt, Header;
  }

  lemma SecondNotQuiet(c: Config, st: State, first: Record, second: Record)
    requires AfterFirst(c, st) && first == RecordOf(st.ram, FIRST) && second == RecordOf(st.ram, SECOND)
    ensures c.Valid() && Storable(c, first) && Storable(c, second) && second.Size() <= |st.medium|
    ensures st.ram == Ram(0, 0)
    ensures !CutQuiet(c, st.medium, 0, second, SECOND.cut)
    ensures HalfHeader(st.medium, 0, Header(c, second), 11)[16..20] == Header(c, first)[16..20]
  {
    hide Header, Quiet, HalfHeader, Repeat;
    SecondIsLoud(c, st.medium, first, second);
  }

  /** With a constant checksum the two attempts, both failed, do leave a record on a blank partition. */
  lemma EarlyCutResurfaces(c: Config, s: seq<byte>, x: u32)
    requires c.Valid() && Blank(s, 0) && 400 <= |s| <= U32_MAX && 336 <= c.maxValue
    requires forall a: u32, b: byte :: c.step(a, b) == x
    ensures CanStep(c, State(s, Ram(0, 0)), FIRST)
    ensures var st1 := Step(c, State(s, Ram(0, 0)), FIRST);
            Applicable(c, st1, SECOND) && Records(c, Step(c, st1, SECOND).medium) != []
  {
    var st := State(s, Ram(0, 0));
    FirstLeaves(c, s);
    hide Good, CanStep, AfterFirst, Applicable;
    SecondRefused(c, Step(c, st, FIRST));
    SecondAppears(c, Step(c, st, FIRST), x);
  }

  lemma SecondAppears(c: Config, st: State, x: u32)
    requires AfterFirst(c, st) && Applicable(c, st, SECOND) && forall a: u32, b: byte :: c.step(a, b) == x
    ensures Records(c, Step(c, st, SECOND).medium) != []
  {
    hide Torn, ScriptAt, Header, CutQuiet, HalfHeader, AfterFirst, Repeat, WellFormed, HasRoom, Parse, Decode32;
    var r1, r := RecordOf(st.ram, FIRST), RecordOf(st.ram, SECOND);
    SecondNotQuiet(c, st, r1, r);
    ConstantHeader(c, r1, x);
    LoudRecords(c, st.medium, r, SECOND.cut, x);
  }

  lemma LoudRecords(c: Config, s: seq<byte>, r: Record, cut: Cut, x: u32)
    requires c.Valid() && Storable(c, r) && r.Size() <= |s| && cut.index > 0 && Reached(cut) < 12
    requires IsCut(ScriptAt(c, 0, r), cut) && !CutQuiet(c, s, 0, r, cut)
    requires Decode32(HalfHeader(s, 0, Header(c, r), Reached(cut))[16..20]) == x
    requires forall a: u32, b: byte :: c.step(a, b) == x
    ensures Records(c, Torn(s, ScriptAt(c, 0, r), cut)) != []
  {
    hide Torn, ScriptAt, Header, Quiet, HalfHeader, Appears, Parse, ParseAt;
    LoudAppears(c, s, 0, r, cut, HalfHeader(s, 0, Header(c, r), Reached(cut)), c.step);
    AppearsInRecords(c, s, r, cut);
  }

  lemma AppearsInRecords(c: Config, s: seq<byte>, r: Record, cut: Cut)
    requires Storable(c, r) && r.Size() <= |s| && Appears(c, s, 0, r, cut, c.step)
    ensures IsCut(ScriptAt(c, 0, r), cut) && Records(c, Torn(s, ScriptAt(c, 0, r), cut)) != []
  {
    hide Torn, ScriptAt, ParseAt;
    assert c == Config(c.magic, c.maxValue, c.step);
  }

  lemma ConstantHeader(c: Config, r: Record, x: u32)
    requires c.Valid() && Storable(c, r)
    requires forall a: u32, b: byte :: c.step(a, b) == x
    ensures Decode32(Header(c, r)[16..20]) == x
  {
    HeaderFields(c, r);
    hide Header;
    ConstantCrc(c.step, x, 0, Prefix(c, r));
    ConstantCrc(c.step, x, x, r.key);
    ConstantCrc(c.step, x, x, r.value);
  }

  /**
   On any bytes at all, a `set` or `delete` that finishes adds its record and nothing else if and only if a scan
   started where the new record will end would meet no record: the store never clears the bytes after its end.
   */
  lemma PutExactIff(c: Config, s: seq<byte>, r: Record, s': seq<byte>)
    requires c.Valid() && Storable(c, r) && End(c, s, 0) + r.Size() <= |s|
    requires s' == LandAll(s, ScriptAt(c, End(c, s, 0), r))
    ensures Records(c, s') == Records(c, s) + [r] <==> Parse(c, s, End(c, s, 0) + r.Size()) == []
  {
    hide ParseAt, Parse, End, LandAll, LandUpTo, RecordScript, Image;
    PutDone(c, r, s, End(c, s, 0));
    AddedExactlyIff(c, s, s', r);
  }

  lemma AddedExactlyIff(c: Config, s: seq<byte>, s': seq<byte>, r: Record)
    requires SameOutside(s, s', End(c, s, 0), End(c, s, 0) + r.Size()) && ParseAt(c, s', End(c, s, 0)) == Some(r)
    ensures Records(c, s') == Records(c, s) + [r] <==> Parse(c, s, End(c, s, 0) + r.Size()) == []
  {
    hide ParseAt;
    var end := End(c, s, 0);
    ParseOver(c, s, s', r);
    SameBeyond(c, s, s', end, end + r.Size());
    NoMore(Records(c, s) + [r], Parse(c, s', end + r.Size()));
  }

  lemma SameBeyond(c: Config, s: seq<byte>, s': seq<byte>, lo: nat, hi: nat)
    requires SameOutside(s, s', lo, hi)
    ensures Parse(c, s', hi) == [] <==> Parse(c, s, hi) == []
  {
    ParseAtSuffix(c, s, s', hi);
    hide ParseAt;
    assert Parse(c, s, hi) == [] <==> ParseAt(c, s, hi) == None;
  }

  lemma NoMore(a: seq<Record>, more: seq<Record>)
    ensures a + more == a <==> more == []
  {
    assert |a + more| == |a| + |more|;
  }

  /** The first attempt: a value that happens to hold the image of a record, cut just before its commit. */
  ghost function Attempt(c: Config, key: Key, g: Record): Op
    requires Storable(c, g)
  {
    FailedPut(key, [0] + Image(c, g), false, Cut(4, 0))
  }

  /**
   Retrying a failed `set` with a shorter value can bring back bytes of the first attempt as a record: on a blank
   partition, a failed `set(key, ..)` and then a successful `set(key, "")` leave a key in the map that was never
   set. This is a write `CanStep` does not admit, as a record starts where it ends.
   */
  lemma ShorterRetryCanResurface(c: Config, s: seq<byte>, key: Key, g: Record)
    requires c.Valid() && Blank(s, 0) && 1 <= |key| <= KEY_MAX
    requires Storable(c, g) && g.flags == 0 && 1 + g.Size() <= c.maxValue
    requires HEADER + |key| + 1 + g.Size() + 1 <= |s| <= U32_MAX
    ensures var st := State(s, Ram(0, 0));
            && Good(c, st) && CanStep(c, st, Attempt(c, key, g))
            && var failed := Step(c, st, Attempt(c, key, g));
               && Good(c, failed) && HasRoom(failed, Put(key, [], false)) && !CanStep(c, failed, Put(key, [], false))
               && Records(c, Step(c, failed, Put(key, [], false)).medium) == [Record(0, 0, key, []), g]
  {
    AttemptLeaves(c, s, key, g);
    hide Step, Good, CanStep;
    RetryFinds(c, Step(c, State(s, Ram(0, 0)), Attempt(c, key, g)), key, g);
  }

  /** What the first attempt leaves: no record, RAM as it was, and the image where the retry will end. */
  lemma AttemptLeaves(c: Config, s: seq<byte>, key: Key, g: Record)
    requires c.Valid() && Blank(s, 0) && 1 <= |key| <= KEY_MAX
    requires Storable(c, g) && 1 + g.Size() <= c.maxValue
    requires HEADER + |key| + 1 + g.Size() + 1 <= |s| <= U32_MAX
    ensures var st, op := State(s, Ram(0, 0)), Attempt(c, key, g);
            && Good(c, st) && CanStep(c, st, op)
            && var failed := Step(c, st, op);
               && Good(c, failed) && failed.ram == Ram(0, 0) && |failed.medium| == |s|
               && Records(c, failed.medium) == [] && HoldsImage(c, failed.medium, HEADER + |key| + 1, g)
  {
    hide LandAll, LandUpTo, Torn, RecordScript, ParseAt, Image, MapOf;
    var st, op := State(s, Ram(0, 0)), Attempt(c, key, g);
    BlankGood(c, s);
    BlankStops(c, s, 0);
    AttemptCut(c, key, g);
    AttemptBytes(c, s, key, g);
    CutQuietly(c, s, RecordOf(st.ram, op), op.cut);
  }

  ghost predicate HoldsImage(c: Config, s: seq<byte>, at: nat, g: Record)
    requires Storable(c, g)
  {
    at + g.Size() <= |s| && s[at..at + g.Size()] == Image(c, g) && Blank(s, at + g.Size() + 1)
  }

  lemma RetryFinds(c: Config, st: State, key: Key, g: Record)
    requires Good(c, st) && st.ram == Ram(0, 0) && Records(c, st.medium) == []
    requires Storable(c, g) && 1 <= |key| <= KEY_MAX && HEADER + |key| + 1 + g.Size() < |st.medium|
    requires HoldsImage(c, st.medium, HEADER + |key| + 1, g)
    ensures var put := Put(key, [], false);
            && HasRoom(st, put) && !CanStep(c, st, put)
            && Records(c, Step(c, st, put).medium) == [Record(0, 0, key, []), g]
  {
    hide LandAll, LandUpTo, RecordScript, ParseAt, Image, MapOf;
    ParseImage(c, g, st.medium, HEADER + |key| + 1);
    ImageIsParsed(c, st.medium, Record(0, 0, key, []), g);
  }

  lemma AttemptCut(c: Config, key: Key, g: Record)
    requires c.Valid() && 1 <= |key| <= KEY_MAX && Storable(c, g) && 1 + g.Size() <= c.maxValue
    ensures IsCut(ScriptAt(c, 0, RecordOf(Ram(0, 0), Attempt(c, key, g))), Cut(4, 0))
    ensures forall s: seq<byte> :: HEADER + |key| + 1 + g.Size() + 1 <= |s| ==>
              CutQuiet(c, s, 0, RecordOf(Ram(0, 0), Attempt(c, key, g)), Cut(4, 0))
  {
    forall s: seq<byte> | HEADER + |key| + 1 + g.Size() + 1 <= |s|
      ensures CutQuiet(c, s, 0, RecordOf(Ram(0, 0), Attempt(c, key, g)), Cut(4, 0))
    {
      LateCutQuiet(c, s, 0, RecordOf(Ram(0, 0), Attempt(c, key, g)), Cut(4, 0));
    }
  }

  lemma ImageIsParsed(c: Config, s: seq<byte>, r: Record, g: Record)
    requires c.Valid() && Storable(c, r) && Storable(c, g) && r.Size() + g.Size() < |s|
    requires Records(c, s) == [] && End(c, s, 0) == 0
    requires s[r.Size()..r.Size() + g.Size()] == Image(c, g) && Blank(s, r.Size() + g.Size() + 1)
    ensures Records(c, LandAll(s, ScriptAt(c, 0, r))) == [r, g]
  {
    hide LandAll, LandUpTo, RecordScript, ParseAt, Image;
    var s' := LandAll(s, ScriptAt(c, 0, r));
    var at := r.Size();
    PutOnAnyBytes(c, s, r);
    assert s'[at..at + g.Size()] == s[at..at + g.Size()];
    ParseImage(c, g, s', at);
    NothingAfter(c, s', at + g.Size());
    ParseOne(c, s', at, g);
    assert [] + [r] + [g] == [r, g];
  }

  lemma ParseOne(c: Config, s: seq<byte>, off: nat, g: Record)
    requires ParseAt(c, s, off) == Some(g) && ParseAt(c, s, off + g.Size()) == None
    ensures Parse(c, s, off) == [g]
  {
    hide ParseAt;
    assert Parse(c, s, off + g.Size()) == [];
    assert Parse(c, s, off) == [g] + [];
  }

  lemma NothingAfter(c: Config, s: seq<byte>, end: nat)
    requires c.Valid() && Blank(s, end + 1)
    ensures ParseAt(c, s, end) == None
  {
    if end + HEADER + 1 <= |s| {
      LengthFields(s[end..end + HEADER]);
    }
  }

  /** The bytes the first attempt leaves after `key` and one more byte: the image, a zero, and blank. */
  lemma AttemptBytes(c: Config, s: seq<byte>, key: Key, g: Record)
    requires c.Valid() && Blank(s, 0) && 1 <= |key| <= KEY_MAX
    requires Storable(c, g) && 1 + g.Size() <= c.maxValue
    requires HEADER + |key| + 1 + g.Size() + 1 <= |s|
    requires CanStep(c, State(s, Ram(0, 0)), Attempt(c, key, g))
    ensures var s1 := Step(c, State(s, Ram(0, 0)), Attempt(c, key, g)).medium;
            var at := HEADER + |key| + 1;
            s1[at..at + g.Size()] == Image(c, g) && Blank(s1, at + g.Size() + 1)
  {
    hide LandUpTo, Image, Prefix, RecordCrc;
    var r := RecordOf(Ram(0, 0), Attempt(c, key, g));
    var s1 := Step(c, State(s, Ram(0, 0)), Attempt(c, key, g)).medium;
    var w := s1[0..r.Size()];
    var from := HEADER + |key|;
    TornInWindow(s, RecordScript(c, r), Cut(4, 0), 0, r.Size());
    ValueLanded(Header(c, r), key, [0] + Image(c, g), s[0..r.Size()]);
    assert w[from..from + 1 + g.Size()] == [0] + Image(c, g);
    ValueTail(s1, w, from, Image(c, g));
  }

  lemma ValueTail(s: seq<byte>, w: seq<byte>, from: nat, image: seq<byte>)
    requires |w| <= |s| && w == s[0..|w|] && from + 1 + |image| <= |w|
    requires w[from..from + 1 + |image|] == [0] + image
    ensures s[from + 1..from + 1 + |image|] == image
  {
    forall k | 0 <= k < |image|
      ensures s[from + 1 + k] == image[k]
    {
      assert w[from..from + 1 + |image|][1 + k] == image[k];
    }
  }

  lemma ValueLanded(h: seq<byte>, key: Key, value: Value, b: seq<byte>)
    requires |h| == HEADER && key != [] && value != [] && |b| == HEADER + |key| + |value| + 1
    requires IsCut(RawScript(h, key, value), Cut(4, 0))
    ensures Torn(b, RawScript(h, key, value), Cut(4, 0))[HEADER + |key|..HEADER + |key| + |value|] == value
  {
    var ws := RawScript(h, key, value);
    var b3 := LandUpTo(b, ws, 3);
    var b4 := LandUpTo(b, ws, 4);
  }
}
