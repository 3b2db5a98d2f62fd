/** The key-value store as the object applications hold: a scan over a log of records, and an append at its end. */
module Kvs {
  import opened Bytes
  import opened Crc
  import opened Crash
  import opened Device
  import opened Partition
  import opened ScriptIo
  import opened KvsLog
  import opened KvsRuns

  const CRC_CHUNK: nat := 64

  /** The last record of that key, starting from `acc`. */
  function Latest(rs: seq<Record>, key: Key, acc: Option<Record>): Option<Record>
    decreases |rs|
  {
    if rs == [] then acc else Latest(rs[1..], key, if rs[0].key == key then Some(rs[0]) else acc)
  }

  lemma {:induction false} LatestSnoc(rs: seq<Record>, r: Record, key: Key, acc: Option<Record>)
    ensures Latest(rs + [r], key, acc) == if r.key == key then Some(r) else Latest(rs, key, acc)
    decreases |rs|
  {
    if rs == [] {
      assert ([] + [r])[1..] == [];
    } else {
      assert (rs + [r])[1..] == rs[1..] + [r];
      LatestSnoc(rs[1..], r, key, if rs[0].key == key then Some(rs[0]) else acc);
    }
  }

  /** The scan's answer, the last record of the key unless it is a tombstone, is a lookup in the map. */
  lemma {:induction false} LatestIsLookup(rs: seq<Record>, key: Key)
    ensures var r := Latest(rs, key, None);
            && (key in MapOf(rs) <==> r.Some? && !r.value.Deleted())
            && (key in MapOf(rs) ==> MapOf(rs)[key] == r.value.value)
    decreases |rs|
  {
    if rs == [] {
    } else {
      var before, last := rs[..|rs| - 1], rs[|rs| - 1];
      LatestIsLookup(before, key);
      LatestSnoc(before, last, key, None);
      assert before + [last] == rs;
    }
  }

  class FramKvs {
    const pm: Pm
    const step: Step
    /** The build option that bounds a value, itself between 1 and 4096. */
    const maxValue: nat

    var part: Part
    var config: Config
    var writeOffset: nat
    var nextSeq: u32
    /** The mutex exists: `Init` has come at least to the scan. */
    var open: bool
    var ready: bool

    constructor (pm: Pm, step: Step, maxValue: nat)
      requires 1 <= maxValue <= 4096
      ensures Valid()
      ensures this.pm == pm && this.step == step && this.maxValue == maxValue && !ready && !open
    {
      this.pm, this.step, this.maxValue := pm, step, maxValue;
      part, config := Part([], 0, 0, 0), Config(0, maxValue, step);
      writeOffset, nextSeq, open, ready := 0, 0, false, false;
    }

    /** The largest record that starts in the partition ends below 4 GiB, so that sums of `uint32_t` do not wrap. */
    predicate SumsFit(size: nat) {
      size + HEADER + KEY_MAX + maxValue + 1 <= U32_MAX
    }

    /** The partition is on the device and small enough for sums of offsets not to wrap. */
    ghost predicate Configured()
      reads this`part, this`config
    {
      && pm.Owns(part) && SumsFit(part.size)
      && config.Valid() && config.maxValue == maxValue && config.step == step
    }

    ghost predicate Valid()
      reads this
    {
      1 <= maxValue <= 4096 && (open ==> Configured() && writeOffset <= part.size)
    }

    function Fields(): Ram
      reads this`writeOffset, this`nextSeq
    {
      Ram(writeOffset, nextSeq)
    }

    ghost function Medium(): (s: seq<byte>)
      requires Configured()
      reads this`part, this`config, pm.dev.hal.buffer
      ensures |s| == part.size
    {
      pm.Bytes(part)
    }

    /** The map the bytes stand for. */
    ghost function Content(): map<Key, Value>
      requires Configured()
      reads this`part, this`config, pm.dev.hal.buffer
    {
      MapOf(Records(config, Medium()))
    }

    // ---------------------------------------------------------- reading a record

    method ReadAt(off: nat, len: nat, ghost m: seq<byte>) returns (err: Err, out: seq<byte>)
      requires Configured() && m == Medium() && off + len <= part.size
      modifies pm.dev.hal`opCount
      ensures err == OK ==> out == m[off..off + len]
      ensures pm.Healthy() ==> err == OK
      ensures err != OK ==> err == if pm.initialized then FAIL else INVALID_STATE
      ensures pm.dev.hal.opCount >= old(pm.dev.hal.opCount)
    {
      err, out := pm.Read(part, off, len);
    }

    /**
     The checksum of a record, its value read in chunks of 64 bytes: the same as the checksum `set` takes of the
     whole value at once.
     */
    method ComputeCrc(off: nat, h: seq<byte>, ghost m: seq<byte>) returns (err: Err, crc: u32, key: seq<byte>)
      requires Configured() && m == Medium()
      requires |h| == HEADER && off + SizeOf(h) <= part.size
      modifies pm.dev.hal`opCount
      ensures err == OK ==>
                var keyLen, valueLen := Decode16(h[8..10]), Decode16(h[10..12]);
                && key == m[off + HEADER..off + HEADER + keyLen]
                && crc == RecordCrc(config, h[..16], key, m[off + HEADER + keyLen..off + HEADER + keyLen + valueLen])
      ensures pm.Healthy() ==> err == OK
      ensures err != OK ==> err == if pm.initialized then FAIL else INVALID_STATE
      ensures pm.dev.hal.opCount >= old(pm.dev.hal.opCount)
    {
      var keyLen, remaining: nat := Decode16(h[8..10]), Decode16(h[10..12]);
      hide Decode16, MapOf;
      crc := Crc32(config.step, 0, h[..16]);
      err, key := ReadAt(off + HEADER, keyLen, m);
      if err != OK {
        return;
      }
      crc := Crc32(config.step, crc, key);
      ghost var start, seed := off + HEADER + keyLen, crc;
      var valueOffset := off + HEADER + keyLen;
      while remaining > 0
        invariant err == OK && valueOffset + remaining == start + Decode16(h[10..12]) && start <= valueOffset
        invariant crc == Crc32(config.step, seed, m[start..valueOffset])
        invariant pm.dev.hal.opCount >= old(pm.dev.hal.opCount)
      {
        var chunk := if remaining > CRC_CHUNK then CRC_CHUNK else remaining;
        var buf;
        err, buf := ReadAt(valueOffset, chunk, m);
        if err != OK {
          return;
        }
        Crc32Concat(config.step, seed, m[start..valueOffset], buf);
        JoinSlices(m, start, valueOffset, valueOffset + chunk);
        crc := Crc32(config.step, crc, buf);
        valueOffset := valueOffset + chunk;
        remaining := remaining - chunk;
      }
    }

    /**
     One turn of the scan: the record at `off`, or none where the scan stops. A record has the magic number, legal
     lengths, the commit byte where they end, and the checksum of its first 16 bytes, its key and its value.
     */
    method ReadRecord(off: nat, ghost m: seq<byte>) returns (err: Err, h: seq<byte>, key: Option<Key>)
      requires Configured() && m == Medium() && off + HEADER + 1 <= part.size
      modifies pm.dev.hal`opCount
      ensures err == OK ==>
                && (key.Some? <==> ParseAt(config, m, off).Some?)
                && (key.Some? ==> IsHeaderOf(h, key.value, ParseAt(config, m, off).value))
      ensures err == OK ==>
                var keyLen, valueLen := Decode16(m[off + 8..off + 10]), Decode16(m[off + 10..off + 12]);
                && (key.Some? <==>
                      && Decode32(m[off..off + 4]) == config.magic && 1 <= keyLen <= 15 && valueLen <= maxValue
                      && off + 21 + keyLen + valueLen <= |m| && m[off + 20 + keyLen + valueLen] == 0xA5
                      && Crc32(step, 0, m[off..off + 16] + m[off + 20..off + 20 + keyLen + valueLen]) ==
                         Decode32(m[off + 16..off + 20]))
                && (key.Some? ==> h == m[off..off + 20] && key.value == m[off + 20..off + 20 + keyLen])
      ensures pm.Healthy() ==> err == OK
      ensures err != OK ==> err == if pm.initialized then FAIL else INVALID_STATE
      ensures pm.dev.hal.opCount >= old(pm.dev.hal.opCount)
    {
      ParseAtExactly(config, m, off);
      HeaderFieldsAt(m, off);
      hide Crc32, ParseAt, Decode16, Decode32;
      key := None;
      err, h := ReadAt(off, HEADER, m);
      if err != OK || !HeaderOk(config, h) || off + SizeOf(h) > part.size {
        return;
      }
      err, key := CheckRecord(off, h, m);
    }

    /** The commit byte and the checksum of a record whose header is legal. */
    method CheckRecord(off: nat, h: seq<byte>, ghost m: seq<byte>) returns (err: Err, key: Option<Key>)
      requires Configured() && m == Medium() && off + HEADER <= |m|
      requires h == m[off..off + HEADER] && off + SizeOf(h) <= part.size
      modifies pm.dev.hal`opCount
      ensures err == OK ==>
                var keyLen, valueLen := Decode16(h[8..10]), Decode16(h[10..12]);
                && (key.Some? <==>
                      && m[off + 20 + keyLen + valueLen] == 0xA5
                      && Crc32(step, 0, h[..16] + m[off + 20..off + 20 + keyLen + valueLen]) == Decode32(h[16..20]))
                && (key.Some? ==> key.value == m[off + 20..off + 20 + keyLen])
      ensures pm.Healthy() ==> err == OK
      ensures err != OK ==> err == if pm.initialized then FAIL else INVALID_STATE
      ensures pm.dev.hal.opCount >= old(pm.dev.hal.opCount)
    {
      BodyAt(config, m, off);
      BodyParts(m, off, h);
      hide Crc32, Decode16, Decode32;
      key := None;
      var commit, crc, k;
      err, commit := ReadAt(off + SizeOf(h) - 1, 1, m);
      if err != OK || commit[0] != COMMIT {
        return;
      }
      err, crc, k := ComputeCrc(off, h, m);
      if err != OK || crc != Decode32(h[16..20]) {
        return;
      }
      key := Some(k);
    }

    // ---------------------------------------------------------- scanning

    /** The last record of a key: its header, where it starts, and whether it is a tombstone. */
    method Scan(key: Key, ghost m: seq<byte>) returns (err: Err, h: seq<byte>, at: nat, deleted: bool)
      requires Configured() && m == Medium()
      modifies pm.dev.hal`opCount
      ensures err == OK ==>
                var r := Latest(Records(config, m), key, None);
                && r.Some? && deleted == r.value.Deleted()
                && ParseAt(config, m, at) == r && IsHeaderOf(h, key, r.value)
      ensures pm.Healthy() && Latest(Records(config, m), key, None).Some? ==> err == OK
      ensures pm.dev.hal.opCount >= old(pm.dev.hal.opCount)
    {
      hide ParseAt, HeaderOk, MapOf, IsHeaderOf, Latest;
      var off: nat, found := 0, false;
      h, at, deleted := [], 0, false;
      ghost var last: Option<Record> := None;
      while off + HEADER + 1 <= part.size
        invariant Latest(Records(config, m), key, None) == Latest(Parse(config, m, off), key, last)
        invariant found <==> last.Some?
        invariant pm.dev.hal.opCount >= old(pm.dev.hal.opCount)
        invariant found ==>
                    deleted == last.value.Deleted() && ParseAt(config, m, at) == last && IsHeaderOf(h, key, last.value)
        decreases part.size - off
      {
        var hdr, k;
        err, hdr, k := ReadRecord(off, m);
        if err != OK {
          return;
        }
        if k.None? {
          break;
        }
        ghost var r := ParseAt(config, m, off).value;
        HeaderSays(hdr, k.value, r);
        LatestStep(config, m, off, key, last);
        if k.value == key {
          h, at, found, deleted := hdr, off, true, hdr[12] % 2 == 1;
          last := Some(r);
        }
        off := off + SizeOf(hdr);
      }
      ScanEnds(config, m, off, key, last);
      err := if found then OK else NOT_FOUND;
    }

    /** Where the scan stops, and the sequence number for the next record. */
    method FindEnd(ghost m: seq<byte>) returns (err: Err, end: nat, next: u32)
      requires Configured() && m == Medium()
      modifies pm.dev.hal`opCount
      ensures err == OK ==> end == End(config, m, 0) && next == NextSeq(Records(config, m), 0)
      ensures pm.Healthy() ==> err == OK
      ensures err != OK ==> err == if pm.initialized then FAIL else INVALID_STATE
      ensures pm.dev.hal.opCount >= old(pm.dev.hal.opCount)
    {
      hide ParseAt, HeaderOk, MapOf, IsHeaderOf;
      end, next := 0, 0;
      while end + HEADER + 1 <= part.size
        invariant End(config, m, 0) == End(config, m, end)
        invariant pm.dev.hal.opCount >= old(pm.dev.hal.opCount)
        invariant NextSeq(Records(config, m), 0) == NextSeq(Parse(config, m, end), next)
        decreases part.size - end
      {
        var hdr, k;
        err, hdr, k := ReadRecord(end, m);
        if err != OK {
          return;
        }
        if k.None? {
          break;
        }
        HeaderSays(hdr, k.value, ParseAt(config, m, end).value);
        EndStep(config, m, end, next);
        if Decode32(hdr[4..8]) >= next {
          next := Inc32(Decode32(hdr[4..8]));
        }
        end := end + SizeOf(hdr);
      }
      EndHere(config, m, end, next);
      err := OK;
    }

    /** Recovers both fields from the medium alone. */
    method Init(name: seq<byte>, magic: u32) returns (err: Err)
      requires pm.Valid() && 1 <= maxValue <= 4096 && (pm.Named(name).Some? ==> SumsFit(pm.Named(name).value.size))
      modifies this, pm.dev.hal`opCount
      ensures Valid()
      ensures err == OK ==> ready && open && config == Config(magic, maxValue, step)
      ensures err == OK ==> Fields() == Recover(config, Medium()) && Good(config, State())
      ensures err == OK ==> Some(part) == pm.Named(name)
      ensures err != OK && open ==> !ready && Fields() == Ram(0, 0)
      ensures pm.Named(name).None? ==> err == NOT_FOUND
      ensures pm.Named(name).Some? && pm.Healthy() ==> err == OK
      ensures pm.Named(name).Some? && err != OK ==> err == if pm.initialized then FAIL else INVALID_STATE
      ensures pm.dev.hal.opCount >= old(pm.dev.hal.opCount)
    {
      hide FirstNamed, End, NextSeq, Records;
      writeOffset, nextSeq, open, ready := 0, 0, false, false;
      var found := pm.Find(name);
      if found.None? {
        return NOT_FOUND;
      }
      part, config := found.value, Config(magic, maxValue, step);
      open := true;
      assert pm.Owns(part);
      err := RecoverEnd(Medium());
      ready := err == OK;
    }

    method RecoverEnd(ghost m: seq<byte>) returns (err: Err)
      requires Configured() && m == Medium()
      modifies this`writeOffset, this`nextSeq, pm.dev.hal`opCount
      ensures err == OK ==> Fields() == Ram(End(config, m, 0), NextSeq(Records(config, m), 0))
      ensures err != OK ==> Fields() == old(Fields())
      ensures old(writeOffset) <= part.size ==> writeOffset <= part.size
      ensures pm.Healthy() ==> err == OK
      ensures err != OK ==> err == if pm.initialized then FAIL else INVALID_STATE
      ensures pm.dev.hal.opCount >= old(pm.dev.hal.opCount)
    {
      var end, next;
      err, end, next := FindEnd(m);
      if err == OK {
        writeOffset, nextSeq := end, next;
      }
    }

    // ---------------------------------------------------------- lookups

    predicate KeyOk(key: Key) {
      0 < |key| <= KEY_MAX
    }

    /** The value of a key; without room for it, its length. On a medium that reads, exactly a lookup in the map. */
    method Get(key: Key, room: nat) returns (err: Err, len: nat, value: Value)
      requires Valid()
      modifies pm.dev.hal`opCount
      ensures |key| == 0 || |key| > 15 ==> err == INVALID_ARG
      ensures 0 < |key| <= 15 && !open ==> err == INVALID_STATE
      ensures err == OK ==> open && key in Content() && value == Content()[key] && len == |value| <= room
      ensures 0 < |key| <= 15 && open && pm.Healthy() ==>
                && (err == OK <==> key in Content() && |Content()[key]| <= room)
                && (err == NOT_FOUND <==> key !in Content())
                && (err == INVALID_SIZE <==> key in Content() && |Content()[key]| > room)
                && (key in Content() ==> len == |Content()[key]|)
      ensures pm.dev.hal.opCount >= old(pm.dev.hal.opCount)
    {
      len, value := 0, [];
      if !KeyOk(key) {
        return INVALID_ARG, 0, [];
      }
      if !open {
        return INVALID_STATE, 0, [];
      }
      err, len, value := Lookup(key, room, true, Medium(), Content());
    }

    /** The scan, then the value if it is wanted and fits. */
    method Lookup(key: Key, room: nat, wanted: bool, ghost m: seq<byte>, ghost content: map<Key, Value>)
      returns (err: Err, len: nat, value: Value)
      requires Configured() && m == Medium() && content == MapOf(Records(config, m))
      modifies pm.dev.hal`opCount
      ensures err == OK ==> key in content && len == |content[key]| && (wanted ==> value == content[key] && len <= room)
      ensures pm.Healthy() ==>
                && (err == NOT_FOUND <==> key !in content)
                && (key in content ==> len == |content[key]| &&
                                       err == if wanted && len > room then INVALID_SIZE else OK)
      ensures pm.dev.hal.opCount >= old(pm.dev.hal.opCount)
    {
      LatestIsLookup(Records(config, m), key);
      hide MapOf, Latest, Records, IsHeaderOf, ParseAt;
      len, value := 0, [];
      var h, at, deleted;
      err, h, at, deleted := Scan(key, m);
      if err != OK || deleted {
        return NOT_FOUND, 0, [];
      }
      ValueSlice(config, m, at, h, key);
      var valueLen := Decode16(h[10..12]);
      if wanted && room < valueLen {
        return INVALID_SIZE, valueLen, [];
      }
      len := valueLen;
      if wanted && valueLen > 0 {
        err, value := ReadAt(at + HEADER + |key|, valueLen, m);
      }
    }

    method Exists(key: Key) returns (yes: bool)
      requires Valid()
      modifies pm.dev.hal`opCount
      ensures yes ==> open && 0 < |key| <= 15 && key in Content()
      ensures pm.Healthy() && 0 < |key| <= 15 && open ==> yes == (key in Content())
      ensures pm.dev.hal.opCount >= old(pm.dev.hal.opCount)
    {
      if !KeyOk(key) || !open {
        return false;
      }
      var err, len, value := Lookup(key, 0, false, Medium(), Content());
      yes := err == OK;
    }

    method GetLen(key: Key) returns (err: Err, len: nat)
      requires Valid()
      modifies pm.dev.hal`opCount
      ensures |key| == 0 || |key| > 15 ==> err == INVALID_ARG
      ensures 0 < |key| <= 15 && !open ==> err == INVALID_STATE
      ensures err == OK ==> open && key in Content() && len == |Content()[key]|
      ensures 0 < |key| <= 15 && open && pm.Healthy() ==> err == if key in Content() then OK else NOT_FOUND
      ensures pm.dev.hal.opCount >= old(pm.dev.hal.opCount)
    {
      if !KeyOk(key) {
        return INVALID_ARG, 0;
      }
      if !open {
        return INVALID_STATE, 0;
      }
      var value;
      err, len, value := Lookup(key, 0, false, Medium(), Content());
    }

    // ---------------------------------------------------------- updates

    ghost function State(): KvsRuns.State
      requires Configured()
      reads this`part, this`config, this`writeOffset, this`nextSeq, pm.dev.hal.buffer
    {
      KvsRuns.State(Medium(), Fields())
    }

    /** What the machine of `KvsRuns` says a `set` or `delete` comes to, by its outcome. */
    ghost predicate Outcome(before: KvsRuns.State, op: Op, err: Err, cut: Cut)
      requires Configured() && !op.Reboot? && WellFormed(config, op) && |before.medium| == part.size
      reads this`part, this`config, this`writeOffset, this`nextSeq, pm.dev.hal.buffer
    {
      if err == NO_MEM then !HasRoom(before, op) && State() == before
      else if err == OK then
        HasRoom(before, op) && State() == KvsRuns.Step(config, before, Put(op.key, op.value, op.deleted))
      else
        var failed := FailedPut(op.key, op.value, op.deleted, cut);
        && HasRoom(before, op)
        && IsCut(ScriptAt(config, before.ram.writeOffset, RecordOf(before.ram, op)), cut)
        && State() == KvsRuns.Step(config, before, failed)
    }

    method Set(key: Key, value: Value) returns (err: Err, ghost cut: Cut)
      requires Valid()
      modifies this`writeOffset, this`nextSeq, pm.dev.hal`opCount, pm.dev.hal.buffer
      ensures Valid()
      ensures |key| == 0 || |key| > 15 ==> err == INVALID_ARG
      ensures 0 < |key| <= 15 && |value| > maxValue ==> err == INVALID_SIZE
      ensures 0 < |key| <= 15 && |value| <= maxValue && !open ==> err == INVALID_STATE
      ensures |key| == 0 || |key| > 15 || |value| > maxValue || !open ==>
                pm.dev.hal.Mem() == old(pm.dev.hal.Mem()) && Fields() == old(Fields())
      ensures 0 < |key| <= 15 && |value| <= maxValue && open ==> Outcome(old(State()), Put(key, value, false), err, cut)
      ensures 0 < |key| <= 15 && |value| <= maxValue && open ==>
                err == if old(writeOffset) + 21 + |key| + |value| > part.size then NO_MEM else pm.WriteResult(part)
      ensures open ==> SameOutside(old(pm.dev.hal.Mem()), pm.dev.hal.Mem(), part.offset, part.End())
      ensures open && part.flags % 2 == 1 ==> err != OK && pm.dev.hal.Mem() == old(pm.dev.hal.Mem())
      ensures pm.dev.hal.opCount >= old(pm.dev.hal.opCount)
    {
      cut := Cut(0, 0);
      if !KeyOk(key) {
        return INVALID_ARG, cut;
      }
      if |value| > 0xFFFF || |value| > maxValue {
        return INVALID_SIZE, cut;
      }
      if !open {
        return INVALID_STATE, cut;
      }
      err, cut := Append(Put(key, value, false), State());
    }

    method Delete(key: Key) returns (err: Err, ghost cut: Cut)
      requires Valid()
      modifies this`writeOffset, this`nextSeq, pm.dev.hal`opCount, pm.dev.hal.buffer
      ensures Valid()
      ensures |key| == 0 || |key| > 15 ==> err == INVALID_ARG
      ensures 0 < |key| <= 15 && !open ==> err == INVALID_STATE
      ensures |key| == 0 || |key| > 15 || !open ==>
                pm.dev.hal.Mem() == old(pm.dev.hal.Mem()) && Fields() == old(Fields())
      ensures 0 < |key| <= 15 && open ==> Outcome(old(State()), Put(key, [], true), err, cut)
      ensures 0 < |key| <= 15 && open ==>
                err == if old(writeOffset) + 21 + |key| > part.size then NO_MEM else pm.WriteResult(part)
      ensures open ==> SameOutside(old(pm.dev.hal.Mem()), pm.dev.hal.Mem(), part.offset, part.End())
      ensures open && part.flags % 2 == 1 ==> err != OK && pm.dev.hal.Mem() == old(pm.dev.hal.Mem())
      ensures pm.dev.hal.opCount >= old(pm.dev.hal.opCount)
    {
      cut := Cut(0, 0);
      if !KeyOk(key) {
        return INVALID_ARG, cut;
      }
      if !open {
        return INVALID_STATE, cut;
      }
      err, cut := Append(Put(key, [], true), State());
    }

    /** The part `set` and `delete` share: the room check, the record's writes, the two fields. */
    method Append(op: Op, ghost before: KvsRuns.State) returns (err: Err, ghost cut: Cut)
      requires Valid() && open && op.Put? && WellFormed(config, op) && before == State()
      modifies this`writeOffset, this`nextSeq, pm.dev.hal`opCount, pm.dev.hal.buffer
      ensures Valid() && Outcome(before, op, err, cut)
      ensures err == if old(writeOffset) + 21 + |op.key| + |op.value| > part.size then NO_MEM else pm.WriteResult(part)
      ensures SameOutside(old(pm.dev.hal.Mem()), pm.dev.hal.Mem(), part.offset, part.End())
      ensures part.flags % 2 == 1 ==> err != OK && pm.dev.hal.Mem() == old(pm.dev.hal.Mem())
      ensures pm.dev.hal.opCount >= old(pm.dev.hal.opCount)
    {
      cut := Cut(0, 0);
      var r := RecordOf(Fields(), op);
      if writeOffset + r.Size() > part.size {
        return NO_MEM, cut;
      }
      err, cut := WriteRecord(r, before.medium);
      if err == OK {
        MoveOn(r.Size());
      }
    }

    method MoveOn(size: nat)
      requires Valid() && (open ==> writeOffset + size <= part.size)
      modifies this`writeOffset, this`nextSeq
      ensures Valid() && Fields() == Ram(old(writeOffset) + size, Inc32(old(nextSeq)))
    {
      writeOffset := writeOffset + size;
      nextSeq := Inc32(nextSeq);
    }

    /** The writes of one record, in order, stopping at the first that fails. */
    method WriteRecord(r: Record, ghost m: seq<byte>) returns (err: Err, ghost cut: Cut)
      requires Configured() && m == Medium() && Storable(config, r) && writeOffset + r.Size() <= part.size
      modifies pm.dev.hal`opCount, pm.dev.hal.buffer
      ensures err != NO_MEM
      ensures err == OK ==> Medium() == LandAll(m, ScriptAt(config, writeOffset, r))
      ensures err != OK ==>
                IsCut(ScriptAt(config, writeOffset, r), cut) &&
                Medium() == Torn(m, ScriptAt(config, writeOffset, r), cut)
      ensures SameOutside(old(pm.dev.hal.Mem()), pm.dev.hal.Mem(), part.offset, part.End())
      ensures err == pm.WriteResult(part)
      ensures part.flags % 2 == 1 ==> err != OK && pm.dev.hal.Mem() == old(pm.dev.hal.Mem())
      ensures pm.dev.hal.opCount >= old(pm.dev.hal.opCount)
    {
      var commitAt, h := writeOffset + HEADER + |r.key| + |r.value|, Header(config, r);
      ghost var ws := ScriptAt(config, writeOffset, r);
      ScriptElements(config, writeOffset, r, part.size);
      hide ScriptAt, RecordScript, Header, LandUpTo, Torn;
      LandNone(m, ws);
      err, cut := WriteNext(pm, part, commitAt, [0], m, ws, 0);
      if err != OK {
        return;
      }
      err, cut := WriteBody(writeOffset, h, r.key, r.value, commitAt, m, ws);
    }

    /** Header, key, value if there is one, commit byte. */
    method WriteBody(off: nat, h: seq<byte>, key: Key, value: Value, commitAt: nat,
                     ghost m: seq<byte>, ghost ws: seq<Write>)
      returns (err: Err, ghost cut: Cut)
      requires pm.Owns(part) && |m| == part.size && Within(ws, 0, part.size)
      requires |ws| == (if |value| > 0 then 5 else 4)
      requires ws[1] == Write(off, h) && ws[2] == Write(off + HEADER, key)
      requires |value| > 0 ==> ws[3] == Write(off + HEADER + |key|, value)
      requires ws[|ws| - 1] == Write(commitAt, [COMMIT]) && pm.Bytes(part) == LandUpTo(m, ws, 1)
      modifies pm.dev.hal`opCount, pm.dev.hal.buffer
      ensures err != NO_MEM
      ensures err == OK ==> pm.Bytes(part) == LandAll(m, ws)
      ensures err != OK ==> IsCut(ws, cut) && pm.Bytes(part) == Torn(m, ws, cut)
      ensures SameOutside(old(pm.dev.hal.Mem()), pm.dev.hal.Mem(), part.offset, part.End())
      ensures err == pm.WriteResult(part)
      ensures pm.dev.hal.opCount >= old(pm.dev.hal.opCount)
    {
      hide LandUpTo, Torn;
      err, cut := WriteNext(pm, part, off, h, m, ws, 1);
      if err == OK {
        err, cut := WriteNext(pm, part, off + HEADER, key, m, ws, 2);
      }
      if err == OK && |value| > 0 {
        err, cut := WriteNext(pm, part, off + HEADER + |key|, value, m, ws, 3);
      }
      if err == OK {
        err, cut := WriteNext(pm, part, commitAt, [COMMIT], m, ws, |ws| - 1);
      }
    }
  }

  /** The header and key the scan read belong to that record. */
  ghost predicate IsHeaderOf(h: seq<byte>, key: Key, r: Record) {
    && |h| == HEADER && key == r.key && SizeOf(h) == r.Size()
    && Decode32(h[4..8]) == r.seqNo && h[12] == r.flags
    && Decode16(h[8..10]) == |r.key| && Decode16(h[10..12]) == |r.value|
  }

  lemma BodyParts(m: seq<byte>, off: nat, h: seq<byte>)
    requires |h| == HEADER && off + SizeOf(h) <= |m|
    ensures var body := m[off + HEADER..off + SizeOf(h) - 1];
            var keyLen, valueLen := Decode16(h[8..10]), Decode16(h[10..12]);
            && body[..keyLen] == m[off + HEADER..off + HEADER + keyLen]
            && body[keyLen..] == m[off + HEADER + keyLen..off + HEADER + keyLen + valueLen]
  {
  }

  lemma HeaderSays(h: seq<byte>, key: Key, r: Record)
    requires IsHeaderOf(h, key, r)
    ensures |h| == HEADER && key == r.key && SizeOf(h) == r.Size() && h[12] == r.flags
    ensures Decode32(h[4..8]) == r.seqNo && Decode16(h[10..12]) == |r.value|
  {
  }

  lemma LatestStep(c: Config, m: seq<byte>, off: nat, key: Key, acc: Option<Record>)
    requires ParseAt(c, m, off).Some?
    ensures var r := ParseAt(c, m, off).value;
            Latest(Parse(c, m, off), key, acc) ==
            Latest(Parse(c, m, off + r.Size()), key, if r.key == key then Some(r) else acc)
  {
    hide ParseAt;
    var r := ParseAt(c, m, off).value;
    assert Parse(c, m, off)[1..] == Parse(c, m, off + r.Size());
  }

  lemma ScanEnds(c: Config, m: seq<byte>, off: nat, key: Key, acc: Option<Record>)
    requires off + HEADER + 1 > |m| || ParseAt(c, m, off) == None
    ensures Latest(Parse(c, m, off), key, acc) == acc
  {
  }

  lemma EndStep(c: Config, m: seq<byte>, off: nat, n: u32)
    requires ParseAt(c, m, off).Some?
    ensures var r := ParseAt(c, m, off).value;
            && End(c, m, off) == End(c, m, off + r.Size())
            && NextSeq(Parse(c, m, off), n) ==
               NextSeq(Parse(c, m, off + r.Size()), if r.seqNo >= n then Inc32(r.seqNo) else n)
  {
    hide ParseAt;
    var r := ParseAt(c, m, off).value;
    assert Parse(c, m, off)[1..] == Parse(c, m, off + r.Size());
  }

  lemma EndHere(c: Config, m: seq<byte>, off: nat, n: u32)
    requires off + HEADER + 1 > |m| || ParseAt(c, m, off) == None
    ensures End(c, m, off) == off && NextSeq(Parse(c, m, off), n) == n
  {
  }

  lemma ValueSlice(c: Config, m: seq<byte>, at: nat, h: seq<byte>, key: Key)
    requires ParseAt(c, m, at).Some? && IsHeaderOf(h, key, ParseAt(c, m, at).value)
    ensures |h| == HEADER
    ensures var r := ParseAt(c, m, at).value;
            && |r.value| == Decode16(h[10..12]) && at + HEADER + |key| + |r.value| <= |m|
            && m[at + HEADER + |key|..at + HEADER + |key| + |r.value|] == r.value
  {
    BodyParts(m, at, m[at..at + HEADER]);
  }

  lemma ScriptElements(c: Config, off: nat, r: Record, size: nat)
    requires Storable(c, r) && off + r.Size() <= size
    ensures var ws, commitAt := ScriptAt(c, off, r), off + HEADER + |r.key| + |r.value|;
            && Within(ws, 0, size)
            && |ws| == (if |r.value| > 0 then 5 else 4)
            && ws[0] == Write(commitAt, [0]) && ws[1] == Write(off, Header(c, r))
            && ws[2] == Write(off + HEADER, r.key)
            && (|r.value| > 0 ==> ws[3] == Write(off + HEADER + |r.key|, r.value))
            && ws[|ws| - 1] == Write(commitAt, [COMMIT])
  {
  }
}
