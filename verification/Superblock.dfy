/** Reading and writing the A/B superblock on the device. */
module Superblock {
  import opened Bytes
  import opened Crc
  import opened Crash
  import opened Device
  import opened SuperblockRuns

  /** Where copy `i` starts: a sum of two `uint32_t`. */
  function CopyAt(base: u32, i: nat): (at: u32)
    requires i < 2
    ensures at == (base + 472 * i) % 0x1_0000_0000
  {
    var sum := if i == 0 then base else base + SIZE;
    if sum > U32_MAX then sum - 0x1_0000_0000 else sum
  }

  predicate OnDevice(size: nat, base: u32, i: nat)
    requires i < 2
  {
    CopyAt(base, i) + SIZE <= size
  }

  /** Copy `i`; one that does not lie on the device is as good as a blank one, which no read accepts. */
  ghost function CopyOn(s: seq<byte>, base: u32, i: nat): Block
    requires i < 2
  {
    if OnDevice(|s|, base, i) then s[CopyAt(base, i)..CopyAt(base, i) + SIZE] else Zeros()
  }

  /** The two copies at `base`. */
  ghost function CopiesAt(s: seq<byte>, base: u32): (c: Copies) {
    [CopyOn(s, base, 0), CopyOn(s, base, 1)]
  }

  /** How many transfers it takes to read both copies. */
  function ReadTransfers(chunk: nat, size: nat, base: u32): nat {
    (if OnDevice(size, base, 0) then Transfers(chunk, SIZE) else 0) +
    (if OnDevice(size, base, 1) then Transfers(chunk, SIZE) else 0)
  }

  lemma ZerosInvalid(step: Step, devSize: nat)
    ensures !Valid(step, devSize, Zeros())
  {
    var z := Zeros()[0..4];
    assert z[1..][1..][1..] == [z[3]] && z[1..][1..][1..][1..] == [];
  }

  /** No byte changes outside copy `i`, and none at all if it does not lie on the device. */
  ghost predicate OnlyCopy(s: seq<byte>, t: seq<byte>, base: u32, i: nat)
    requires i < 2
  {
    if OnDevice(|s|, base, i) then SameOutside(s, t, CopyAt(base, i), CopyAt(base, i) + SIZE) else t == s
  }

  lemma CopyWritten(s: seq<byte>, base: u32, i: nat, off: nat, d: seq<byte>)
    requires i < 2 && OnDevice(|s|, base, i) && |s| <= U32_MAX && off + |d| <= SIZE
    ensures CopiesAt(Splice(s, CopyAt(base, i) + off, d), base) ==
            CopiesAt(s, base)[i := Splice(CopiesAt(s, base)[i], off, d)]
  {
    var t := Splice(s, CopyAt(base, i) + off, d);
    var b := CopyAt(base, 1 - i);
    SpliceWindow(s, CopyAt(base, i), SIZE, off, d);
    if OnDevice(|s|, base, 1 - i) {
      assert t[b..b + SIZE] == s[b..b + SIZE];
    }
  }

  /** Reads one copy; `None` if the device cannot. */
  method ReadCopy(dev: Dev, base: u32, i: nat, ghost c: Copies) returns (err: Err, block: Option<Block>)
    requires i < 2 && c == CopiesAt(dev.hal.Mem(), base)
    modifies dev.hal`opCount
    ensures block.Some? <==> err == OK
    ensures block.Some? ==> block.value == c[i]
    ensures !OnDevice(dev.Size(), base, i) ==> err == INVALID_SIZE && dev.hal.opCount == old(dev.hal.opCount)
    ensures OnDevice(dev.Size(), base, i) ==>
              && (err == OK <==> old(dev.hal.Outlasts(Transfers(dev.Chunk(), SIZE))))
              && (err == OK ==> dev.hal.opCount == old(dev.hal.opCount) + Transfers(dev.Chunk(), SIZE))
              && (err != OK ==> dev.hal.ShouldFail())
    ensures dev.hal.opCount >= old(dev.hal.opCount)
  {
    var bytes;
    err, bytes := dev.Read(CopyAt(base, i), SIZE);
    block := if err == OK then Some(bytes) else None;
  }

  /** A copy has been seen as it is: read, or found not to lie on the device. */
  ghost predicate Seen(a: Option<Block>, x: Block) {
    a == Some(x) || (a.None? && x == Zeros())
  }

  /** Both copies; `seen` unless the medium fails before both are read. */
  method ReadCopies(dev: Dev, base: u32, ghost c: Copies)
    returns (errA: Err, a: Option<Block>, b: Option<Block>, ghost seen: bool)
    requires c == CopiesAt(dev.hal.Mem(), base)
    modifies dev.hal`opCount
    ensures (a.Some? <==> errA == OK) && (a.Some? ==> a == Some(c[0])) && (b.Some? ==> b == Some(c[1]))
    ensures seen ==> Seen(a, c[0]) && Seen(b, c[1])
    ensures seen && a.None? ==> errA == INVALID_SIZE
    ensures seen ==> (a.Some? <==> OnDevice(dev.Size(), base, 0)) && (b.Some? <==> OnDevice(dev.Size(), base, 1))
    ensures seen <==> old(dev.hal.Outlasts(ReadTransfers(dev.Chunk(), dev.Size(), base)))
    ensures !seen ==> dev.hal.ShouldFail()
    ensures dev.hal.opCount >= old(dev.hal.opCount)
  {
    var errB;
    errA, a := ReadCopy(dev, base, 0, c);
    errB, b := ReadCopy(dev, base, 1, c);
    seen := (a.Some? || !OnDevice(dev.Size(), base, 0)) && (b.Some? || !OnDevice(dev.Size(), base, 1));
  }

  /** What `read` answers on a medium that reads. */
  ghost predicate IsAnswer(step: Step, size: nat, base: u32, c: Copies, err: Err, out: Block) {
    match Current(step, size, c)
    case None =>
      err == if OnDevice(size, base, 0) || OnDevice(size, base, 1) then NOT_FOUND else INVALID_SIZE
    case Some(i) => err == OK && out == c[i]
  }

  /** The most recent valid copy. */
  method Read(dev: Dev, step: Step, base: u32) returns (err: Err, out: Block)
    modifies dev.hal`opCount
    ensures err == OK ==>
              && Valid(step, dev.Size(), out) && out in CopiesAt(dev.hal.Mem(), base)
              && Decode32(out[0..4]) == 0x4D41_5246 && Decode16(out[4..6]) == 1 && Decode16(out[6..8]) <= 16
              && Decode32(out[12..16]) == dev.Size() && out[468] == 0xA5
              && Crc32(step, 0, out[..464]) == Decode32(out[464..468])
    ensures !dev.hal.ShouldFail() && (OnDevice(dev.Size(), base, 0) || OnDevice(dev.Size(), base, 1)) ==>
              (err == NOT_FOUND <==>
                 forall x <- CopiesAt(dev.hal.Mem(), base) ::
                   !(&& Decode32(x[0..4]) == 0x4D41_5246 && Decode16(x[4..6]) == 1 && Decode16(x[6..8]) <= 16
                     && Decode32(x[12..16]) == dev.Size() && x[468] == 0xA5
                     && Crc32(step, 0, x[..464]) == Decode32(x[464..468])))
    ensures !dev.hal.ShouldFail() || old(dev.hal.Outlasts(ReadTransfers(dev.Chunk(), dev.Size(), base))) ==>
              IsAnswer(step, dev.Size(), base, CopiesAt(dev.hal.Mem(), base), err, out)
  {
    hide Valid, CopiesAt, Seen;
    ghost var c, seen := CopiesAt(dev.hal.Mem(), base), false;
    var a, b;
    err, a, b, seen := ReadCopies(dev, base, c);
    err, out := Newest(dev.Size(), step, base, err, a, b, c, seen);
    forall x | x in c
      ensures Valid(step, dev.Size(), x) <==>
              && Decode32(x[0..4]) == 0x4D41_5246 && Decode16(x[4..6]) == 1 && Decode16(x[6..8]) <= 16
              && Decode32(x[12..16]) == dev.Size() && x[468] == 0xA5
              && Crc32(step, 0, x[..464]) == Decode32(x[464..468])
    {
      ValidExactly(step, dev.Size(), x);
    }
  }

  method Newest(devSize: nat, step: Step, base: u32, errA: Err, a: Option<Block>, b: Option<Block>,
                ghost c: Copies, ghost seen: bool)
    returns (err: Err, out: Block)
    requires (a.Some? <==> errA == OK) && (a.Some? ==> a == Some(c[0])) && (b.Some? ==> b == Some(c[1]))
    requires seen ==> Seen(a, c[0]) && Seen(b, c[1]) && (a.None? ==> errA == INVALID_SIZE)
    requires seen ==> (a.Some? <==> OnDevice(devSize, base, 0)) && (b.Some? <==> OnDevice(devSize, base, 1))
    ensures err == OK ==> Valid(step, devSize, out) && out in c
    ensures seen ==> IsAnswer(step, devSize, base, c, err, out)
  {
    ZerosInvalid(step, devSize);
    hide Valid, SeqOf, OnDevice;
    out := Zeros();
    if a.None? && b.None? {
      return errA, out;
    }
    var aValid := a.Some? && Valid(step, devSize, a.value);
    var bValid := b.Some? && Valid(step, devSize, b.value);
    if !aValid && !bValid {
      return NOT_FOUND, out;
    }
    if aValid && (!bValid || SeqOf(a.value) >= SeqOf(b.value)) {
      return OK, a.value;
    }
    return OK, b.value;
  }

  /**
   Writes the block to the older or invalid copy, numbered after the newer one. No byte outside copy `at` changes.
   If the medium outlasts the reading of the copies, and always if the write succeeds, they then are what
   `SuperblockRuns.After` says: finished, or cut short at the write that failed.
   */
  method Write(dev: Dev, step: Step, base: u32, block: Block)
    returns (err: Err, ghost seen: bool, ghost at: nat, ghost cut: Cut)
    requires dev.Size() <= U32_MAX
    modifies dev.hal`opCount, dev.hal.buffer
    ensures at < 2 && OnlyCopy(old(dev.hal.Mem()), dev.hal.Mem(), base, at)
    ensures (err == INVALID_ARG <==>
               !(&& Decode32(block[0..4]) == 0x4D41_5246 && Decode16(block[4..6]) == 1 && Decode16(block[6..8]) <= 16
                 && Decode32(block[12..16]) == dev.Size()))
    ensures err == INVALID_ARG <==> !Writable(block, dev.Size())
    ensures err == INVALID_ARG ==> dev.hal.Mem() == old(dev.hal.Mem())
    ensures err == OK ==> IsFresh(step, block, NextSeq(step, dev.Size(), old(CopiesAt(dev.hal.Mem(), base))),
                                  CopiesAt(dev.hal.Mem(), base)[at])
    ensures Writable(block, dev.Size()) ==>
              (seen <==> old(dev.hal.Outlasts(ReadTransfers(dev.Chunk(), dev.Size(), base))))
    ensures Writable(block, dev.Size()) && (err == OK || !dev.hal.ShouldFail()) ==> seen
    ensures Writable(block, dev.Size()) && seen ==>
              && at == Target(step, dev.Size(), old(CopiesAt(dev.hal.Mem(), base)))
              && Written(step, dev.Size(), base, old(CopiesAt(dev.hal.Mem(), base)), block,
                         CopiesAt(dev.hal.Mem(), base), err, cut)
    ensures Writable(block, dev.Size()) ==>
              err == if !OnDevice(dev.Size(), base, at) then INVALID_SIZE else if dev.hal.ShouldFail() then FAIL else OK
    ensures !seen && dev.hal.tear == 0 ==> err != OK && dev.hal.Mem() == old(dev.hal.Mem())
  {
    seen, at, cut := false, 0, Cut(0, 0);
    if !Writable(block, dev.Size()) {
      return INVALID_ARG, seen, at, cut;
    }
    ghost var c := CopiesAt(dev.hal.Mem(), base);
    err, seen, at, cut := WriteOlder(dev, step, base, block, c);
    if err == OK {
      FinishedIsFresh(step, dev.Size(), base, c, block, CopiesAt(dev.hal.Mem(), base), cut);
    }
  }

  /** The copy a finished write leaves: the caller's fields and entries, the number, the checksum, committed. */
  ghost predicate IsFresh(step: Step, block: Block, n: u32, x: Block) {
    && x[..8] == block[..8] && Decode32(x[8..12]) == n && x[12..464] == block[12..464]
    && Decode32(x[464..468]) == Crc32(step, 0, x[..464])
    && x[468] == 0xA5 && x[469] == 0 && x[470] == 0 && x[471] == 0
  }

  lemma FinishedIsFresh(step: Step, devSize: nat, base: u32, c: Copies, block: Block, c': Copies, cut: Cut)
    requires Writable(block, devSize) && Written(step, devSize, base, c, block, c', OK, cut)
    ensures IsFresh(step, block, NextSeq(step, devSize, c), c'[Target(step, devSize, c)])
  {
    var i, n := Target(step, devSize, c), NextSeq(step, devSize, c);
    var p := Prepared(step, block, n);
    PreparedFields(step, block, n, devSize);
    BlockDone(p, c[i]);
    hide Valid, Prepared, LandAll, Writable;
    CommitOnly(p);
  }

  lemma CommitOnly(p: Block)
    ensures var x := Committed(p);
            && x[..8] == p[..8] && x[8..12] == p[8..12] && x[12..464] == p[12..464] && x[464..468] == p[464..468]
            && x[..464] == p[..464] && x[468] == 0xA5 && x[469] == p[469] && x[470] == p[470] && x[471] == p[471]
  {
  }

  /** What a write does to the copies, by its outcome. */
  ghost predicate Written(step: Step, devSize: nat, base: u32, c: Copies, block: Block, c': Copies, err: Err, cut: Cut)
  {
    var i, p := Target(step, devSize, c), Prepared(step, block, NextSeq(step, devSize, c));
    if !OnDevice(devSize, base, i) then err == INVALID_SIZE && c' == c
    else if err == OK then c' == c[i := LandAll(c[i], BlockScript(p))]
    else IsCut(BlockScript(p), cut) && c' == c[i := Torn(c[i], BlockScript(p), cut)]
  }

  /** That is a step of the machine, if the copy to overwrite lies on the device. */
  lemma WrittenIsStep(step: Step, devSize: nat, base: u32, c: Copies, block: Block, c': Copies, err: Err, cut: Cut)
    requires Writable(block, devSize) && Written(step, devSize, base, c, block, c', err, cut)
    requires OnDevice(devSize, base, Target(step, devSize, c))
    requires Current(step, devSize, c).Some? ==> SeqOf(c[Current(step, devSize, c).value]) < U32_MAX
    ensures err == OK ==>
              CanStep(step, devSize, c, Finished(block)) && c' == After(step, devSize, c, Finished(block))
    ensures var was, p := c[Target(step, devSize, c)], Prepared(step, block, NextSeq(step, devSize, c));
            err != OK && TornDetected(step, devSize, Torn(was, BlockScript(p), cut), was, p) ==>
              CanStep(step, devSize, c, CutShort(block, cut)) && c' == After(step, devSize, c, CutShort(block, cut))
  {
    hide Valid, SeqOf, Prepared, LandAll, Torn, BlockScript, NextSeq, Current;
  }

  method WriteOlder(dev: Dev, step: Step, base: u32, block: Block, ghost c: Copies)
    returns (err: Err, ghost seen: bool, ghost at: nat, ghost cut: Cut)
    requires dev.Size() <= U32_MAX && c == CopiesAt(dev.hal.Mem(), base)
    modifies dev.hal`opCount, dev.hal.buffer
    ensures seen <==> old(dev.hal.Outlasts(ReadTransfers(dev.Chunk(), dev.Size(), base)))
    ensures err == OK || !dev.hal.ShouldFail() ==> seen
    ensures seen ==> at == Target(step, dev.Size(), c)
    ensures seen ==> Written(step, dev.Size(), base, c, block, CopiesAt(dev.hal.Mem(), base), err, cut)
    ensures at < 2 && OnlyCopy(old(dev.hal.Mem()), dev.hal.Mem(), base, at)
    ensures err == if !OnDevice(dev.Size(), base, at) then INVALID_SIZE
                   else if dev.hal.ShouldFail() then FAIL
                   else OK
    ensures !seen && dev.hal.tear == 0 ==> err != OK && dev.hal.Mem() == old(dev.hal.Mem())
  {
    hide CopiesAt, Valid, SeqOf, Prepared, LandAll, Torn, Target, NextSeq, OnDevice, OnlyCopy, ReadTransfers, Seen;
    var errA, a, b, target, next;
    errA, a, b, seen := ReadCopies(dev, base, c);
    target, next := Choose(step, dev.Size(), a, b, c);
    at := target;
    err, cut := WriteCopy(dev, base, target, Prepared(step, block, next), c);
  }

  /** Which copy to overwrite and with which number; a copy that could not be read counts as invalid. */
  method Choose(step: Step, devSize: nat, a: Option<Block>, b: Option<Block>, ghost c: Copies)
    returns (target: nat, next: u32)
    ensures target < 2
    ensures Seen(a, c[0]) && Seen(b, c[1]) ==>
              target == Target(step, devSize, c) && next == NextSeq(step, devSize, c)
  {
    ZerosInvalid(step, devSize);
    hide Valid, SeqOf;
    var aValid := a.Some? && Valid(step, devSize, a.value);
    var bValid := b.Some? && Valid(step, devSize, b.value);
    if aValid && bValid {
      if SeqOf(a.value) <= SeqOf(b.value) {
        target, next := 0, Inc32(SeqOf(b.value));
      } else {
        target, next := 1, Inc32(SeqOf(a.value));
      }
    } else if aValid {
      target, next := 1, Inc32(SeqOf(a.value));
    } else if bValid {
      target, next := 0, Inc32(SeqOf(b.value));
    } else {
      target, next := 0, 1;
    }
  }

  /** The block with its commit byte clear, then the commit byte. */
  method WriteCopy(dev: Dev, base: u32, i: nat, p: Block, ghost c: Copies) returns (err: Err, ghost cut: Cut)
    requires i < 2 && dev.Size() <= U32_MAX && c == CopiesAt(dev.hal.Mem(), base)
    modifies dev.hal`opCount, dev.hal.buffer
    ensures !OnDevice(dev.Size(), base, i) ==> err == INVALID_SIZE && CopiesAt(dev.hal.Mem(), base) == c
    ensures err == OK ==> CopiesAt(dev.hal.Mem(), base) == c[i := LandAll(c[i], BlockScript(p))]
    ensures err != OK && OnDevice(dev.Size(), base, i) ==>
              && IsCut(BlockScript(p), cut)
              && CopiesAt(dev.hal.Mem(), base) == c[i := Torn(c[i], BlockScript(p), cut)]
    ensures OnlyCopy(old(dev.hal.Mem()), dev.hal.Mem(), base, i)
    ensures OnDevice(dev.Size(), base, i) ==> err == if dev.hal.ShouldFail() then FAIL else OK
    ensures dev.hal.opCount >= old(dev.hal.opCount)
    ensures old(dev.hal.ShouldFail()) && dev.hal.tear == 0 ==> err != OK && dev.hal.Mem() == old(dev.hal.Mem())
  {
    hide CopiesAt, Torn, LandAll, Committed;
    ghost var s, landed, chunks := dev.hal.Mem(), 0, 0;
    SentStep(dev.Chunk(), 0);
    err, landed, chunks := dev.Write(CopyAt(base, i), p);
    cut := Cut(0, landed);
    if !OnDevice(dev.Size(), base, i) {
      return;
    }
    CopyWritten(s, base, i, 0, p[..landed]);
    if err != OK {
      TornIsSplice(p, c[i], cut);
      return;
    }
    assert p[..landed] == p;
    s := dev.hal.Mem();
    err, landed, chunks := dev.Write(CopyAt(base, i) + COMMIT_AT, [COMMIT]);
    cut := Cut(1, 0);
    assert [COMMIT][..landed] == if err == OK then [COMMIT] else [];
    CopyWritten(s, base, i, COMMIT_AT, [COMMIT][..landed]);
    DoneIsSplice(p, c[i]);
    BlockDone(p, c[i]);
    TornIsSplice(p, c[i], cut);
    assert c[i := p][i := p] == c[i := p];
    assert c[i := p][i := Committed(p)] == c[i := Committed(p)];
  }

  lemma TornIsSplice(p: Block, was: Block, cut: Cut)
    requires IsCut(BlockScript(p), cut)
    ensures Torn(was, BlockScript(p), cut) == if cut.index == 0 then Splice(was, 0, p[..cut.landed]) else p
  {
    BlockTorn(p, was, cut);
  }

  lemma DoneIsSplice(p: Block, was: Block)
    ensures Splice(was, 0, p) == p && Splice(p, COMMIT_AT, []) == p
    ensures Splice(p, COMMIT_AT, [COMMIT]) == Committed(p)
  {
  }
}
