/** The A/B superblock: two copies of a packed block, the newer valid one current, the other one written next. */
module SuperblockRuns {
  import opened Bytes
  import opened Crc
  import opened Crash

  const MAGIC: u32 := 0x4D41_5246
  const VERSION: u16 := 1
  const COMMIT: byte := 0xA5
  const PART_MAX: u16 := 16

  // Layout of the packed block: 16 bytes of fixed fields, 16 partition entries of 28 bytes, checksum, commit, padding.
  const CRC_AT: nat := 464
  const COMMIT_AT: nat := 468
  const SIZE: nat := 472

  /** A block is its bytes in memory. */
  type Block = b: seq<byte> | |b| == SIZE witness Repeat(0, SIZE)

  function Zeros(): Block { Repeat(0, SIZE) }

  function SeqOf(b: Block): u32 { Decode32(b[8..12]) }

  function BlockCrc(step: Step, b: Block): u32 { Crc32(step, 0, b[..CRC_AT]) }

  /** The fields a caller must have filled in. */
  predicate Writable(b: Block, devSize: nat) {
    && Decode32(b[0..4]) == MAGIC && Decode16(b[4..6]) == VERSION
    && Decode16(b[6..8]) <= PART_MAX && Decode32(b[12..16]) == devSize
  }

  predicate Valid(step: Step, devSize: nat, b: Block) {
    && Writable(b, devSize) && b[COMMIT_AT] == COMMIT
    && BlockCrc(step, b) == Decode32(b[CRC_AT..COMMIT_AT])
  }

  /** What makes a block valid, byte by byte. */
  lemma ValidExactly(step: Step, devSize: nat, b: Block)
    ensures Valid(step, devSize, b) <==>
            && Decode32(b[0..4]) == 0x4D41_5246 && Decode16(b[4..6]) == 1 && Decode16(b[6..8]) <= 16
            && Decode32(b[12..16]) == devSize && b[468] == 0xA5
            && Crc32(step, 0, b[..464]) == Decode32(b[464..468])
  {
  }

  /** If the checksum loses no difference, one byte changed in a valid block makes it invalid, so `read` skips it. */
  lemma OneByteInvalid(step: Step, devSize: nat, c: Copies, i: nat, k: nat, x: byte)
    requires Injective(step) && i < 2 && Valid(step, devSize, c[i]) && k <= 468 && x != c[i][k]
    ensures !Valid(step, devSize, c[i][k := x])
    ensures Current(step, devSize, c[i := c[i][k := x]]) != Some(i)
  {
    var b := c[i];
    var t: Block := b[k := x];
    if k < 464 {
      assert t[..464] == b[..464][k := x] && t[464..468] == b[464..468];
      OneByteDetected(step, 0, b[..464], k, x);
    } else if k < 468 {
      assert t[..464] == b[..464] && t[464..468][k - 464] != b[464..468][k - 464];
      DecodeInjective(t[464..468], b[464..468]);
    }
  }

  /** The block `write` puts on the medium first: numbered `n`, not committed, padding zero. */
  function Prepared(step: Step, b: Block, n: u32): (p: Block)
  {
    var body := b[..8] + Encode(n, 4) + b[12..CRC_AT];
    body + Encode(Crc32(step, 0, body), 4) + [0, 0, 0, 0]
  }

  function Committed(b: Block): Block {
    b[COMMIT_AT := COMMIT]
  }

  /** The two copies, A then B. */
  type Copies = c: seq<Block> | |c| == 2 witness [Zeros(), Zeros()]

  /** The copy `read` returns. */
  function Current(step: Step, devSize: nat, c: Copies): Option<nat> {
    var a, b := Valid(step, devSize, c[0]), Valid(step, devSize, c[1]);
    if !a && !b then None
    else if a && (!b || SeqOf(c[0]) >= SeqOf(c[1])) then Some(0)
    else Some(1)
  }

  /** The copy `write` overwrites. */
  function Target(step: Step, devSize: nat, c: Copies): (i: nat)
    ensures i < 2
  {
    var a, b := Valid(step, devSize, c[0]), Valid(step, devSize, c[1]);
    if a && b then (if SeqOf(c[0]) <= SeqOf(c[1]) then 0 else 1)
    else if a then 1
    else 0
  }

  /** The number `write` gives the block. */
  function NextSeq(step: Step, devSize: nat, c: Copies): u32 {
    var a, b := Valid(step, devSize, c[0]), Valid(step, devSize, c[1]);
    if a && b then (if SeqOf(c[0]) <= SeqOf(c[1]) then Inc32(SeqOf(c[1])) else Inc32(SeqOf(c[0])))
    else if a then Inc32(SeqOf(c[0]))
    else if b then Inc32(SeqOf(c[1]))
    else 1
  }

  /** Which copy is current, which is overwritten, and the next number, by the numbers in bytes 8 to 12. */
  lemma ChoiceExactly(step: Step, devSize: nat, c: Copies)
    ensures var a, b := Valid(step, devSize, c[0]), Valid(step, devSize, c[1]);
            var m, n := Decode32(c[0][8..12]), Decode32(c[1][8..12]);
            && Current(step, devSize, c) == (if a && (!b || m >= n) then Some(0) else if b then Some(1) else None)
            && Target(step, devSize, c) == (if a && (!b || m > n) then 1 else 0)
            && NextSeq(step, devSize, c) == Inc32(if a && (!b || m >= n) then m else if b then n else 0)
  {
  }

  /** The two writes of `write`, relative to the target copy. */
  function BlockScript(p: Block): (ws: seq<Write>)
    ensures Within(ws, 0, SIZE)
  {
    [Write(0, p), Write(COMMIT_AT, [COMMIT])]
  }

  lemma BlockDone(p: Block, was: Block)
    ensures LandAll(was, BlockScript(p)) == Committed(p)
  {
    var one := LandUpTo(was, BlockScript(p), 1);
    assert one == p;
  }

  lemma BlockTorn(p: Block, was: Block, cut: Cut)
    requires IsCut(BlockScript(p), cut)
    ensures Torn(was, BlockScript(p), cut) == if cut.index == 0 then p[..cut.landed] + was[cut.landed..] else p
  {
    var one := LandUpTo(was, BlockScript(p), 1);
    assert one == p;
  }

  lemma PreparedFields(step: Step, b: Block, n: u32, devSize: nat)
    requires Writable(b, devSize)
    ensures var p := Prepared(step, b, n);
            && p[COMMIT_AT] == 0
            && Writable(p, devSize) && SeqOf(p) == n
            && BlockCrc(step, p) == Decode32(p[CRC_AT..COMMIT_AT])
            && p[..8] == b[..8] && p[12..464] == b[12..464]
            && p[469] == 0 && p[470] == 0 && p[471] == 0
  {
    var p := Prepared(step, b, n);
    var body := b[..8] + Encode(n, 4) + b[12..CRC_AT];
    assert p[..CRC_AT] == body && p[CRC_AT..COMMIT_AT] == Encode(Crc32(step, 0, body), 4);
    SliceOfSlice(b, 12, CRC_AT, 0, 4);
    assert body[12..16] == b[12..CRC_AT][0..4];
    assert p[12..16] == body[12..16];
    assert p[0..4] == b[0..4] && p[4..6] == b[4..6] && p[6..8] == b[6..8] && p[12..16] == b[12..16];
    assert p[8..12] == Encode(n, 4);
    assert Pow256(4) == 0x1_0000_0000;
    DecodeEncode(n, 4);
    DecodeEncode(Crc32(step, 0, body), 4);
  }

  /** A block that agrees with a prepared one up to the commit byte, and is committed, is valid. */
  lemma PreparedValid(step: Step, b: Block, n: u32, devSize: nat, x: Block)
    requires Writable(b, devSize) && x[..COMMIT_AT] == Prepared(step, b, n)[..COMMIT_AT] && x[COMMIT_AT] == COMMIT
    ensures Valid(step, devSize, x) && SeqOf(x) == n
  {
    var p := Prepared(step, b, n);
    PreparedFields(step, b, n, devSize);
    SameFields(x, p);
  }

  lemma SameFields(x: Block, y: Block)
    requires x[..COMMIT_AT] == y[..COMMIT_AT]
    ensures x[0..4] == y[0..4] && x[4..6] == y[4..6] && x[6..8] == y[6..8] && x[8..12] == y[8..12]
    ensures x[12..16] == y[12..16] && x[..CRC_AT] == y[..CRC_AT] && x[CRC_AT..COMMIT_AT] == y[CRC_AT..COMMIT_AT]
  {
    var u, w := x[..COMMIT_AT], y[..COMMIT_AT];
    assert x[0..4] == u[0..4] && x[4..6] == u[4..6] && x[6..8] == u[6..8] && x[8..12] == u[8..12];
    assert y[0..4] == w[0..4] && y[4..6] == w[4..6] && y[6..8] == w[6..8] && y[8..12] == w[8..12];
    assert x[12..16] == u[12..16] && x[..CRC_AT] == u[..CRC_AT] && x[CRC_AT..COMMIT_AT] == u[CRC_AT..COMMIT_AT];
    assert y[12..16] == w[12..16] && y[..CRC_AT] == w[..CRC_AT] && y[CRC_AT..COMMIT_AT] == w[CRC_AT..COMMIT_AT];
  }

  // ------------------------------------------------------------ one write

  /** `write` spares the copy `read` returns, if and only if the copies are not both valid with the same number. */
  lemma TargetSparesCurrentIff(step: Step, devSize: nat, c: Copies)
    ensures Current(step, devSize, c) == Some(Target(step, devSize, c)) <==>
            Valid(step, devSize, c[0]) && Valid(step, devSize, c[1]) && SeqOf(c[0]) == SeqOf(c[1])
  {
  }

  /** A finished write is what `read` returns next, numbered one above the block before it, or 1 if there was none. */
  lemma WriteDone(step: Step, devSize: nat, c: Copies, b: Block)
    requires Writable(b, devSize)
    requires Current(step, devSize, c).Some? ==> SeqOf(c[Current(step, devSize, c).value]) < U32_MAX
    ensures var i, n := Target(step, devSize, c), NextSeq(step, devSize, c);
            var c' := c[i := Committed(Prepared(step, b, n))];
            && Current(step, devSize, c') == Some(i) && SeqOf(c'[i]) == n
            && n == match Current(step, devSize, c) { case None => 1 case Some(k) => SeqOf(c[k]) + 1 }
  {
    var i, n := Target(step, devSize, c), NextSeq(step, devSize, c);
    var p := Prepared(step, b, n);
    PreparedFields(step, b, n, devSize);
    assert Committed(p)[..COMMIT_AT] == p[..COMMIT_AT];
    hide Valid, Prepared, BlockCrc, SeqOf;
    PreparedValid(step, b, n, devSize, Committed(p));
  }

  /**
   A half-written block does not pass for a third one: if it is committed and its checksum holds, then its checked
   bytes are all new or all old. The one assumption about the checksum.
   */
  ghost predicate TornDetected(step: Step, devSize: nat, torn: Block, was: Block, p: Block) {
    Valid(step, devSize, torn) ==>
      torn[..COMMIT_AT] == p[..COMMIT_AT] || torn[..COMMIT_AT] == was[..COMMIT_AT]
  }

  /** It is no assumption when the copy under the write was not committed. */
  lemma UncommittedTornDetected(step: Step, devSize: nat, was: Block, p: Block, cut: Cut)
    requires IsCut(BlockScript(p), cut) && p[COMMIT_AT] != COMMIT && was[COMMIT_AT] != COMMIT
    ensures !Valid(step, devSize, Torn(was, BlockScript(p), cut))
  {
    BlockTorn(p, was, cut);
  }

  /**
   What a write cut short leaves in the target copy: a block no read accepts, the old one, or, if only the commit
   byte is still the old copy's, the new one.
   */
  lemma TornCopy(step: Step, devSize: nat, was: Block, p: Block, cut: Cut)
    requires IsCut(BlockScript(p), cut) && p[COMMIT_AT] != COMMIT
    requires TornDetected(step, devSize, Torn(was, BlockScript(p), cut), was, p)
    ensures var t := Torn(was, BlockScript(p), cut);
            || !Valid(step, devSize, t)
            || t == was
            || (t[..COMMIT_AT] == p[..COMMIT_AT] && t[COMMIT_AT] == COMMIT)
  {
    hide BlockCrc, Writable, SeqOf, Torn, LandUpTo;
    BlockTorn(p, was, cut);
    var t := Torn(was, BlockScript(p), cut);
    if Valid(step, devSize, t) && t[..COMMIT_AT] != p[..COMMIT_AT] {
      assert cut.landed <= COMMIT_AT;
      forall i | 0 <= i < SIZE
        ensures t[i] == was[i]
      {
        if i < COMMIT_AT {
          assert t[i] == t[..COMMIT_AT][i] && was[i] == was[..COMMIT_AT][i];
        }
      }
      assert t == was;
    }
  }

  /** Both valid copies are consecutive: what every reachable pair of copies satisfies. */
  ghost predicate Consecutive(step: Step, devSize: nat, c: Copies) {
    Valid(step, devSize, c[0]) && Valid(step, devSize, c[1]) ==>
      SeqOf(c[0]) == SeqOf(c[1]) + 1 || SeqOf(c[1]) == SeqOf(c[0]) + 1
  }

  /**
   A write cut at any byte: `read` returns the block it returned before, or the new one, whose checked bytes are
   those of the finished write.
   */
  lemma WriteTorn(step: Step, devSize: nat, c: Copies, b: Block, cut: Cut)
    requires Writable(b, devSize) && Consecutive(step, devSize, c)
    requires Current(step, devSize, c).Some? ==> SeqOf(c[Current(step, devSize, c).value]) < U32_MAX
    requires var p := Prepared(step, b, NextSeq(step, devSize, c));
             && IsCut(BlockScript(p), cut)
             && var was := c[Target(step, devSize, c)];
                TornDetected(step, devSize, Torn(was, BlockScript(p), cut), was, p)
    ensures var i := Target(step, devSize, c);
            var p := Prepared(step, b, NextSeq(step, devSize, c));
            var c' := c[i := Torn(c[i], BlockScript(p), cut)];
            && Consecutive(step, devSize, c')
            && (Current(step, devSize, c') == Some(i) ==> c'[i][..COMMIT_AT] == p[..COMMIT_AT])
            && (Current(step, devSize, c') != Some(i) ==> Current(step, devSize, c') == Current(step, devSize, c))
  {
    var i, n := Target(step, devSize, c), NextSeq(step, devSize, c);
    var p := Prepared(step, b, n);
    var t := Torn(c[i], BlockScript(p), cut);
    PreparedFields(step, b, n, devSize);
    TornCopy(step, devSize, c[i], p, cut);
    hide Torn, Valid, Prepared, BlockCrc, SeqOf;
    TargetSparesCurrentIff(step, devSize, c);
    if t[..COMMIT_AT] == p[..COMMIT_AT] && t[COMMIT_AT] == COMMIT {
      PreparedValid(step, b, n, devSize, t);
    } else if t == c[i] {
      assert c[i := t] == c;
    }
  }

  /**
   The assumption is exact, for every checksum: once the block's number is written, a cut write leaves `read` with the
   block before or the new one if and only if the half-written block does not pass for a third one.
   */
  lemma WriteTornIff(step: Step, devSize: nat, c: Copies, b: Block, landed: nat)
    requires Writable(b, devSize) && Consecutive(step, devSize, c) && 12 <= landed < SIZE
    requires Current(step, devSize, c).Some? ==> SeqOf(c[Current(step, devSize, c).value]) < U32_MAX
    ensures var i := Target(step, devSize, c);
            var p := Prepared(step, b, NextSeq(step, devSize, c));
            && IsCut(BlockScript(p), Cut(0, landed))
            && var t := Torn(c[i], BlockScript(p), Cut(0, landed));
               (Current(step, devSize, c[i := t]) == Some(i) ==> t[..COMMIT_AT] == p[..COMMIT_AT]) <==>
               TornDetected(step, devSize, t, c[i], p)
  {
    var i, n := Target(step, devSize, c), NextSeq(step, devSize, c);
    var p, cut := Prepared(step, b, n), Cut(0, landed);
    BlockTorn(p, c[i], cut);
    var t := Torn(c[i], BlockScript(p), cut);
    PreparedFields(step, b, n, devSize);
    assert t[8..12] == p[8..12];
    if TornDetected(step, devSize, t, c[i], p) {
      WriteTorn(step, devSize, c, b, cut);
    } else {
      hide Torn, Prepared, BlockCrc, Writable;
      assert Valid(step, devSize, t) && SeqOf(t) == n;
      hide Valid, SeqOf;
      NewestIsCurrent(step, devSize, c, t);
    }
  }

  /** A valid copy with the next number is current. */
  lemma NewestIsCurrent(step: Step, devSize: nat, c: Copies, t: Block)
    requires Valid(step, devSize, t) && SeqOf(t) == NextSeq(step, devSize, c)
    requires Current(step, devSize, c).Some? ==> SeqOf(c[Current(step, devSize, c).value]) < U32_MAX
    ensures Current(step, devSize, c[Target(step, devSize, c) := t]) == Some(Target(step, devSize, c))
  {
    hide Valid, SeqOf;
  }

  lemma PreparedBody(step: Step, b: Block, n: u32, j: nat)
    requires 16 <= j < CRC_AT
    ensures Prepared(step, b, n)[j] == b[j]
  {
    assert b[12..CRC_AT][j - 12] == b[j];
  }

  lemma {:induction false} BlindCrc(step: Step, data: seq<byte>)
    requires forall s: u32, b: byte :: step(s, b) == 0
    ensures Crc32(step, 0, data) == 0
    decreases |data|
  {
    if data == [] {
    } else {
      BlindCrc(step, data[1..]);
    }
  }

  /**
   The assumption cannot be dropped, as a write does not clear the old commit byte first: with a checksum that
   detects nothing, every cut between the fixed fields and the last byte that changes makes `read` return a block
   that was never written.
   */
  lemma UndetectedTornIsRead(step: Step, devSize: nat, c: Copies, b: Block, k: nat, j: nat)
    requires forall s: u32, x: byte :: step(s, x) == 0
    requires Valid(step, devSize, c[0]) && Valid(step, devSize, c[1]) && Consecutive(step, devSize, c)
    requires Writable(b, devSize) && SeqOf(c[0]) < U32_MAX && SeqOf(c[1]) < U32_MAX
    requires 16 <= k <= j < CRC_AT && b[j] != c[Target(step, devSize, c)][j]
    ensures var i := Target(step, devSize, c);
            var p := Prepared(step, b, NextSeq(step, devSize, c));
            && IsCut(BlockScript(p), Cut(0, k))
            && var t := Torn(c[i], BlockScript(p), Cut(0, k));
               && Current(step, devSize, c[i := t]) == Some(i)
               && t[..COMMIT_AT] != p[..COMMIT_AT] && t[..COMMIT_AT] != c[i][..COMMIT_AT]
  {
    var i, n := Target(step, devSize, c), NextSeq(step, devSize, c);
    var p := Prepared(step, b, n);
    var was := c[i];
    BlockTorn(p, was, Cut(0, k));
    var t := p[..k] + was[k..];
    PreparedFields(step, b, n, devSize);
    assert t[0..4] == p[0..4] && t[4..6] == p[4..6] && t[6..8] == p[6..8] && t[8..12] == p[8..12];
    assert t[12..16] == p[12..16] && t[CRC_AT..COMMIT_AT] == was[CRC_AT..COMMIT_AT];
    BlindCrc(step, t[..CRC_AT]);
    BlindCrc(step, was[..CRC_AT]);
    assert Valid(step, devSize, t) && SeqOf(t) == n && SeqOf(was) != n;
    PreparedBody(step, b, n, j);
    assert p[j] == b[j] != t[j];
    assert t[..COMMIT_AT][j] == t[j] && p[..COMMIT_AT][j] == p[j];
    if t[..COMMIT_AT] == was[..COMMIT_AT] {
      SameFields(t, was);
      assert false;
    }
  }

  // ------------------------------------------------------------ all runs

  datatype Op = Finished(block: Block) | CutShort(block: Block, cut: Cut)

  /** The steps possible here, with the number below its end and torn blocks detected. */
  ghost predicate CanStep(step: Step, devSize: nat, c: Copies, op: Op) {
    && Writable(op.block, devSize)
    && (Current(step, devSize, c).Some? ==> SeqOf(c[Current(step, devSize, c).value]) < U32_MAX)
    && (op.CutShort? ==>
          var p := Prepared(step, op.block, NextSeq(step, devSize, c));
          var was := c[Target(step, devSize, c)];
          && IsCut(BlockScript(p), op.cut)
          && TornDetected(step, devSize, Torn(was, BlockScript(p), op.cut), was, p))
  }

  ghost function After(step: Step, devSize: nat, c: Copies, op: Op): (c': Copies)
    requires CanStep(step, devSize, c, op)
  {
    var i := Target(step, devSize, c);
    var p := Prepared(step, op.block, NextSeq(step, devSize, c));
    match op
    case Finished(_) => c[i := LandAll(c[i], BlockScript(p))]
    case CutShort(_, cut) => c[i := Torn(c[i], BlockScript(p), cut)]
  }

  ghost predicate CanRun(step: Step, devSize: nat, c: Copies, ops: seq<Op>)
    decreases |ops|
  {
    ops != [] ==> CanStep(step, devSize, c, ops[0]) && CanRun(step, devSize, After(step, devSize, c, ops[0]), ops[1..])
  }

  ghost function Run(step: Step, devSize: nat, c: Copies, ops: seq<Op>): Copies
    requires CanRun(step, devSize, c, ops)
    decreases |ops|
  {
    if ops == [] then c else Run(step, devSize, After(step, devSize, c, ops[0]), ops[1..])
  }

  lemma StepConsecutive(step: Step, devSize: nat, c: Copies, op: Op)
    requires Consecutive(step, devSize, c) && CanStep(step, devSize, c, op)
    ensures Consecutive(step, devSize, After(step, devSize, c, op))
    ensures op.Finished? ==> Current(step, devSize, After(step, devSize, c, op)) == Some(Target(step, devSize, c))
  {
    match op
    case Finished(b) =>
      BlockDone(Prepared(step, b, NextSeq(step, devSize, c)), c[Target(step, devSize, c)]);
      WriteDone(step, devSize, c, b);
    case CutShort(b, cut) =>
      WriteTorn(step, devSize, c, b, cut);
  }

  /**
   Over every run of finished and cut writes from two invalid copies: two valid copies are numbered one apart, so
   the next write spares the block `read` returns.
   */
  lemma {:induction false} RunSparesCurrent(step: Step, devSize: nat, c: Copies, ops: seq<Op>)
    requires Consecutive(step, devSize, c) && CanRun(step, devSize, c, ops)
    ensures var c' := Run(step, devSize, c, ops);
            Consecutive(step, devSize, c') && Current(step, devSize, c') != Some(Target(step, devSize, c'))
    decreases |ops|
  {
    if ops == [] {
      TargetSparesCurrentIff(step, devSize, c);
    } else {
      StepConsecutive(step, devSize, c, ops[0]);
      RunSparesCurrent(step, devSize, After(step, devSize, c, ops[0]), ops[1..]);
    }
  }
}
