/** The medium behind a HAL that may fail, and the device layer that cuts transfers into chunks. */
module Device {
  import opened Bytes

  datatype Err = OK | FAIL | INVALID_ARG | INVALID_SIZE | INVALID_STATE | NOT_FOUND | INVALID_CRC | NO_MEM

  function Min(a: nat, b: nat): nat {
    if a <= b then a else b
  }

  /**
   The mock HAL. From the `failAfter`-th operation on, every operation fails. A failing write of the mock changes
   nothing (`tear` 0); a larger `tear` is the power-cut model: that many bytes of the write, but not all of it,
   have reached the medium.
   */
  class Hal {
    const buffer: array<byte>
    const maxTransfer: nat
    var opCount: nat
    var failAfter: nat
    var failEnabled: bool
    var tear: nat

    constructor (store: array<byte>, maxTransfer: nat)
      ensures buffer == store && this.maxTransfer == maxTransfer
      ensures !failEnabled && opCount == 0 && tear == 0
    {
      buffer := store;
      this.maxTransfer := maxTransfer;
      opCount, failAfter, failEnabled, tear := 0, 0, false, 0;
    }

    /** Everything on the medium. */
    ghost function Mem(): (s: seq<byte>)
      reads buffer
      ensures |s| == buffer.Length
    {
      buffer[..]
    }

    /** The operation just counted fails. */
    predicate ShouldFail()
      reads this
    {
      failEnabled && opCount >= failAfter
    }

    /** The next `n` operations succeed. */
    predicate Outlasts(n: nat)
      reads this
    {
      !failEnabled || n == 0 || opCount + n < failAfter
    }

    method Read(addr: nat, len: nat) returns (err: Err, out: seq<byte>)
      modifies this`opCount
      ensures len == 0 ==> err == OK && out == [] && opCount == old(opCount)
      ensures len > 0 && addr + len > buffer.Length ==> err == INVALID_SIZE && opCount == old(opCount)
      ensures len > 0 && addr + len <= buffer.Length ==>
                && opCount == old(opCount) + 1
                && err == (if failEnabled && opCount >= failAfter then FAIL else OK)
                && (err == OK ==> out == Mem()[addr..addr + len])
    {
      if len == 0 {
        return OK, [];
      }
      if addr > buffer.Length || len > buffer.Length || addr > buffer.Length - len {
        return INVALID_SIZE, [];
      }
      opCount := opCount + 1;
      if ShouldFail() {
        return FAIL, [];
      }
      err, out := OK, buffer[addr..addr + len];
    }

    method Write(addr: nat, data: seq<byte>) returns (err: Err, ghost landed: nat)
      modifies this`opCount, buffer
      ensures data == [] ==> err == OK && landed == 0 && Mem() == old(Mem()) && opCount == old(opCount)
      ensures data != [] && addr + |data| > buffer.Length ==>
                err == INVALID_SIZE && landed == 0 && Mem() == old(Mem()) && opCount == old(opCount)
      ensures data != [] && addr + |data| <= buffer.Length ==>
                && opCount == old(opCount) + 1
                && err == (if failEnabled && opCount >= failAfter then FAIL else OK)
                && landed == (if err == OK then |data| else Min(tear, |data| - 1))
                && Mem() == Splice(old(Mem()), addr, data[..landed])
    {
      landed := 0;
      if data == [] {
        return OK, 0;
      }
      if addr > buffer.Length || |data| > buffer.Length || addr > buffer.Length - |data| {
        return INVALID_SIZE, 0;
      }
      opCount := opCount + 1;
      var n := |data|;
      if ShouldFail() {
        err, n := FAIL, Min(tear, |data| - 1);
      } else {
        err := OK;
      }
      forall i | 0 <= i < n {
        buffer[addr + i] := data[i];
      }
      landed := n;
    }
  }

  /** The bytes `n` full chunks carry. */
  ghost function Sent(chunk: nat, n: nat): (bytes: nat) {
    n * chunk
  }

  lemma SentStep(chunk: nat, n: nat)
    ensures Sent(chunk, 0) == 0 && Sent(chunk, n + 1) == Sent(chunk, n) + chunk
  {
    assert (n + 1) * chunk == n * chunk + chunk;
  }

  /** How many transfers of at most `chunk` bytes carry `len` bytes. */
  function Transfers(chunk: nat, len: nat): (n: nat)
    ensures n > 0 <==> chunk > 0 && len > 0
  {
    if chunk == 0 || len == 0 then 0
    else if len <= chunk then 1
    else 1 + Transfers(chunk, len - chunk)
  }

  lemma TransfersStep(chunk: nat, len: nat)
    requires 0 < chunk && 0 < len
    ensures Transfers(chunk, len) == 1 + Transfers(chunk, len - (if len > chunk then chunk else len))
  {
  }

  class Dev {
    const hal: Hal

    constructor (hal: Hal)
      ensures this.hal == hal
    {
      this.hal := hal;
    }

    function Size(): nat {
      hal.buffer.Length
    }

    /** The largest transfer; 0 means the whole device. */
    function Chunk(): (size: nat)
      ensures hal.maxTransfer > 0 ==> size == hal.maxTransfer
      ensures hal.maxTransfer == 0 ==> size == Size()
    {
      if hal.maxTransfer > 0 then hal.maxTransfer else Size()
    }

    predicate InRange(offset: nat, len: nat) {
      len == 0 || offset + len <= Size()
    }

    /**
     Chunk by chunk, a successful read is one copy of `len` bytes. It succeeds exactly if the medium outlasts its
     transfers.
     */
    method Read(offset: nat, len: nat) returns (err: Err, out: seq<byte>)
      modifies hal`opCount
      ensures !InRange(offset, len) ==> err == INVALID_SIZE && hal.opCount == old(hal.opCount)
      ensures err == OK && len > 0 ==> InRange(offset, len) && out == hal.Mem()[offset..offset + len]
      ensures err == OK && len == 0 ==> out == []
      ensures InRange(offset, len) ==> (err == OK <==> old(hal.Outlasts(Transfers(Chunk(), len))))
      ensures InRange(offset, len) && err == OK ==> hal.opCount == old(hal.opCount) + Transfers(Chunk(), len)
      ensures InRange(offset, len) && err != OK ==> err == FAIL && hal.ShouldFail()
      ensures hal.opCount >= old(hal.opCount)
    {
      if len == 0 {
        return OK, [];
      }
      var size := Size();
      if size == 0 || offset > size || len > size || offset > size - len {
        return INVALID_SIZE, [];
      }
      hide Transfers;
      var remaining, addr := len, offset;
      err, out := OK, [];
      while remaining > 0
        invariant err == OK && 0 <= remaining <= len && addr + remaining == offset + len && offset <= addr
        invariant out == hal.Mem()[offset..addr]
        invariant hal.opCount + Transfers(Chunk(), remaining) == old(hal.opCount) + Transfers(Chunk(), len)
        invariant remaining < len ==> !hal.ShouldFail()
        invariant hal.opCount >= old(hal.opCount)
      {
        var chunk := if remaining > Chunk() then Chunk() else remaining;
        var got;
        TransfersStep(Chunk(), remaining);
        err, got := hal.Read(addr, chunk);
        if err != OK {
          return err, [];
        }
        JoinSlices(hal.Mem(), offset, addr, addr + chunk);
        out := out + got;
        addr := addr + chunk;
        remaining := remaining - chunk;
      }
    }

    /**
     Chunk by chunk, a successful write is one copy. A write that fails at some chunk leaves exactly the chunks
     before it, and what the failing transfer itself let through, in place and every other byte unchanged.
     */
    method Write(offset: nat, data: seq<byte>) returns (err: Err, ghost landed: nat, ghost chunks: nat)
      modifies hal`opCount, hal.buffer
      ensures landed <= |data|
      ensures !InRange(offset, |data|) ==> err == INVALID_SIZE && landed == 0 && hal.Mem() == old(hal.Mem())
      ensures InRange(offset, |data|) && data != [] ==> hal.Mem() == Splice(old(hal.Mem()), offset, data[..landed])
      ensures data == [] ==> err == OK && hal.Mem() == old(hal.Mem())
      ensures err == OK ==> landed == |data|
      ensures err != OK ==> landed < |data|
      ensures InRange(offset, |data|) && err != OK ==>
                && err == FAIL && hal.ShouldFail()
                && hal.opCount == old(hal.opCount) + chunks + 1
                && (chunks > 0 ==> hal.opCount - 1 < hal.failAfter)
                && Sent(Chunk(), chunks) < |data|
                && landed == Sent(Chunk(), chunks) + Min(hal.tear, Min(Chunk(), |data| - Sent(Chunk(), chunks)) - 1)
      ensures InRange(offset, |data|) ==> (err == OK <==> old(hal.Outlasts(Transfers(Chunk(), |data|))))
      ensures InRange(offset, |data|) && err == OK ==> hal.opCount == old(hal.opCount) + Transfers(Chunk(), |data|)
      ensures hal.opCount >= old(hal.opCount)
    {
      hide Sent, Transfers;
      landed, chunks := 0, 0;
      if |data| == 0 {
        return OK, 0, 0;
      }
      var size := Size();
      if size == 0 || offset > size || |data| > size || offset > size - |data| {
        return INVALID_SIZE, 0, 0;
      }
      var remaining, addr, done := |data|, offset, 0;
      err := OK;
      assert Splice(hal.Mem(), offset, data[..0]) == hal.Mem();
      SentStep(Chunk(), 0);
      while remaining > 0
        invariant err == OK && done + remaining == |data| && addr == offset + done && 0 <= done <= |data|
        invariant landed == done
        invariant hal.Mem() == Splice(old(hal.Mem()), offset, data[..done])
        invariant remaining > 0 ==> done == Sent(Chunk(), chunks)
        invariant hal.opCount == old(hal.opCount) + chunks
        invariant chunks + Transfers(Chunk(), remaining) == Transfers(Chunk(), |data|)
        invariant chunks > 0 && hal.failEnabled ==> hal.opCount < hal.failAfter
      {
        var chunk := if remaining > Chunk() then Chunk() else remaining;
        ghost var part;
        TransfersStep(Chunk(), remaining);
        err, part := SendChunk(addr, data, done, chunk, old(hal.Mem()));
        landed := done + part;
        if err != OK {
          return;
        }
        SentStep(Chunk(), chunks);
        chunks := chunks + 1;
        done := done + chunk;
        addr := addr + chunk;
        remaining := remaining - chunk;
      }
    }

    /** One transfer of a write; `before` is what the medium held before the write, of which `done` bytes are sent. */
    method SendChunk(addr: nat, data: seq<byte>, done: nat, chunk: nat, ghost before: seq<byte>)
      returns (err: Err, ghost part: nat)
      requires 0 < chunk && done + chunk <= |data| && done <= addr && addr - done + |data| <= |before| == Size()
      requires hal.Mem() == Splice(before, addr - done, data[..done])
      modifies hal`opCount, hal.buffer
      ensures hal.opCount == old(hal.opCount) + 1
      ensures err == if hal.ShouldFail() then FAIL else OK
      ensures part == if err == OK then chunk else Min(hal.tear, chunk - 1)
      ensures hal.Mem() == Splice(before, addr - done, data[..done + part])
    {
      err, part := hal.Write(addr, data[done..done + chunk]);
      SpliceTwice(before, addr - done, data, done, part);
      SliceOfSlice(data, done, done + chunk, 0, part);
    }
  }

  lemma SpliceTwice(s: seq<byte>, off: nat, d: seq<byte>, a: nat, b: nat)
    requires off + |d| <= |s| && a + b <= |d|
    ensures Splice(Splice(s, off, d[..a]), off + a, d[a..a + b]) == Splice(s, off, d[..a + b])
  {
  }
}
