/** The partition table: disjoint named ranges of the device, and access that never leaves them. */
module Partition {
  import opened Bytes
  import opened Crash
  import opened Device

  const NAME_MAX: nat := 16
  const PART_MAX: nat := 16
  const ERASE_CHUNK: nat := 64

  /** A table entry; `name` is the fixed-size character array. */
  datatype Part = Part(name: seq<byte>, offset: u32, size: u32, flags: u32) {
    /** Bit 0 of the flags. */
    predicate ReadOnly() { flags % 2 == 1 }

    function End(): nat { offset + size }
  }

  /** `strnlen` of a character array: the bytes before its first NUL. */
  function NameLen(name: seq<byte>): (n: nat)
    ensures n <= |name|
    ensures forall i :: 0 <= i < n ==> name[i] != 0
    ensures n < |name| ==> name[n] == 0
  {
    if name == [] || name[0] == 0 then 0 else 1 + NameLen(name[1..])
  }

  predicate NameOk(p: Part) {
    |p.name| == NAME_MAX && 0 < NameLen(p.name) < NAME_MAX
  }

  /** What `init` says about one entry on its own. */
  function PartError(p: Part, devSize: nat): Err {
    if p.size == 0 then INVALID_SIZE
    else if !NameOk(p) then INVALID_ARG
    else if p.offset > devSize || p.size > devSize || p.offset > devSize - p.size then INVALID_SIZE
    else OK
  }

  /** A name field is legal if it starts with a character and is terminated within its 16 bytes. */
  lemma NameOkExactly(p: Part)
    ensures NameOk(p) <==> |p.name| == 16 && p.name[0] != 0 && exists k :: 0 <= k < 16 && p.name[k] == 0
  {
    NameLenFirst(p.name);
  }

  lemma {:induction false} NameLenFirst(name: seq<byte>)
    ensures NameLen(name) == |name| <==> forall k :: 0 <= k < |name| ==> name[k] != 0
  {
    if name == [] || name[0] == 0 {
    } else {
      NameLenFirst(name[1..]);
      assert forall k :: 0 <= k < |name| - 1 ==> name[1..][k] == name[k + 1];
    }
  }

  /** Which error an entry on its own causes. */
  lemma PartErrorExactly(p: Part, devSize: nat)
    ensures var named := |p.name| == 16 && p.name[0] != 0 && exists k :: 0 <= k < 16 && p.name[k] == 0;
            PartError(p, devSize) == if p.size == 0 then INVALID_SIZE
                                     else if !named then INVALID_ARG
                                     else if p.offset + p.size > devSize then INVALID_SIZE
                                     else OK
  {
    NameOkExactly(p);
  }

  /** A table is legal if it has 1 to 16 legal entries, inside the device, of which no two share a byte. */
  lemma AcceptableExactly(parts: seq<Part>, devSize: nat)
    ensures Acceptable(parts, devSize) <==>
            && 1 <= |parts| <= 16 && devSize > 0
            && (forall i :: 0 <= i < |parts| ==> PartError(parts[i], devSize) == OK)
            && (forall i, j :: 0 <= i < j < |parts| ==> Disjoint(parts[i], parts[j]))
  {
    forall i, j | 0 <= i < j < |parts| && parts[i].size > 0 && parts[j].size > 0
      ensures Apart(parts[i], parts[j]) <==> Disjoint(parts[i], parts[j])
    {
      OverlapIsSharing(parts[i], parts[j]);
    }
  }

  /** One range ends before the other starts. */
  ghost predicate Disjoint(p: Part, q: Part) {
    p.offset + p.size <= q.offset || q.offset + q.size <= p.offset
  }

  predicate Overlap(p: Part, q: Part) {
    p.offset < q.End() && q.offset < p.End()
  }

  /** A legal table: a legal count, legal entries, pairwise disjoint ranges inside the device. */
  ghost predicate Acceptable(parts: seq<Part>, devSize: nat) {
    && 0 < |parts| <= PART_MAX && devSize > 0
    && (forall i :: 0 <= i < |parts| ==> InDevice(parts[i], devSize) && parts[i].size > 0 && NameOk(parts[i]))
    && PairwiseApart(parts)
  }

  ghost predicate InDevice(p: Part, devSize: nat) {
    p.End() <= devSize
  }

  ghost function Range(lo: nat, hi: nat): (r: set<int>)
    ensures forall k :: k in r <==> lo <= k < hi
  {
    if lo >= hi then {} else Range(lo, hi - 1) + {hi - 1}
  }

  /** The two ranges share no byte. */
  ghost predicate Apart(p: Part, q: Part) {
    Range(p.offset, p.End()) !! Range(q.offset, q.End())
  }

  lemma OverlapIsSharing(p: Part, q: Part)
    requires p.size > 0 && q.size > 0
    ensures Overlap(p, q) <==> !Apart(p, q)
  {
    if Overlap(p, q) {
      var k := if p.offset >= q.offset then p.offset else q.offset;
      assert k in Range(p.offset, p.End()) && k in Range(q.offset, q.End());
    }
  }

  function TotalSize(parts: seq<Part>): nat {
    if parts == [] then 0 else parts[|parts| - 1].size + TotalSize(parts[..|parts| - 1])
  }

  lemma {:induction false} RangeSize(lo: nat, hi: nat)
    requires lo <= hi
    ensures |Range(lo, hi)| == hi - lo
    decreases hi - lo
  {
    if lo == hi {
    } else {
      RangeSize(lo, hi - 1);
    }
  }

  /** The addresses the first partitions occupy. */
  ghost function Occupied(parts: seq<Part>): (r: set<int>)
    ensures forall k :: k in r ==> exists i :: 0 <= i < |parts| && parts[i].offset <= k < parts[i].End()
  {
    if parts == [] then {}
    else
      var n := |parts| - 1;
      Occupied(parts[..n]) + Range(parts[n].offset, parts[n].End())
  }

  ghost predicate PairwiseApart(parts: seq<Part>) {
    forall i, j :: 0 <= i < j < |parts| ==> Apart(parts[i], parts[j])
  }

  lemma {:induction false} OccupiedSize(parts: seq<Part>)
    requires PairwiseApart(parts)
    ensures |Occupied(parts)| == TotalSize(parts)
  {
    if parts == [] {
    } else {
      var n := |parts| - 1;
      assert PairwiseApart(parts[..n]);
      LastApart(parts);
      hide PairwiseApart;
      OccupiedSize(parts[..n]);
      RangeSize(parts[n].offset, parts[n].End());
      UnionSize(Occupied(parts[..n]), Range(parts[n].offset, parts[n].End()));
    }
  }

  lemma UnionSize(a: set<int>, b: set<int>)
    requires a !! b
    ensures |a + b| == |a| + |b|
  {
  }

  lemma LastApart(parts: seq<Part>)
    requires parts != [] && PairwiseApart(parts)
    ensures var n := |parts| - 1; Occupied(parts[..n]) !! Range(parts[n].offset, parts[n].End())
  {
    var n := |parts| - 1;
    forall k | k in Occupied(parts[..n])
      ensures k !in Range(parts[n].offset, parts[n].End())
    {
      var i :| 0 <= i < n && parts[..n][i].offset <= k < parts[..n][i].End();
      assert Apart(parts[i], parts[n]) && k in Range(parts[i].offset, parts[i].End());
    }
  }

  /** The partitions of an accepted table fit the device together. */
  lemma AcceptedFits(parts: seq<Part>, devSize: nat)
    requires Acceptable(parts, devSize)
    ensures TotalSize(parts) <= devSize
  {
    OccupiedSize(parts);
    RangeSize(0, devSize);
    forall k | k in Occupied(parts)
      ensures k in Range(0, devSize)
    {
      var i :| 0 <= i < |parts| && parts[i].offset <= k < parts[i].End();
      assert InDevice(parts[i], devSize);
    }
    SubsetSize(Occupied(parts), Range(0, devSize));
  }

  lemma SubsetSize(a: set<int>, b: set<int>)
    requires a <= b
    ensures |a| <= |b|
  {
    assert b == a + (b - a);
  }

  /** Changing bytes of one partition only leaves every partition apart from it as it was. */
  lemma Isolation(before: seq<byte>, after: seq<byte>, p: Part, q: Part)
    requires Apart(p, q) && InDevice(p, |before|) && InDevice(q, |before|)
    requires SameOutside(before, after, p.offset, p.End())
    ensures after[q.offset..q.End()] == before[q.offset..q.End()]
  {
    forall k | q.offset <= k < q.End()
      ensures after[k] == before[k]
    {
      assert k in Range(q.offset, q.End()) && k !in Range(p.offset, p.End());
    }
  }

  /** Byte `i` of a C string: it is followed by NUL. */
  function CharAt(s: seq<byte>, i: nat): byte {
    if i < |s| then s[i] else 0
  }

  /** `strncmp(a, b, n) == 0`, from byte `i` on: no difference before the first NUL or the `n`-th byte. */
  predicate SameChars(a: seq<byte>, b: seq<byte>, i: nat, n: nat)
    decreases n - i
  {
    i >= n || (CharAt(a, i) == CharAt(b, i) && (CharAt(a, i) == 0 || SameChars(a, b, i + 1, n)))
  }

  /** The name field holds this string and then a NUL. */
  ghost predicate HoldsName(field: seq<byte>, name: seq<byte>) {
    |name| < 16 == |field| && field[..|name|] == name && field[|name|] == 0
  }

  /** For a legal name field and a C string the comparison decides that. */
  lemma NameMatches(p: Part, name: seq<byte>)
    requires NameOk(p) && 0 !in name
    ensures SameChars(p.name, name, 0, 16) <==> HoldsName(p.name, name)
  {
    var n := NameLen(p.name);
    SameFrom(p.name, name, 0);
    if HoldsName(p.name, name) {
      forall i | 0 <= i < |name|
        ensures p.name[i] != 0
      {
        assert p.name[..|name|][i] in name;
      }
    }
    if p.name[..n] == name {
      assert |name| == n;
    }
    assert p.name[0..n] == p.name[..n] && name[0..] == name;
  }

  lemma {:induction false} SameFrom(a: seq<byte>, name: seq<byte>, i: nat)
    requires |a| == 16 && i <= NameLen(a) < 16 && i <= |name| && 0 !in name
    ensures SameChars(a, name, i, 16) <==> a[i..NameLen(a)] == name[i..]
    decreases 16 - i
  {
    var n := NameLen(a);
    if i == n {
      assert a[i..n] == [];
    } else if i < |name| {
      SameFrom(a, name, i + 1);
      assert a[i..n] == [a[i]] + a[i + 1..n] && name[i..] == [name[i]] + name[i + 1..];
    } else {
      assert |a[i..n]| > 0 == |name[i..]|;
    }
  }

  /** The first entry of a table with that name, if there is one. */
  function FirstNamed(parts: seq<Part>, name: seq<byte>): (p: Option<Part>)
    ensures p.None? ==> forall i :: 0 <= i < |parts| ==> !SameChars(parts[i].name, name, 0, 16)
    ensures p.Some? ==> exists i :: 0 <= i < |parts| && parts[i] == p.value && SameChars(parts[i].name, name, 0, 16) &&
                                    forall j :: 0 <= j < i ==> !SameChars(parts[j].name, name, 0, 16)
  {
    if parts == [] then None
    else if SameChars(parts[0].name, name, 0, 16) then Some(parts[0])
    else FirstNamed(parts[1..], name)
  }

  lemma NamedHolds(parts: seq<Part>, name: seq<byte>)
    requires forall i :: 0 <= i < |parts| ==> NameOk(parts[i])
    ensures var p := FirstNamed(parts, name);
            && (p.None? ==> forall i :: 0 <= i < |parts| ==> !SameChars(parts[i].name, name, 0, 16))
            && (0 !in name && p.Some? ==> HoldsName(p.value.name, name))
            && (0 !in name && p.None? ==> forall i :: 0 <= i < |parts| ==> !HoldsName(parts[i].name, name))
  {
    hide SameChars, HoldsName, NameOk;
    if 0 !in name {
      forall i | 0 <= i < |parts|
        ensures SameChars(parts[i].name, name, 0, 16) <==> HoldsName(parts[i].name, name)
      {
        NameMatches(parts[i], name);
      }
    }
  }

  class Pm {
    const dev: Dev
    var partitions: seq<Part>
    var count: nat
    var initialized: bool

    constructor (dev: Dev)
      ensures this.dev == dev && !initialized && count == 0
    {
      this.dev := dev;
      partitions, count, initialized := [], 0, false;
    }

    /** The visible part of the table lies inside the device: what a successful `Init` leaves. */
    ghost predicate Valid()
      reads this
    {
      && count <= |partitions|
      && forall i :: 0 <= i < count ==> InDevice(partitions[i], dev.Size()) && NameOk(partitions[i])
    }

    /**
     The table is set up and the medium has not failed yet. Operations are counted upwards and fail from some count
     on, so no operation of a call that ends in such a state has failed.
     */
    ghost predicate Healthy()
      reads this, dev.hal
    {
      initialized && !dev.hal.ShouldFail()
    }

    ghost predicate Owns(p: Part)
    {
      InDevice(p, dev.Size())
    }

    /** The bytes of a partition. */
    ghost function Bytes(p: Part): (s: seq<byte>)
      requires Owns(p)
      reads dev.hal.buffer
      ensures |s| == p.size
    {
      dev.hal.Mem()[p.offset..p.End()]
    }

    /** Accepts a table if and only if it is legal; the first illegal entry decides the error. */
    method Init(parts: seq<Part>) returns (err: Err)
      modifies this
      ensures err == OK <==> Acceptable(parts, dev.Size())
      ensures err == OK ==> initialized && partitions == parts && count == |parts| && Valid()
      ensures err != OK && 0 < |parts| <= PART_MAX ==> !initialized && count == 0
      ensures !(0 < |parts| <= PART_MAX) ==>
                err == INVALID_SIZE && initialized == old(initialized) && count == old(count)
      ensures 0 < |parts| <= PART_MAX && dev.Size() == 0 ==> err == INVALID_STATE
      ensures 0 < |parts| <= PART_MAX && dev.Size() > 0 ==>
                forall i :: 0 <= i < |parts| && PartError(parts[i], dev.Size()) != OK &&
                            (forall j :: 0 <= j < i ==> PartError(parts[j], dev.Size()) == OK) ==>
                            err == PartError(parts[i], dev.Size())
      ensures (&& 0 < |parts| <= PART_MAX && dev.Size() > 0 && err != OK
               && forall i :: 0 <= i < |parts| ==> PartError(parts[i], dev.Size()) == OK) ==>
                err == INVALID_STATE
    {
      if |parts| == 0 || |parts| > PART_MAX {
        return INVALID_SIZE;
      }
      partitions, count, initialized := [], 0, false;
      var devSize := dev.Size();
      if devSize == 0 {
        return INVALID_STATE;
      }
      for i := 0 to |parts|
        invariant partitions == parts[..i] && !initialized && count == 0
        invariant forall j :: 0 <= j < i ==> PartError(parts[j], devSize) == OK
      {
        err := PartError(parts[i], devSize);
        if err != OK {
          return;
        }
        partitions := partitions + [parts[i]];
      }
      var apart := AllApart();
      if !apart {
        return INVALID_STATE;
      }
      count, initialized := |parts|, true;
      return OK;
    }

    method AllApart() returns (apart: bool)
      requires forall i :: 0 <= i < |partitions| ==> partitions[i].size > 0
      ensures apart <==> PairwiseApart(partitions)
    {
      for i := 0 to |partitions|
        invariant forall a, b :: 0 <= a < b < |partitions| && a < i ==> Apart(partitions[a], partitions[b])
      {
        for j := i + 1 to |partitions|
          invariant forall b :: i < b < j ==> Apart(partitions[i], partitions[b])
        {
          OverlapIsSharing(partitions[i], partitions[j]);
          if Overlap(partitions[i], partitions[j]) {
            return false;
          }
        }
      }
      return true;
    }

    /** The entry of that name an application gets. */
    ghost function Named(name: seq<byte>): Option<Part>
      requires Valid()
      reads this
    {
      FirstNamed(partitions[..count], name)
    }

    /** The first entry whose name field `strncmp` finds equal; for a C string, the first of that name. */
    method Find(name: seq<byte>) returns (p: Option<Part>)
      requires Valid()
      ensures p == Named(name)
      ensures p.None? ==> forall i :: 0 <= i < count ==> !SameChars(partitions[i].name, name, 0, 16)
      ensures 0 !in name && p.Some? ==> HoldsName(p.value.name, name)
      ensures 0 !in name && p.None? ==> forall i :: 0 <= i < count ==> !HoldsName(partitions[i].name, name)
      ensures p.Some? ==> Owns(p.value)
    {
      ghost var table := partitions[..count];
      NamedHolds(table, name);
      hide SameChars, NameOk, HoldsName;
      assert table[0..] == table;
      for i := 0 to count
        invariant FirstNamed(table, name) == FirstNamed(table[i..], name)
      {
        if SameChars(partitions[i].name, name, 0, NAME_MAX) {
          return Some(partitions[i]);
        }
        assert table[i..][1..] == table[i + 1..];
      }
      return None;
    }

    predicate RangeOk(p: Part, offset: nat, len: nat): (ok: bool)
      ensures ok <==> len == 0 || offset + len <= p.size
    {
      len == 0 || (offset <= p.size && len <= p.size && offset <= p.size - len)
    }

    method Read(p: Part, offset: nat, len: nat) returns (err: Err, out: seq<byte>)
      requires Owns(p)
      modifies dev.hal`opCount
      ensures !initialized ==> err == INVALID_STATE
      ensures initialized && !RangeOk(p, offset, len) ==> err == INVALID_SIZE
      ensures err == OK ==> RangeOk(p, offset, len) && |out| == len
      ensures err == OK && len > 0 ==> out == Bytes(p)[offset..offset + len]
      ensures initialized && RangeOk(p, offset, len) && !dev.hal.ShouldFail() ==> err == OK
      ensures initialized && RangeOk(p, offset, len) && err != OK ==> err == FAIL && dev.hal.ShouldFail()
      ensures initialized && RangeOk(p, offset, len) ==>
                (err == OK <==> old(dev.hal.Outlasts(Transfers(dev.Chunk(), len))))
      ensures initialized && RangeOk(p, offset, len) && len > 0 && err == OK ==> !dev.hal.ShouldFail()
      ensures dev.hal.opCount >= old(dev.hal.opCount)
    {
      if !initialized {
        return INVALID_STATE, [];
      }
      if !RangeOk(p, offset, len) {
        return INVALID_SIZE, [];
      }
      err, out := dev.Read(p.offset + offset, len);
      if err == OK && len > 0 {
        SliceOfSlice(dev.hal.Mem(), p.offset, p.End(), offset, offset + len);
      }
    }

    /** How a nonempty write within a partition ends: bit 0 of the flags makes a partition read-only. */
    ghost function WriteResult(p: Part): Err
      reads this, dev.hal
    {
      if !initialized || p.flags % 2 == 1 then INVALID_STATE else if dev.hal.ShouldFail() then FAIL else OK
    }

    method Write(p: Part, offset: nat, data: seq<byte>) returns (err: Err, ghost landed: nat)
      requires Owns(p)
      modifies dev.hal`opCount, dev.hal.buffer
      ensures initialized && p.flags % 2 == 0 && data != [] && offset + |data| > p.size ==> err == INVALID_SIZE
      ensures landed <= |data|
      ensures err == OK ==> landed == |data| && initialized && p.flags % 2 == 0 && RangeOk(p, offset, |data|)
      ensures err != OK && data != [] ==> landed < |data|
      ensures offset + |data| <= p.size ==> Bytes(p) == Splice(old(Bytes(p)), offset, data[..landed])
      ensures landed == 0 ==> dev.hal.Mem() == old(dev.hal.Mem())
      ensures err != NO_MEM
      ensures SameOutside(old(dev.hal.Mem()), dev.hal.Mem(), p.offset, p.End())
      ensures !initialized || p.flags % 2 == 1 ==>
                err == INVALID_STATE && dev.hal.Mem() == old(dev.hal.Mem())
      ensures initialized && p.flags % 2 == 0 && data != [] && offset + |data| <= p.size ==>
                err == if dev.hal.ShouldFail() then FAIL else OK
      ensures data != [] && offset + |data| <= p.size ==> err == WriteResult(p)
      ensures dev.hal.opCount >= old(dev.hal.opCount)
    {
      landed := 0;
      if !initialized || p.ReadOnly() {
        return INVALID_STATE, 0;
      }
      if !RangeOk(p, offset, |data|) {
        return INVALID_SIZE, 0;
      }
      ghost var chunks;
      err, landed, chunks := dev.Write(p.offset + offset, data);
      if data != [] {
        SpliceWindow(old(dev.hal.Mem()), p.offset, p.size, offset, data[..landed]);
      }
    }

    /** Erases the partition to 0xFF front to back; stopped by an error, a prefix of `done` bytes is erased. */
    method Erase(p: Part) returns (err: Err, ghost done: nat)
      requires Owns(p)
      modifies dev.hal`opCount, dev.hal.buffer
      ensures done <= p.size && Bytes(p) == EraseTo(old(Bytes(p)), done)
      ensures err == OK ==> done == p.size
      ensures SameOutside(old(dev.hal.Mem()), dev.hal.Mem(), p.offset, p.End())
      ensures !initialized || p.flags % 2 == 1 ==>
                err == INVALID_STATE && dev.hal.Mem() == old(dev.hal.Mem())
      ensures initialized && p.flags % 2 == 0 && p.size > 0 ==> err == if dev.hal.ShouldFail() then FAIL else OK
      ensures p.size > 0 ==> err == WriteResult(p)
      ensures initialized && p.flags % 2 == 0 && p.size == 0 ==> err == OK
      ensures dev.hal.opCount >= old(dev.hal.opCount)
    {
      done := 0;
      assert EraseTo(Bytes(p), 0) == Bytes(p);
      if !initialized || p.ReadOnly() {
        return INVALID_STATE, 0;
      }
      var offset, remaining: nat := 0, p.size;
      while remaining > 0
        invariant offset + remaining == p.size && done == offset && (offset > 0 ==> !dev.hal.ShouldFail())
        invariant dev.hal.opCount >= old(dev.hal.opCount)
        invariant Bytes(p) == EraseTo(old(Bytes(p)), offset)
        invariant SameOutside(old(dev.hal.Mem()), dev.hal.Mem(), p.offset, p.End())
      {
        var chunk := if remaining > ERASE_CHUNK then ERASE_CHUNK else remaining;
        ghost var landed;
        err, landed := Write(p, offset, Repeat(0xFF, chunk));
        done := offset + landed;
        assert Bytes(p) == EraseTo(old(Bytes(p)), done);
        if err != OK {
          return;
        }
        offset := offset + chunk;
        remaining := remaining - chunk;
      }
      return OK, done;
    }
  }
}
