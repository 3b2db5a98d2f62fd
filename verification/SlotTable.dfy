/** A partition cut into equal slots: where slots lie, and what scripts and erasures do to all of them at once. */
module SlotTable {
  import opened Bytes
  import opened Crc
  import opened Crash
  import opened Slots

  /** Where slot `i` of a table starts: the slots before it, end to end. */
  function SlotAt(f: Format, i: nat): nat {
    if i == 0 then 0 else SlotAt(f, i - 1) + f.SlotSize()
  }

  /** It is `slot * entry_size`, as the C code computes it: a header of 24 bytes, the payload area, the commit byte. */
  lemma {:induction false} SlotAtIsProduct(f: Format, i: nat)
    ensures SlotAt(f, i) == i * f.SlotSize() && f.SlotSize() == 25 + f.maxPayload
    ensures SlotAt(f, i) == i * (25 + f.maxPayload)
  {
    if i == 0 {
    } else {
      SlotAtIsProduct(f, i - 1);
      assert i * f.SlotSize() == (i - 1) * f.SlotSize() + f.SlotSize();
    }
  }

  lemma SlotFits(f: Format, i: nat, n: nat, size: nat)
    requires i < n && SlotAt(f, n) <= size
    ensures SlotAt(f, i) + f.SlotSize() <= size
  {
    SlotsApart(f, i, n);
  }

  /** Slots do not overlap. */
  lemma {:induction false} SlotsApart(f: Format, i: nat, j: nat)
    requires i < j
    ensures SlotAt(f, i) + f.SlotSize() <= SlotAt(f, j)
  {
    if i + 1 < j {
      SlotsApart(f, i, j - 1);
    }
  }

  /** How many slots a partition of this size holds: as many as fit end to end. */
  function CapacityOf(f: Format, size: nat): (n: nat)
    ensures SlotAt(f, n) <= size < SlotAt(f, n + 1) && n <= size
  {
    if size < f.SlotSize() then 0 else CapacityOf(f, size - f.SlotSize()) + 1
  }

  /** It is `size / entry_size`, as the C code computes it. */
  lemma {:induction false} CapacityIsQuotient(f: Format, size: nat)
    ensures CapacityOf(f, size) == size / f.SlotSize() == size / (25 + f.maxPayload)
  {
    var n, e := CapacityOf(f, size), f.SlotSize();
    SlotAtIsProduct(f, n);
    SlotAtIsProduct(f, n + 1);
    QuotientBetween(n, e, size);
  }

  lemma QuotientBetween(n: nat, e: nat, size: nat)
    requires 0 < e && n * e <= size < (n + 1) * e
    ensures size / e == n
  {
    var q := size / e;
    assert size == e * q + size % e;
    LessFactor(q, n + 1, e);
    LessFactor(n, q + 1, e);
  }

  lemma LessFactor(a: nat, b: nat, e: nat)
    requires a * e < b * e
    ensures a < b
  {
  }

  function SlotBytes(f: Format, s: seq<byte>, i: nat): (b: seq<byte>)
    requires SlotAt(f, i) + f.SlotSize() <= |s|
    ensures |b| == f.SlotSize()
  {
    s[SlotAt(f, i)..SlotAt(f, i) + f.SlotSize()]
  }

  /** The bytes of slot `i`, by their addresses. */
  lemma SlotBytesByAddress(f: Format, s: seq<byte>, i: nat)
    requires SlotAt(f, i) + f.SlotSize() <= |s|
    ensures var a := i * (25 + f.maxPayload);
            a + 25 + f.maxPayload <= |s| && SlotBytes(f, s, i) == s[a..a + 25 + f.maxPayload]
  {
    SlotAtIsProduct(f, i);
  }

  function ViewAt(f: Format, s: seq<byte>, i: nat, n: nat): Option<Entry>
    requires f.Valid() && i < n && SlotAt(f, n) <= |s|
  {
    SlotFits(f, i, n, |s|);
    View(f, SlotBytes(f, s, i))
  }

  /** The first `n` slots as records. */
  function Table(f: Format, s: seq<byte>, n: nat): (v: seq<Option<Entry>>)
    requires f.Valid() && SlotAt(f, n) <= |s|
    ensures |v| == n
    ensures forall i :: 0 <= i < n ==> v[i] == ViewAt(f, s, i, n)
  {
    seq(n, i requires 0 <= i < n => ViewAt(f, s, i, n))
  }

  /** The script of one append or save, at its slot. */
  function ScriptAt(f: Format, i: nat, e: Entry): (ws: seq<Write>)
    requires f.Valid() && |e.payload| <= f.maxPayload
    ensures Within(ws, SlotAt(f, i), SlotAt(f, i) + f.SlotSize())
  {
    Shift(SlotScript(f, e), SlotAt(f, i))
  }

  /** Where a script is cut does not depend on the number it writes nor on the slot. */
  lemma CutAnywhere(f: Format, i: nat, n: u32, ts: u64, payload: seq<byte>, c: Cut)
    requires f.Valid() && |payload| <= f.maxPayload && IsCut(SlotScript(f, Entry(0, ts, payload)), c)
    ensures IsCut(ScriptAt(f, i, Entry(n, ts, payload)), c)
  {
  }

  lemma OtherSlotSame(f: Format, s: seq<byte>, s': seq<byte>, i: nat, j: nat, n: nat)
    requires f.Valid() && i < n && j < n && i != j && SlotAt(f, n) <= |s| == |s'|
    requires forall k :: 0 <= k < |s| && !(SlotAt(f, i) <= k < SlotAt(f, i) + f.SlotSize()) ==> s'[k] == s[k]
    ensures SlotAt(f, j) + f.SlotSize() <= |s|
    ensures SlotBytes(f, s', j) == SlotBytes(f, s, j)
  {
    SlotFits(f, j, n, |s|);
    if i < j {
      SlotsApart(f, i, j);
    } else {
      SlotsApart(f, j, i);
    }
    var a, e := SlotAt(f, j), f.SlotSize();
    assert forall k :: a <= k < a + e ==> s'[k] == s[k];
  }

  lemma TableChanged(f: Format, s: seq<byte>, s': seq<byte>, i: nat, n: nat)
    requires f.Valid() && i < n && SlotAt(f, n) <= |s|
    requires SameOutside(s, s', SlotAt(f, i), SlotAt(f, i) + f.SlotSize())
    ensures Table(f, s', n) == Table(f, s, n)[i := ViewAt(f, s', i, n)]
  {
    forall j | 0 <= j < n && j != i
      ensures ViewAt(f, s', j, n) == ViewAt(f, s, j, n)
    {
      OtherSlotSame(f, s, s', i, j, n);
    }
  }

  /** A finished script puts its record into its slot and leaves every other slot alone. */
  lemma TableDone(f: Format, s: seq<byte>, i: nat, n: nat, e: Entry)
    requires f.Valid() && |e.payload| <= f.maxPayload && i < n && SlotAt(f, n) <= |s|
    requires SlotAt(f, i) + f.SlotSize() <= |s|
    ensures Table(f, LandAll(s, ScriptAt(f, i, e)), n) == Table(f, s, n)[i := Some(e)]
    ensures TameTable(f, s, n) ==> TameTable(f, LandAll(s, ScriptAt(f, i, e)), n)
  {
    hide LandUpTo, LandAll, SlotScript, Table, View;
    var a := SlotAt(f, i);
    SlotDone(f, s, a, e);
    TableWrote(f, s, LandAll(s, ScriptAt(f, i, e)), i, n, e);
  }

  lemma TableWrote(f: Format, s: seq<byte>, s': seq<byte>, i: nat, n: nat, e: Entry)
    requires f.Valid() && i < n && SlotAt(f, n) <= |s|
    requires SameOutside(s, s', SlotAt(f, i), SlotAt(f, i) + f.SlotSize())
    requires SlotAt(f, i) + f.SlotSize() <= |s| && View(f, SlotBytes(f, s', i)) == Some(e)
    ensures Table(f, s', n) == Table(f, s, n)[i := Some(e)]
    ensures TameTable(f, s, n) ==> TameTable(f, s', n)
  {
    TableChanged(f, s, s', i, n);
    if TameTable(f, s, n) {
      ScriptKeepsTame(f, s, s', i, n);
    }
  }

  lemma SlotDone(f: Format, s: seq<byte>, a: nat, e: Entry)
    requires f.Valid() && |e.payload| <= f.maxPayload && a + f.SlotSize() <= |s|
    ensures var s' := LandAll(s, Shift(SlotScript(f, e), a));
            SameOutside(s, s', a, a + f.SlotSize()) && View(f, s'[a..a + f.SlotSize()]) == Some(e)
  {
    DoneInWindow(s, SlotScript(f, e), a, f.SlotSize());
    ScriptDone(f, e, s[a..a + f.SlotSize()]);
  }

  /** A script cut short leaves all bytes as they were, or un-commits its slot and leaves every other slot alone. */
  lemma TableTorn(f: Format, s: seq<byte>, i: nat, n: nat, e: Entry, c: Cut)
    requires f.Valid() && |e.payload| <= f.maxPayload && i < n && SlotAt(f, n) <= |s|
    requires SlotAt(f, i) + f.SlotSize() <= |s|
    requires IsCut(ScriptAt(f, i, e), c)
    ensures var s' := Torn(s, ScriptAt(f, i, e), c);
            if c.index == 0 then s' == s else Table(f, s', n) == Table(f, s, n)[i := None]
    ensures TameTable(f, s, n) ==> TameTable(f, Torn(s, ScriptAt(f, i, e), c), n)
  {
    hide LandUpTo, Torn, SlotScript;
    var a := SlotAt(f, i);
    var s' := Torn(s, ScriptAt(f, i, e), c);
    SlotTorn(f, s, a, e, c);
    assert s'[a..a + f.SlotSize()] == SlotBytes(f, s', i);
    if c.index > 0 {
      TableChanged(f, s, s', i, n);
      UncommittedTame(f, SlotBytes(f, s', i));
      if TameTable(f, s, n) {
        ScriptKeepsTame(f, s, s', i, n);
      }
    }
  }

  lemma SlotTorn(f: Format, s: seq<byte>, a: nat, e: Entry, c: Cut)
    requires f.Valid() && |e.payload| <= f.maxPayload && a + f.SlotSize() <= |s|
    requires IsCut(Shift(SlotScript(f, e), a), c)
    ensures var s' := Torn(s, Shift(SlotScript(f, e), a), c);
            && SameOutside(s, s', a, a + f.SlotSize())
            && if c.index == 0 then s' == s
               else s'[a + f.CommitAt()] != COMMIT && View(f, s'[a..a + f.SlotSize()]) == None
  {
    hide LandUpTo, Torn;
    var b := s[a..a + f.SlotSize()];
    TornInWindow(s, SlotScript(f, e), c, a, f.SlotSize());
    ScriptTorn(f, e, b, c);
    if c.index == 0 {
      SameWindow(s, Torn(s, Shift(SlotScript(f, e), a), c), a, a + f.SlotSize());
    }
  }

  /** With a checksum that loses no difference, a damaged byte of a record costs that record and no other. */
  lemma OneByteLostInTable(f: Format, s: seq<byte>, i: nat, n: nat, k: nat, x: byte)
    requires f.Valid() && i < n && SlotAt(f, n) <= |s| && Table(f, s, n)[i].Some? && Injective(f.step)
    requires k < 16 || 16 + f.lenWidth <= k < 24 + |Table(f, s, n)[i].value.payload| || k == 24 + f.maxPayload
    ensures SlotAt(f, i) + k < |s|
    ensures s[SlotAt(f, i) + k] != x ==> Table(f, s[SlotAt(f, i) + k := x], n) == Table(f, s, n)[i := None]
  {
    hide View, SlotAt;
    SlotFits(f, i, n, |s|);
    SlotByteSet(f, s, i, k, x);
    var b, a := SlotBytes(f, s, i), SlotAt(f, i);
    if b[k] != x {
      OneByteLost(f, b, k, x);
      hide SlotBytes;
      TableChanged(f, s, s[a + k := x], i, n);
    }
  }

  lemma SlotByteSet(f: Format, s: seq<byte>, i: nat, k: nat, x: byte)
    requires SlotAt(f, i) + f.SlotSize() <= |s| && k < f.SlotSize()
    ensures var a := SlotAt(f, i);
            && SlotBytes(f, s, i)[k] == s[a + k]
            && SlotBytes(f, s[a + k := x], i) == SlotBytes(f, s, i)[k := x]
            && SameOutside(s, s[a + k := x], a, a + f.SlotSize())
  {
  }

  ghost predicate TameTable(f: Format, s: seq<byte>, n: nat)
    requires f.Valid() && SlotAt(f, n) <= |s|
  {
    forall i: nat :: i < n ==> TameAt(f, s, i, n)
  }

  ghost predicate TameAt(f: Format, s: seq<byte>, i: nat, n: nat)
    requires f.Valid() && i < n && SlotAt(f, n) <= |s|
  {
    SlotFits(f, i, n, |s|);
    Tame(f, SlotBytes(f, s, i))
  }

  /**
   An erase may be interrupted here: the low byte of the magic number is not the erase value, whatever the medium;
   or the slots pass the test of `Tame`.
   */
  ghost predicate EraseSafe(f: Format, s: seq<byte>, n: nat)
    requires f.Valid() && SlotAt(f, n) <= |s|
  {
    f.magic % 0x100 != 0xFF || (f.magic != U32_MAX && TameTable(f, s, n))
  }

  lemma SafeIsTame(f: Format, s: seq<byte>, n: nat)
    requires f.Valid() && SlotAt(f, n) <= |s| && EraseSafe(f, s, n)
    ensures f.magic != U32_MAX && TameTable(f, s, n)
  {
    if f.magic % 0x100 != 0xFF {
      forall i: nat | i < n
        ensures TameAt(f, s, i, n)
      {
        SlotFits(f, i, n, |s|);
        LowByteTame(f, SlotBytes(f, s, i));
      }
    }
  }

  /** An erase stopped after `k` bytes leaves every slot its record or none. */
  ghost predicate OnlyErases(f: Format, s: seq<byte>, n: nat, k: nat)
    requires f.Valid() && SlotAt(f, n) <= |s| && k <= |s|
  {
    var v, v' := Table(f, s, n), Table(f, EraseTo(s, k), n);
    forall i :: 0 <= i < n ==> v'[i] == v[i] || v'[i] == None
  }

  /** An erase of the first `k` bytes of the partition, seen by slot `i`, is an erase of some prefix of the slot. */
  lemma SlotErased(f: Format, s: seq<byte>, i: nat, k: nat)
    requires SlotAt(f, i) + f.SlotSize() <= |s| && k <= |s|
    ensures var a, e := SlotAt(f, i), f.SlotSize();
            var here := if k <= a then 0 else if k >= a + e then e else k - a;
            SlotBytes(f, EraseTo(s, k), i) == EraseTo(SlotBytes(f, s, i), here)
  {
  }

  /**
   An erase stopped anywhere: every slot keeps its record or holds none, the slots it passed hold none, the slots
   it has not reached keep theirs.
   */
  lemma TableErased(f: Format, s: seq<byte>, n: nat, k: nat)
    requires f.Valid() && SlotAt(f, n) <= |s| && k <= |s| && EraseSafe(f, s, n)
    ensures EraseSafe(f, EraseTo(s, k), n) && OnlyErases(f, s, n, k)
    ensures forall i :: 0 <= i < n ==> ErasedAt(f, s, i, n, k)
  {
    SafeIsTame(f, s, n);
    hide View, Tame, EraseTo, SlotAt, EraseSafe;
    forall i: nat | i < n
      ensures TameAt(f, EraseTo(s, k), i, n) && ErasedAt(f, s, i, n, k)
    {
      SlotErasedTame(f, s, i, n, k);
    }
    TameIsSafe(f, EraseTo(s, k), n);
    hide TameAt, TameTable;
    forall i | 0 <= i < n
      ensures Table(f, EraseTo(s, k), n)[i] == Table(f, s, n)[i] || Table(f, EraseTo(s, k), n)[i] == None
    {
      assert ErasedAt(f, s, i, n, k);
    }
  }

  lemma TameIsSafe(f: Format, s: seq<byte>, n: nat)
    requires f.Valid() && SlotAt(f, n) <= |s| && f.magic != U32_MAX && TameTable(f, s, n)
    ensures EraseSafe(f, s, n)
  {
  }

  ghost predicate ErasedAt(f: Format, s: seq<byte>, i: nat, n: nat, k: nat)
    requires f.Valid() && i < n && SlotAt(f, n) <= |s| && k <= |s|
  {
    var before, after := Table(f, s, n)[i], Table(f, EraseTo(s, k), n)[i];
    && (after == before || after == None)
    && (SlotAt(f, i) + f.SlotSize() <= k ==> after == None)
    && (k <= SlotAt(f, i) ==> after == before)
  }

  lemma SlotErasedTame(f: Format, s: seq<byte>, i: nat, n: nat, k: nat)
    requires f.Valid() && i < n && SlotAt(f, n) <= |s| && k <= |s| && f.magic != U32_MAX && TameTable(f, s, n)
    ensures TameAt(f, EraseTo(s, k), i, n) && ErasedAt(f, s, i, n, k)
  {
    hide View, Tame, SlotAt, EraseTo;
    SlotFits(f, i, n, |s|);
    SlotErased(f, s, i, k);
    var b, a, e := SlotBytes(f, s, i), SlotAt(f, i), f.SlotSize();
    assert TameAt(f, s, i, n);
    ErasedSlot(f, b, if k <= a then 0 else if k >= a + e then e else k - a);
    hide SlotBytes;
    assert Table(f, s, n)[i] == ViewAt(f, s, i, n);
    assert Table(f, EraseTo(s, k), n)[i] == ViewAt(f, EraseTo(s, k), i, n);
  }

  lemma ErasedSlot(f: Format, b: seq<byte>, k: nat)
    requires f.Valid() && |b| == f.SlotSize() && k <= |b| && f.magic != U32_MAX && Tame(f, b)
    ensures var t := EraseTo(b, k);
            && Tame(f, t)
            && (View(f, t) == View(f, b) || View(f, t) == None)
            && (k == |b| ==> View(f, t) == None)
            && (k == 0 ==> View(f, t) == View(f, b))
  {
    ErasedTame(f, b, k);
    WhollyErased(f, b);
    assert EraseTo(b, 0) == b;
  }

  lemma WhollyErased(f: Format, b: seq<byte>)
    requires f.Valid() && |b| == f.SlotSize()
    ensures View(f, EraseTo(b, |b|)) == None
  {
  }

  /** On any medium: interrupted erases leave every slot its record or none if and only if the slots are tame. */
  lemma EraseSafeIff(f: Format, s: seq<byte>, n: nat)
    requires f.Valid() && SlotAt(f, n) <= |s| && f.magic != U32_MAX
    ensures EraseSafe(f, s, n) <==> forall k: nat :: k <= |s| ==> OnlyErases(f, s, n, k)
  {
    if EraseSafe(f, s, n) {
      forall k: nat | k <= |s|
        ensures OnlyErases(f, s, n, k)
      {
        TableErased(f, s, n, k);
      }
    } else {
      hide View, SlotAt, Tame, OnlyErases;
      var i: nat :| i < n && !TameAt(f, s, i, n);
      SlotFits(f, i, n, |s|);
      UntameRevives(f, SlotBytes(f, s, i));
      SlotRevived(f, s, n, i, BlankBytes(f));
    }
  }

  lemma SlotRevived(f: Format, s: seq<byte>, n: nat, i: nat, k: nat)
    requires f.Valid() && SlotAt(f, n) <= |s| && i < n && 0 < k <= f.SlotSize()
    requires SlotAt(f, i) + f.SlotSize() <= |s| && View(f, SlotBytes(f, s, i)).None?
    requires View(f, EraseTo(SlotBytes(f, s, i), k)).Some?
    ensures SlotAt(f, i) + k <= |s| && !OnlyErases(f, s, n, SlotAt(f, i) + k)
  {
    hide View, SlotAt;
    var at := SlotAt(f, i) + k;
    SlotErased(f, s, i, at);
    assert Table(f, s, n)[i] == ViewAt(f, s, i, n) == None;
    assert Table(f, EraseTo(s, at), n)[i] == ViewAt(f, EraseTo(s, at), i, n) != None;
  }

  /** A medium whose first slot an erase revives. */
  function SleeperMedium(f: Format, n: nat): (s: seq<byte>)
    requires f.Valid() && n > 0
    ensures |s| == SlotAt(f, n)
  {
    SlotsApart(f, 0, n);
    Sleeper(f) + Repeat(0, SlotAt(f, n) - f.SlotSize())
  }

  /**
   Over all media: interrupted erases leave every slot its record or none if and only if the low byte of the magic
   number is not the erase value.
   */
  lemma EraseHarmlessOnAllIff(f: Format, n: nat)
    requires f.Valid() && n > 0
    ensures (forall s: seq<byte>, k: nat :: SlotAt(f, n) <= |s| && k <= |s| ==> OnlyErases(f, s, n, k)) <==>
            f.magic % 0x100 != 0xFF
  {
    if f.magic % 0x100 != 0xFF {
      forall s: seq<byte>, k: nat | SlotAt(f, n) <= |s| && k <= |s|
        ensures OnlyErases(f, s, n, k)
      {
        TableErased(f, s, n, k);
      }
    } else {
      hide View, Sleeper, OnlyErases;
      SleeperRevives(f);
      SleeperFirst(f, n);
      SlotRevived(f, SleeperMedium(f, n), n, 0, 1);
    }
  }

  lemma SleeperFirst(f: Format, n: nat)
    requires f.Valid() && n > 0
    ensures f.SlotSize() <= SlotAt(f, n) && SlotBytes(f, SleeperMedium(f, n), 0) == Sleeper(f)
  {
    hide Sleeper;
    SlotsApart(f, 0, n);
  }

  /** Erased completely, the table is empty. */
  lemma TableBlank(f: Format, s: seq<byte>, n: nat)
    requires f.Valid() && SlotAt(f, n) <= |s| && (forall i :: 0 <= i < |s| ==> s[i] == 0xFF)
    ensures forall i :: 0 <= i < n ==> Table(f, s, n)[i] == None
    ensures TameTable(f, s, n)
  {
    forall i: nat | i < n
      ensures ViewAt(f, s, i, n) == None && TameAt(f, s, i, n)
    {
      SlotFits(f, i, n, |s|);
      UncommittedTame(f, SlotBytes(f, s, i));
    }
  }

  /** Appends and saves, finished or cut short, keep every slot tame. */
  lemma ScriptKeepsTame(f: Format, s: seq<byte>, s': seq<byte>, i: nat, n: nat)
    requires f.Valid() && i < n && SlotAt(f, n) <= |s| && TameTable(f, s, n)
    requires SlotAt(f, i) + f.SlotSize() <= |s|
    requires SameOutside(s, s', SlotAt(f, i), SlotAt(f, i) + f.SlotSize())
    requires Tame(f, SlotBytes(f, s', i))
    ensures TameTable(f, s', n)
  {
    forall j: nat | j < n
      ensures TameAt(f, s', j, n)
    {
      if j != i {
        assert TameAt(f, s, j, n);
        OtherSlotSame(f, s, s', i, j, n);
      }
    }
  }
}
