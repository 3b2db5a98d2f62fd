/**
 The ring log as a function of its slots: what recovery computes from the medium, the invariant that ties the RAM
 indices to the slots, and what an append does to both. Slots are seen through `Slots.View`.
 */
module RingLog {
  import opened Bytes
  import opened Slots
  import opened Newest

  /** The indices kept in RAM. */
  datatype Ram = Ram(head: nat, tail: nat, headSeq: u32, count: nat)

  const EMPTY := Ram(0, 0, 0, 0)

  /** The slot `k` places behind `h` on a circle of `c` slots. */
  function Back(c: nat, h: nat, k: nat): (slot: nat)
    requires h < c && k <= c
    ensures slot < c
  {
    if k <= h then h - k else h + c - k
  }

  function Next(c: nat, h: nat): (slot: nat)
    requires h < c
    ensures slot < c
  {
    if h + 1 == c then 0 else h + 1
  }

  // ------------------------------------------------------------ what recovery must compute

  ghost predicate Holds(v: Views, slot: nat, n: int) {
    slot < |v| && v[slot].Some? && v[slot].value.counter == n
  }

  /** `n` is the length of the longest run of slots that ends at `slot` and descends by one at each step back. */
  ghost predicate MaximalRun(v: Views, slot: nat, n: nat) {
    && slot < |v| && v[slot].Some? && 1 <= n <= |v|
    && (forall k :: 0 <= k < n ==> Holds(v, Back(|v|, slot, k), v[slot].value.counter - k))
    && (n < |v| ==> !Holds(v, Back(|v|, slot, n), v[slot].value.counter - n))
  }

  /** The indices are those recovery must find on these slots, however they came about. */
  ghost predicate Recovered(v: Views, r: Ram) {
    if NoneValid(v) then r == EMPTY
    else
      && r.head < |v| && 1 <= r.count <= |v|
      && var newest := Back(|v|, r.head, 1);
         && FirstMax(v, newest)
         && MaximalRun(v, newest, r.count)
         && r.headSeq == Inc32(v[newest].value.counter)
         && r.tail == Back(|v|, r.head, r.count)
  }

  lemma RecoveredUnique(v: Views, r: Ram, r': Ram)
    requires |v| > 0 && Recovered(v, r) && Recovered(v, r')
    ensures r == r'
  {
    if !NoneValid(v) {
      var m, m' := Back(|v|, r.head, 1), Back(|v|, r'.head, 1);
      assert m == m';
    }
  }

  // ------------------------------------------------------------ recovery, as a computation

  /** The number of slots, among the `room` slots at and behind `slot`, that continue a run whose next number is `n`. */
  ghost function RunLength(v: Views, slot: nat, n: int, room: nat): (len: nat)
    requires slot < |v|
    ensures len <= room
    decreases room
  {
    if room == 0 || !Holds(v, slot, n) then 0
    else 1 + RunLength(v, Back(|v|, slot, 1), n - 1, room - 1)
  }

  ghost function Recover(v: Views): (r: Ram)
    requires |v| > 0
    ensures Recovered(v, r)
  {
    var b := Best(v, |v|);
    if b.None? then EMPTY
    else
      assert v[..|v|] == v;
      var m := b.value;
      var n := RunLength(v, m, v[m].value.counter, |v|);
      RunLengthMaximal(v, m, v[m].value.counter, |v|);
      var h := Next(|v|, m);
      Ram(h, Back(|v|, h, n), Inc32(v[m].value.counter), n)
  }

  lemma {:induction false} RunLengthMaximal(v: Views, slot: nat, n: int, room: nat)
    requires slot < |v| && room <= |v|
    ensures var len := RunLength(v, slot, n, room);
            && (forall k :: 0 <= k < len ==> Holds(v, Back(|v|, slot, k), n - k))
            && (len < room ==> !Holds(v, Back(|v|, slot, len), n - len))
    decreases room
  {
    var len := RunLength(v, slot, n, room);
    if len == 0 {
    } else {
      var behind := Back(|v|, slot, 1);
      RunLengthMaximal(v, behind, n - 1, room - 1);
      assert forall k :: 0 <= k < room ==> Back(|v|, behind, k) == Back(|v|, slot, k + 1);
      forall k | 0 <= k < len
        ensures Holds(v, Back(|v|, slot, k), n - k)
      {
        if k > 0 {
          assert Holds(v, Back(|v|, behind, k - 1), n - 1 - (k - 1));
        }
      }
    }
  }

  /** Recovery is determined by the declarative reading, and meets it. */
  lemma RecoverExactly(v: Views, r: Ram)
    requires |v| > 0
    ensures Recovered(v, r) <==> r == Recover(v)
  {
    if Recovered(v, r) {
      RecoveredUnique(v, r, Recover(v));
    }
  }

  // ------------------------------------------------------------ the log and the invariant

  /** The records in the `n` slots behind `h`, the farthest first. */
  ghost function Collect(v: Views, h: nat, n: nat): (log: seq<Entry>)
    requires h < |v| && n <= |v|
    ensures |log| == n
    ensures forall i :: 0 <= i < n && v[Back(|v|, h, n - i)].Some? ==> log[i] == v[Back(|v|, h, n - i)].value
  {
    seq(n, i requires 0 <= i < n =>
      var o := v[Back(|v|, h, n - i)]; if o.Some? then o.value else Entry(0, 0, []))
  }

  /** The records the medium holds, oldest first: what a reboot brings back. */
  ghost function Log(v: Views): (log: seq<Entry>)
    requires |v| > 0
  {
    Collect(v, Recover(v).head, Recover(v).count)
  }

  /**
   RAM describes the medium, except that a full log may count its oldest record although the slot, which is the one
   the next append takes, has been un-committed by an append that failed.
   */
  ghost predicate Hole(v: Views, r: Ram) {
    && r.count == |v| && r.head < |v| && v[r.head].None? && r.headSeq >= |v|
    && Recovered(v[r.head := Some(Entry(r.headSeq - |v|, 0, []))], r)
  }

  ghost predicate Inv(v: Views, r: Ram) {
    && |v| > 0 && NoWrap(v)
    && (Recovered(v, r) || Hole(v, r))
  }

  /** The indices after an append that succeeded. */
  function Advance(c: nat, r: Ram): Ram
    requires r.head < c && r.tail < c
  {
    Ram(Next(c, r.head), if r.count < c then r.tail else Next(c, r.tail), Inc32(r.headSeq),
        if r.count < c then r.count + 1 else r.count)
  }

  lemma BackFacts(c: nat, h: nat)
    requires h < c
    ensures Back(c, Next(c, h), 1) == h
    ensures forall k :: 0 <= k < c ==> Back(c, h, k + 1) == Back(c, Back(c, h, 1), k)
    ensures forall k :: 0 <= k < c ==> Back(c, Next(c, h), k + 1) == Back(c, h, k)
    ensures forall k :: 1 <= k < c ==> Back(c, h, k) != h
    ensures Back(c, h, c) == h
  {
  }

  /** What `Recovered` says on a nonempty log, counted back from the head. */
  ghost predicate Trail(v: Views, r: Ram) {
    && r.head < |v| && 1 <= r.count <= |v| && 1 <= r.headSeq
    && (forall k :: 1 <= k <= r.count ==> Holds(v, Back(|v|, r.head, k), r.headSeq - k))
    && (r.count < |v| ==> !Holds(v, Back(|v|, r.head, r.count + 1), r.headSeq - r.count - 1))
    && FirstMax(v, Back(|v|, r.head, 1))
    && r.tail == Back(|v|, r.head, r.count)
  }

  lemma TrailIsRecovered(v: Views, r: Ram)
    requires |v| > 0 && NoWrap(v) && !NoneValid(v)
    ensures Recovered(v, r) <==> Trail(v, r)
  {
    if r.head < |v| {
      BackFacts(|v|, r.head);
      var m := Back(|v|, r.head, 1);
      if Recovered(v, r) {
        forall k | 1 <= k <= r.count
          ensures Holds(v, Back(|v|, r.head, k), r.headSeq - k)
        {
          assert Holds(v, Back(|v|, m, k - 1), v[m].value.counter - (k - 1));
        }
      }
      if Trail(v, r) {
        assert Holds(v, Back(|v|, r.head, 1), r.headSeq - 1);
        forall k | 0 <= k < r.count
          ensures Holds(v, Back(|v|, m, k), v[m].value.counter - k)
        {
          assert Holds(v, Back(|v|, r.head, k + 1), r.headSeq - (k + 1));
        }
      }
    }
  }

  lemma RecoverTrail(v: Views, r: Ram)
    requires Trail(v, r) && NoWrap(v)
    ensures Recover(v) == r && Log(v) == Collect(v, r.head, r.count)
  {
    assert Holds(v, Back(|v|, r.head, 1), r.headSeq - 1);
    TrailIsRecovered(v, r);
    RecoverExactly(v, r);
  }

  /** A log with a hole reboots to the log without its oldest record; of capacity one, to the empty log. */
  lemma HoleReboots(v: Views, r: Ram)
    requires Inv(v, r) && Hole(v, r)
    ensures if |v| == 1 then NoneValid(v) && Recover(v) == EMPTY
            else Trail(v, Ram(r.head, Next(|v|, r.tail), r.headSeq, r.count - 1))
  {
    if |v| == 1 {
      RecoverExactly(v, EMPTY);
    } else {
      var filled := v[r.head := Some(Entry(r.headSeq - |v|, 0, []))];
      var r' := Ram(r.head, Next(|v|, r.tail), r.headSeq, r.count - 1);
      assert filled[r.head].Some?;
      TrailIsRecovered(filled, r);
      BackFacts(|v|, r.head);
      forall k | 1 <= k <= r'.count
        ensures Holds(v, Back(|v|, r.head, k), r.headSeq - k)
      {
        assert Holds(filled, Back(|v|, r.head, k), r.headSeq - k);
      }
      var m := Back(|v|, r.head, 1);
      assert forall j :: 0 <= j < |v| && v[j].Some? ==> filled[j] == v[j];
      assert FirstMax(v, m);
    }
  }

  /** The invariant read off the slots alone: `n` consecutive records behind the head, and nothing newer anywhere. */
  ghost predicate Shape(v: Views, r: Ram, n: nat) {
    && r.head < |v| && n <= |v| && (n == 0 ==> NoneValid(v))
    && (forall k :: 1 <= k <= n ==> Holds(v, Back(|v|, r.head, k), r.headSeq - k))
    && (n < |v| ==> !Holds(v, Back(|v|, r.head, n + 1), r.headSeq - n - 1))
    && (forall j :: 0 <= j < |v| && v[j].Some? ==> v[j].value.counter < r.headSeq)
    && r.count <= |v| && r.tail == Back(|v|, r.head, r.count)
    && (r.count == n || (r.count == n + 1 == |v| && v[r.head].None?))
  }

  lemma TrailShape(v: Views, r: Ram)
    requires Trail(v, r) && NoWrap(v)
    ensures Shape(v, r, r.count)
  {
    assert Holds(v, Back(|v|, r.head, 1), r.headSeq - 1);
  }

  lemma InvShape(v: Views, r: Ram)
    requires Inv(v, r)
    ensures Shape(v, r, |Log(v)|)
    ensures Log(v) == Collect(v, r.head, |Log(v)|)
  {
    if Hole(v, r) {
      HoleReboots(v, r);
      if |v| > 1 {
        var r' := Ram(r.head, Next(|v|, r.tail), r.headSeq, r.count - 1);
        RecoverTrail(v, r');
        TrailShape(v, r');
      }
    } else if NoneValid(v) {
      RecoverExactly(v, r);
    } else {
      TrailIsRecovered(v, r);
      RecoverTrail(v, r);
      TrailShape(v, r);
    }
  }

  function Push(log: seq<Entry>, e: Entry, capacity: nat): seq<Entry>
    requires capacity > 0
  {
    (if |log| < capacity then log else log[1..]) + [e]
  }

  /** An append that succeeds closes any hole and pushes its record: from here on RAM is what recovery would compute. */
  lemma AppendDone(v: Views, r: Ram, e: Entry)
    requires Inv(v, r) && e.counter == r.headSeq < U32_MAX
    ensures r.tail < |v| && r.head < |v|
    ensures var v' := v[r.head := Some(e)];
            && Trail(v', Advance(|v|, r)) && NoWrap(v')
            && Log(v') == Push(Log(v), e, |v|)
  {
    InvShape(v, r);
    var n := |Log(v)|;
    AdvanceTrail(v, r, e, n);
    RecoverTrail(v[r.head := Some(e)], Advance(|v|, r));
    forall k | 1 <= k <= n
      ensures v[Back(|v|, r.head, k)].Some?
    {
      assert Holds(v, Back(|v|, r.head, k), r.headSeq - k);
    }
    CollectPush(v, r.head, n, e);
  }

  lemma CollectPush(v: Views, h: nat, n: nat, e: Entry)
    requires h < |v| && n <= |v|
    requires forall k :: 1 <= k <= n ==> v[Back(|v|, h, k)].Some?
    ensures var n' := if n < |v| then n + 1 else n;
            Collect(v[h := Some(e)], Next(|v|, h), n') == Push(Collect(v, h, n), e, |v|)
  {
    var n' := if n < |v| then n + 1 else n;
    var v' := v[h := Some(e)];
    var log', pushed := Collect(v', Next(|v|, h), n'), Push(Collect(v, h, n), e, |v|);
    BackFacts(|v|, h);
    forall i | 0 <= i < n'
      ensures log'[i] == pushed[i]
    {
      if n' - i > 1 {
        assert Back(|v|, Next(|v|, h), n' - i) == Back(|v|, h, n' - i - 1);
      }
    }
  }

  lemma AdvanceTrail(v: Views, r: Ram, e: Entry, n: nat)
    requires Shape(v, r, n) && e.counter == r.headSeq < U32_MAX
    ensures var v', r' := v[r.head := Some(e)], Advance(|v|, r);
            Trail(v', r') && r'.count == (if n < |v| then n + 1 else n)
  {
    var c, h := |v|, r.head;
    var v', r' := v[h := Some(e)], Advance(c, r);
    BackFacts(c, h);
    forall k | 1 <= k <= r'.count
      ensures Holds(v', Back(c, r'.head, k), r'.headSeq - k)
    {
      if k > 1 {
        assert Back(c, r'.head, k) == Back(c, h, k - 1);
        assert Holds(v, Back(c, h, k - 1), r.headSeq - (k - 1));
      }
    }
    if r'.count < c {
      assert Back(c, r'.head, r'.count + 1) == Back(c, h, n + 1);
    }
  }

  /** An append that fails after its first write leaves the invariant, and costs a full log its oldest record. */
  lemma AppendTorn(v: Views, r: Ram)
    requires Inv(v, r)
    ensures r.head < |v|
    ensures var v' := v[r.head := None];
            && Inv(v', r)
            && Log(v') == if |Log(v)| == |v| then Log(v)[1..] else Log(v)
  {
    InvShape(v, r);
    var v' := v[r.head := None];
    if Hole(v, r) {
      assert v' == v;
      HoleReboots(v, r);
      if |v| > 1 {
        RecoverTrail(v, Ram(r.head, Next(|v|, r.tail), r.headSeq, r.count - 1));
      }
    } else if NoneValid(v) {
      assert v' == v;
      RecoverExactly(v, r);
    } else if r.count == |v| {
      TrailIsRecovered(v, r);
      TornFull(v, r);
    } else {
      TrailIsRecovered(v, r);
      TornPartial(v, r);
    }
  }

  lemma TornPartial(v: Views, r: Ram)
    requires Inv(v, r) && Trail(v, r) && r.count < |v|
    ensures var v' := v[r.head := None];
            Inv(v', r) && |Log(v)| < |v| && Log(v') == Log(v)
  {
    var c, h := |v|, r.head;
    var v' := v[h := None];
    BackFacts(c, h);
    forall k | 1 <= k <= r.count
      ensures Holds(v', Back(c, h, k), r.headSeq - k)
    {
      assert Holds(v, Back(c, h, k), r.headSeq - k);
    }
    assert Trail(v', r);
    TrailIsRecovered(v', r);
    RecoverTrail(v', r);
    RecoverTrail(v, r);
    SameCollect(v, v', h, r.count);
  }

  lemma SameCollect(v: Views, v': Views, h: nat, n: nat)
    requires h < |v| == |v'| && n < |v| && v' == v[h := None]
    ensures Collect(v', h, n) == Collect(v, h, n)
  {
    BackFacts(|v|, h);
    assert forall k :: 1 <= k <= n ==> v'[Back(|v|, h, k)] == v[Back(|v|, h, k)];
  }

  lemma TornFull(v: Views, r: Ram)
    requires Inv(v, r) && Trail(v, r) && r.count == |v|
    ensures var v' := v[r.head := None];
            Hole(v', r) && Inv(v', r) && |Log(v)| == |v| && Log(v') == Log(v)[1..]
  {
    hide FirstMax, MaximalRun, Recover;
    var c, h := |v|, r.head;
    var v' := v[h := None];
    OpenHole(v, r);
    HoleReboots(v', r);
    RecoverTrail(v, r);
    if c > 1 {
      RecoverTrail(v', Ram(h, Next(c, r.tail), r.headSeq, c - 1));
      SameCollect(v, v', h, c - 1);
      assert Collect(v, h, c)[1..] == Collect(v, h, c - 1);
    }
  }

  lemma OpenHole(v: Views, r: Ram)
    requires Inv(v, r) && Trail(v, r) && r.count == |v|
    ensures var v' := v[r.head := None]; Hole(v', r) && Inv(v', r)
  {
    var c, h := |v|, r.head;
    BackFacts(c, h);
    assert Holds(v, Back(c, h, c), r.headSeq - c);
    var filled := v[h := Some(Entry(r.headSeq - c, 0, []))];
    assert v[h := None][h := filled[h]] == filled;
    forall k | 1 <= k <= c
      ensures Holds(filled, Back(c, h, k), r.headSeq - k)
    {
      assert Holds(v, Back(c, h, k), r.headSeq - k);
    }
    assert FirstMax(filled, Back(c, h, 1));
    TrailIsRecovered(filled, r);
  }

  /** Recovery never runs ahead of the records: it numbers the next append no higher than `q` if all are below `q`. */
  lemma RecoverBelow(v: Views, q: u32)
    requires |v| > 0 && forall j :: 0 <= j < |v| && v[j].Some? ==> v[j].value.counter < q
    ensures Recover(v).headSeq <= q
  {
    if !NoneValid(v) {
      var newest := Back(|v|, Recover(v).head, 1);
      assert v[newest].value.counter < q;
    }
  }

  /** The recovered log is numbered without a gap, up to the number before the head's, and lies on the medium. */
  lemma LogNumbers(v: Views)
    requires |v| > 0 && NoWrap(v)
    ensures forall i :: 0 <= i < |Log(v)| ==>
              && Log(v)[i].counter == Recover(v).headSeq - |Log(v)| + i
              && exists j :: 0 <= j < |v| && v[j] == Some(Log(v)[i])
  {
    var r, log := Recover(v), Log(v);
    if !NoneValid(v) {
      TrailIsRecovered(v, r);
      forall i | 0 <= i < |log|
        ensures log[i].counter == r.headSeq - |log| + i && exists j :: 0 <= j < |v| && v[j] == Some(log[i])
      {
        var slot := Back(|v|, r.head, |log| - i);
        assert Holds(v, slot, r.headSeq - (|log| - i));
        assert v[slot] == Some(log[i]);
      }
    }
  }

  // ------------------------------------------------------------ no record outside the log

  /** Every valid slot belongs to the log. */
  ghost predicate NoStray(v: Views)
    requires |v| > 0
  {
    forall j :: 0 <= j < |v| && v[j].Some? ==> v[j].value in Log(v)
  }

  lemma OldestAtHead(v: Views, r: Ram, j: nat)
    requires Inv(v, r) && |Log(v)| == |v| && j < |v| && j != r.head && v[j].Some?
    ensures v[j].value != Log(v)[0]
  {
    InvShape(v, r);
    var c, h := |v|, r.head;
    BackFacts(c, h);
    var k := if j < h then h - j else h + c - j;
    assert Holds(v, Back(c, h, k), r.headSeq - k);
    assert Holds(v, Back(c, h, c), r.headSeq - c);
  }

  /** A record outside the head slot is not the one a full log gives up. */
  lemma KeptByPush(v: Views, r: Ram, j: nat)
    requires Inv(v, r) && NoStray(v) && j < |v| && j != r.head && v[j].Some?
    ensures v[j].value in (if |Log(v)| == |v| then Log(v)[1..] else Log(v))
  {
    var log := Log(v);
    assert v[j].value in log;
    if |log| == |v| {
      OldestAtHead(v, r, j);
      hide Log, Inv, NoStray;
      assert log == [log[0]] + log[1..];
    }
  }

  lemma NoStrayAppended(v: Views, r: Ram, e: Entry)
    requires Inv(v, r) && NoStray(v) && e.counter == r.headSeq < U32_MAX
    ensures r.head < |v| && NoStray(v[r.head := Some(e)])
  {
    AppendDone(v, r, e);
    var v' := v[r.head := Some(e)];
    assert Log(v')[|Log(v')| - 1] == e;
    forall j | 0 <= j < |v| && v'[j].Some?
      ensures v'[j].value in Log(v')
    {
      if j != r.head {
        KeptByPush(v, r, j);
      }
    }
  }

  lemma NoStrayTorn(v: Views, r: Ram)
    requires Inv(v, r) && NoStray(v)
    ensures r.head < |v| && NoStray(v[r.head := None])
  {
    AppendTorn(v, r);
    forall j | 0 <= j < |v| && v[r.head := None][j].Some?
      ensures v[j].value in Log(v[r.head := None])
    {
      KeptByPush(v, r, j);
    }
  }

  ghost predicate PieceAt(piece: seq<Entry>, log: seq<Entry>, a: nat) {
    a + |piece| <= |log| && piece == log[a..a + |piece|]
  }

  /** `piece` is a contiguous piece of `log`. */
  ghost predicate IsPiece(piece: seq<Entry>, log: seq<Entry>) {
    exists a: nat :: PieceAt(piece, log, a)
  }

  /** If records vanish but none appears, the log that is left is one contiguous piece of the log there was. */
  lemma SegmentSurvives(v: Views, v': Views)
    requires |v| == |v'| > 0 && NoWrap(v) && NoStray(v)
    requires forall j :: 0 <= j < |v| ==> v'[j] == v[j] || v'[j] == None
    ensures IsPiece(Log(v'), Log(v))
  {
    LogNumbers(v);
    LogNumbers(v');
    forall i | 0 <= i < |Log(v')|
      ensures Log(v')[i] in Log(v)
    {
      var j :| 0 <= j < |v'| && v'[j] == Some(Log(v')[i]);
      assert v[j].value in Log(v);
    }
    PieceOfNumbered(Log(v'), Log(v), Recover(v').headSeq - |Log(v')|, Recover(v).headSeq - |Log(v)|);
  }

  lemma PieceOfNumbered(piece: seq<Entry>, log: seq<Entry>, p: int, q: int)
    requires forall i :: 0 <= i < |piece| ==> piece[i].counter == p + i && piece[i] in log
    requires forall i :: 0 <= i < |log| ==> log[i].counter == q + i
    ensures IsPiece(piece, log)
  {
    if piece == [] {
      assert PieceAt(piece, log, 0);
    } else {
      forall i | 0 <= i < |piece|
        ensures 0 <= p - q + i < |log| && log[p - q + i] == piece[i]
      {
        var b :| 0 <= b < |log| && log[b] == piece[i];
        assert b == p - q + i;
      }
      assert piece[0].counter == p && piece[|piece| - 1].counter == p + |piece| - 1;
      assert PieceAt(piece, log, p - q);
    }
  }
}
