/**
 The crash model. An operation is a script of writes. A power cut (or a failing write) stops the script at one
 write, of which only a proper prefix reaches the medium: so a one-byte commit write is atomic, and a cut after a
 write has fully landed is a cut at the start of the next one.
 */
module Crash {
  import opened Bytes

  datatype Write = Write(off: nat, data: seq<byte>)

  datatype Cut = Cut(index: nat, landed: nat)

  /** Every write of the script is nonempty and lies in `[lo, hi)`. */
  ghost predicate Within(ws: seq<Write>, lo: nat, hi: nat) {
    forall i :: 0 <= i < |ws| ==> ws[i].data != [] && lo <= ws[i].off && ws[i].off + |ws[i].data| <= hi
  }

  ghost predicate IsCut(ws: seq<Write>, c: Cut) {
    c.index < |ws| && c.landed < |ws[c.index].data|
  }

  ghost predicate Fits(s: seq<byte>, w: Write) {
    w.off + |w.data| <= |s|
  }

  ghost function Land(s: seq<byte>, w: Write): (r: seq<byte>)
    requires Fits(s, w)
  {
    Splice(s, w.off, w.data)
  }

  /** The medium after the first `n` writes of the script. */
  ghost function LandUpTo(s: seq<byte>, ws: seq<Write>, n: nat): (r: seq<byte>)
    requires Within(ws, 0, |s|) && n <= |ws|
    ensures |r| == |s|
  {
    if n == 0 then s else Land(LandUpTo(s, ws, n - 1), ws[n - 1])
  }

  /** The medium after the whole script. */
  ghost function LandAll(s: seq<byte>, ws: seq<Write>): (r: seq<byte>)
    requires Within(ws, 0, |s|)
    ensures |r| == |s|
  {
    LandUpTo(s, ws, |ws|)
  }

  /** The medium after the script was stopped by `c`. */
  ghost function Torn(s: seq<byte>, ws: seq<Write>, c: Cut): (r: seq<byte>)
    requires Within(ws, 0, |s|) && IsCut(ws, c)
    ensures |r| == |s|
  {
    Land(LandUpTo(s, ws, c.index), Write(ws[c.index].off, ws[c.index].data[..c.landed]))
  }

  lemma {:induction false} LandOutside(s: seq<byte>, ws: seq<Write>, n: nat, lo: nat, hi: nat)
    requires Within(ws, lo, hi) && hi <= |s| && n <= |ws|
    ensures forall i :: 0 <= i < |s| && !(lo <= i < hi) ==> LandUpTo(s, ws, n)[i] == s[i]
  {
    if n == 0 {
    } else {
      LandOutside(s, ws, n - 1, lo, hi);
    }
  }

  /** A script, finished or stopped anywhere, changes only the range its writes lie in. */
  lemma TornOutside(s: seq<byte>, ws: seq<Write>, c: Cut, lo: nat, hi: nat)
    requires Within(ws, lo, hi) && hi <= |s| && IsCut(ws, c)
    ensures forall i :: 0 <= i < |s| && !(lo <= i < hi) ==> Torn(s, ws, c)[i] == s[i]
  {
    LandOutside(s, ws, c.index, lo, hi);
  }

  function Shift(ws: seq<Write>, base: nat): (r: seq<Write>)
    ensures |r| == |ws|
    ensures forall n: nat :: Within(ws, 0, n) ==> Within(r, base, base + n)
    ensures forall i :: 0 <= i < |ws| ==> r[i] == Write(base + ws[i].off, ws[i].data)
  {
    seq(|ws|, i requires 0 <= i < |ws| => Write(base + ws[i].off, ws[i].data))
  }

  /** A script moved to `base` does to the range `[base, base + m)` what the script does to those `m` bytes alone. */
  lemma {:induction false} LandShifted(s: seq<byte>, ws: seq<Write>, n: nat, base: nat, m: nat)
    requires base + m <= |s| && Within(ws, 0, m) && n <= |ws|
    ensures LandUpTo(s, Shift(ws, base), n)[base..base + m] == LandUpTo(s[base..base + m], ws, n)
  {
    if n == 0 {
    } else {
      LandShifted(s, ws, n - 1, base, m);
      ShiftedStep(s, ws, n, base, m, LandUpTo(s, Shift(ws, base), n - 1), LandUpTo(s[base..base + m], ws, n - 1));
    }
  }

  lemma ShiftedStep(s: seq<byte>, ws: seq<Write>, n: nat, base: nat, m: nat, x: seq<byte>, y: seq<byte>)
    requires base + m <= |s| && Within(ws, 0, m) && 0 < n <= |ws|
    requires x == LandUpTo(s, Shift(ws, base), n - 1) && y == LandUpTo(s[base..base + m], ws, n - 1)
    requires x[base..base + m] == y
    ensures LandUpTo(s, Shift(ws, base), n)[base..base + m] == LandUpTo(s[base..base + m], ws, n)
  {
    var w := ws[n - 1];
    SpliceWindow(x, base, m, w.off, w.data);
    assert LandUpTo(s, Shift(ws, base), n) == Splice(x, base + w.off, w.data);
    assert LandUpTo(s[base..base + m], ws, n) == Splice(y, w.off, w.data);
  }

  lemma TornShifted(s: seq<byte>, ws: seq<Write>, c: Cut, base: nat, m: nat)
    requires base + m <= |s| && Within(ws, 0, m) && IsCut(ws, c)
    ensures Torn(s, Shift(ws, base), c)[base..base + m] == Torn(s[base..base + m], ws, c)
  {
    LandShifted(s, ws, c.index, base, m);
    var w := ws[c.index];
    SpliceWindow(LandUpTo(s, Shift(ws, base), c.index), base, m, w.off, w.data[..c.landed]);
  }

  ghost predicate SameOutside(s: seq<byte>, s': seq<byte>, lo: nat, hi: nat) {
    |s'| == |s| && forall k :: 0 <= k < |s| && !(lo <= k < hi) ==> s'[k] == s[k]
  }

  /** What a finished script at `base` comes to: its own effect on its window, nothing elsewhere. */
  lemma DoneInWindow(s: seq<byte>, ws: seq<Write>, base: nat, m: nat)
    requires base + m <= |s| && Within(ws, 0, m)
    ensures var s' := LandAll(s, Shift(ws, base));
            SameOutside(s, s', base, base + m) && s'[base..base + m] == LandAll(s[base..base + m], ws)
  {
    LandOutside(s, Shift(ws, base), |ws|, base, base + m);
    LandShifted(s, ws, |ws|, base, m);
  }

  lemma TornInWindow(s: seq<byte>, ws: seq<Write>, c: Cut, base: nat, m: nat)
    requires base + m <= |s| && Within(ws, 0, m) && IsCut(ws, c)
    ensures var s' := Torn(s, Shift(ws, base), c);
            SameOutside(s, s', base, base + m) && s'[base..base + m] == Torn(s[base..base + m], ws, c)
  {
    TornOutside(s, Shift(ws, base), c, base, base + m);
    TornShifted(s, ws, c, base, m);
  }

  lemma SameWindow(s: seq<byte>, s': seq<byte>, lo: nat, hi: nat)
    requires lo <= hi <= |s| && SameOutside(s, s', lo, hi) && s'[lo..hi] == s[lo..hi]
    ensures s' == s
  {
    forall k | 0 <= k < |s|
      ensures s'[k] == s[k]
    {
      if lo <= k < hi {
        assert s'[lo..hi][k - lo] == s[lo..hi][k - lo];
      }
    }
  }
}
