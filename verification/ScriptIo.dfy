/** One partition write, seen as the next write of a script. */
module ScriptIo {
  import opened Bytes
  import opened Crash
  import opened Device
  import opened Partition

  method WriteNext(pm: Pm, p: Part, off: nat, data: seq<byte>,
                   ghost before: seq<byte>, ghost ws: seq<Write>, ghost i: nat)
    returns (err: Err, ghost cut: Cut)
    requires pm.Owns(p) && |before| == p.size && Within(ws, 0, p.size)
    requires i < |ws| && ws[i] == Write(off, data) && pm.Bytes(p) == LandUpTo(before, ws, i)
    modifies pm.dev.hal`opCount, pm.dev.hal.buffer
    ensures err == OK ==> pm.Bytes(p) == LandUpTo(before, ws, i + 1)
    ensures err != OK ==> cut.index == i && IsCut(ws, cut) && pm.Bytes(p) == Torn(before, ws, cut)
    ensures err != NO_MEM
    ensures SameOutside(old(pm.dev.hal.Mem()), pm.dev.hal.Mem(), p.offset, p.End())
    ensures !pm.initialized || p.flags % 2 == 1 ==> pm.dev.hal.Mem() == old(pm.dev.hal.Mem())
    ensures err == pm.WriteResult(p)
    ensures pm.dev.hal.opCount >= old(pm.dev.hal.opCount)
  {
    ghost var landed;
    err, landed := pm.Write(p, off, data);
    cut := Cut(i, landed);
    assert err == OK ==> data[..landed] == data;
  }

  lemma WithinPart(ws: seq<Write>, lo: nat, hi: nat, size: nat)
    requires Within(ws, lo, hi) && hi <= size
    ensures Within(ws, 0, size)
  {
  }

  lemma LandNone(s: seq<byte>, ws: seq<Write>)
    requires Within(ws, 0, |s|)
    ensures LandUpTo(s, ws, 0) == s
  {
  }
}
