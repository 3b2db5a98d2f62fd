/** Choosing the newest of a row of slots: the scan with which both the ring and the versioned slots recover. */
module Newest {
  import opened Bytes
  import opened Slots

  type Views = seq<Option<Entry>>

  /** `slot` is the first slot that holds the largest valid number. */
  ghost predicate FirstMax(v: Views, slot: nat) {
    && slot < |v| && v[slot].Some?
    && (forall j :: 0 <= j < |v| && v[j].Some? ==> v[j].value.counter <= v[slot].value.counter)
    && (forall j :: 0 <= j < slot && v[j].Some? ==> v[j].value.counter < v[slot].value.counter)
  }

  ghost predicate NoneValid(v: Views) {
    forall j :: 0 <= j < |v| ==> v[j].None?
  }

  /** No valid number has reached 2^32 - 1. */
  ghost predicate NoWrap(v: Views) {
    forall j :: 0 <= j < |v| && v[j].Some? ==> v[j].value.counter < U32_MAX
  }

  /** The slot the scan of the first `n` slots has chosen: the first with the largest valid number so far. */
  ghost function Best(v: Views, n: nat): (best: Option<nat>)
    requires n <= |v|
    ensures best.None? ==> forall j :: 0 <= j < n ==> v[j].None?
    ensures best.Some? ==> FirstMax(v[..n], best.value)
  {
    if n == 0 then None
    else
      var b := Best(v, n - 1);
      if v[n - 1].Some? && (b.None? || v[n - 1].value.counter > v[b.value].value.counter) then Some(n - 1) else b
  }
}
