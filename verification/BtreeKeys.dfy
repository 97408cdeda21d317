/**
  Keys of a heapkeyspace B-tree and the comparisons amcheck makes with them.  A key is a
  list of attribute values followed by a heap TID; suffix truncation drops attributes from
  the end, and what is missing counts as minus infinity.
 */
module BtreeKeys {
  import opened Optional
  import opened Sequences

  datatype Key = Key(attrs: seq<int>, tid: Option<int>)

  /** Only a key with all n attributes can carry a heap TID. */
  predicate WellFormed(k: Key, n: nat) {
    |k.attrs| <= n && (k.tid.Some? ==> |k.attrs| == n)
  }

  predicate TidLess(x: Option<int>, y: Option<int>) {
    y.Some? && (x.None? || x.value < y.value)
  }

  /** Lexicographic, with missing attributes and a missing TID below everything. */
  predicate Less(a: Key, b: Key) {
    var n := Parting(a.attrs, b.attrs, 0);
    if n < |a.attrs| && n < |b.attrs| then a.attrs[n] < b.attrs[n]
    else if |a.attrs| != |b.attrs| then |a.attrs| < |b.attrs|
    else TidLess(a.tid, b.tid)
  }

  lemma LessTransitive(a: Key, b: Key, c: Key)
    requires Less(a, b) && Less(b, c)
    ensures Less(a, c)
  {
    PartingSplits(a.attrs, b.attrs, 0);
    PartingSplits(b.attrs, c.attrs, 0);
    var m, n := Parting(a.attrs, b.attrs, 0), Parting(b.attrs, c.attrs, 0);
    PartsAt(a.attrs, c.attrs, if m < n then m else n);
  }

  lemma LessTotal(a: Key, b: Key)
    ensures Less(a, b) || Less(b, a) || a == b
  {
    PartingSplits(a.attrs, b.attrs, 0);
    PartsAt(b.attrs, a.attrs, Parting(a.attrs, b.attrs, 0));
  }

  // ---------- The comparisons of verify_nbtree.c ----------

  /** _bt_compare of a pivotsearch insertion scankey with an item other than minus infinity. */
  function BtCompare(key: Key, itup: Key): int {
    var n := Parting(key.attrs, itup.attrs, 0);
    if n < |key.attrs| && n < |itup.attrs| then
      if key.attrs[n] < itup.attrs[n] then -1 else 1
    else if |key.attrs| > |itup.attrs| then 1
    else if key.tid.None? then 0
    else if itup.tid.None? then 1
    else if key.tid.value < itup.tid.value then -1
    else if key.tid.value > itup.tid.value then 1
    else 0
  }

  /** invariant_l_offset and invariant_l_nontarget_offset. */
  predicate InvariantL(key: Key, itup: Key) {
    var cmp := BtCompare(key, itup);
    if cmp == 0 then
      if |key.attrs| == |itup.attrs| then key.tid.None? && itup.tid.Some?
      else |key.attrs| < |itup.attrs|
    else cmp < 0
  }

  /** invariant_leq_offset. */
  predicate InvariantLeq(key: Key, itup: Key) {
    BtCompare(key, itup) <= 0
  }

  /** invariant_g_offset. */
  predicate InvariantG(key: Key, itup: Key) {
    BtCompare(key, itup) > 0
  }

  /** The three tests decide the total order on keys, also when attributes are truncated. */
  lemma InvariantsDecideOrder(key: Key, itup: Key, n: nat)
    requires WellFormed(key, n) && WellFormed(itup, n)
    ensures InvariantL(key, itup) <==> Less(key, itup)
    ensures InvariantG(key, itup) <==> Less(itup, key)
    ensures InvariantLeq(key, itup) <==> !Less(itup, key)
  {
    PartingSplits(key.attrs, itup.attrs, 0);
    PartsAt(itup.attrs, key.attrs, Parting(key.attrs, itup.attrs, 0));
  }
}
