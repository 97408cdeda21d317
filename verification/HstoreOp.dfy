/** Lookups in a packed hstore by binary search, and the operators built on them. */
module HstoreOp {
  import opened ByteStrings
  import opened Hstore
  import opened HstoreGist

  predicate AllBelow(ps: seq<Pair>, from: nat, to: nat, key: Bytes)
    requires to <= |ps|
  {
    forall i | from <= i < to :: KeyLess(ps[i].key, key)
  }

  predicate AllAbove(ps: seq<Pair>, from: nat, key: Bytes) {
    forall i | from <= i < |ps| :: KeyLess(key, ps[i].key)
  }

  lemma BelowMiddle(ps: seq<Pair>, from: nat, middle: nat, key: Bytes)
    requires Canonical(ps) && from <= middle < |ps| && KeyLess(ps[middle].key, key)
    ensures AllBelow(ps, from, middle + 1, key)
  {
    hide KeyLess;
    forall i | from <= i < middle ensures KeyLess(ps[i].key, key) {
      KeyLessTransitive(ps[i].key, ps[middle].key, key);
    }
  }

  lemma AboveMiddle(ps: seq<Pair>, middle: nat, key: Bytes)
    requires Canonical(ps) && middle < |ps| && KeyLess(key, ps[middle].key)
    ensures AllAbove(ps, middle, key)
  {
    hide KeyLess;
    forall i | middle < i < |ps| ensures KeyLess(key, ps[i].key) {
      KeyLessTransitive(key, ps[middle].key, ps[i].key);
    }
  }

  /** hstoreFindKey: the index of the key from lowbound on, and where the next search may start. */
  method FindKey(hs: HStore, lowbound: nat, key: Bytes, ghost ps: seq<Pair>) returns (idx: int, bound: nat)
    requires Canonical(ps) && Describes(hs, ps) && Count(hs) == |ps| && lowbound <= |ps|
    ensures lowbound <= bound <= |ps|
    ensures if idx >= 0 then lowbound <= idx < |ps| && ps[idx].key == key && bound == idx + 1
            else AllBelow(ps, lowbound, bound, key) && AllAbove(ps, bound, key)
  {
    hide Describes, Stored, KeyLess, Canonical;
    var low, high := lowbound, Count(hs);
    while low < high
      invariant lowbound <= low <= high <= |ps|
      invariant AllBelow(ps, lowbound, low, key) && AllAbove(ps, high, key)
    {
      var middle := low + (high - low) / 2;
      DescribedEntries(hs, ps, middle);
      DescribedBytes(hs, ps, middle);
      var difference := Difference(Stored(hs, 2 * middle), key);
      KeyLessTotal(ps[middle].key, key);
      if difference == 0 {
        return middle, middle + 1;
      } else if difference < 0 {
        BelowMiddle(ps, low, middle, key);
        low := middle + 1;
      } else {
        AboveMiddle(ps, middle, key);
        high := middle;
      }
    }
    idx, bound := -1, low;
  }

  /** Nothing before lowbound can be a key of the template from number i on. */
  predicate Skipped(ps: seq<Pair>, low: nat, ts: seq<Pair>, i: nat)
    requires low <= |ps|
  {
    i < |ts| ==> AllBelow(ps, 0, low, ts[i].key)
  }

  lemma SkippedNext(ps: seq<Pair>, low: nat, idx: int, bound: nat, ts: seq<Pair>, i: nat)
    requires Canonical(ps) && Canonical(ts) && i < |ts| && low <= bound <= |ps| && Skipped(ps, low, ts, i)
    requires if idx >= 0 then low <= idx < |ps| && ps[idx].key == ts[i].key && bound == idx + 1
             else AllBelow(ps, low, bound, ts[i].key)
    ensures Skipped(ps, bound, ts, i + 1)
  {
    hide KeyLess;
    if i + 1 < |ts| {
      forall j | 0 <= j < bound ensures KeyLess(ps[j].key, ts[i + 1].key) {
        if idx >= 0 && j < idx {
          KeyLessTransitive(ps[j].key, ps[idx].key, ts[i + 1].key);
        } else if idx < 0 {
          assert KeyLess(ps[j].key, ts[i].key);
          KeyLessTransitive(ps[j].key, ts[i].key, ts[i + 1].key);
        }
      }
    }
  }

  lemma NotThere(ps: seq<Pair>, low: nat, bound: nat, key: Bytes)
    requires low <= bound <= |ps| && AllBelow(ps, 0, low, key) && AllBelow(ps, low, bound, key)
            && AllAbove(ps, bound, key)
    ensures !HasKey(ps, key)
  {
    forall i | 0 <= i < |ps| ensures ps[i].key != key {
      KeyLessTotal(ps[i].key, key);
      assert i < low ==> KeyLess(ps[i].key, key);
      assert low <= i < bound ==> KeyLess(ps[i].key, key);
      assert i >= bound ==> KeyLess(key, ps[i].key);
    }
  }

  lemma OnlyThere(ps: seq<Pair>, idx: nat, p: Pair)
    requires Canonical(ps) && idx < |ps| && ps[idx].key == p.key
    ensures p in ps <==> ps[idx].val == p.val
  {
    if p in ps {
      var j :| 0 <= j < |ps| && ps[j] == p;
    }
    if ps[idx].val == p.val {
      assert ps[idx] == p;
    }
  }

  /** One round of hstore_contains: is pair i of the template a pair of the value? */
  method FindPair(val: HStore, tmpl: HStore, i: nat, lastidx: nat, ghost ps: seq<Pair>, ghost ts: seq<Pair>)
    returns (found: bool, bound: nat)
    requires Canonical(ps) && Describes(val, ps) && Count(val) == |ps|
    requires Canonical(ts) && Describes(tmpl, ts) && i < |ts|
    requires lastidx <= |ps| && Skipped(ps, lastidx, ts, i)
    ensures found <==> ts[i] in ps
    ensures bound <= |ps| && Skipped(ps, bound, ts, i + 1)
  {
    hide Describes, Stored, KeyLess, Canonical, PairAt, AllBelow, AllAbove;
    DescribedEntries(tmpl, ts, i);
    DescribedPair(tmpl, ts, i);
    DescribedBytes(tmpl, ts, i);
    var idx;
    idx, bound := FindKey(val, lastidx, Stored(tmpl, 2 * i), ps);
    SkippedNext(ps, lastidx, idx, bound, ts, i);
    if idx >= 0 {
      OnlyThere(ps, idx, ts[i]);
      DescribedEntries(val, ps, idx);
      DescribedPair(val, ps, idx);
      found := PairAt(tmpl, i).val == PairAt(val, idx).val;
    } else {
      NotThere(ps, lastidx, bound, ts[i].key);
      found := false;
    }
  }

  /** hstore_contains: every pair of the template is a pair of the value. */
  method HstoreContains(val: HStore, tmpl: HStore, ghost ps: seq<Pair>, ghost ts: seq<Pair>) returns (res: bool)
    requires Canonical(ps) && Describes(val, ps) && Count(val) == |ps|
    requires Canonical(ts) && Describes(tmpl, ts) && Count(tmpl) == |ts|
    ensures res <==> Satisfies(ps, Contains(ts))
  {
    hide Describes, KeyLess, Canonical, AllBelow;
    res := true;
    var i: nat, lastidx: nat := 0, 0;
    NoneBelow(ps, ts);
    while res && i < Count(tmpl)
      invariant i <= |ts| && lastidx <= |ps| && Skipped(ps, lastidx, ts, i)
      invariant res <==> forall j | 0 <= j < i :: ts[j] in ps
      decreases |ts| - i
    {
      res, lastidx := FindPair(val, tmpl, i, lastidx, ps, ts);
      i := i + 1;
    }
  }

  lemma NoneBelow(ps: seq<Pair>, ts: seq<Pair>)
    ensures Skipped(ps, 0, ts, 0)
  {
  }

}
