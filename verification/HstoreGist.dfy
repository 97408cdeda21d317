/**
  The GiST operator class of hstore: signatures in which every key and every value sets one
  bit.  n is the number of bits of a signature, and crc stands for CRC-32.
 */
module HstoreGist {
  import opened Optional
  import opened ByteStrings
  import opened Hstore
  import opened Sequences
  import opened GistTree

  /** A key of the index: a signature, or the flag ALLISTRUE. */
  datatype Key = AllTrue | Sign(bits: seq<bool>)

  predicate IsKey(k: Key, n: nat) {
    k.Sign? ==> |k.bits| == n
  }

  type Crc = Bytes -> nat

  function HashVal(w: Bytes, crc: Crc, n: nat): (b: nat)
    requires n > 0
    ensures b < n
  {
    crc(w) % n
  }

  predicate HasBit(k: Key, b: nat) {
    k.AllTrue? || (b < |k.bits| && k.bits[b])
  }

  /** Every bit of j is a bit of k. */
  predicate Includes(k: Key, j: Key, n: nat) {
    forall b | 0 <= b < n :: HasBit(j, b) ==> HasBit(k, b)
  }

  // ---------- Leaf keys ----------

  /** A string that occurs in an hstore as a key or as a value. */
  predicate Occurs(ps: seq<Pair>, w: Bytes) {
    exists i | 0 <= i < |ps| :: ps[i].key == w || ps[i].val == Some(w)
  }

  /** The bit of every string that occurs is set. */
  ghost predicate Covers(k: Key, ps: seq<Pair>, crc: Crc, n: nat)
    requires n > 0
  {
    forall w | Occurs(ps, w) :: HasBit(k, HashVal(w, crc, n))
  }

  lemma IncludesCovers(k: Key, j: Key, ps: seq<Pair>, crc: Crc, n: nat)
    requires n > 0 && Includes(k, j, n) && Covers(j, ps, crc, n)
    ensures Covers(k, ps, crc, n)
  {
  }

  /** The least signature that covers the hstore. */
  ghost predicate IsLeafKey(k: Key, ps: seq<Pair>, crc: Crc, n: nat)
    requires n > 0
  {
    && IsKey(k, n) && k.Sign? && Covers(k, ps, crc, n)
    && forall j | IsKey(j, n) && Covers(j, ps, crc, n) :: Includes(j, k, n)
  }

  /** ghstore_compress of a leaf. */
  method CompressLeaf(ps: seq<Pair>, crc: Crc, n: nat) returns (k: Key)
    requires n > 0
    ensures IsLeafKey(k, ps, crc, n)
  {
    var bits := seq(n, _ => false);
    for i := 0 to |ps|
      invariant |bits| == n
      invariant forall w | Occurs(ps[..i], w) :: bits[HashVal(w, crc, n)]
      invariant forall b | 0 <= b < n && bits[b] :: exists w :: Occurs(ps, w) && HashVal(w, crc, n) == b
    {
      hide HashVal;
      var p := ps[i];
      OccursNext(ps, i);
      assert Occurs(ps, p.key) && (p.val.Some? ==> Occurs(ps, p.val.value));
      bits := bits[HashVal(p.key, crc, n) := true];
      if p.val.Some? {
        bits := bits[HashVal(p.val.value, crc, n) := true];
      }
    }
    assert ps[..|ps|] == ps;
    k := Sign(bits);
  }

  lemma OccursNext(ps: seq<Pair>, i: nat)
    requires i < |ps|
    ensures forall w :: Occurs(ps[..i + 1], w) <==> Occurs(ps[..i], w) || ps[i].key == w || ps[i].val == Some(w)
  {
    var a, b := ps[..i], ps[..i + 1];
    forall w ensures Occurs(b, w) <==> Occurs(a, w) || ps[i].key == w || ps[i].val == Some(w) {
      if k :| 0 <= k < |a| && (a[k].key == w || a[k].val == Some(w)) {
        assert b[k] == a[k];
      }
      if ps[i].key == w || ps[i].val == Some(w) {
        assert b[i] == ps[i];
      }
      if k :| 0 <= k < |b| && (b[k].key == w || b[k].val == Some(w)) {
        assert k < i ==> a[k] == b[k];
      }
    }
  }

  /** The same bits, with the flag if all are set. */
  predicate IsCompressed(r: Key, k: Key, n: nat) {
    && IsKey(r, n) && Includes(r, k, n) && Includes(k, r, n)
    && (r.Sign? <==> exists b | 0 <= b < n :: !HasBit(k, b))
  }

  /** ghstore_compress of an inner key. */
  method CompressInner(k: Key, n: nat) returns (r: Key)
    requires IsKey(k, n)
    ensures IsCompressed(r, k, n)
  {
    if k.AllTrue? {
      return k;
    }
    for i := 0 to n
      invariant forall b | 0 <= b < i :: k.bits[b]
    {
      if !k.bits[i] {
        assert !HasBit(k, i);
        return k;
      }
    }
    r := AllTrue;
  }

  // ---------- Union ----------

  function Or(a: seq<bool>, b: seq<bool>): seq<bool>
    requires |a| == |b|
  {
    seq(|a|, i requires 0 <= i < |a| => a[i] || b[i])
  }

  /** The bits of both, with the flag if one of them has it. */
  function Join(k: Key, j: Key): Key
    requires k.Sign? && j.Sign? ==> |k.bits| == |j.bits|
  {
    if k.AllTrue? || j.AllTrue? then AllTrue else Sign(Or(k.bits, j.bits))
  }

  lemma JoinIncludes(k: Key, j: Key, n: nat)
    requires IsKey(k, n) && IsKey(j, n)
    ensures IsKey(Join(k, j), n)
    ensures forall b | 0 <= b < n :: HasBit(Join(k, j), b) <==> HasBit(k, b) || HasBit(j, b)
  {
  }

  predicate AnyBit(entries: seq<Key>, b: nat) {
    exists i | 0 <= i < |entries| :: HasBit(entries[i], b)
  }

  /** The bits of all entries and no others. */
  predicate IsUnion(k: Key, entries: seq<Key>, n: nat) {
    IsKey(k, n) && forall b | 0 <= b < n :: HasBit(k, b) <==> AnyBit(entries, b)
  }

  /** ghstore_union. */
  method Union(entries: seq<Key>, n: nat) returns (k: Key)
    requires AreKeys(entries, n)
    ensures IsUnion(k, entries, n)
  {
    k := Sign(seq(n, _ => false));
    for i := 0 to |entries|
      invariant IsKey(k, n) && k.Sign?
      invariant forall b | 0 <= b < n :: HasBit(k, b) <==> exists j | 0 <= j < i :: HasBit(entries[j], b)
    {
      if entries[i].AllTrue? {
        assert forall b | 0 <= b < n :: HasBit(entries[i], b);
        return AllTrue;
      }
      hide HasBit;
      JoinIncludes(k, entries[i], n);
      k := Join(k, entries[i]);
    }
  }

  // ---------- Distance ----------

  /** In how many of the first m bits two keys differ. */
  function Differ(a: Key, b: Key, m: nat): nat {
    if m == 0 then 0 else Differ(a, b, m - 1) + if HasBit(a, m - 1) != HasBit(b, m - 1) then 1 else 0
  }

  /** sizebitvec: how many bits are set. */
  function SetBits(bits: seq<bool>, m: nat): (r: nat)
    requires m <= |bits|
    ensures r <= m
  {
    if m == 0 then 0 else SetBits(bits, m - 1) + if bits[m - 1] then 1 else 0
  }

  lemma {:induction false} DifferFromAll(k: Key, m: nat)
    requires k.Sign? && m <= |k.bits|
    ensures Differ(AllTrue, k, m) == m - SetBits(k.bits, m) == Differ(k, AllTrue, m)
  {
    if m > 0 {
      DifferFromAll(k, m - 1);
    }
  }

  lemma {:induction false} DifferNone(m: nat)
    ensures Differ(AllTrue, AllTrue, m) == 0
  {
    if m > 0 {
      DifferNone(m - 1);
    }
  }

  /** hemdist. */
  method Hemdist(a: Key, b: Key, n: nat) returns (d: nat)
    requires IsKey(a, n) && IsKey(b, n)
    ensures d == Differ(a, b, n)
  {
    if a.AllTrue? {
      if b.AllTrue? {
        DifferNone(n);
        return 0;
      }
      DifferFromAll(b, n);
      return n - SetBits(b.bits, n);
    }
    if b.AllTrue? {
      DifferFromAll(a, n);
      return n - SetBits(a.bits, n);
    }
    d := 0;
    for i := 0 to n
      invariant d == Differ(a, b, i)
    {
      if a.bits[i] != b.bits[i] {
        d := d + 1;
      }
    }
  }

  // ---------- Split ----------

  datatype Split = Split(left: seq<nat>, right: seq<nat>, ldatum: Key, rdatum: Key)

  predicate AreKeys(entries: seq<Key>, n: nat) {
    forall i | 0 <= i < |entries| :: IsKey(entries[i], n)
  }

  function Distance(entries: seq<Key>, n: nat, i: nat, j: nat): nat
    requires 1 <= i <= |entries| && 1 <= j <= |entries|
  {
    Differ(entries[i - 1], entries[j - 1], n)
  }

  /** The search for the two seeds. */
  method Seeds(entries: seq<Key>, n: nat) returns (seed1: nat, seed2: nat)
    requires |entries| >= 2 && AreKeys(entries, n)
    ensures 1 <= seed1 < seed2 <= |entries|
    ensures forall i, j | 1 <= i < j < |entries| :: Distance(entries, n, i, j) <= Distance(entries, n, seed1, seed2)
  {
    hide Distance;
    var maxoff := |entries| - 1;
    var waste: int := -1;
    seed1, seed2 := 0, 0;
    for k := 1 to maxoff
      invariant if waste < 0 then seed1 == 0 && k == 1
                else 1 <= seed1 < seed2 <= maxoff && waste == Distance(entries, n, seed1, seed2)
      invariant forall i, j | 1 <= i < k && i < j <= maxoff :: Distance(entries, n, i, j) <= waste
    {
      for j := k + 1 to maxoff + 1
        invariant if waste < 0 then seed1 == 0 && k == 1 && j == k + 1
                  else 1 <= seed1 < seed2 <= maxoff && waste == Distance(entries, n, seed1, seed2)
        invariant forall i, l | 1 <= i < k && i < l <= maxoff :: Distance(entries, n, i, l) <= waste
        invariant forall l | k < l < j :: Distance(entries, n, k, l) <= waste
      {
        var d := Hemdist(entries[k - 1], entries[j - 1], n);
        DistanceIs(entries, n, k, j);
        if d > waste {
          waste, seed1, seed2 := d, k, j;
        }
      }
    }
    if seed1 == 0 || seed2 == 0 {
      seed1, seed2 := 1, 2;
    }
  }

  lemma DistanceIs(entries: seq<Key>, n: nat, i: nat, j: nat)
    requires 1 <= i <= |entries| && 1 <= j <= |entries|
    ensures Distance(entries, n, i, j) == Differ(entries[i - 1], entries[j - 1], n)
  {
  }

  /** The signature of a side takes up an entry; a flag among them makes it all ones. */
  method Absorb(datum: Key, entry: Key, n: nat) returns (r: Key)
    requires IsKey(datum, n) && IsKey(entry, n)
    ensures Joins(r, datum, entry, n)
  {
    if datum.AllTrue? {
      return datum;
    }
    if entry.AllTrue? {
      return Sign(seq(n, _ => true));
    }
    r := Sign(Or(datum.bits, entry.bits));
  }

  predicate Joins(r: Key, k: Key, j: Key, n: nat) {
    IsKey(r, n) && forall b | 0 <= b < n :: HasBit(r, b) <==> HasBit(k, b) || HasBit(j, b)
  }

  /** The key of a side is the union of its entries. */
  predicate Side(entries: seq<Key>, n: nat, side: seq<nat>, key: Key) {
    Offsets(side, |entries|) && IsUnion(key, Chosen(entries, side), n)
  }

  /** While offsets are dealt out, a side also has the bits of its seed. */
  predicate Growing(entries: seq<Key>, n: nat, seed: nat, side: seq<nat>, key: Key) {
    && 1 <= seed <= |entries| && Offsets(side, |entries|)
    && IsUnion(key, [entries[seed - 1]] + Chosen(entries, side), n)
  }

  lemma AnyBitSnoc(entries: seq<Key>, e: Key, b: nat)
    ensures AnyBit(entries + [e], b) <==> AnyBit(entries, b) || HasBit(e, b)
  {
    var all := entries + [e];
    if i :| 0 <= i < |entries| && HasBit(entries[i], b) {
      assert HasBit(all[i], b);
    }
    assert all[|entries|] == e;
  }

  lemma GrowingNext(entries: seq<Key>, n: nat, seed: nat, side: seq<nat>, key: Key, more: Key, j: nat)
    requires Growing(entries, n, seed, side, key) && 1 <= j <= |entries| && Joins(more, key, entries[j - 1], n)
    ensures Growing(entries, n, seed, side + [j], more)
  {
    hide HasBit, AnyBit;
    var e := entries[j - 1];
    var all := [entries[seed - 1]] + Chosen(entries, side);
    assert [entries[seed - 1]] + Chosen(entries, side + [j]) == all + [e];
    forall b | 0 <= b < n ensures HasBit(more, b) <==> AnyBit(all + [e], b) {
      AnyBitSnoc(all, e, b);
    }
  }

  lemma SeedJoins(entries: seq<Key>, n: nat, seed: nat, side: seq<nat>, key: Key)
    requires Growing(entries, n, seed, side, key)
    ensures Joins(key, key, entries[seed - 1], n)
  {
    var all := [entries[seed - 1]] + Chosen(entries, side);
    forall b | 0 <= b < n && HasBit(entries[seed - 1], b) ensures AnyBit(all, b) {
      assert HasBit(all[0], b);
    }
  }

  /** Once the seed itself has been dealt, its bits are those of an entry of the side. */
  lemma GrownIsSide(entries: seq<Key>, n: nat, seed: nat, side: seq<nat>, key: Key)
    requires Growing(entries, n, seed, side, key) && seed in side
    ensures Side(entries, n, side, key)
  {
    var chosen := Chosen(entries, side);
    var k :| 0 <= k < |side| && side[k] == seed;
    forall b | 0 <= b < n ensures AnyBit([chosen[k]] + chosen, b) <==> AnyBit(chosen, b) {
      SeedTwice(chosen, k, b);
    }
  }

  lemma SeedTwice(entries: seq<Key>, k: nat, b: nat)
    requires k < |entries|
    ensures AnyBit([entries[k]] + entries, b) <==> AnyBit(entries, b)
  {
    var all := [entries[k]] + entries;
    if i :| 0 <= i < |all| && HasBit(all[i], b) {
      assert HasBit(entries[if i == 0 then k else i - 1], b);
    }
    if i :| 0 <= i < |entries| && HasBit(entries[i], b) {
      assert HasBit(all[i + 1], b);
    }
  }

  /** The first m offsets of an order have been dealt out, each to one side. */
  ghost predicate Dealt(order: seq<nat>, m: nat, left: seq<nat>, right: seq<nat>)
    requires m <= |order|
  {
    && |left| + |right| == m
    && (forall j :: j in order[..m] <==> j in left || j in right)
    && (forall j | j in left :: j !in right)
  }

  /** What qsort may make of the offsets 1 to count. */
  predicate IsOrder(order: seq<nat>, count: nat) {
    && |order| == count
    && (forall i | 0 <= i < count :: 1 <= order[i] <= count)
    && (forall i, j | 0 <= i < j < count :: order[i] != order[j])
    && (forall j | 1 <= j <= count :: j in order)
  }

  lemma DealtNext(order: seq<nat>, count: nat, m: nat, left: seq<nat>, right: seq<nat>)
    requires IsOrder(order, count) && m < count && Dealt(order, m, left, right)
    ensures Dealt(order, m + 1, left + [order[m]], right) && Dealt(order, m + 1, left, right + [order[m]])
  {
    assert order[..m + 1] == order[..m] + [order[m]];
    assert order[m] !in order[..m];
  }

  /** The side an entry goes to; size differences are weighed against the balance of the sides. */
  predicate GoesLeft(alpha: nat, beta: nat, nleft: nat, nright: nat) {
    var d := nleft - nright;
    alpha as real < beta as real - (d * d * d) as real * 0.0001
  }

  /** What a split of a page promises: every offset on one side, and the union of each side. */
  predicate IsSplit(entries: seq<Key>, n: nat, v: Split) {
    && Side(entries, n, v.left, v.ldatum) && Side(entries, n, v.right, v.rdatum)
    && OnOneSide(v.left, v.right, |entries|)
    && |v.left| + |v.right| == |entries| && v.left != [] && v.right != []
  }

  predicate SidesGrow(entries: seq<Key>, n: nat, seed1: nat, seed2: nat, v: Split) {
    Growing(entries, n, seed1, v.left, v.ldatum) && Growing(entries, n, seed2, v.right, v.rdatum)
  }

  /** One round of the second loop of ghstore_picksplit: the offset j joins a side. */
  method Deal(entries: seq<Key>, n: nat, seed1: nat, seed2: nat, v: Split, j: nat) returns (w: Split)
    requires AreKeys(entries, n) && 1 <= j <= |entries| && seed1 != seed2
    requires SidesGrow(entries, n, seed1, seed2, v)
    ensures SidesGrow(entries, n, seed1, seed2, w)
    ensures (j != seed2 && w.left == v.left + [j] && w.right == v.right)
            || (j != seed1 && w.left == v.left && w.right == v.right + [j])
  {
    var e := entries[j - 1];
    if j == seed1 {
      SeedJoins(entries, n, seed1, v.left, v.ldatum);
      GrowingNext(entries, n, seed1, v.left, v.ldatum, v.ldatum, j);
      return v.(left := v.left + [j]);
    }
    if j == seed2 {
      SeedJoins(entries, n, seed2, v.right, v.rdatum);
      GrowingNext(entries, n, seed2, v.right, v.rdatum, v.rdatum, j);
      return v.(right := v.right + [j]);
    }
    var alpha := Hemdist(v.ldatum, e, n);
    var beta := Hemdist(v.rdatum, e, n);
    if GoesLeft(alpha, beta, |v.left|, |v.right|) {
      var l := Absorb(v.ldatum, e, n);
      GrowingNext(entries, n, seed1, v.left, v.ldatum, l, j);
      w := v.(left := v.left + [j], ldatum := l);
    } else {
      var r := Absorb(v.rdatum, e, n);
      GrowingNext(entries, n, seed2, v.right, v.rdatum, r, j);
      w := v.(right := v.right + [j], rdatum := r);
    }
  }

  lemma SeedGrows(entries: seq<Key>, n: nat, seed: nat)
    requires AreKeys(entries, n) && 1 <= seed <= |entries|
    ensures Growing(entries, n, seed, [], entries[seed - 1])
  {
    var all := [entries[seed - 1]] + Chosen(entries, []);
    forall b | 0 <= b < n ensures HasBit(entries[seed - 1], b) <==> AnyBit(all, b) {
      assert HasBit(all[0], b) <==> HasBit(entries[seed - 1], b);
    }
  }

  /** ghstore_picksplit; order is the order of the entries by cost that qsort yields. */
  method PickSplit(entries: seq<Key>, order: seq<nat>, n: nat) returns (v: Split)
    requires |entries| >= 2 && AreKeys(entries, n) && IsOrder(order, |entries|)
    ensures IsSplit(entries, n, v)
  {
    hide Growing, HasBit, Dealt, Side;
    var seed1, seed2 := Seeds(entries, n);
    SeedGrows(entries, n, seed1);
    SeedGrows(entries, n, seed2);
    v := Split([], [], entries[seed1 - 1], entries[seed2 - 1]);
    DealtNone(order);
    for k := 0 to |order|
      invariant SidesGrow(entries, n, seed1, seed2, v) && Dealt(order, k, v.left, v.right)
      invariant seed1 in order[..k] ==> seed1 in v.left
      invariant seed2 in order[..k] ==> seed2 in v.right
    {
      assert order[..k + 1] == order[..k] + [order[k]];
      DealtNext(order, |entries|, k, v.left, v.right);
      v := Deal(entries, n, seed1, seed2, v, order[k]);
    }
    assert order[..|order|] == order;
    GrownIsSide(entries, n, seed1, v.left, v.ldatum);
    GrownIsSide(entries, n, seed2, v.right, v.rdatum);
    DealtAll(order, |entries|, v.left, v.right);
  }

  lemma DealtNone(order: seq<nat>)
    ensures Dealt(order, 0, [], [])
  {
  }

  lemma DealtAll(order: seq<nat>, count: nat, left: seq<nat>, right: seq<nat>)
    requires IsOrder(order, count) && Dealt(order, count, left, right)
    ensures |left| + |right| == count
    ensures OnOneSide(left, right, count)
  {
    assert order[..count] == order;
  }

  // ---------- Consistent ----------

  /** The operators the class serves; None among the keys is a null array element. */
  datatype Query =
    | Contains(pairs: seq<Pair>)
    | Exists(key: Bytes)
    | ExistsAll(keys: seq<Option<Bytes>>)
    | ExistsAny(keys: seq<Option<Bytes>>)

  /** What the operator says about an hstore. */
  predicate Satisfies(ps: seq<Pair>, q: Query) {
    match q
    case Contains(qs) => forall i | 0 <= i < |qs| :: qs[i] in ps
    case Exists(key) => HasKey(ps, key)
    case ExistsAll(keys) => forall i | 0 <= i < |keys| :: keys[i].Some? ==> HasKey(ps, keys[i].value)
    case ExistsAny(keys) => exists i | 0 <= i < |keys| :: keys[i].Some? && HasKey(ps, keys[i].value)
  }

  predicate PairAdmitted(k: Key, p: Pair, crc: Crc, n: nat)
    requires n > 0
  {
    HasBit(k, HashVal(p.key, crc, n)) && (p.val.Some? ==> HasBit(k, HashVal(p.val.value, crc, n)))
  }

  /** What the signature says about a query. */
  predicate Admits(k: Key, q: Query, crc: Crc, n: nat)
    requires n > 0
  {
    k.AllTrue?
    || match q
       case Contains(qs) => forall i | 0 <= i < |qs| :: PairAdmitted(k, qs[i], crc, n)
       case Exists(key) => HasBit(k, HashVal(key, crc, n))
       case ExistsAll(keys) =>
         forall i | 0 <= i < |keys| :: keys[i].Some? ==> HasBit(k, HashVal(keys[i].value, crc, n))
       case ExistsAny(keys) =>
         exists i | 0 <= i < |keys| :: keys[i].Some? && HasBit(k, HashVal(keys[i].value, crc, n))
  }

  /** ghstore_consistent. */
  method Consistent(k: Key, q: Query, crc: Crc, n: nat) returns (res: bool)
    requires n > 0 && IsKey(k, n)
    ensures res <==> Admits(k, q, crc, n)
  {
    hide HashVal, HasBit;
    if k.AllTrue? {
      return true;
    }
    match q
    case Contains(qs) =>
      res := true;
      var i := 0;
      while res && i < |qs|
        invariant i <= |qs| && (res <==> forall j | 0 <= j < i :: PairAdmitted(k, qs[j], crc, n))
        decreases |qs| - i
      {
        if HasBit(k, HashVal(qs[i].key, crc, n)) {
          if qs[i].val.Some? && !HasBit(k, HashVal(qs[i].val.value, crc, n)) {
            res := false;
          }
        } else {
          res := false;
        }
        i := i + 1;
      }
    case Exists(key) =>
      res := HasBit(k, HashVal(key, crc, n));
    case ExistsAll(keys) =>
      res := true;
      var i := 0;
      while res && i < |keys|
        invariant i <= |keys|
        invariant res <==> forall j | 0 <= j < i :: keys[j].Some? ==> HasBit(k, HashVal(keys[j].value, crc, n))
        decreases |keys| - i
      {
        if keys[i].Some? && !HasBit(k, HashVal(keys[i].value, crc, n)) {
          res := false;
        }
        i := i + 1;
      }
    case ExistsAny(keys) =>
      res := false;
      var i := 0;
      while !res && i < |keys|
        invariant i <= |keys|
        invariant res <==> exists j | 0 <= j < i :: keys[j].Some? && HasBit(k, HashVal(keys[j].value, crc, n))
        decreases |keys| - i
      {
        if keys[i].Some? && HasBit(k, HashVal(keys[i].value, crc, n)) {
          res := true;
        }
        i := i + 1;
      }
  }

  // ---------- No match is lost ----------

  lemma KeyOccurs(ps: seq<Pair>, key: Bytes)
    requires HasKey(ps, key)
    ensures Occurs(ps, key)
  {
    var i :| 0 <= i < |ps| && ps[i].key == key;
  }

  lemma PairOccurs(ps: seq<Pair>, p: Pair)
    requires p in ps
    ensures Occurs(ps, p.key) && (p.val.Some? ==> Occurs(ps, p.val.value))
  {
    var i :| 0 <= i < |ps| && ps[i] == p;
  }

  /** A key that covers an hstore admits every query the hstore satisfies. */
  lemma NoMatchLost(k: Key, ps: seq<Pair>, q: Query, crc: Crc, n: nat)
    requires n > 0 && Covers(k, ps, crc, n) && Satisfies(ps, q)
    ensures Admits(k, q, crc, n)
  {
    hide HashVal, HasBit, Occurs, HasKey;
    match q
    case Contains(qs) =>
      forall i | 0 <= i < |qs| ensures PairAdmitted(k, qs[i], crc, n) {
        PairOccurs(ps, qs[i]);
      }
    case Exists(key) => KeyOccurs(ps, key);
    case ExistsAll(keys) =>
      forall i | 0 <= i < |keys| && keys[i].Some? ensures HasBit(k, HashVal(keys[i].value, crc, n)) {
        KeyOccurs(ps, keys[i].value);
      }
    case ExistsAny(keys) =>
      var i :| 0 <= i < |keys| && keys[i].Some? && HasKey(ps, keys[i].value);
      KeyOccurs(ps, keys[i].value);
  }

  // ---------- Keys as the operator class builds them ----------

  /**
    Where a key of the index comes from: the compression of an inserted hstore, of an inner
    key, or the union of the keys of entries.  The last also stands for a side of a split.
   */
  datatype Origin =
    | Inserted(ps: seq<Pair>, key: Key)
    | Compressed(part: Origin, key: Key)
    | UnionOf(parts: seq<Origin>, key: Key)

  function KeysOf(parts: seq<Origin>): seq<Key> {
    seq(|parts|, i requires 0 <= i < |parts| => parts[i].key)
  }

  /** Every key is what the method for that step may return. */
  ghost predicate Built(o: Origin, crc: Crc, n: nat)
    requires n > 0
    decreases o
  {
    match o
    case Inserted(ps, key) => IsLeafKey(key, ps, crc, n)
    case Compressed(part, key) => Built(part, crc, n) && IsCompressed(key, part.key, n)
    case UnionOf(parts, key) =>
      (forall p | p in parts :: Built(p, crc, n)) && IsUnion(key, KeysOf(parts), n)
  }

  predicate Below(ps: seq<Pair>, o: Origin)
    decreases o
  {
    match o
    case Inserted(stored, _) => stored == ps
    case Compressed(part, _) => Below(ps, part)
    case UnionOf(parts, _) => exists p | p in parts :: Below(ps, p)
  }

  lemma UnionIncludes(k: Key, entries: seq<Key>, i: nat, n: nat)
    requires IsUnion(k, entries, n) && i < |entries|
    ensures Includes(k, entries[i], n)
  {
    forall b | 0 <= b < n && HasBit(entries[i], b) ensures HasBit(k, b) {
      assert AnyBit(entries, b);
    }
  }

  /** However a key came about, it covers every hstore below it. */
  lemma {:induction false} BuiltKeyCovers(o: Origin, ps: seq<Pair>, crc: Crc, n: nat)
    requires n > 0 && Built(o, crc, n) && Below(ps, o)
    ensures Covers(o.key, ps, crc, n)
    decreases o
  {
    hide HasBit, Covers, Includes, IsUnion;
    match o
    case Inserted(_, _) =>
    case Compressed(part, key) =>
      BuiltKeyCovers(part, ps, crc, n);
      IncludesCovers(key, part.key, ps, crc, n);
    case UnionOf(parts, key) =>
      var p :| p in parts && Below(ps, p);
      var i :| 0 <= i < |parts| && parts[i] == p;
      BuiltKeyCovers(p, ps, crc, n);
      UnionIncludes(key, KeysOf(parts), i, n);
      IncludesCovers(key, p.key, ps, crc, n);
  }

  /** Both keys of a split of a page of built keys, leaf or inner, are built from the parts of their side. */
  lemma SplitIsBuilt(parts: seq<Origin>, v: Split, crc: Crc, n: nat)
    requires n > 0 && (forall p | p in parts :: Built(p, crc, n)) && IsSplit(KeysOf(parts), n, v)
    ensures Built(UnionOf(Chosen(parts, v.left), v.ldatum), crc, n)
    ensures Built(UnionOf(Chosen(parts, v.right), v.rdatum), crc, n)
    ensures forall ps | Below(ps, UnionOf(parts, v.ldatum)) ::
              Below(ps, UnionOf(Chosen(parts, v.left), v.ldatum))
              || Below(ps, UnionOf(Chosen(parts, v.right), v.rdatum))
  {
    hide IsUnion;
    assert KeysOf(Chosen(parts, v.left)) == Chosen(KeysOf(parts), v.left);
    assert KeysOf(Chosen(parts, v.right)) == Chosen(KeysOf(parts), v.right);
    forall ps | Below(ps, UnionOf(parts, v.ldatum))
      ensures Below(ps, UnionOf(Chosen(parts, v.left), v.ldatum))
              || Below(ps, UnionOf(Chosen(parts, v.right), v.rdatum))
    {
      var p :| p in parts && Below(ps, p);
      var i :| 0 <= i < |parts| && parts[i] == p;
      SideHasEntry(parts, v.left, v.right, i);
    }
  }

  /** A key over an hstore, as the operator class can have built it. */
  ghost predicate BuiltOver(k: Key, ps: seq<Pair>, crc: Crc, n: nat)
    requires n > 0
  {
    exists o :: Built(o, crc, n) && Below(ps, o) && o.key == k
  }

  ghost function BuiltKeys(crc: Crc, n: nat): (Key, seq<Pair>) -> bool
    requires n > 0
  {
    (k: Key, ps: seq<Pair>) => BuiltOver(k, ps, crc, n)
  }

  function Follow(q: Query, crc: Crc, n: nat): Key -> bool
    requires n > 0
  {
    k => Admits(k, q, crc, n)
  }

  /** A leaf entry is returned when the recheck of the operator itself succeeds. */
  function Recheck(q: Query): seq<Pair> -> bool {
    ps => Satisfies(ps, q)
  }

  /** A built key admits every query that an hstore below it satisfies. */
  lemma BuiltKeyAdmits(k: Key, ps: seq<Pair>, q: Query, crc: Crc, n: nat)
    requires n > 0 && BuiltOver(k, ps, crc, n) && Satisfies(ps, q)
    ensures Admits(k, q, crc, n)
  {
    hide Covers, Admits, Satisfies;
    var o :| Built(o, crc, n) && Below(ps, o) && o.key == k;
    BuiltKeyCovers(o, ps, crc, n);
    NoMatchLost(k, ps, q, crc, n);
  }

  /** An index scan with recheck returns exactly the hstores that satisfy the query, in order. */
  lemma ScanIsExact(p: Page<Key, seq<Pair>>, q: Query, crc: Crc, n: nat)
    requires n > 0 && Indexed(p, BuiltKeys(crc, n))
    ensures Search(p, Follow(q, crc, n), Recheck(q)) == Filter(Values(p), Recheck(q))
  {
    hide BuiltOver, Admits, Satisfies;
    forall k, ps | BuiltKeys(crc, n)(k, ps) && Recheck(q)(ps) ensures Follow(q, crc, n)(k) {
      BuiltKeyAdmits(k, ps, q, crc, n);
    }
    SearchIsExact(p, BuiltKeys(crc, n), Follow(q, crc, n), Recheck(q));
  }

  // ---------- What the signatures are, and what they admit ----------

  /** The bits of a leaf key are those of the strings that occur, by their CRC. */
  lemma LeafBits(k: Key, ps: seq<Pair>, crc: Crc, n: nat, b: nat)
    requires n > 0 && IsLeafKey(k, ps, crc, n) && b < n
    ensures HasBit(k, b) <==> exists w :: Occurs(ps, w) && crc(w) % n == b
  {
    hide Occurs;
    if !exists w :: Occurs(ps, w) && crc(w) % n == b {
      Unset(k, ps, crc, n, b);
    }
    if w :| Occurs(ps, w) && crc(w) % n == b {
      assert HashVal(w, crc, n) == b;
    }
  }

  lemma Unset(k: Key, ps: seq<Pair>, crc: Crc, n: nat, b: nat)
    requires n > 0 && IsLeafKey(k, ps, crc, n) && b < n && forall w | Occurs(ps, w) :: crc(w) % n != b
    ensures !HasBit(k, b)
  {
    hide Occurs;
    var less := Sign(k.bits[b := false]);
    assert IsKey(less, n) && Covers(less, ps, crc, n);
    assert Includes(less, k, n) && !HasBit(less, b);
  }

  /** The bits in which two keys differ, among the first m. */
  function Differing(a: Key, b: Key, m: nat): set<nat> {
    set i: nat | i < m && HasBit(a, i) != HasBit(b, i)
  }

  /** The distance counts them. */
  lemma {:induction false} DifferCounts(a: Key, b: Key, m: nat)
    ensures Differ(a, b, m) == |Differing(a, b, m)|
  {
    hide HasBit, Differing;
    if m == 0 {
      NoneDiffer(a, b);
    } else {
      DifferCounts(a, b, m - 1);
      DifferingNext(a, b, m - 1);
    }
  }

  lemma NoneDiffer(a: Key, b: Key)
    ensures Differing(a, b, 0) == {}
  {
  }

  lemma DifferingNext(a: Key, b: Key, m: nat)
    ensures m !in Differing(a, b, m)
    ensures Differing(a, b, m + 1) == Differing(a, b, m) + if HasBit(a, m) != HasBit(b, m) then {m} else {}
  {
    hide HasBit;
  }

  /** An hstore with the given keys and null values. */
  function Keyed(keys: seq<Option<Bytes>>): seq<Pair>
    decreases |keys|
  {
    if keys == [] then []
    else (if keys[0].Some? then [Pair(keys[0].value, None)] else []) + Keyed(keys[1..])
  }

  lemma {:induction false} KeyedHas(keys: seq<Option<Bytes>>, i: nat)
    requires i < |keys| && keys[i].Some?
    ensures HasKey(Keyed(keys), keys[i].value)
    decreases |keys|
  {
    if i == 0 {
      assert Keyed(keys)[0].key == keys[0].value;
    } else {
      KeyedHas(keys[1..], i - 1);
      var k :| 0 <= k < |Keyed(keys[1..])| && Keyed(keys[1..])[k].key == keys[i].value;
      var off := if keys[0].Some? then 1 else 0;
      assert Keyed(keys)[k + off].key == keys[i].value;
    }
  }

  lemma {:induction false} KeyedFrom(keys: seq<Option<Bytes>>, w: Bytes)
    requires Occurs(Keyed(keys), w)
    ensures Some(w) in keys
    decreases |keys|
  {
    var all := Keyed(keys);
    var i :| 0 <= i < |all| && (all[i].key == w || all[i].val == Some(w));
    var rest := Keyed(keys[1..]);
    var off := if keys[0].Some? then 1 else 0;
    if i >= off {
      assert all[i] == rest[i - off];
      KeyedFrom(keys[1..], w);
    }
  }

  /** A signature is admitted exactly for the queries that some hstore it covers satisfies. */
  lemma AdmitsIff(k: Key, q: Query, crc: Crc, n: nat)
    requires n > 0 && k.Sign?
    ensures Admits(k, q, crc, n) <==> exists ps :: Covers(k, ps, crc, n) && Satisfies(ps, q)
  {
    hide HashVal, HasBit, Covers, Satisfies;
    if Admits(k, q, crc, n) {
      var ps := Possible(k, q, crc, n);
    }
    if ps :| Covers(k, ps, crc, n) && Satisfies(ps, q) {
      NoMatchLost(k, ps, q, crc, n);
    }
  }

  lemma Possible(k: Key, q: Query, crc: Crc, n: nat) returns (ps: seq<Pair>)
    requires n > 0 && k.Sign? && Admits(k, q, crc, n)
    ensures Covers(k, ps, crc, n) && Satisfies(ps, q)
  {
    hide HashVal, HasBit;
    match q
    case Contains(qs) =>
      ps := qs;
      forall w | Occurs(qs, w) ensures HasBit(k, HashVal(w, crc, n)) {
        var i :| 0 <= i < |qs| && (qs[i].key == w || qs[i].val == Some(w));
        assert PairAdmitted(k, qs[i], crc, n);
      }
    case Exists(key) => ps := OneKey(k, key, crc, n);
    case ExistsAll(keys) =>
      ps := Keyed(keys);
      forall w | Occurs(ps, w) ensures HasBit(k, HashVal(w, crc, n)) {
        KeyedFrom(keys, w);
        var i :| 0 <= i < |keys| && keys[i] == Some(w);
      }
      forall i | 0 <= i < |keys| && keys[i].Some? ensures HasKey(ps, keys[i].value) {
        KeyedHas(keys, i);
      }
    case ExistsAny(keys) =>
      var i :| 0 <= i < |keys| && keys[i].Some? && HasBit(k, HashVal(keys[i].value, crc, n));
      ps := OneKey(k, keys[i].value, crc, n);
  }

  lemma OneKey(k: Key, key: Bytes, crc: Crc, n: nat) returns (ps: seq<Pair>)
    requires n > 0 && HasBit(k, HashVal(key, crc, n))
    ensures Covers(k, ps, crc, n) && HasKey(ps, key)
  {
    ps := [Pair(key, None)];
    assert ps[0].key == key;
  }
}
