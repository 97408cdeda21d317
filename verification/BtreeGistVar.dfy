/**
  btree_gist keys of variable length, bytea instance (trnc = true, no leaf-to-node
  conversion): node keys are (lower, upper) byte strings cut down to the common
  prefix plus a few bytes, and the consistent method compensates with a prefix match.
 */
module BtreeGistVar {
  import opened Optional
  import opened ByteStrings
  import opened Sequences
  import opened GistTree

  // GBT_VARKEY_R: lower == upper for a leaf entry.
  datatype Key = Key(lower: Bytes, upper: Bytes)

  datatype Strategy = Less | LessEqual | Equal | GreaterEqual | Greater | NotEqual | Unknown

  function LeafKey(x: Bytes): Key {
    Key(x, x)
  }

  /** What the query operator says about an indexed value. */
  predicate Matches(x: Bytes, q: Bytes, s: Strategy) {
    match s
    case Less => Lt(x, q)
    case LessEqual => Le(x, q)
    case Equal => x == q
    case GreaterEqual => Le(q, x)
    case Greater => Lt(q, x)
    case NotEqual => x != q
    case Unknown => false
  }

  /** gbt_bytea_pf_match on either bound. */
  predicate PrefixMatch(k: Key, q: Bytes) {
    k.lower <= q || k.upper <= q
  }

  /** gbt_var_consistent. */
  predicate Consistent(k: Key, q: Bytes, s: Strategy, isLeaf: bool) {
    match s
    case LessEqual => if isLeaf then Le(k.lower, q) else Le(k.lower, q) || PrefixMatch(k, q)
    case Less => if isLeaf then Lt(k.lower, q) else Le(k.lower, q) || PrefixMatch(k, q)
    case Equal =>
      if isLeaf then q == k.lower
      else (Le(k.lower, q) && Le(q, k.upper)) || PrefixMatch(k, q)
    case Greater => if isLeaf then Lt(q, k.upper) else Le(q, k.upper) || PrefixMatch(k, q)
    case GreaterEqual => if isLeaf then Le(q, k.upper) else Le(q, k.upper) || PrefixMatch(k, q)
    case NotEqual => !(q == k.lower && q == k.upper)
    case Unknown => false
  }

  // ---------- Building node keys ----------

  /** gbt_var_node_cp_len for single-byte encodings. */
  method NodeCommonPrefix(k: Key) returns (n: nat)
    ensures n == Common(k.lower, k.upper)
  {
    var ml := if |k.lower| < |k.upper| then |k.lower| else |k.upper|;
    n := 0;
    while n < ml
      invariant n <= ml
      invariant k.lower[..n] == k.upper[..n]
    {
      if k.lower[n] != k.upper[n] {
        PartAt(k.lower, k.upper, n);
        return;
      }
      n := n + 1;
    }
    PartAt(k.lower, k.upper, n);
  }

  /** gbt_var_node_truncate with cpf_length + 1 == n. */
  function Cut(k: Key, n: nat): Key {
    Key(if |k.lower| <= n then k.lower else k.lower[..n],
        if |k.upper| <= n then k.upper else k.upper[..n])
  }

  /** The smaller lower bound and the larger upper bound. */
  function Join(a: Key, b: Key): Key {
    Key(if Le(a.lower, b.lower) then a.lower else b.lower,
        if Le(b.upper, a.upper) then a.upper else b.upper)
  }

  /** The join of ks[lo..hi], taken from left to right. */
  function JoinRange(ks: seq<Key>, lo: nat, hi: nat): Key
    requires lo < hi <= |ks|
  {
    if hi == lo + 1 then ks[lo] else Join(JoinRange(ks, lo, hi - 1), ks[hi - 1])
  }

  function JoinAll(ks: seq<Key>): Key
    requires ks != []
  {
    JoinRange(ks, 0, |ks|)
  }

  /** x is the lesser of a and b. */
  predicate IsLesser(x: Bytes, a: Bytes, b: Bytes) {
    (x == a || x == b) && Le(x, a) && Le(x, b)
  }

  predicate IsGreater(x: Bytes, a: Bytes, b: Bytes) {
    (x == a || x == b) && Le(a, x) && Le(b, x)
  }

  lemma JoinIs(a: Key, b: Key)
    ensures IsLesser(Join(a, b).lower, a.lower, b.lower) && IsGreater(Join(a, b).upper, a.upper, b.upper)
  {
    hide Le;
    LeTotal(a.lower, b.lower);
    LeTotal(a.upper, b.upper);
    LeReflexive(a.lower);
    LeReflexive(b.lower);
    LeReflexive(a.upper);
    LeReflexive(b.upper);
  }

  /** gbt_var_bin_union: *u, absent the first time, is widened to take in e. */
  method BinUnion(u: Option<Key>, e: Key) returns (r: Key)
    ensures r == if u.None? then e else Join(u.value, e)
    ensures u.Some? ==> IsLesser(r.lower, u.value.lower, e.lower) && IsGreater(r.upper, u.value.upper, e.upper)
  {
    hide IsLesser, IsGreater;
    if u.Some? {
      JoinIs(u.value, e);
    }
    if u.Some? {
      var lower, upper := u.value.lower, u.value.upper;
      if !Le(lower, e.lower) {
        lower := e.lower;
      }
      if !Le(e.upper, upper) {
        upper := e.upper;
      }
      r := Key(lower, upper);
    } else {
      r := e;
    }
  }

  function UnionKey(ks: seq<Key>): Key
    requires ks != []
  {
    var j := JoinAll(ks);
    Cut(j, Common(j.lower, j.upper) + 2)
  }

  /** gbt_var_union: the key of a page from the keys of its entries. */
  method Union(entries: seq<Key>) returns (r: Key)
    requires entries != []
    ensures r == UnionKey(entries)
  {
    r := entries[0];
    for i := 1 to |entries|
      invariant r == JoinRange(entries, 0, i)
    {
      r := BinUnion(Some(r), entries[i]);
    }
    var plen := NodeCommonPrefix(r);
    r := Cut(r, plen + 2);
  }

  /** Both halves of a split are cut at the longer of the two common prefixes. */
  function HalfKey(mine: Key, other: Key): Key {
    Cut(mine, HalfLength(mine, other))
  }

  function HalfLength(mine: Key, other: Key): (n: nat)
    ensures n >= Common(mine.lower, mine.upper) + 2
  {
    var pm, po := Common(mine.lower, mine.upper), Common(other.lower, other.upper);
    (if pm < po then po else pm) + 2
  }

  function Min(a: int, b: int): int {
    if a < b then a else b
  }

  function Max(a: int, b: int): int {
    if a < b then b else a
  }

  function JoinedRange(ks: seq<Key>, lo: nat, hi: nat): Option<Key>
    requires lo <= hi <= |ks|
  {
    if lo == hi then None else Some(JoinRange(ks, lo, hi))
  }

  predicate Offsets(which: seq<nat>, n: nat) {
    forall i | 0 <= i < |which| :: which[i] < n
  }

  function Select(entries: seq<Key>, which: seq<nat>): (r: seq<Key>)
    requires Offsets(which, |entries|)
    ensures |r| == |which|
    ensures forall i | 0 <= i < |which| :: r[i] == entries[which[i]]
  {
    seq(|which|, i requires 0 <= i < |which| => entries[which[i]])
  }

  /** A permutation of the offsets. */
  predicate IsOrder(sorted: seq<nat>) {
    && (forall i: nat | i < |sorted| :: i in sorted)
    && (forall i, j | 0 <= i < j < |sorted| :: sorted[i] != sorted[j])
  }

  lemma EachOnOneSide(sorted: seq<nat>, half: nat)
    requires IsOrder(sorted) && half <= |sorted|
    ensures forall i: nat | i < |sorted| :: (i in sorted[..half]) != (i in sorted[half..])
  {
    forall i: nat | i < |sorted|
      ensures (i in sorted[..half]) != (i in sorted[half..])
    {
      assert i in sorted;
      var k :| 0 <= k < |sorted| && sorted[k] == i;
      if k < half {
        assert sorted[..half][k] == i;
      } else {
        assert sorted[half..][k - half] == i;
      }
    }
  }

  /** The loop of gbt_var_picksplit that deals the sorted entries out to the two sides. */
  method SplitAt(entries: seq<Key>, sorted: seq<nat>, half: nat)
    returns (left: seq<nat>, right: seq<nat>, dl: Key, dr: Key)
    requires |sorted| == |entries| && 0 < half < |entries|
    requires Offsets(sorted, |entries|)
    ensures left == sorted[..half] && right == sorted[half..]
    ensures dl == JoinRange(Select(entries, sorted), 0, half)
    ensures dr == JoinRange(Select(entries, sorted), half, |entries|)
  {
    hide Join, Common;
    ghost var arr := Select(entries, sorted);
    left, right := [], [];
    var ol, or: Option<Key> := None, None;
    for i := 0 to |sorted|
      invariant left == sorted[..Min(i, half)] && right == sorted[half..Max(i, half)]
      invariant ol == JoinedRange(arr, 0, Min(i, half))
      invariant or == JoinedRange(arr, half, Max(i, half))
    {
      var e := entries[sorted[i]];
      if i + 1 <= half {
        var r := BinUnion(ol, e);
        ol := Some(r);
        left := left + [sorted[i]];
      } else {
        var r := BinUnion(or, e);
        or := Some(r);
        right := right + [sorted[i]];
      }
    }
    dl, dr := ol.value, or.value;
  }

  /**
    gbt_var_picksplit.  sorted is what qsort_arg leaves in arr: the offsets in some
    order.  EachOnOneSide says what follows when that is each offset exactly once.
   */
  method PickSplit(entries: seq<Key>, sorted: seq<nat>)
    returns (left: seq<nat>, right: seq<nat>, kl: Key, kr: Key)
    requires |entries| >= 2 && |sorted| == |entries|
    requires Offsets(sorted, |entries|)
    ensures |left| == |entries| / 2 && left == sorted[..|left|] && right == sorted[|left|..]
    ensures var arr := Select(entries, sorted);
            var l, r := JoinRange(arr, 0, |left|), JoinRange(arr, |left|, |arr|);
            kl == HalfKey(l, r) && kr == HalfKey(r, l)
  {
    hide Join, Common;
    var dl, dr;
    left, right, dl, dr := SplitAt(entries, sorted, |entries| / 2);
    var ll := NodeCommonPrefix(dl);
    var lr := NodeCommonPrefix(dr);
    kl := Cut(dl, Max(ll, lr) + 2);
    kr := Cut(dr, Max(ll, lr) + 2);
  }

  // ---------- The invariant of node keys ----------

  predicate Ordered(k: Key) {
    Le(k.lower, k.upper)
  }

  predicate Cropped(k: Key) {
    |k.upper| >= Common(k.lower, k.upper) + 2
  }

  /**
    What a node key promises about a value below it.  The upper bound may have been
    cut, in which case the value is only known to extend it.
   */
  predicate Covers(k: Key, x: Bytes) {
    Le(k.lower, x) && (Le(x, k.upper) || (k.upper <= x && Cropped(k)))
  }

  lemma JoinOfTwo(a: Key, b: Key)
    requires Ordered(a) && Ordered(b)
    ensures Le(Join(a, b).lower, a.lower) && Le(Join(a, b).lower, b.lower)
    ensures Le(a.upper, Join(a, b).upper) && Le(b.upper, Join(a, b).upper)
    ensures Ordered(Join(a, b))
  {
    var j := Join(a, b);
    LeTotal(a.lower, b.lower);
    LeTotal(a.upper, b.upper);
    LeReflexive(j.lower);
    LeReflexive(j.upper);
    LeTransitive(j.lower, a.lower, a.upper);
    LeTransitive(j.lower, a.upper, j.upper);
  }

  /** The join bounds every part. */
  lemma {:induction false} JoinBounds(ks: seq<Key>, lo: nat, hi: nat, i: nat)
    requires lo <= i < hi <= |ks|
    requires forall j | lo <= j < hi :: Ordered(ks[j])
    ensures Le(JoinRange(ks, lo, hi).lower, ks[i].lower)
    ensures Le(ks[i].upper, JoinRange(ks, lo, hi).upper)
    ensures Ordered(JoinRange(ks, lo, hi))
  {
    if hi == lo + 1 {
      LeReflexive(ks[lo].lower);
      LeReflexive(ks[lo].upper);
    } else {
      var rest, all := JoinRange(ks, lo, hi - 1), JoinRange(ks, lo, hi);
      JoinBounds(ks, lo, hi - 1, if i < hi - 1 then i else lo);
      JoinOfTwo(rest, ks[hi - 1]);
      if i < hi - 1 {
        LeTransitive(all.lower, rest.lower, ks[i].lower);
        LeTransitive(ks[i].upper, rest.upper, all.upper);
      }
    }
  }

  /** The bounds of a span are those of keys in it. */
  lemma {:induction false} JoinAttained(ks: seq<Key>, lo: nat, hi: nat)
    requires lo < hi <= |ks|
    ensures exists i | lo <= i < hi :: JoinRange(ks, lo, hi).lower == ks[i].lower
    ensures exists i | lo <= i < hi :: JoinRange(ks, lo, hi).upper == ks[i].upper
  {
    hide Le;
    if hi == lo + 1 {
      assert JoinRange(ks, lo, hi) == ks[lo];
    } else {
      JoinAttained(ks, lo, hi - 1);
      var i :| lo <= i < hi - 1 && JoinRange(ks, lo, hi - 1).lower == ks[i].lower;
      var j :| lo <= j < hi - 1 && JoinRange(ks, lo, hi - 1).upper == ks[j].upper;
      var r := JoinRange(ks, lo, hi);
      assert r.lower == ks[i].lower || r.lower == ks[hi - 1].lower;
      assert r.upper == ks[j].upper || r.upper == ks[hi - 1].upper;
    }
  }

  /** Cutting beyond the common prefix keeps the order and the prefix. */
  lemma CutKeepsPrefix(k: Key, n: nat)
    requires Ordered(k) && n >= Common(k.lower, k.upper) + 1
    ensures Ordered(Cut(k, n))
    ensures Common(Cut(k, n).lower, Cut(k, n).upper) == Common(k.lower, k.upper)
    ensures Le(Cut(k, n).lower, k.lower)
  {
    var c := Cut(k, n);
    CommonSplits(k.lower, k.upper);
    PartAt(c.lower, c.upper, Common(k.lower, k.upper));
    PrefixLe(c.lower, k.lower);
  }

  /**
    Entry e can hold a value that the cut upper bound u excludes: e is itself cropped,
    u strictly extends its upper bound, and not only with 0xFF bytes.
   */
  predicate Hides(e: Key, u: Bytes) {
    Cropped(e) && e.upper < u && exists i | |e.upper| <= i < |u| :: u[i] != 255
  }

  /** A cut key takes in everything an entry covers, unless the entry hides values. */
  lemma CutCovers(j: Key, e: Key, n: nat, x: Bytes)
    requires Ordered(e) && Le(j.lower, e.lower) && Le(e.upper, j.upper)
    requires n >= Common(j.lower, j.upper) + 2
    requires Covers(e, x) && !Hides(e, Cut(j, n).upper)
    ensures Covers(Cut(j, n), x)
  {
    var c := Cut(j, n);
    LeTransitive(j.lower, e.lower, e.upper);
    LeTransitive(j.lower, e.upper, j.upper);
    CutKeepsPrefix(j, n);
    CommonShrinks(j.lower, e.lower, e.upper, j.upper);
    LeTransitive(c.lower, j.lower, e.lower);
    LeTransitive(c.lower, e.lower, x);
    LeTotal(x, c.upper);
    if !Le(x, c.upper) {
      if Le(x, e.upper) {
        LeTransitive(x, e.upper, j.upper);
      }
      if Le(x, j.upper) {
        Squeezed(c.upper, x, j.upper);
      } else {
        Beyond(j.upper, e.upper, x);
        assert e.upper <= j.upper;
        if e.upper < c.upper {
          TopExtends(e.upper, c.upper, x);
        } else {
          assert c.upper <= e.upper;
        }
      }
    }
  }

  /** If u >= p but x, an extension of p, is above u, then u extends p as well. */
  lemma Beyond(u: Bytes, p: Bytes, x: Bytes)
    requires Le(p, u) && p <= x && !Le(x, u)
    ensures p <= u
  {
    LeTotal(u, x);
    Squeezed(p, u, x);
  }

  /** Above p followed by 0xFF bytes only, extensions of p extend those bytes too. */
  lemma TopExtends(p: Bytes, u: Bytes, x: Bytes)
    requires p <= u && p <= x && !Le(x, u)
    requires forall i | |p| <= i < |u| :: u[i] == 255
    ensures u <= x
  {
    CommonSplits(x, u);
    assert Common(x, u) == |u|;
  }

  /**
    Exactly when a half of a split keeps everything below an entry e: iff e does not
    hide values.  Leaf entries never hide any (LeafHidesNothing); cropped node entries do.
   */
  lemma SplitKeepsIff(j: Key, e: Key, n: nat)
    requires Ordered(e) && Le(j.lower, e.lower) && Le(e.upper, j.upper)
    requires n >= Common(j.lower, j.upper) + 2
    ensures (forall x :: Covers(e, x) ==> Covers(Cut(j, n), x)) <==> !Hides(e, Cut(j, n).upper)
  {
    var u := Cut(j, n).upper;
    if Hides(e, u) {
      var x := HiddenValue(e, u);
      assert !Covers(Cut(j, n), x);
    } else {
      forall x | Covers(e, x)
        ensures Covers(Cut(j, n), x)
      {
        CutCovers(j, e, n, x);
      }
    }
  }

  /** The part of a node key that decides queries for values beyond its upper bound. */
  predicate LowerIsPrefix(c: Key) {
    c.lower <= c.upper
  }

  /** Some query matches a value that e covers, and is not consistent with c. */
  ghost predicate Loses(c: Key, e: Key) {
    exists x, q, s :: Covers(e, x) && Matches(x, q, s) && !Consistent(c, q, s, false)
  }

  /** Where the prefixes of an entry and of a span around it end. */
  lemma EntryInSpan(j: Key, e: Key, n: nat)
    requires Ordered(e) && Le(j.lower, e.lower) && Le(e.upper, j.upper)
    requires n >= Common(j.lower, j.upper) + 2
    ensures var c := Cut(j, n);
            && Common(c.lower, c.upper) <= Common(e.lower, e.upper)
            && Le(c.lower, e.lower)
  {
    LeTransitive(j.lower, e.lower, e.upper);
    LeTransitive(j.lower, e.upper, j.upper);
    CutKeepsPrefix(j, n);
    CommonShrinks(j.lower, e.lower, e.upper, j.upper);
    LeTransitive(Cut(j, n).lower, j.lower, e.lower);
  }

  /** A value with the lower bound as a prefix is found by prefix match or by comparison. */
  lemma PrefixIsConsistent(c: Key, x: Bytes, q: Bytes, s: Strategy)
    requires Ordered(c) && c.lower <= x && c.lower != c.upper && Matches(x, q, s)
    ensures Consistent(c, q, s, false)
  {
    PrefixLe(c.lower, x);
    match s
    case Less => LeTransitive(c.lower, x, q);
    case LessEqual => LeTransitive(c.lower, x, q);
    case Equal =>
    case GreaterEqual => AbovePrefix(c, x, q);
    case Greater => AbovePrefix(c, x, q);
    case NotEqual =>
    case Unknown =>
  }

  lemma AbovePrefix(c: Key, x: Bytes, q: Bytes)
    requires Ordered(c) && c.lower <= x && Le(q, x)
    ensures Le(q, c.upper) || c.lower <= q
  {
    LeTotal(q, c.lower);
    if Le(q, c.lower) {
      LeTransitive(q, c.lower, c.upper);
    } else {
      Squeezed(c.lower, q, x);
    }
  }

  /**
    Exactly when the key c of a side of a split makes a value below an entry e
    unreachable for some query: e hides values from the upper bound of c, and the prefix
    match does not help because the lower bound of c is no prefix of the upper one.
   */
  lemma SplitLosesIff(j: Key, e: Key, n: nat)
    requires Ordered(e) && Le(j.lower, e.lower) && Le(e.upper, j.upper)
    requires n >= Common(j.lower, j.upper) + 2
    ensures var c := Cut(j, n); Loses(c, e) <==> Hides(e, c.upper) && !LowerIsPrefix(c)
  {
    var c := Cut(j, n);
    EntryInSpan(j, e, n);
    if Hides(e, c.upper) && !LowerIsPrefix(c) {
      var x := HiddenValue(e, c.upper);
      HiddenIsLost(c, e, x);
      assert Matches(x, x, Equal);
    }
    if Loses(c, e) {
      var x, q, s :| Covers(e, x) && Matches(x, q, s) && !Consistent(c, q, s, false);
      LostIsHidden(j, e, n, x, q, s);
    }
  }

  lemma HiddenIsLost(c: Key, e: Key, x: Bytes)
    requires Hides(e, c.upper) && !LowerIsPrefix(c) && Common(c.lower, c.upper) <= Common(e.lower, e.upper)
    requires e.upper <= x && !Le(x, c.upper) && !(c.upper <= x)
    ensures !Consistent(c, x, Equal, false)
  {
    CommonSplits(c.lower, c.upper);
    var m := Common(c.lower, c.upper);
    assert m < |c.lower| && c.lower[m] != c.upper[m] && c.upper[m] == e.upper[m] == x[m];
  }

  lemma LostIsHidden(j: Key, e: Key, n: nat, x: Bytes, q: Bytes, s: Strategy)
    requires Ordered(e) && Le(j.lower, e.lower) && Le(e.upper, j.upper)
    requires n >= Common(j.lower, j.upper) + 2
    requires Covers(e, x) && Matches(x, q, s)
    ensures var c := Cut(j, n); !Consistent(c, q, s, false) ==> Hides(e, c.upper) && !LowerIsPrefix(c)
  {
    var c := Cut(j, n);
    EntryInSpan(j, e, n);
    if Covers(c, x) {
      CoveredIsConsistent(c, x, q, s);
    } else if !Hides(e, c.upper) {
      CutCovers(j, e, n, x);
    } else if LowerIsPrefix(c) {
      CoversBeyond(c, e, x);
      PartAt(c.lower, c.upper, |c.lower|);
      PrefixLe(c.lower, c.upper);
      PrefixIsConsistent(c, x, q, s);
    }
  }

  /** A value that e covers and c does not extends the upper bound of e. */
  lemma CoversBeyond(c: Key, e: Key, x: Bytes)
    requires Covers(e, x) && !Covers(c, x) && Hides(e, c.upper) && Le(c.lower, e.lower)
    ensures e.upper <= x
  {
    LeTransitive(c.lower, e.lower, x);
    if Le(x, e.upper) {
      PrefixLe(e.upper, c.upper);
      LeTransitive(x, e.upper, c.upper);
    }
  }

  /** A value that e covers and that is neither below u nor an extension of u. */
  lemma HiddenValue(e: Key, u: Bytes) returns (x: Bytes)
    requires Ordered(e) && Hides(e, u)
    ensures Covers(e, x) && !Le(x, u) && !(u <= x) && e.upper <= x
  {
    var i :| |e.upper| <= i < |u| && u[i] != 255;
    x := u[..i] + [255];
    assert x[..i] == u[..i] && x[i] != u[i];
    PartAt(x, u, i);
    assert e.upper <= x by { assert x[..|e.upper|] == u[..|e.upper|]; }
    PrefixLe(e.upper, x);
    LeTransitive(e.lower, e.upper, x);
  }

  lemma LeafHidesNothing(x: Bytes, u: Bytes)
    ensures !Hides(LeafKey(x), u) && Ordered(LeafKey(x)) && Covers(LeafKey(x), x)
  {
    LeReflexive(x);
    PartAt(x, x, |x|);
  }

  // ---------- Every key the access method can build ----------

  /**
    How a node key came about: from a stored value, as the union of the keys of the
    entries of a page, or as the left or right half of a leaf page whose values, in
    sorted order, were split at a position.
   */
  datatype Origin =
    | Stored(x: Bytes)
    | UnionOf(parts: seq<Origin>)
    | LeftHalf(page: seq<Bytes>, at: nat)
    | RightHalf(page: seq<Bytes>, at: nat)

  predicate Buildable(o: Origin) {
    match o
    case Stored(_) => true
    case UnionOf(parts) => parts != [] && forall p | p in parts :: Buildable(p)
    case LeftHalf(page, at) => 0 < at < |page|
    case RightHalf(page, at) => 0 < at < |page|
  }

  function LeafKeys(xs: seq<Bytes>): (r: seq<Key>)
    ensures |r| == |xs|
    ensures forall i | 0 <= i < |xs| :: r[i] == LeafKey(xs[i])
  {
    seq(|xs|, i requires 0 <= i < |xs| => LeafKey(xs[i]))
  }

  function KeyOf(o: Origin): Key
    requires Buildable(o)
  {
    match o
    case Stored(x) => LeafKey(x)
    case UnionOf(parts) => UnionKey(KeysOf(parts))
    case LeftHalf(page, at) =>
      HalfKey(JoinRange(LeafKeys(page), 0, at), JoinRange(LeafKeys(page), at, |page|))
    case RightHalf(page, at) =>
      HalfKey(JoinRange(LeafKeys(page), at, |page|), JoinRange(LeafKeys(page), 0, at))
  }

  function KeysOf(parts: seq<Origin>): (ks: seq<Key>)
    requires forall p | p in parts :: Buildable(p)
    ensures |ks| == |parts|
  {
    seq(|parts|, i requires 0 <= i < |parts| => KeyOf(parts[i]))
  }

  /** On leaf entries the keys of gbt_var_picksplit are those of the two halves of the page. */
  lemma LeafSplitIsBuilt(xs: seq<Bytes>, sorted: seq<nat>, half: nat)
    requires |sorted| == |xs| && Offsets(sorted, |xs|) && 0 < half < |xs|
    ensures var arr := Select(LeafKeys(xs), sorted);
            var page := seq(|xs|, i requires 0 <= i < |xs| => xs[sorted[i]]);
            var l, r := JoinRange(arr, 0, half), JoinRange(arr, half, |arr|);
            HalfKey(l, r) == KeyOf(LeftHalf(page, half)) && HalfKey(r, l) == KeyOf(RightHalf(page, half))
  {
    var page := seq(|xs|, i requires 0 <= i < |xs| => xs[sorted[i]]);
    assert Select(LeafKeys(xs), sorted) == LeafKeys(page);
  }

  predicate Below(x: Bytes, o: Origin) {
    match o
    case Stored(y) => x == y
    case UnionOf(parts) => exists p | p in parts :: Below(x, p)
    case LeftHalf(page, at) => at <= |page| && x in page[..at]
    case RightHalf(page, at) => at <= |page| && x in page[at..]
  }

  /** Every key that can be built is ordered and covers all values below it. */
  lemma {:induction false} BuiltKeyCovers(o: Origin, x: Bytes)
    requires Buildable(o)
    ensures Ordered(KeyOf(o))
    ensures Below(x, o) ==> Covers(KeyOf(o), x)
    decreases o
  {
    match o
    case Stored(y) =>
      LeafHidesNothing(y, y);
    case UnionOf(parts) =>
      var ks := KeysOf(parts);
      forall i | 0 <= i < |parts|
        ensures Ordered(ks[i]) && (Below(x, parts[i]) ==> Covers(ks[i], x))
      {
        BuiltKeyCovers(parts[i], x);
      }
      UnionCovers(ks, x);
    case LeftHalf(page, at) =>
      HalvesCover(page, at, x);
    case RightHalf(page, at) =>
      HalvesCover(page, at, x);
  }

  /** gbt_var_union covers whatever one of the united keys covers. */
  lemma UnionCovers(ks: seq<Key>, x: Bytes)
    requires ks != [] && forall i | 0 <= i < |ks| :: Ordered(ks[i])
    ensures Ordered(UnionKey(ks))
    ensures forall i | 0 <= i < |ks| :: Covers(ks[i], x) ==> Covers(UnionKey(ks), x)
  {
    hide Le, Common, Join, JoinRange, Covers;
    var j := JoinAll(ks);
    var n := Common(j.lower, j.upper) + 2;
    JoinBounds(ks, 0, |ks|, 0);
    CutKeepsPrefix(j, n);
    forall i | 0 <= i < |ks| && Covers(ks[i], x)
      ensures Covers(UnionKey(ks), x)
    {
      JoinBounds(ks, 0, |ks|, i);
      CommonShrinks(j.lower, ks[i].lower, ks[i].upper, j.upper);
      CutCovers(j, ks[i], n, x);
    }
  }

  /** Each half of a split leaf page covers the values dealt to it. */
  lemma HalvesCover(page: seq<Bytes>, at: nat, x: Bytes)
    requires 0 < at < |page|
    ensures Ordered(KeyOf(LeftHalf(page, at))) && Ordered(KeyOf(RightHalf(page, at)))
    ensures x in page[..at] ==> Covers(KeyOf(LeftHalf(page, at)), x)
    ensures x in page[at..] ==> Covers(KeyOf(RightHalf(page, at)), x)
  {
    hide Join, Common, Le;
    var l, r := JoinRange(LeafKeys(page), 0, at), JoinRange(LeafKeys(page), at, |page|);
    LeafCutCovers(page, 0, at, HalfLength(l, r), x);
    LeafCutCovers(page, at, |page|, HalfLength(r, l), x);
  }

  lemma LeafCutCovers(xs: seq<Bytes>, lo: nat, hi: nat, n: nat, x: Bytes)
    requires lo < hi <= |xs|
    requires var j := JoinRange(LeafKeys(xs), lo, hi); n >= Common(j.lower, j.upper) + 2
    ensures Ordered(Cut(JoinRange(LeafKeys(xs), lo, hi), n))
    ensures x in xs[lo..hi] ==> Covers(Cut(JoinRange(LeafKeys(xs), lo, hi), n), x)
  {
    var ks := LeafKeys(xs);
    forall i | lo <= i < hi ensures Ordered(ks[i]) { LeReflexive(ks[i].lower); }
    var j := JoinRange(ks, lo, hi);
    JoinBounds(ks, lo, hi, lo);
    CutKeepsPrefix(j, n);
    if x in xs[lo..hi] {
      var i :| lo <= i < hi && xs[i] == x;
      JoinBounds(ks, lo, hi, i);
      LeafHidesNothing(x, Cut(j, n).upper);
      CutCovers(j, ks[i], n, x);
    }
  }

  /** Descending on the consistent method never skips a matching value. */
  lemma CoveredIsConsistent(k: Key, x: Bytes, q: Bytes, s: Strategy)
    requires Covers(k, x) && Matches(x, q, s)
    ensures Consistent(k, q, s, false)
  {
    match s
    case Less =>
      LeTransitive(k.lower, x, q);
    case LessEqual =>
      LeTransitive(k.lower, x, q);
    case Equal =>
    case GreaterEqual =>
      AboveIsConsistent(k, x, q);
    case Greater =>
      AboveIsConsistent(k, x, q);
    case NotEqual =>
      if k.lower == k.upper {
        PartAt(k.lower, k.upper, |k.upper|);
        if x != k.lower && Le(x, k.lower) {
          LeAntisymmetric(x, k.lower);
        }
      }
    case Unknown =>
  }

  lemma AboveIsConsistent(k: Key, x: Bytes, q: Bytes)
    requires Covers(k, x) && Le(q, x)
    ensures Le(q, k.upper) || PrefixMatch(k, q)
  {
    if Le(x, k.upper) {
      LeTransitive(q, x, k.upper);
    } else if !Le(q, k.upper) {
      LeTotal(q, k.upper);
      Squeezed(k.upper, q, x);
    }
  }

  /** No row is lost, whatever nesting of unions and leaf splits produced the key. */
  lemma NoLeafLost(o: Origin, x: Bytes, q: Bytes, s: Strategy)
    requires Buildable(o) && Below(x, o) && Matches(x, q, s)
    ensures Consistent(KeyOf(o), q, s, false)
  {
    BuiltKeyCovers(o, x);
    CoveredIsConsistent(KeyOf(o), x, q, s);
  }

  lemma UnionOfTwo(x: Bytes, y: Bytes)
    requires Le(x, y)
    ensures UnionKey(LeafKeys([x, y])) == Cut(Key(x, y), Common(x, y) + 2)
  {
    var ks := LeafKeys([x, y]);
    assert JoinAll(ks) == Join(JoinRange(ks, 0, 1), ks[1]);
    assert Join(LeafKey(x), LeafKey(y)) == Key(x, y) by {
      if Le(y, x) { LeAntisymmetric(x, y); }
    }
  }

  lemma FirstKey()
    ensures UnionKey(LeafKeys([[97], [98, 122, 126]])) == Key([97], [98, 122])
  {
    PartAt([97], [98, 122, 126], 0);
    UnionOfTwo([97], [98, 122, 126]);
    assert [98, 122, 126][..2] == [98, 122];
  }

  lemma SecondKey()
    ensures UnionKey(LeafKeys([[98, 122, 97], [98, 122, 98]])) == Key([98, 122, 97], [98, 122, 98])
  {
    PartAt([98, 122, 97], [98, 122, 98], 2);
    UnionOfTwo([98, 122, 97], [98, 122, 98]);
  }

  lemma ThirdKey()
    ensures UnionKey(LeafKeys([[122, 122, 122]])) == Key([122, 122, 122], [122, 122, 122])
  {
    PartAt([122, 122, 122], [122, 122, 122], 3);
  }

  /** The entries of an inner page over the leaf pages {"a", "bz~"}, {"bza", "bzb"}, {"zzz"}, {"zzz"}. */
  function LosingPage(): seq<Key> {
    [UnionKey(LeafKeys([[97], [98, 122, 126]])), UnionKey(LeafKeys([[98, 122, 97], [98, 122, 98]])),
     UnionKey(LeafKeys([[122, 122, 122]])), UnionKey(LeafKeys([[122, 122, 122]]))]
  }

  lemma LosingSpans()
    ensures var arr := Select(LosingPage(), [0, 1, 2, 3]);
            && JoinRange(arr, 0, 2) == Key([97], [98, 122, 98])
            && JoinRange(arr, 2, 4) == Key([122, 122, 122], [122, 122, 122])
  {
    FirstKey();
    SecondKey();
    ThirdKey();
    hide UnionKey;
    var arr := Select(LosingPage(), [0, 1, 2, 3]);
    PartAt([97], [98, 122, 97], 0);
    PartAt([98, 122, 98], [98, 122], 2);
    PartAt([122, 122, 122], [122, 122, 122], 3);
    assert JoinRange(arr, 0, 2) == Join(JoinRange(arr, 0, 1), arr[1]);
    assert JoinRange(arr, 2, 4) == Join(JoinRange(arr, 2, 3), arr[3]);
  }

  lemma LosingKey()
    ensures HalfKey(Key([97], [98, 122, 98]), Key([122, 122, 122], [122, 122, 122])) == Key([97], [98, 122, 98])
  {
    PartAt([97], [98, 122, 98], 0);
    PartAt([122, 122, 122], [122, 122, 122], 3);
  }

  lemma SplitKeyLoses()
    ensures Covers(Key([97], [98, 122]), [98, 122, 126])
    ensures !Consistent(Key([97], [98, 122, 98]), [98, 122, 126], Equal, false)
  {
    PartAt([97], [98, 122], 0);
    PartAt([97], [98, 122, 126], 0);
    PartAt([98, 122, 126], [98, 122], 2);
    PartAt([98, 122, 126], [98, 122, 98], 2);
  }

  /**
    Splitting an inner page can lose rows.  The last two entries share a long prefix, so
    the left half is not cut and its upper bound "bzb" is above the cut bound "bz" of the
    first entry but below the value "bz~" under that entry.  The key is the one that
    PickSplit returns for the left side.
   */
  lemma InnerSplitLosesRow()
    ensures var page := LosingPage();
            var arr := Select(page, [0, 1, 2, 3]);
            var key := HalfKey(JoinRange(arr, 0, |page| / 2), JoinRange(arr, |page| / 2, |arr|));
            && Covers(page[0], [98, 122, 126])
            && !Consistent(key, [98, 122, 126], Equal, false)
  {
    FirstKey();
    LosingSpans();
    LosingKey();
    SplitKeyLoses();
    hide UnionKey, HalfKey, JoinRange, Covers, Consistent;
  }

  // ---------- A whole index against its plain content ----------

  /** The key was built over at least this value. */
  ghost predicate BuiltOver(k: Key, x: Bytes) {
    exists o :: Buildable(o) && KeyOf(o) == k && Below(x, o)
  }

  function Follow(q: Bytes, s: Strategy): Key -> bool {
    k => Consistent(k, q, s, false)
  }

  function Hit(q: Bytes, s: Strategy): Bytes -> bool {
    x => Consistent(LeafKey(x), q, s, true)
  }

  function Wanted(q: Bytes, s: Strategy): Bytes -> bool {
    x => Matches(x, q, s)
  }

  /** An index scan returns exactly the matching rows, in order, for every query. */
  lemma ScanIsExact(p: Page<Key, Bytes>, q: Bytes, s: Strategy)
    requires Indexed(p, BuiltOver)
    ensures Search(p, Follow(q, s), Hit(q, s)) == Filter(Values(p), Wanted(q, s))
  {
    forall k, x | BuiltOver(k, x) && Hit(q, s)(x) ensures Follow(q, s)(k) {
      var o :| Buildable(o) && KeyOf(o) == k && Below(x, o);
      NoLeafLost(o, x, q, s);
    }
    SearchIsExact(p, BuiltOver, Follow(q, s), Hit(q, s));
    FilterAgree(Values(p), Hit(q, s), Wanted(q, s));
  }

  // ---------- What is admitted ----------

  /** A key is followed only for queries that some value below it could match, or that extend one of its bounds. */
  lemma ConsistentIsPossible(k: Key, q: Bytes, s: Strategy)
    requires Ordered(k) && Consistent(k, q, s, false)
    ensures (exists x :: Covers(k, x) && Matches(x, q, s)) || PrefixMatch(k, q)
  {
    hide Le;
    LeReflexive(k.lower);
    LeReflexive(k.upper);
    LeReflexive(q);
    assert Covers(k, k.lower) && Covers(k, k.upper);
    if !PrefixMatch(k, q) {
      assert k.lower != q && k.upper != q;
      match s
      case LessEqual => assert Matches(k.lower, q, s);
      case Less => assert Matches(k.lower, q, s);
      case Equal => assert Covers(k, q) && Matches(q, q, s);
      case Greater => assert Matches(k.upper, q, s);
      case GreaterEqual => assert Matches(k.upper, q, s);
      case NotEqual => assert Matches(k.lower, q, s);
    }
  }
}
