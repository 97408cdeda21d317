/**
  Cubes of any dimension over real coordinates, and the loops that combine and compare
  them.  A dimension that a cube does not have counts as the interval from 0 to 0.
 */
module Cube {

  /** The point flag says that the upper right coordinates are not stored. */
  datatype NDBOX = NDBOX(point: bool, dim: nat, x: seq<real>) {
    predicate Valid() {
      |x| == if point then dim else 2 * dim
    }

    function LL(i: nat): real
      requires Valid() && i < dim
    {
      x[i]
    }

    function UR(i: nat): real
      requires Valid() && i < dim
    {
      if point then x[i] else x[i + dim]
    }

    /** The lower end of the cube in dimension i. */
    function Lo(i: nat): real
      requires Valid()
    {
      if i < dim then Min(LL(i), UR(i)) else 0.0
    }

    /** The upper end of the cube in dimension i. */
    function Hi(i: nat): real
      requires Valid()
    {
      if i < dim then Max(LL(i), UR(i)) else 0.0
    }
  }

  type Box = c: NDBOX | c.Valid() witness NDBOX(true, 0, [])

  function Min(a: real, b: real): real {
    if a < b then a else b
  }

  function Max(a: real, b: real): real {
    if a > b then a else b
  }

  lemma Interval(c: Box, i: nat)
    ensures c.Lo(i) <= c.Hi(i)
  {
  }

  // ---------- Union ----------

  /** Interval i of r is the least one that covers interval i of a and of b. */
  predicate Spans(r: Box, a: Box, b: Box, i: nat) {
    r.Lo(i) == Min(a.Lo(i), b.Lo(i)) && r.Hi(i) == Max(a.Hi(i), b.Hi(i))
  }

  /** r is the least box around a and b, in as many dimensions as the larger of the two has. */
  predicate IsUnion(r: Box, a: Box, b: Box) {
    && r.dim == MaxDim(a, b)
    && forall i | 0 <= i < r.dim :: Spans(r, a, b, i)
  }

  /** cube_is_point_internal. */
  method IsPoint(c: Box) returns (r: bool)
    ensures r <==> forall i | 0 <= i < c.dim :: c.LL(i) == c.UR(i)
  {
    if c.point {
      return true;
    }
    for i := 0 to c.dim
      invariant forall j | 0 <= j < i :: c.LL(j) == c.UR(j)
    {
      if c.LL(i) != c.UR(i) {
        return false;
      }
    }
    r := true;
  }

  /** The loops of cube_union_v0, for a of at least as many dimensions as b. */
  method UnionBounds(a: Box, b: Box) returns (lo: seq<real>, hi: seq<real>)
    requires b.dim <= a.dim
    ensures |lo| == a.dim && |hi| == a.dim
    ensures forall i | 0 <= i < a.dim :: lo[i] == Min(a.Lo(i), b.Lo(i)) && hi[i] == Max(a.Hi(i), b.Hi(i))
  {
    lo, hi := [], [];
    for i := 0 to b.dim
      invariant |lo| == i && |hi| == i
      invariant forall j | 0 <= j < i :: lo[j] == Min(a.Lo(j), b.Lo(j)) && hi[j] == Max(a.Hi(j), b.Hi(j))
    {
      lo := lo + [Min(Min(a.LL(i), a.UR(i)), Min(b.LL(i), b.UR(i)))];
      hi := hi + [Max(Max(a.LL(i), a.UR(i)), Max(b.LL(i), b.UR(i)))];
    }
    for i := b.dim to a.dim
      invariant |lo| == i && |hi| == i
      invariant forall j | 0 <= j < i :: lo[j] == Min(a.Lo(j), b.Lo(j)) && hi[j] == Max(a.Hi(j), b.Hi(j))
    {
      lo := lo + [Min(0.0, Min(a.LL(i), a.UR(i)))];
      hi := hi + [Max(0.0, Max(a.LL(i), a.UR(i)))];
    }
  }

  /** cube_union_v0; same says that both pointers are equal. */
  method Union(a: Box, b: Box, same: bool) returns (r: Box)
    requires same ==> a == b
    ensures IsUnion(r, a, b)
  {
    if same {
      return a;
    }
    var lo, hi;
    if a.dim < b.dim {
      lo, hi := UnionBounds(b, a);
    } else {
      lo, hi := UnionBounds(a, b);
    }
    hide IsUnion;
    r := NDBOX(false, |lo|, lo + hi);
    UnionStored(r, a, b, lo, hi);
    var point := IsPoint(r);
    if point {
      PointStored(r, a, b, lo, hi);
      r := NDBOX(true, |lo|, lo);
    }
  }

  predicate Bounds(a: Box, b: Box, lo: seq<real>, hi: seq<real>) {
    && |lo| == |hi| == MaxDim(a, b)
    && forall i | 0 <= i < |lo| :: lo[i] == Min(a.Lo(i), b.Lo(i)) && hi[i] == Max(a.Hi(i), b.Hi(i))
  }

  lemma UnionStored(c: Box, a: Box, b: Box, lo: seq<real>, hi: seq<real>)
    requires Bounds(a, b, lo, hi) && c == NDBOX(false, |lo|, lo + hi)
    ensures IsUnion(c, a, b)
  {
    forall i | 0 <= i < |lo| ensures Spans(c, a, b, i) {
      assert c.LL(i) == lo[i] && c.UR(i) == hi[i];
      Interval(a, i);
      Interval(b, i);
    }
  }

  lemma PointStored(c: Box, a: Box, b: Box, lo: seq<real>, hi: seq<real>)
    requires Bounds(a, b, lo, hi) && c == NDBOX(false, |lo|, lo + hi)
    requires forall i | 0 <= i < c.dim :: c.LL(i) == c.UR(i)
    ensures IsUnion(NDBOX(true, |lo|, lo), a, b)
  {
    UnionStored(c, a, b, lo, hi);
    var p: Box := NDBOX(true, |lo|, lo);
    forall i | 0 <= i < |lo| ensures Spans(p, a, b, i) {
      assert Spans(c, a, b, i);
      assert c.LL(i) == lo[i] && c.UR(i) == hi[i];
    }
  }

  /** key is around leaf in every dimension, also those that leaf does not have. */
  predicate Covers(key: Box, leaf: Box) {
    && leaf.dim <= key.dim
    && forall i | 0 <= i < key.dim :: Within(key, leaf, i)
  }

  predicate Within(key: Box, leaf: Box, i: nat) {
    key.Lo(i) <= leaf.Lo(i) && leaf.Hi(i) <= key.Hi(i)
  }

  lemma CoversSelf(c: Box)
    ensures Covers(c, c)
  {
  }

  lemma CoversTransitive(a: Box, b: Box, c: Box)
    requires Covers(a, b) && Covers(b, c)
    ensures Covers(a, c)
  {
    forall i | 0 <= i < a.dim ensures Within(a, c, i) {
      assert Within(a, b, i);
      assert i < b.dim ==> Within(b, c, i);
    }
  }

  /** The union covers both, and whatever covers both covers the union. */
  lemma UnionIsLeast(r: Box, a: Box, b: Box, key: Box)
    requires IsUnion(r, a, b)
    ensures Covers(r, a) && Covers(r, b)
    ensures Covers(key, a) && Covers(key, b) ==> Covers(key, r)
  {
    forall i | 0 <= i < r.dim ensures Within(r, a, i) && Within(r, b, i) {
      assert Spans(r, a, b, i);
    }
    if Covers(key, a) && Covers(key, b) {
      forall i | 0 <= i < key.dim ensures Within(key, r, i) {
        assert Within(key, a, i) && Within(key, b, i);
        assert i < r.dim ==> Spans(r, a, b, i);
      }
    }
  }

  // ---------- Comparisons ----------

  /** a contains b, on the dimensions of b. */
  predicate Contains(a: Box, b: Box) {
    forall i | 0 <= i < b.dim :: Within(a, b, i)
  }

  predicate Meets(a: Box, b: Box, i: nat) {
    a.Lo(i) <= b.Hi(i) && b.Lo(i) <= a.Hi(i)
  }

  ghost predicate Overlap(a: Box, b: Box) {
    forall i: nat :: Meets(a, b, i)
  }

  /** The same intervals in the same number of dimensions. */
  predicate Same(a: Box, b: Box) {
    a.dim == b.dim && forall i | 0 <= i < a.dim :: a.Lo(i) == b.Lo(i) && a.Hi(i) == b.Hi(i)
  }

  predicate InSpan(v: real, c: Box, i: nat) {
    c.Lo(i) <= v <= c.Hi(i)
  }

  /** A point lies in a cube; a coordinate the cube does not have must be zero. */
  predicate InCube(p: seq<real>, c: Box) {
    c.dim <= |p| && forall i | 0 <= i < |p| :: InSpan(p[i], c, i)
  }

  /** Cubes overlap exactly if they share a point. */
  lemma OverlapIsSharedPoint(a: Box, b: Box)
    ensures Overlap(a, b) <==> exists p :: InCube(p, a) && InCube(p, b)
  {
    if Overlap(a, b) {
      var p := seq(MaxDim(a, b), i requires 0 <= i => Max(a.Lo(i), b.Lo(i)));
      forall i | 0 <= i < |p| ensures InSpan(p[i], a, i) && InSpan(p[i], b, i) {
        assert Meets(a, b, i);
      }
      assert InCube(p, a) && InCube(p, b);
    }
    if p :| InCube(p, a) && InCube(p, b) {
      forall i: nat ensures Meets(a, b, i) {
        if i < |p| {
          assert InSpan(p[i], a, i) && InSpan(p[i], b, i);
        }
      }
    }
  }

  /** The point lies in the cube as far as the first n coordinates go. */
  predicate InFirst(p: seq<real>, c: Box, n: nat)
    requires n <= |p|
  {
    forall i | 0 <= i < n :: InSpan(p[i], c, i)
  }

  /** A cube contains another exactly if it holds all its points, on the dimensions of the other. */
  lemma ContainsIsAllPoints(a: Box, b: Box)
    ensures Contains(a, b) <==> forall p | InCube(p, b) :: InFirst(p, a, b.dim)
  {
    if Contains(a, b) {
      forall p | InCube(p, b) ensures InFirst(p, a, b.dim) {
        forall i | 0 <= i < b.dim ensures InSpan(p[i], a, i) {
          assert Within(a, b, i) && InSpan(p[i], b, i);
        }
      }
    } else {
      var i :| 0 <= i < b.dim && !Within(a, b, i);
      var low, high := seq(b.dim, j requires 0 <= j => b.Lo(j)), seq(b.dim, j requires 0 <= j => b.Hi(j));
      assert InCube(low, b) && InCube(high, b);
      assert InFirst(low, a, b.dim) ==> InSpan(low[i], a, i);
      assert InFirst(high, a, b.dim) ==> InSpan(high[i], a, i);
    }
  }

  /** cube_contains_v0. */
  method CubeContains(a: Box, b: Box) returns (r: bool)
    ensures r <==> Contains(a, b)
  {
    if a.dim < b.dim {
      for i := a.dim to b.dim
        invariant forall j | a.dim <= j < i :: Within(a, b, j)
      {
        if b.LL(i) != 0.0 || b.UR(i) != 0.0 {
          assert !Within(a, b, i);
          return false;
        }
      }
    }
    var n := if a.dim < b.dim then a.dim else b.dim;
    for i := 0 to n
      invariant forall j | 0 <= j < i :: Within(a, b, j)
    {
      if Min(a.LL(i), a.UR(i)) > Min(b.LL(i), b.UR(i)) || Max(a.LL(i), a.UR(i)) < Max(b.LL(i), b.UR(i)) {
        assert !Within(a, b, i);
        return false;
      }
    }
    r := true;
  }

  /** cube_overlap_v0. */
  method CubeOverlap(a0: Box, b0: Box) returns (r: bool)
    ensures r <==> Overlap(a0, b0)
  {
    var a, b := a0, b0;
    if a.dim < b.dim {
      a, b := b, a;
    }
    for i := 0 to b.dim
      invariant forall j | 0 <= j < i :: Meets(a, b, j)
    {
      if Min(a.LL(i), a.UR(i)) > Max(b.LL(i), b.UR(i)) || Max(a.LL(i), a.UR(i)) < Min(b.LL(i), b.UR(i)) {
        assert !Meets(a0, b0, i);
        return false;
      }
    }
    for i := b.dim to a.dim
      invariant forall j | 0 <= j < i :: Meets(a, b, j)
    {
      if Min(a.LL(i), a.UR(i)) > 0.0 || Max(a.LL(i), a.UR(i)) < 0.0 {
        assert !Meets(a0, b0, i);
        return false;
      }
    }
    r := true;
    assert forall i: nat :: Meets(a0, b0, i) <==> Meets(a, b, i);
  }

  /**
    The k-th number compared: the lower ends in the m common dimensions, then the upper
    ends there, then the lower and the upper ends in the dimensions from m to n.
   */
  function Rank(c: Box, m: nat, n: nat, k: nat): real
    requires m <= n && k < 2 * n
  {
    if k < m then c.Lo(k)
    else if k < 2 * m then c.Hi(k - m)
    else if k < m + n then c.Lo(k - m)
    else c.Hi(k - n)
  }

  predicate EqualUpTo(a: Box, b: Box, m: nat, n: nat, k: nat)
    requires m <= n && k <= 2 * n
  {
    forall j | 0 <= j < k :: Rank(a, m, n, j) == Rank(b, m, n, j)
  }

  /** The first difference is at k, and r says which of the two is smaller there. */
  predicate DecidedAt(a: Box, b: Box, m: nat, n: nat, k: nat, r: int)
    requires m <= n && k < 2 * n
  {
    && EqualUpTo(a, b, m, n, k)
    && ((r == -1 && Rank(a, m, n, k) < Rank(b, m, n, k)) || (r == 1 && Rank(a, m, n, k) > Rank(b, m, n, k)))
  }

  function MinDim(a: Box, b: Box): nat {
    if a.dim < b.dim then a.dim else b.dim
  }

  function MaxDim(a: Box, b: Box): nat {
    if a.dim < b.dim then b.dim else a.dim
  }

  /** r is the outcome of comparing a with b: by the first difference, else by dimension. */
  predicate IsComparison(a: Box, b: Box, r: int) {
    var m, n := MinDim(a, b), MaxDim(a, b);
    || (exists k | 0 <= k < 2 * n :: DecidedAt(a, b, m, n, k, r))
    || (EqualUpTo(a, b, m, n, 2 * n) && r == if a.dim < b.dim then -1 else if a.dim > b.dim then 1 else 0)
  }

  /** The loops of cube_cmp_v0 over the dimensions that b does not have. */
  method CompareExtra(a: Box, b: Box) returns (r: int)
    requires b.dim < a.dim && EqualUpTo(a, b, b.dim, a.dim, 2 * b.dim)
    ensures IsComparison(a, b, r)
  {
    ghost var m, n := b.dim, a.dim;
    for i := b.dim to a.dim
      invariant EqualUpTo(a, b, m, n, m + i)
    {
      if Min(a.LL(i), a.UR(i)) > 0.0 {
        assert DecidedAt(a, b, m, n, m + i, 1);
        return 1;
      }
      if Min(a.LL(i), a.UR(i)) < 0.0 {
        assert DecidedAt(a, b, m, n, m + i, -1);
        return -1;
      }
    }
    for i := b.dim to a.dim
      invariant EqualUpTo(a, b, m, n, n + i)
    {
      if Max(a.LL(i), a.UR(i)) > 0.0 {
        assert DecidedAt(a, b, m, n, n + i, 1);
        return 1;
      }
      if Max(a.LL(i), a.UR(i)) < 0.0 {
        assert DecidedAt(a, b, m, n, n + i, -1);
        return -1;
      }
    }
    r := 1;
  }

  /** cube_cmp_v0. */
  method CubeCmp(a: Box, b: Box) returns (r: int)
    ensures IsComparison(a, b, r)
  {
    var dim := MinDim(a, b);
    ghost var n := MaxDim(a, b);
    for i := 0 to dim
      invariant EqualUpTo(a, b, dim, n, i)
    {
      if Min(a.LL(i), a.UR(i)) > Min(b.LL(i), b.UR(i)) {
        assert DecidedAt(a, b, dim, n, i, 1);
        return 1;
      }
      if Min(a.LL(i), a.UR(i)) < Min(b.LL(i), b.UR(i)) {
        assert DecidedAt(a, b, dim, n, i, -1);
        return -1;
      }
    }
    for i := 0 to dim
      invariant EqualUpTo(a, b, dim, n, dim + i)
    {
      if Max(a.LL(i), a.UR(i)) > Max(b.LL(i), b.UR(i)) {
        assert DecidedAt(a, b, dim, n, dim + i, 1);
        return 1;
      }
      if Max(a.LL(i), a.UR(i)) < Max(b.LL(i), b.UR(i)) {
        assert DecidedAt(a, b, dim, n, dim + i, -1);
        return -1;
      }
    }
    if a.dim > b.dim {
      r := CompareExtra(a, b);
    } else if a.dim < b.dim {
      r := CompareExtra(b, a);
      ComparisonTurned(b, a, r);
      r := -r;
    } else {
      r := 0;
    }
  }

  lemma ComparisonTurned(a: Box, b: Box, r: int)
    requires IsComparison(a, b, r)
    ensures IsComparison(b, a, -r)
  {
    var m, n := MinDim(a, b), MaxDim(a, b);
    assert MinDim(b, a) == m && MaxDim(b, a) == n;
    if k :| 0 <= k < 2 * n && DecidedAt(a, b, m, n, k, r) {
      assert DecidedAt(b, a, m, n, k, -r);
    }
  }

  /** Comparison has one outcome, and it is zero exactly for the same cube. */
  lemma ComparisonDecides(a: Box, b: Box, r: int, s: int)
    requires IsComparison(a, b, r) && IsComparison(a, b, s)
    ensures r == s && (r == 0 <==> Same(a, b))
  {
    hide Rank;
    var m, n := MinDim(a, b), MaxDim(a, b);
    if k :| 0 <= k < 2 * n && DecidedAt(a, b, m, n, k, r) {
      if l :| 0 <= l < 2 * n && DecidedAt(a, b, m, n, l, s) {
        FirstDifference(a, b, m, n, k, l, r, s);
      }
      assert Rank(a, m, n, k) != Rank(b, m, n, k);
    }
    SameIsEqual(a, b);
  }

  lemma FirstDifference(a: Box, b: Box, m: nat, n: nat, k: nat, l: nat, r: int, s: int)
    requires m <= n && k < 2 * n && l < 2 * n && DecidedAt(a, b, m, n, k, r) && DecidedAt(a, b, m, n, l, s)
    ensures k == l && r == s
  {
    hide Rank;
  }

  lemma SameIsEqual(a: Box, b: Box)
    ensures Same(a, b) <==> a.dim == b.dim && EqualUpTo(a, b, MinDim(a, b), MaxDim(a, b), 2 * MaxDim(a, b))
  {
    if a.dim == b.dim {
      var n := a.dim;
      if EqualUpTo(a, b, n, n, 2 * n) {
        forall i | 0 <= i < n ensures a.Lo(i) == b.Lo(i) && a.Hi(i) == b.Hi(i) {
          assert Rank(a, n, n, i) == Rank(b, n, n, i);
          assert Rank(a, n, n, n + i) == Rank(b, n, n, n + i);
        }
      }
    }
  }

  // ---------- The order of the comparison, spelled out ----------

  function Sign(x: real, y: real): int {
    if x < y then -1 else if x > y then 1 else 0
  }

  predicate SameLo(a: Box, b: Box, from: nat, to: nat) {
    forall i | from <= i < to :: a.Lo(i) == b.Lo(i)
  }

  predicate SameHi(a: Box, b: Box, from: nat, to: nat) {
    forall i | from <= i < to :: a.Hi(i) == b.Hi(i)
  }

  /** The first lower end from dimension from on that differs is at i. */
  predicate FirstLo(a: Box, b: Box, from: nat, i: nat) {
    from <= i && SameLo(a, b, from, i) && a.Lo(i) != b.Lo(i)
  }

  predicate FirstHi(a: Box, b: Box, from: nat, i: nat) {
    from <= i && SameHi(a, b, from, i) && a.Hi(i) != b.Hi(i)
  }

  lemma DecidedBy(a: Box, b: Box, r: int, k: nat, s: int)
    requires IsComparison(a, b, r) && k < 2 * MaxDim(a, b)
    requires DecidedAt(a, b, MinDim(a, b), MaxDim(a, b), k, s)
    ensures r == s
  {
    hide DecidedAt, EqualUpTo;
    assert IsComparison(a, b, s);
    ComparisonDecides(a, b, r, s);
  }

  /** Common lower ends decide before common upper ends. */
  lemma CommonEnds(a: Box, b: Box, r: int, i: nat)
    requires IsComparison(a, b, r) && i < MinDim(a, b)
    ensures FirstLo(a, b, 0, i) ==> r == Sign(a.Lo(i), b.Lo(i))
    ensures SameLo(a, b, 0, MinDim(a, b)) && FirstHi(a, b, 0, i) ==> r == Sign(a.Hi(i), b.Hi(i))
  {
    hide IsComparison;
    var m := MinDim(a, b);
    if FirstLo(a, b, 0, i) {
      DecidedBy(a, b, r, i, Sign(a.Lo(i), b.Lo(i)));
    }
    if SameLo(a, b, 0, m) && FirstHi(a, b, 0, i) {
      DecidedBy(a, b, r, m + i, Sign(a.Hi(i), b.Hi(i)));
    }
  }

  /** Then come the lower ends and then the upper ends in the dimensions that only one cube has. */
  lemma OtherEnds(a: Box, b: Box, r: int, i: nat)
    requires IsComparison(a, b, r) && MinDim(a, b) <= i < MaxDim(a, b)
    requires SameLo(a, b, 0, MinDim(a, b)) && SameHi(a, b, 0, MinDim(a, b))
    ensures FirstLo(a, b, MinDim(a, b), i) ==> r == Sign(a.Lo(i), b.Lo(i))
    ensures SameLo(a, b, MinDim(a, b), MaxDim(a, b)) && FirstHi(a, b, MinDim(a, b), i) ==> r == Sign(a.Hi(i), b.Hi(i))
  {
    hide IsComparison;
    var m, n := MinDim(a, b), MaxDim(a, b);
    if FirstLo(a, b, m, i) {
      DecidedBy(a, b, r, m + i, Sign(a.Lo(i), b.Lo(i)));
    }
    if SameLo(a, b, m, n) && FirstHi(a, b, m, i) {
      DecidedBy(a, b, r, n + i, Sign(a.Hi(i), b.Hi(i)));
    }
  }

  /** If no end differs, the cube with fewer dimensions is the smaller one. */
  lemma NoEnds(a: Box, b: Box, r: int)
    requires IsComparison(a, b, r) && SameLo(a, b, 0, MaxDim(a, b)) && SameHi(a, b, 0, MaxDim(a, b))
    ensures r == Sign(a.dim as real, b.dim as real)
  {
  }
}
