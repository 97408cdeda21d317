/**
  Byte strings as the C code sees them through memcmp: unsigned bytes, compared
  position by position, a proper prefix sorting first (byteacmp, comparePairs).
 */
module ByteStrings {
  import opened Sequences

  type byte = b: int | 0 <= b < 256

  type Bytes = seq<byte>

  /** Length of the longest common prefix. */
  function Common(a: Bytes, b: Bytes): (n: nat)
    ensures n <= |a| && n <= |b|
  {
    Parting(a, b, 0)
  }

  /** memcmp over the shorter length, then the length difference: a <= b. */
  predicate Le(a: Bytes, b: Bytes) {
    var n := Common(a, b);
    n == |a| || (n < |b| && a[n] < b[n])
  }

  predicate Lt(a: Bytes, b: Bytes) {
    Le(a, b) && a != b
  }

  /** The strings agree up to Common and part there. */
  lemma CommonSplits(a: Bytes, b: Bytes)
    ensures forall i | 0 <= i < Common(a, b) :: a[i] == b[i]
    ensures Common(a, b) < |a| && Common(a, b) < |b| ==> a[Common(a, b)] != b[Common(a, b)]
  {
    PartingSplits(a, b, 0);
  }

  /** The position where two strings part is Common, and decides Le. */
  lemma PartAt(a: Bytes, b: Bytes, n: nat)
    requires n <= |a| && n <= |b|
    requires forall i | 0 <= i < n :: a[i] == b[i]
    requires n == |a| || n == |b| || a[n] != b[n]
    ensures Common(a, b) == n
    ensures Le(a, b) <==> n == |a| || (n < |b| && a[n] < b[n])
  {
    CommonSplits(a, b);
  }

  lemma LeReflexive(a: Bytes)
    ensures Le(a, a) && Common(a, a) == |a|
  {
    PartAt(a, a, |a|);
  }

  lemma LeTotal(a: Bytes, b: Bytes)
    ensures Le(a, b) || Le(b, a)
  {
    CommonSplits(a, b);
    PartAt(b, a, Common(a, b));
  }

  lemma LeAntisymmetric(a: Bytes, b: Bytes)
    requires Le(a, b) && Le(b, a)
    ensures a == b
  {
    CommonSplits(a, b);
    PartAt(b, a, Common(a, b));
  }

  lemma LeTransitive(a: Bytes, b: Bytes, c: Bytes)
    requires Le(a, b) && Le(b, c)
    ensures Le(a, c)
  {
    CommonSplits(a, b);
    CommonSplits(b, c);
    var m, n := Common(a, b), Common(b, c);
    PartAt(a, c, if m < n then m else n);
  }

  /** A prefix sorts at or before its extensions. */
  lemma PrefixLe(a: Bytes, b: Bytes)
    requires a <= b
    ensures Le(a, b)
  {
    PartAt(a, b, |a|);
  }

  /** A string squeezed between a string and one of its extensions extends it too. */
  lemma Squeezed(p: Bytes, x: Bytes, q: Bytes)
    requires p <= q && Le(p, x) && Le(x, q)
    ensures p <= x
  {
    CommonSplits(p, x);
    CommonSplits(x, q);
  }

  /** Moving two bounds apart can only shorten their common prefix. */
  lemma CommonShrinks(lo: Bytes, a: Bytes, b: Bytes, hi: Bytes)
    requires Le(lo, a) && Le(a, b) && Le(b, hi)
    ensures Common(lo, hi) <= Common(a, b)
  {
    CommonSplits(lo, hi);
    CommonSplits(a, b);
    var p := lo[..Common(lo, hi)];
    LeTransitive(a, b, hi);
    LeTransitive(lo, a, b);
    PrefixLe(p, lo);
    LeTransitive(p, lo, a);
    LeTransitive(p, lo, b);
    Squeezed(p, a, hi);
    Squeezed(p, b, hi);
  }
}
