/** Filtering of sequences, and the point where two sequences part. */
module Sequences {

  /** The elements of s that satisfy p, in order. */
  function Filter<T>(s: seq<T>, p: T -> bool): seq<T> {
    if s == [] then []
    else if p(s[0]) then [s[0]] + Filter(s[1..], p)
    else Filter(s[1..], p)
  }

  lemma {:induction false} FilterConcat<T>(a: seq<T>, b: seq<T>, p: T -> bool)
    ensures Filter(a + b, p) == Filter(a, p) + Filter(b, p)
  {
    if a == [] {
      assert a + b == b;
    } else {
      FilterConcat(a[1..], b, p);
      assert (a + b)[1..] == a[1..] + b;
    }
  }

  lemma {:induction false} FilterNone<T>(s: seq<T>, p: T -> bool)
    requires forall i | 0 <= i < |s| :: !p(s[i])
    ensures Filter(s, p) == []
  {
    if s != [] {
      FilterNone(s[1..], p);
    }
  }

  lemma {:induction false} FilterEmpty<T>(s: seq<T>, p: T -> bool)
    requires Filter(s, p) == []
    ensures forall i | 0 <= i < |s| :: !p(s[i])
  {
    if s != [] {
      FilterEmpty(s[1..], p);
      assert forall i | 1 <= i < |s| :: s[i] == s[1..][i - 1];
    }
  }

  lemma FilterSnoc<T>(s: seq<T>, n: nat, p: T -> bool)
    requires n < |s|
    ensures Filter(s[..n + 1], p) == Filter(s[..n], p) + if p(s[n]) then [s[n]] else []
  {
    assert s[..n + 1] == s[..n] + [s[n]];
    FilterConcat(s[..n], [s[n]], p);
    assert [s[n]][1..] == [];
  }

  lemma {:induction false} FilterLength<T>(s: seq<T>, p: T -> bool)
    ensures |Filter(s, p)| <= |s|
    ensures |Filter(s, p)| == |s| ==> Filter(s, p) == s
  {
    if s != [] {
      FilterLength(s[1..], p);
    }
  }

  lemma {:induction false} FilterBag<T>(s: seq<T>, p: T -> bool)
    ensures multiset(Filter(s, p)) <= multiset(s)
  {
    if s != [] {
      FilterBag(s[1..], p);
      assert s == [s[0]] + s[1..];
    }
  }

  lemma {:induction false} FilterSatisfies<T>(s: seq<T>, p: T -> bool)
    ensures forall x | x in Filter(s, p) :: p(x) && x in s
  {
    if s != [] {
      FilterSatisfies(s[1..], p);
    }
  }

  lemma {:induction false} FilterCount<T>(s: seq<T>, p: T -> bool, x: T)
    ensures multiset(Filter(s, p))[x] == if p(x) then multiset(s)[x] else 0
  {
    if s != [] {
      FilterCount(s[1..], p, x);
      assert s == [s[0]] + s[1..];
    }
  }

  lemma {:induction false} FilterAgree<T>(s: seq<T>, p: T -> bool, q: T -> bool)
    requires forall i | 0 <= i < |s| :: p(s[i]) == q(s[i])
    ensures Filter(s, p) == Filter(s, q)
  {
    if s != [] {
      FilterAgree(s[1..], p, q);
    }
  }

  /** First position from i on where the sequences part or one of them ends. */
  function Parting<T(==)>(a: seq<T>, b: seq<T>, i: nat): (n: nat)
    requires i <= |a| && i <= |b|
    ensures i <= n <= |a| && n <= |b|
    decreases |a| - i
  {
    if i < |a| && i < |b| && a[i] == b[i] then Parting(a, b, i + 1) else i
  }

  lemma {:induction false} PartingSplits<T>(a: seq<T>, b: seq<T>, i: nat)
    requires i <= |a| && i <= |b|
    ensures var n := Parting(a, b, i);
            && (forall j | i <= j < n :: a[j] == b[j])
            && (n < |a| && n < |b| ==> a[n] != b[n])
    decreases |a| - i
  {
    if i < |a| && i < |b| && a[i] == b[i] {
      PartingSplits(a, b, i + 1);
    }
  }

  lemma PartsAt<T>(a: seq<T>, b: seq<T>, n: nat)
    requires n <= |a| && n <= |b| && (forall j | 0 <= j < n :: a[j] == b[j])
    requires n == |a| || n == |b| || a[n] != b[n]
    ensures Parting(a, b, 0) == n
  {
    PartingSplits(a, b, 0);
  }
}
