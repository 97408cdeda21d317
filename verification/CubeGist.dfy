/** The GiST operator class of cube: union, split, and pruning of a scan. */
module CubeGist {
  import opened Optional
  import opened Cube
  import opened Sequences
  import opened GistTree

  // The old strategy numbers for contains and contained-by behave like the new ones.
  datatype Strategy = RTOverlap | RTSame | RTContains | RTContainedBy | RTOther

  /** What the operator of the strategy says about an indexed cube. */
  ghost predicate Matches(s: Strategy, c: Box, q: Box) {
    match s
    case RTOverlap => Overlap(c, q)
    case RTSame => Same(c, q)
    case RTContains => Contains(c, q)
    case RTContainedBy => Contains(q, c)
    case RTOther => false
  }

  /** What the test on an inner entry decides. */
  ghost predicate Admits(s: Strategy, key: Box, q: Box) {
    match s
    case RTOverlap => Overlap(key, q)
    case RTSame => Contains(key, q)
    case RTContains => Contains(key, q)
    case RTContainedBy => Overlap(key, q)
    case RTOther => false
  }

  /** g_cube_leaf_consistent. */
  method LeafConsistent(key: Box, q: Box, s: Strategy) returns (r: bool)
    ensures r <==> Matches(s, key, q)
  {
    match s
    case RTOverlap => r := CubeOverlap(key, q);
    case RTSame =>
      var cmp := CubeCmp(key, q);
      ComparisonDecides(key, q, cmp, cmp);
      r := cmp == 0;
    case RTContains => r := CubeContains(key, q);
    case RTContainedBy => r := CubeContains(q, key);
    case RTOther => r := false;
  }

  /** g_cube_internal_consistent. */
  method InternalConsistent(key: Box, q: Box, s: Strategy) returns (r: bool)
    ensures r <==> Admits(s, key, q)
  {
    match s
    case RTOverlap => r := CubeOverlap(key, q);
    case RTSame => r := CubeContains(key, q);
    case RTContains => r := CubeContains(key, q);
    case RTContainedBy => r := CubeOverlap(key, q);
    case RTOther => r := false;
  }

  // ---------- No matching cube is pruned ----------

  /** Key and query meet in the dimensions of the query that the leaf does not have. */
  predicate ExtraMeets(key: Box, leaf: Box, q: Box) {
    forall i | leaf.dim <= i < q.dim :: Meets(key, q, i)
  }

  lemma WithinAll(key: Box, leaf: Box, i: nat)
    requires Covers(key, leaf)
    ensures Within(key, leaf, i)
  {
    if i < key.dim {
      assert Within(key, leaf, i);
    }
  }

  /** A key that covers a matching cube admits the query, with the same exception as AncestorAdmits. */
  lemma CoveringAdmits(key: Box, leaf: Box, q: Box, s: Strategy)
    requires Covers(key, leaf) && Matches(s, leaf, q)
    ensures Admits(s, key, q) <==> s != RTContainedBy || ExtraMeets(key, leaf, q)
  {
    match s
    case RTOverlap =>
      forall i: nat ensures Meets(key, q, i) {
        assert Meets(leaf, q, i);
        WithinAll(key, leaf, i);
      }
    case RTSame =>
      forall i | 0 <= i < q.dim ensures Within(key, q, i) {
        WithinAll(key, leaf, i);
      }
    case RTContains =>
      forall i | 0 <= i < q.dim ensures Within(key, q, i) {
        assert Within(leaf, q, i);
        WithinAll(key, leaf, i);
      }
    case RTContainedBy =>
      if ExtraMeets(key, leaf, q) {
        forall i: nat ensures Meets(key, q, i) {
          ContainedMeets(key, leaf, q, i);
        }
      }
    case RTOther =>
  }

  lemma ContainedMeets(key: Box, leaf: Box, q: Box, i: nat)
    requires Covers(key, leaf) && Contains(q, leaf) && ExtraMeets(key, leaf, q)
    ensures Meets(key, q, i)
  {
    WithinAll(key, leaf, i);
    Interval(leaf, i);
    if i < leaf.dim {
      assert Within(q, leaf, i);
    } else if i < q.dim {
      assert Meets(key, q, i);
    }
  }

  // ---------- Union of many ----------

  predicate CoversAll(key: Box, cs: seq<Box>) {
    forall i | 0 <= i < |cs| :: Covers(key, cs[i])
  }

  /** The least box around all of them. */
  ghost predicate IsLeast(key: Box, cs: seq<Box>) {
    CoversAll(key, cs) && forall other: Box | CoversAll(other, cs) :: Covers(other, key)
  }

  lemma LeastOfOne(c: Box)
    ensures IsLeast(c, [c])
  {
    hide Covers;
    CoversSelf(c);
    forall other: Box | CoversAll(other, [c]) ensures Covers(other, c) {
      assert [c][0] == c;
    }
  }

  lemma LeastNext(key: Box, cs: seq<Box>, c: Box, r: Box)
    requires IsLeast(key, cs) && IsUnion(r, key, c)
    ensures IsLeast(r, cs + [c])
  {
    hide Covers, IsUnion;
    var all := cs + [c];
    UnionIsLeast(r, key, c, r);
    CoversSelf(r);
    forall i | 0 <= i < |all| ensures Covers(r, all[i]) {
      if i < |cs| {
        CoversTransitive(r, key, cs[i]);
      }
    }
    forall other: Box | CoversAll(other, all) ensures Covers(other, r) {
      assert forall i | 0 <= i < |cs| :: all[i] == cs[i];
      assert CoversAll(other, cs) && all[|cs|] == c;
      UnionIsLeast(r, key, c, other);
    }
  }

  /** g_cube_union: the least box around all entries, but nothing at all for a single entry. */
  method GistUnion(entries: seq<Box>) returns (out: Option<Box>)
    requires entries != []
    ensures out.None? <==> |entries| == 1
    ensures out.Some? ==> IsLeast(out.value, entries)
  {
    out := None;
    var tmp := entries[0];
    LeastOfOne(tmp);
    assert entries[..1] == [tmp];
    for i := 1 to |entries|
      invariant out.None? <==> i == 1
      invariant out.Some? ==> out.value == tmp
      invariant IsLeast(tmp, entries[..i])
    {
      hide IsUnion, IsLeast;
      var r := Union(tmp, entries[i], false);
      LeastNext(tmp, entries[..i], entries[i], r);
      assert entries[..i + 1] == entries[..i] + [entries[i]];
      out, tmp := Some(r), r;
    }
    assert entries[..|entries|] == entries;
  }

  // ---------- Split ----------

  datatype Split = Split(left: seq<nat>, right: seq<nat>, ldatum: Box, rdatum: Box)

  predicate Increasing(s: seq<nat>) {
    forall i, j | 0 <= i < j < |s| :: s[i] < s[j]
  }

  /** The key of a side is the least box around its entries. */
  ghost predicate Side(entries: seq<Box>, side: seq<nat>, key: Box) {
    side != [] && Increasing(side) && Offsets(side, |entries|) && IsLeast(key, Chosen(entries, side))
  }

  /** Every offset is on one side, in increasing order, and each key is the least of its side. */
  ghost predicate IsSplit(entries: seq<Box>, v: Split) {
    && Side(entries, v.left, v.ldatum) && Side(entries, v.right, v.rdatum)
    && OnOneSide(v.left, v.right, |entries|)
  }

  /** While the offsets below n are dealt out, a key also covers the seed of its side. */
  ghost predicate Growing(entries: seq<Box>, n: nat, seed: nat, side: seq<nat>, key: Box) {
    && 1 <= seed <= |entries| && n <= |entries| + 1
    && Increasing(side) && (forall i | 0 <= i < |side| :: 1 <= side[i] < n)
    && IsLeast(key, [entries[seed - 1]] + Chosen(entries, side))
  }

  lemma GrowingNext(entries: seq<Box>, n: nat, seed: nat, side: seq<nat>, key: Box, r: Box)
    requires Growing(entries, n, seed, side, key) && 1 <= n <= |entries| && IsUnion(r, key, entries[n - 1])
    ensures Growing(entries, n + 1, seed, side + [n], r)
  {
    hide IsLeast, IsUnion;
    var all := [entries[seed - 1]] + Chosen(entries, side);
    LeastNext(key, all, entries[n - 1], r);
    assert [entries[seed - 1]] + Chosen(entries, side + [n]) == all + [entries[n - 1]];
  }

  lemma GrowingSeed(entries: seq<Box>, seed: nat, side: seq<nat>, key: Box)
    requires Growing(entries, seed, seed, side, key)
    ensures Growing(entries, seed + 1, seed, side + [seed], key)
  {
    hide Covers;
    var c := entries[seed - 1];
    var all := [c] + Chosen(entries, side);
    assert [c] + Chosen(entries, side + [seed]) == all + [c];
    assert Covers(key, all[0]);
    forall other: Box | CoversAll(other, all + [c]) ensures Covers(other, key) {
      assert forall i | 0 <= i < |all| :: (all + [c])[i] == all[i];
    }
  }

  /** The key of a seed covers no more than the seed. */
  lemma SeedGrows(entries: seq<Box>, seed: nat, key: Box)
    requires 1 <= seed <= |entries| && IsUnion(key, entries[seed - 1], entries[seed - 1])
    ensures Growing(entries, 1, seed, [], key)
  {
    var c := entries[seed - 1];
    assert [c] + Chosen(entries, []) == [c];
    hide Covers, IsUnion;
    CoversSelf(key);
    UnionIsLeast(key, c, c, key);
    forall other: Box | CoversAll(other, [c]) ensures Covers(other, key) {
      assert [c][0] == c;
      UnionIsLeast(key, c, c, other);
    }
  }

  /** Once the seed itself has been dealt, the key is the least of the side alone. */
  lemma GrownIsSide(entries: seq<Box>, seed: nat, side: seq<nat>, key: Box)
    requires Growing(entries, |entries| + 1, seed, side, key) && seed in side
    ensures Side(entries, side, key)
  {
    hide Covers;
    var chosen := Chosen(entries, side);
    var all := [entries[seed - 1]] + chosen;
    assert forall i | 0 <= i < |chosen| :: all[i + 1] == chosen[i];
    var k :| 0 <= k < |side| && side[k] == seed;
    assert chosen[k] == all[0];
    forall other: Box | CoversAll(other, chosen) ensures Covers(other, key) {
      assert CoversAll(other, all);
    }
  }

  /** What a pair of offsets wastes. */
  function Wasted(entries: seq<Box>, waste: (Box, Box) -> real, i: nat, j: nat): real
    requires 1 <= i <= |entries| && 1 <= j <= |entries|
  {
    waste(entries[i - 1], entries[j - 1])
  }

  /** The search for the two seeds; waste is the cost of putting a pair together. */
  method Seeds(entries: seq<Box>, waste: (Box, Box) -> real) returns (seed1: nat, seed2: nat)
    requires |entries| >= 2
    ensures 1 <= seed1 < seed2 <= |entries|
    ensures forall i, j | 1 <= i < j < |entries| ::
              Wasted(entries, waste, i, j) <= Wasted(entries, waste, seed1, seed2)
  {
    hide Wasted;
    seed1, seed2 := 1, 2;
    var maxoff := |entries| - 1;
    var firsttime, best := true, 0.0;
    for i := 1 to maxoff
      invariant 1 <= seed1 < seed2 <= |entries|
      invariant firsttime <==> i == 1
      invariant !firsttime ==> best == Wasted(entries, waste, seed1, seed2)
      invariant forall k, l | 1 <= k < i && k < l <= maxoff :: Wasted(entries, waste, k, l) <= best
    {
      for j := i + 1 to maxoff + 1
        invariant 1 <= seed1 < seed2 <= |entries|
        invariant firsttime <==> i == 1 && j == i + 1
        invariant !firsttime ==> best == Wasted(entries, waste, seed1, seed2)
        invariant forall k, l | 1 <= k < i && k < l <= maxoff :: Wasted(entries, waste, k, l) <= best
        invariant forall l | i < l < j :: Wasted(entries, waste, i, l) <= best
      {
        var w := Wasted(entries, waste, i, j);
        if w > best || firsttime {
          best, seed1, seed2, firsttime := w, i, j, false;
        }
      }
    }
  }

  /** The sides while offsets are dealt out: those below n, each on one side. */
  ghost predicate Dealing(entries: seq<Box>, n: nat, seed1: nat, seed2: nat, v: Split) {
    && n >= 1 && Growing(entries, n, seed1, v.left, v.ldatum) && Growing(entries, n, seed2, v.right, v.rdatum)
    && OnOneSide(v.left, v.right, n - 1)
    && (seed1 < n ==> seed1 in v.left) && (seed2 < n ==> seed2 in v.right)
  }

  /** One round of the last loop of g_cube_picksplit: the offset i joins a side. */
  method Deal(entries: seq<Box>, size: Box -> real, seed1: nat, seed2: nat, v: Split, i: nat) returns (w: Split)
    requires 1 <= i <= |entries| && seed1 != seed2 && Dealing(entries, i, seed1, seed2, v)
    ensures Dealing(entries, i + 1, seed1, seed2, w)
  {
    hide IsLeast, IsUnion;
    if i == seed1 {
      GrowingSeed(entries, seed1, v.left, v.ldatum);
      w := v.(left := v.left + [i]);
    } else if i == seed2 {
      GrowingSeed(entries, seed2, v.right, v.rdatum);
      w := v.(right := v.right + [i]);
    } else {
      var l := Union(v.ldatum, entries[i - 1], false);
      var r := Union(v.rdatum, entries[i - 1], false);
      if size(l) - size(v.ldatum) < size(r) - size(v.rdatum) {
        GrowingNext(entries, i, seed1, v.left, v.ldatum, l);
        w := v.(left := v.left + [i], ldatum := l);
      } else {
        GrowingNext(entries, i, seed2, v.right, v.rdatum, r);
        w := v.(right := v.right + [i], rdatum := r);
      }
    }
  }

  /** g_cube_picksplit; size is the volume by which enlargements are compared. */
  method PickSplit(entries: seq<Box>, waste: (Box, Box) -> real, size: Box -> real) returns (v: Split)
    requires |entries| >= 2
    ensures IsSplit(entries, v)
  {
    hide Growing, IsUnion, Wasted;
    var seed1, seed2 := Seeds(entries, waste);
    var datumL := Union(entries[seed1 - 1], entries[seed1 - 1], true);
    var datumR := Union(entries[seed2 - 1], entries[seed2 - 1], true);
    SeedGrows(entries, seed1, datumL);
    SeedGrows(entries, seed2, datumR);
    v := Split([], [], datumL, datumR);
    for i := 1 to |entries| + 1
      invariant Dealing(entries, i, seed1, seed2, v)
    {
      hide Dealing;
      v := Deal(entries, size, seed1, seed2, v, i);
    }
    GrownIsSide(entries, seed1, v.left, v.ldatum);
    GrownIsSide(entries, seed2, v.right, v.rdatum);
  }

  // ---------- Keys as the operator class builds them ----------

  /**
    Where a key of the index comes from: an inserted cube, or the union of the keys of
    entries, which also stands for a side of a split.
   */
  datatype Origin = Stored(key: Box) | UnionOf(parts: seq<Origin>, key: Box)

  function KeysOf(parts: seq<Origin>): seq<Box> {
    seq(|parts|, i requires 0 <= i < |parts| => parts[i].key)
  }

  /** Every key is what the methods for that step may return. */
  ghost predicate Built(o: Origin)
    decreases o
  {
    match o
    case Stored(_) => true
    case UnionOf(parts, key) => (forall p | p in parts :: Built(p)) && IsLeast(key, KeysOf(parts))
  }

  predicate Below(c: Box, o: Origin)
    decreases o
  {
    match o
    case Stored(stored) => stored == c
    case UnionOf(parts, _) => exists p | p in parts :: Below(c, p)
  }

  /** However a key came about, it covers every cube below it. */
  lemma {:induction false} BuiltKeyCovers(o: Origin, c: Box)
    requires Built(o) && Below(c, o)
    ensures Covers(o.key, c)
    decreases o
  {
    hide Covers;
    match o
    case Stored(_) => CoversSelf(c);
    case UnionOf(parts, key) =>
      var p :| p in parts && Below(c, p);
      var i :| 0 <= i < |parts| && parts[i] == p;
      BuiltKeyCovers(p, c);
      assert KeysOf(parts)[i] == p.key;
      CoversTransitive(key, p.key, c);
  }

  /** Both keys of a split of a page of built keys, leaf or inner, are built from the parts of their side. */
  lemma SplitIsBuilt(parts: seq<Origin>, v: Split)
    requires (forall p | p in parts :: Built(p)) && IsSplit(KeysOf(parts), v)
    ensures Built(UnionOf(Chosen(parts, v.left), v.ldatum))
    ensures Built(UnionOf(Chosen(parts, v.right), v.rdatum))
    ensures forall c | Below(c, UnionOf(parts, v.ldatum)) ::
              Below(c, UnionOf(Chosen(parts, v.left), v.ldatum))
              || Below(c, UnionOf(Chosen(parts, v.right), v.rdatum))
  {
    hide IsLeast;
    assert KeysOf(Chosen(parts, v.left)) == Chosen(KeysOf(parts), v.left);
    assert KeysOf(Chosen(parts, v.right)) == Chosen(KeysOf(parts), v.right);
    forall c | Below(c, UnionOf(parts, v.ldatum))
      ensures Below(c, UnionOf(Chosen(parts, v.left), v.ldatum))
              || Below(c, UnionOf(Chosen(parts, v.right), v.rdatum))
    {
      var p :| p in parts && Below(c, p);
      var i :| 0 <= i < |parts| && parts[i] == p;
      SideHasEntry(parts, v.left, v.right, i);
    }
  }

  /** A key over a cube, as the operator class can have built it. */
  ghost predicate BuiltOver(k: Box, c: Box) {
    exists o :: Built(o) && Below(c, o) && o.key == k
  }

  lemma BuiltOverCovers(k: Box, c: Box)
    requires BuiltOver(k, c)
    ensures Covers(k, c)
  {
    hide Covers, Built, Below;
    var o :| Built(o) && Below(c, o) && o.key == k;
    BuiltKeyCovers(o, c);
  }

  /**
    A key admits a query that a cube below it matches, except exactly for contained-by
    when the query has dimensions that the cube lacks and does not meet the key there.
   */
  lemma AncestorAdmits(key: Box, leaf: Box, q: Box, s: Strategy)
    requires BuiltOver(key, leaf) && Matches(s, leaf, q)
    ensures Admits(s, key, q) <==> s != RTContainedBy || ExtraMeets(key, leaf, q)
  {
    hide BuiltOver, Covers, Admits, Matches, ExtraMeets;
    BuiltOverCovers(key, leaf);
    CoveringAdmits(key, leaf, q, s);
  }

  /** With no more dimensions than the cube below, contained-by is safe as well. */
  lemma FewDimensionsAdmit(key: Box, leaf: Box, q: Box, s: Strategy)
    requires BuiltOver(key, leaf) && Matches(s, leaf, q) && (s == RTContainedBy ==> q.dim <= leaf.dim)
    ensures Admits(s, key, q)
  {
    hide BuiltOver;
    AncestorAdmits(key, leaf, q, s);
  }

  /** The point 1 is contained in a two-dimensional box that a key over that point does not admit. */
  lemma ContainedByPruned()
    ensures var leaf: Box, q: Box := NDBOX(true, 1, [1.0]), NDBOX(false, 2, [0.0, 5.0, 2.0, 6.0]);
            BuiltOver(leaf, leaf) && Matches(RTContainedBy, leaf, q) && !Admits(RTContainedBy, leaf, q)
  {
    var leaf: Box, q: Box := NDBOX(true, 1, [1.0]), NDBOX(false, 2, [0.0, 5.0, 2.0, 6.0]);
    assert Within(q, leaf, 0);
    assert !Meets(leaf, q, 1);
    assert Built(Stored(leaf)) && Below(leaf, Stored(leaf));
  }

  // ---------- A whole index against its plain content ----------

  ghost function BuiltKeys(): (Box, Box) -> bool {
    (k: Box, c: Box) => BuiltOver(k, c)
  }

  ghost function Follow(q: Box, s: Strategy): Box -> bool {
    (k: Box) => Admits(s, k, q)
  }

  ghost function Hit(q: Box, s: Strategy): Box -> bool {
    (c: Box) => Matches(s, c, q)
  }

  /** The query meets a key in the dimensions that a matching cube below it lacks. */
  ghost function MeetsMatches(q: Box): (Box, Box) -> bool {
    (k: Box, c: Box) => Contains(q, c) ==> ExtraMeets(k, c, q)
  }

  /**
    An index scan returns exactly the matching cubes, in order; for contained-by exactly
    when every key meets the query in the dimensions that the matching cubes below lack.
   */
  lemma ScanIsExact(p: Page<Box, Box>, q: Box, s: Strategy)
    requires Indexed(p, BuiltKeys())
    ensures Search(p, Follow(q, s), Hit(q, s)) == Filter(Values(p), Hit(q, s))
            <==> s != RTContainedBy || Indexed(p, MeetsMatches(q))
  {
    hide BuiltOver, Admits, Matches, ExtraMeets;
    var reaches := Reaches(Follow(q, s), Hit(q, s));
    var wanted := (k: Box, c: Box) => s != RTContainedBy || MeetsMatches(q)(k, c);
    forall k: Box, c: Box | BuiltKeys()(k, c) ensures reaches(k, c) <==> wanted(k, c) {
      BuiltKeyReaches(k, c, q, s);
      assert reaches(k, c) == (Hit(q, s)(c) ==> Follow(q, s)(k));
      assert Hit(q, s)(c) == Matches(s, c, q) && Follow(q, s)(k) == Admits(s, k, q);
      assert MeetsMatches(q)(k, c) == (Contains(q, c) ==> ExtraMeets(k, c, q));
    }
    ReachedIsExact(p, Follow(q, s), Hit(q, s));
    IndexedAgain(p, BuiltKeys(), reaches, wanted);
    if s == RTContainedBy {
      IndexedAgain(p, BuiltKeys(), wanted, MeetsMatches(q));
    } else {
      IndexedTrivially(p, wanted);
    }
  }

  lemma BuiltKeyReaches(k: Box, c: Box, q: Box, s: Strategy)
    requires BuiltOver(k, c)
    ensures (Matches(s, c, q) ==> Admits(s, k, q))
            <==> s != RTContainedBy || (Contains(q, c) ==> ExtraMeets(k, c, q))
  {
    hide BuiltOver;
    if Matches(s, c, q) {
      AncestorAdmits(k, c, q, s);
    }
  }

  // ---------- What is admitted ----------

  /** A cube that is only this point. */
  function PointBox(p: seq<real>): Box {
    NDBOX(true, |p|, p)
  }

  /** A key is admitted only for queries that some cube below such a key could match. */
  lemma AdmittedIsPossible(key: Box, q: Box, s: Strategy)
    requires Admits(s, key, q) && (s == RTSame ==> Covers(key, q))
    ensures exists c: Box :: Covers(key, c) && Matches(s, c, q)
  {
    match s {
      case RTOverlap =>
        CoversSelf(key);
        assert Covers(key, key) && Matches(s, key, q);
      case RTSame => assert Covers(key, q) && Matches(s, q, q);
      case RTContains =>
        CoversSelf(key);
        assert Covers(key, key) && Matches(s, key, q);
      case RTContainedBy =>
        OverlapIsSharedPoint(key, q);
        var p :| InCube(p, key) && InCube(p, q);
        SharedPoint(key, q, p);
        assert Matches(s, PointBox(p[..key.dim]), q);
    }
  }

  lemma SharedPoint(key: Box, q: Box, p: seq<real>)
    requires InCube(p, key) && InCube(p, q)
    ensures Covers(key, PointBox(p[..key.dim])) && Contains(q, PointBox(p[..key.dim]))
  {
    var c := PointBox(p[..key.dim]);
    forall i: nat ensures i < key.dim ==> Within(key, c, i) && Within(q, c, i) {
      if i < key.dim {
        assert InSpan(p[i], key, i) && InSpan(p[i], q, i);
      }
    }
  }
}
