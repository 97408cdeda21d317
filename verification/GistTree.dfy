/** A GiST index as its operator classes see it: keys over subtrees, and a scan that prunes by them. */
module GistTree {
  import opened Sequences

  datatype Page<K, V> = LeafPage(values: seq<V>) | InnerPage(links: seq<Downlink<K, V>>)

  datatype Downlink<K, V> = Downlink(key: K, child: Page<K, V>)

  function Values<K, V>(p: Page<K, V>): seq<V>
    decreases p, 1
  {
    match p
    case LeafPage(vs) => vs
    case InnerPage(links) => LinkedValues(links)
  }

  function LinkedValues<K, V>(links: seq<Downlink<K, V>>): seq<V>
    decreases links, 0
  {
    if links == [] then []
    else
      assert links[0].child < links[0];
      Values(links[0].child) + LinkedValues(links[1..])
  }

  /** Every downlink's key covers every value of its subtree. */
  ghost predicate Indexed<K, V>(p: Page<K, V>, covers: (K, V) -> bool)
    decreases p
  {
    match p
    case LeafPage(_) => true
    case InnerPage(links) =>
      forall d | d in links :: Indexed(d.child, covers) && forall x | x in Values(d.child) :: covers(d.key, x)
  }

  /** An index scan: inner entries are followed and leaf entries returned when consistent. */
  function Search<K, V>(p: Page<K, V>, follow: K -> bool, hit: V -> bool): seq<V>
    decreases p, 1
  {
    match p
    case LeafPage(vs) => Filter(vs, hit)
    case InnerPage(links) => SearchLinks(links, follow, hit)
  }

  function SearchLinks<K, V>(links: seq<Downlink<K, V>>, follow: K -> bool, hit: V -> bool): seq<V>
    decreases links, 0
  {
    if links == [] then []
    else
      assert links[0].child < links[0];
      (if follow(links[0].key) then Search(links[0].child, follow, hit) else [])
      + SearchLinks(links[1..], follow, hit)
  }

  /** No key hides a value that is a hit. */
  ghost predicate Prunes<K(!new), V(!new)>(covers: (K, V) -> bool, follow: K -> bool, hit: V -> bool) {
    forall k, x | covers(k, x) && hit(x) :: follow(k)
  }

  /** The scan returns exactly the hits, in order. */
  lemma {:induction false} SearchIsExact<K(!new), V(!new)>(
    p: Page<K, V>, covers: (K, V) -> bool, follow: K -> bool, hit: V -> bool)
    requires Indexed(p, covers) && Prunes(covers, follow, hit)
    ensures Search(p, follow, hit) == Filter(Values(p), hit)
    decreases p, 1
  {
    match p
    case LeafPage(vs) =>
    case InnerPage(links) => SearchLinksIsExact(links, covers, follow, hit);
  }

  lemma {:induction false} SearchLinksIsExact<K(!new), V(!new)>(
    links: seq<Downlink<K, V>>, covers: (K, V) -> bool, follow: K -> bool, hit: V -> bool)
    requires forall d | d in links :: Indexed(d.child, covers) && forall x | x in Values(d.child) :: covers(d.key, x)
    requires Prunes(covers, follow, hit)
    ensures SearchLinks(links, follow, hit) == Filter(LinkedValues(links), hit)
    decreases links, 0
  {
    if links != [] {
      var d := links[0];
      assert d in links && d.child < d;
      SearchIsExact(d.child, covers, follow, hit);
      SearchLinksIsExact(links[1..], covers, follow, hit);
      FilterConcat(Values(d.child), LinkedValues(links[1..]), hit);
      if !follow(d.key) {
        FilterNone(Values(d.child), hit);
      }
    }
  }

  // ---------- Exactly when a scan is exact ----------

  /** A key over a hit is followed. */
  ghost function Reaches<K, V>(follow: K -> bool, hit: V -> bool): (K, V) -> bool {
    (k: K, x: V) => hit(x) ==> follow(k)
  }

  lemma {:induction false} LinkedValueIs<K, V>(links: seq<Downlink<K, V>>, i: nat, x: V)
    requires i < |links| && x in Values(links[i].child)
    ensures x in LinkedValues(links)
  {
    if i > 0 {
      LinkedValueIs(links[1..], i - 1, x);
    }
  }

  lemma {:induction false} HitlessIsReached<K, V>(p: Page<K, V>, follow: K -> bool, hit: V -> bool)
    requires forall x | x in Values(p) :: !hit(x)
    ensures Indexed(p, Reaches(follow, hit))
    decreases p
  {
    if p.InnerPage? {
      forall d | d in p.links
        ensures Indexed(d.child, Reaches(follow, hit))
        ensures forall x | x in Values(d.child) :: !hit(x)
      {
        var i :| 0 <= i < |p.links| && p.links[i] == d;
        forall x | x in Values(d.child) ensures !hit(x) {
          LinkedValueIs(p.links, i, x);
        }
        HitlessIsReached(d.child, follow, hit);
      }
    }
  }

  /** The scan returns at most the hits, and all of them only if it reaches them all. */
  lemma {:induction false} SearchIsShort<K, V>(p: Page<K, V>, follow: K -> bool, hit: V -> bool)
    ensures |Search(p, follow, hit)| <= |Filter(Values(p), hit)|
    ensures |Search(p, follow, hit)| == |Filter(Values(p), hit)| ==> Indexed(p, Reaches(follow, hit))
    decreases p, 1
  {
    match p
    case LeafPage(vs) =>
    case InnerPage(links) => SearchLinksIsShort(links, follow, hit);
  }

  ghost predicate Linked<K, V>(d: Downlink<K, V>, covers: (K, V) -> bool) {
    Indexed(d.child, covers) && forall x | x in Values(d.child) :: covers(d.key, x)
  }

  lemma {:induction false} SearchLinksIsShort<K, V>(links: seq<Downlink<K, V>>, follow: K -> bool, hit: V -> bool)
    ensures |SearchLinks(links, follow, hit)| <= |Filter(LinkedValues(links), hit)|
    ensures |SearchLinks(links, follow, hit)| == |Filter(LinkedValues(links), hit)| ==>
              forall d | d in links :: Linked(d, Reaches(follow, hit))
    decreases links, 0
  {
    if links != [] {
      var d := links[0];
      assert d in links && d.child < d;
      SearchIsShort(d.child, follow, hit);
      SearchLinksIsShort(links[1..], follow, hit);
      FilterConcat(Values(d.child), LinkedValues(links[1..]), hit);
      if !follow(d.key) && Filter(Values(d.child), hit) == [] {
        FilterEmpty(Values(d.child), hit);
        HitlessIsReached(d.child, follow, hit);
      }
    }
  }

  lemma ReachedIsExact<K(!new), V(!new)>(p: Page<K, V>, follow: K -> bool, hit: V -> bool)
    ensures Search(p, follow, hit) == Filter(Values(p), hit) <==> Indexed(p, Reaches(follow, hit))
  {
    if Indexed(p, Reaches(follow, hit)) {
      SearchIsExact(p, Reaches(follow, hit), follow, hit);
    }
    SearchIsShort(p, follow, hit);
  }

  lemma {:induction false} IndexedAgain<K(!new), V(!new)>(
    p: Page<K, V>, covers: (K, V) -> bool, a: (K, V) -> bool, b: (K, V) -> bool)
    requires Indexed(p, covers) && forall k, x | covers(k, x) :: a(k, x) <==> b(k, x)
    ensures Indexed(p, a) <==> Indexed(p, b)
    decreases p
  {
    if p.InnerPage? {
      forall d | d in p.links ensures Indexed(d.child, a) <==> Indexed(d.child, b) {
        IndexedAgain(d.child, covers, a, b);
      }
    }
  }

  lemma {:induction false} IndexedTrivially<K(!new), V(!new)>(p: Page<K, V>, covers: (K, V) -> bool)
    requires forall k, x :: covers(k, x)
    ensures Indexed(p, covers)
    decreases p
  {
    if p.InnerPage? {
      forall d | d in p.links ensures Indexed(d.child, covers) {
        IndexedTrivially(d.child, covers);
      }
    }
  }

  // ---------- Sides of a split ----------

  /** Offsets count from one. */
  predicate Offsets(side: seq<nat>, count: nat) {
    forall i | 0 <= i < |side| :: 1 <= side[i] <= count
  }

  function Chosen<T>(entries: seq<T>, side: seq<nat>): seq<T>
    requires Offsets(side, |entries|)
  {
    seq(|side|, i requires 0 <= i < |side| => entries[side[i] - 1])
  }

  predicate OnOneSide(left: seq<nat>, right: seq<nat>, count: nat) {
    forall j: nat | 1 <= j <= count :: (j in left) != (j in right)
  }

  lemma SideHasEntry<T>(entries: seq<T>, left: seq<nat>, right: seq<nat>, i: nat)
    requires i < |entries| && Offsets(left, |entries|) && Offsets(right, |entries|)
    requires OnOneSide(left, right, |entries|)
    ensures entries[i] in Chosen(entries, left) || entries[i] in Chosen(entries, right)
  {
    var j: nat := i + 1;
    if j in left {
      var k :| 0 <= k < |left| && left[k] == j;
      assert Chosen(entries, left)[k] == entries[i];
    } else {
      assert j in right;
      var k :| 0 <= k < |right| && right[k] == j;
      assert Chosen(entries, right)[k] == entries[i];
    }
  }
}
