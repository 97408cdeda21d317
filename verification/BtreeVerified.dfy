/** What a verified B-tree level and a verified B-tree are like. */
module BtreeVerified {
  import opened Optional
  import opened BtreeKeys
  import opened BtreePages
  import opened BtreeLevels

  // ---------- The items of a level are in order ----------

  ghost predicate Ascending(keys: seq<Key>) {
    forall i, j | 0 <= i < j < |keys| :: Less(keys[i], keys[j])
  }

  /** The keys of the real items of a page before offset m. */
  function RealKeys(p: Page, m: nat): (keys: seq<Key>)
    ensures |keys| == if m <= FirstReal(p) then 0 else m - FirstReal(p)
    ensures forall i | 0 <= i < |keys| :: keys[i] == ItemAt(p, FirstReal(p) + i).key
  {
    if m <= FirstReal(p) then [] else RealKeys(p, m - 1) + [ItemAt(p, m - 1).key]
  }

  /** The keys of the real items of the live pages among the first n, from left to right. */
  function LevelKeys(index: Index, pages: seq<nat>, n: nat): seq<Key>
    requires Linked(index, pages) && n <= |pages|
  {
    if n == 0 then []
    else
      var p := index[pages[n - 1]];
      LevelKeys(index, pages, n - 1) + if Ignored(p) then [] else RealKeys(p, |p.items| + 1)
  }

  lemma AscendingJoin(a: seq<Key>, b: seq<Key>)
    requires Ascending(a) && Ascending(b)
    requires a != [] && b != [] ==> Less(a[|a| - 1], b[0])
    ensures Ascending(a + b)
  {
    hide Less;
    forall i, j | 0 <= i < |a| && 0 <= j < |b| ensures Less(a[i], b[j]) {
      if i < |a| - 1 {
        LessTransitive(a[i], a[|a| - 1], b[0]);
      }
      if j > 0 {
        LessTransitive(a[i], b[0], b[j]);
      }
    }
  }

  lemma ItemWellFormed(p: Page, n: nat, i: nat)
    requires Checked(p, n) && !Ignored(p) && FirstReal(p) <= i <= |p.items|
    ensures WellFormed(ItemAt(p, i).key, n)
  {
    assert NattsOk(p, n, i);
  }

  lemma {:induction false} PageAscending(p: Page, n: nat, m: nat)
    requires Checked(p, n) && !Ignored(p) && m <= |p.items| + 1
    ensures Ascending(RealKeys(p, m))
  {
    hide Less, InvariantL, NattsOk, BelowHighKey;
    if m > FirstReal(p) + 1 {
      PageAscending(p, n, m - 1);
      var a, b := ItemAt(p, m - 2).key, ItemAt(p, m - 1).key;
      assert InvariantL(a, b);
      ItemWellFormed(p, n, m - 2);
      ItemWellFormed(p, n, m - 1);
      InvariantsDecideOrder(a, b, n);
      AscendingJoin(RealKeys(p, m - 1), [b]);
    }
  }

  predicate Filled(index: Index, pages: seq<nat>, i: nat)
    requires Linked(index, pages) && i < |pages|
  {
    !Ignored(index[pages[i]]) && HasReal(index[pages[i]])
  }

  /** Pages with real items, and none with any between them. */
  predicate Successive(index: Index, pages: seq<nat>, i: nat, k: nat)
    requires Linked(index, pages)
  {
    && i < k < |pages| && Filled(index, pages, i) && Filled(index, pages, k)
    && forall j | i < j < k :: !Filled(index, pages, j)
  }

  predicate LiveBetween(index: Index, pages: seq<nat>, i: nat, k: nat)
    requires Linked(index, pages) && k <= |pages|
  {
    exists j | i < j < k :: !Ignored(index[pages[j]])
  }

  ghost predicate EndsBefore(p: Page, q: Page) {
    Less(ItemAt(p, |p.items|).key, ItemAt(q, FirstReal(q)).key)
  }

  /** Across live pages without real items, the items are in order all the same. */
  ghost predicate GapsOrdered(index: Index, pages: seq<nat>)
    requires Linked(index, pages)
  {
    forall i: nat, k: nat | Successive(index, pages, i, k) && LiveBetween(index, pages, i, k) ::
      EndsBefore(index[pages[i]], index[pages[k]])
  }

  /** The last of the first n pages with real items on it, if any. */
  function LastFilled(index: Index, pages: seq<nat>, n: nat): (r: Option<nat>)
    requires Linked(index, pages) && n <= |pages|
    ensures r.Some? ==> r.value < n && Filled(index, pages, r.value)
    ensures forall j | 0 <= j < n && (r.Some? ==> r.value < j) :: !Filled(index, pages, j)
  {
    if n == 0 then None
    else if Filled(index, pages, n - 1) then Some(n - 1)
    else LastFilled(index, pages, n - 1)
  }

  /** The last item of a page is below the first item of the next live page, if both have one. */
  lemma AcrossPages(index: Index, n: nat, level: nat, pages: seq<nat>, i: nat, k: nat)
    requires LevelPassed(index, n, level, pages)
    requires Successive(index, pages, i, k) && !LiveBetween(index, pages, i, k)
    ensures EndsBefore(index[pages[i]], index[pages[k]])
  {
    hide Less, InvariantG, InvariantL, InvariantLeq, CheckedUpTo, ChildBounded, NattsOk, SanePage;
    var p, q := index[pages[i]], index[pages[k]];
    assert PagePassed(index, n, level, LeftOf(pages, i), p);
    assert PagePassed(index, n, level, LeftOf(pages, k), q);
    NextLiveOnChain(index, pages, i + 1, k);
    var r := NextLive(index, p.next, k - i);
    assert r == Some(pages[k]);
    ItemWellFormed(p, n, |p.items|);
    ItemWellFormed(q, n, FirstReal(q));
    InvariantsDecideOrder(ItemAt(q, FirstReal(q)).key, ItemAt(p, |p.items|).key, n);
  }

  /** The last key of the first m pages is the last item of the last page that has one. */
  lemma {:induction false} LastKey(index: Index, pages: seq<nat>, m: nat)
    requires Linked(index, pages) && m <= |pages|
    ensures var last, keys := LastFilled(index, pages, m), LevelKeys(index, pages, m);
            if last.None? then keys == []
            else keys != [] && var p := index[pages[last.value]]; keys[|keys| - 1] == ItemAt(p, |p.items|).key
  {
    if m > 0 {
      LastKey(index, pages, m - 1);
    }
  }

  /** What the next page adds. */
  lemma NextKeys(index: Index, pages: seq<nat>, k: nat)
    requires Linked(index, pages) && k < |pages|
    ensures var p := index[pages[k]];
            LevelKeys(index, pages, k + 1)
            == LevelKeys(index, pages, k) + if Filled(index, pages, k) then RealKeys(p, |p.items| + 1) else []
  {
    var p := index[pages[k]];
    if !HasReal(p) {
      assert RealKeys(p, |p.items| + 1) == [];
    }
  }

  lemma {:induction false} LevelAscending(index: Index, n: nat, level: nat, pages: seq<nat>, m: nat)
    requires LevelPassed(index, n, level, pages) && GapsOrdered(index, pages) && m <= |pages|
    ensures Ascending(LevelKeys(index, pages, m))
  {
    hide Less, GapsOrdered, LevelPassed, Ascending, LevelKeys, Linked, RealKeys, Filled;
    PassedLinked(index, n, level, pages);
    if m == 0 {
      NoKeys(index, pages);
    } else {
      LevelAscending(index, n, level, pages, m - 1);
      NextKeys(index, pages, m - 1);
      if Filled(index, pages, m - 1) {
        PageJoins(index, n, level, pages, m - 1);
      } else {
        assert LevelKeys(index, pages, m) == LevelKeys(index, pages, m - 1);
      }
    }
  }

  lemma NoKeys(index: Index, pages: seq<nat>)
    requires Linked(index, pages)
    ensures Ascending(LevelKeys(index, pages, 0))
  {
  }

  /** The items of a page continue those of the pages before it. */
  lemma PageJoins(index: Index, n: nat, level: nat, pages: seq<nat>, k: nat)
    requires LevelPassed(index, n, level, pages) && GapsOrdered(index, pages)
    requires k < |pages| && Filled(index, pages, k) && Ascending(LevelKeys(index, pages, k))
    ensures var p := index[pages[k]]; Ascending(LevelKeys(index, pages, k) + RealKeys(p, |p.items| + 1))
  {
    hide Less, PagePassed, Standing, Ascending, LevelKeys;
    var p := index[pages[k]];
    assert PagePassed(index, n, level, LeftOf(pages, k), p);
    PageOf(index, n, level, LeftOf(pages, k), p);
    PageAscending(p, n, |p.items| + 1);
    LastKey(index, pages, k);
    var before := LastFilled(index, pages, k);
    if before.Some? {
      assert Successive(index, pages, before.value, k);
      if !LiveBetween(index, pages, before.value, k) {
        AcrossPages(index, n, level, pages, before.value, k);
      }
    }
    AscendingJoin(LevelKeys(index, pages, k), RealKeys(p, |p.items| + 1));
  }

  lemma {:induction false} LevelKeysGrow(index: Index, pages: seq<nat>, m: nat, n: nat)
    requires Linked(index, pages) && m <= n <= |pages|
    ensures LevelKeys(index, pages, m) <= LevelKeys(index, pages, n)
  {
    hide LevelKeys;
    if m < n {
      LevelKeysGrow(index, pages, m, n - 1);
      NextKeys(index, pages, n - 1);
    }
  }

  lemma AscendingParts(a: seq<Key>, b: seq<Key>, all: seq<Key>)
    requires a + b <= all && Ascending(all)
    ensures a != [] && b != [] ==> Less(a[|a| - 1], b[0])
  {
    if a != [] && b != [] {
      assert all[|a| - 1] == (a + b)[|a| - 1] && all[|a|] == (a + b)[|a|];
    }
  }

  lemma LastFilledIs(index: Index, pages: seq<nat>, i: nat, k: nat)
    requires Linked(index, pages) && Successive(index, pages, i, k)
    ensures LastFilled(index, pages, k) == Some(i) && pages[k] in index && HasReal(index[pages[k]])
  {
    hide LastFilled;
  }

  /** In a level in order, so are the items on both sides of a gap. */
  lemma GapFollows(index: Index, pages: seq<nat>, i: nat, k: nat)
    requires Linked(index, pages) && Ascending(LevelKeys(index, pages, |pages|)) && Successive(index, pages, i, k)
    ensures EndsBefore(index[pages[i]], index[pages[k]])
  {
    hide Less, Linked, LevelKeys, LastFilled, Filled, Ascending;
    LastKey(index, pages, k);
    LastFilledIs(index, pages, i, k);
    var q := index[pages[k]];
    NextKeys(index, pages, k);
    LevelKeysGrow(index, pages, k + 1, |pages|);
    AscendingParts(LevelKeys(index, pages, k), RealKeys(q, |q.items| + 1), LevelKeys(index, pages, |pages|));
  }

  lemma PageOf(index: Index, n: nat, level: nat, left: nat, p: Page)
    requires PagePassed(index, n, level, left, p)
    ensures Checked(p, n)
  {
  }

  /**
    The items of a verified level are strictly increasing from the leftmost page to the
    rightmost exactly if they are across every gap, that is, across live pages without
    real items.
   */
  lemma LevelSorted(index: Index, n: nat, l: Level, pages: seq<nat>)
    requires LevelVerified(index, n, l, pages)
    ensures Ascending(LevelKeys(index, pages, |pages|)) <==> GapsOrdered(index, pages)
  {
    hide LeadsTo, PagePassed, Ascending, EndsBefore;
    if Ascending(LevelKeys(index, pages, |pages|)) {
      forall i: nat, k: nat | Successive(index, pages, i, k) ensures EndsBefore(index[pages[i]], index[pages[k]]) {
        GapFollows(index, pages, i, k);
      }
    }
    if GapsOrdered(index, pages) {
      LevelAscending(index, n, l.level, pages, |pages|);
    }
  }

  /** The live pages of a verified level are on one level and mirror each other's links, and no block occurs twice. */
  lemma LevelMirrored(index: Index, n: nat, l: Level, pages: seq<nat>)
    requires LevelVerified(index, n, l, pages)
    ensures forall i | 0 <= i < |pages| && !Ignored(index[pages[i]]) ::
              index[pages[i]].level == l.level && index[pages[i]].prev == LeftOf(pages, i)
    ensures forall i, j | 0 <= i < j < |pages| :: pages[i] != pages[j]
  {
    hide Less, LeadsTo, Checked, RightChecked, ChildBounded, SanePage;
    forall i, j | 0 <= i < j < |pages| ensures pages[i] != pages[j] {
      WholeChainDistinct(index, pages, l.leftmost, i, j);
    }
    forall i | 0 <= i < |pages| && !Ignored(index[pages[i]])
      ensures index[pages[i]].level == l.level && index[pages[i]].prev == LeftOf(pages, i)
    {
      assert PagePassed(index, n, l.level, LeftOf(pages, i), index[pages[i]]);
    }
  }

  /** A leaf page whose high key, if it has one, is 9; the leftmost one is the root. */
  function Leaf(prev: nat, next: nat, keys: seq<int>): Page {
    Page(0, prev, next, true, prev == P_NONE, false, false, false, false, false, false,
         (if next == P_NONE then [] else [Item(Key([9], None), 0)])
         + seq(|keys|, i requires 0 <= i < |keys| => Item(Key([keys[i]], Some(1)), 0)),
         Item(Key([], None), 0))
  }

  /** Three leaf pages, the middle one empty, the items of the others out of order. */
  function Disordered(): Index {
    map[1 := Leaf(0, 2, [5]), 2 := Leaf(1, 3, []), 3 := Leaf(2, 0, [3])]
  }

  /** An empty page hides from the checks of the whole index that the items around it are out of order. */
  lemma EmptyPageHidesDisorder()
    ensures TreeVerified(Disordered(), 1, 0, 1, [[1, 2, 3]])
    ensures Linked(Disordered(), [1, 2, 3]) && !Ascending(LevelKeys(Disordered(), [1, 2, 3], 3))
  {
    hide LevelVerified, LevelKeys, Ascending, Linked;
    DisorderedPasses();
    DisorderedKeys();
    assert VerifiedAt(Disordered(), 1, 0, 1, [[1, 2, 3]], 0);
  }

  lemma DisorderedPasses()
    ensures LevelVerified(Disordered(), 1, Level(0, 1, true), [1, 2, 3])
  {
    hide PagePassed, Standing;
    var index, pages := Disordered(), [1, 2, 3];
    LeafPassed(index, 0, index[1], Item(Key([5], Some(1)), 0));
    LeafPassed(index, 1, index[2], Item(Key([5], Some(1)), 0));
    LeafPassed(index, 2, index[3], Item(Key([3], Some(1)), 0));
    assert forall i | 0 <= i < 3 ::
      Standing(index[pages[i]]) && PagePassed(index, 1, 0, LeftOf(pages, i), index[pages[i]]);
  }

  lemma OneKey(p: Page, key: Key)
    requires FirstReal(p) == |p.items| && ItemAt(p, |p.items|).key == key
    ensures RealKeys(p, |p.items| + 1) == [key]
  {
  }

  lemma DisorderedKeys()
    ensures Linked(Disordered(), [1, 2, 3]) && !Ascending(LevelKeys(Disordered(), [1, 2, 3], 3))
  {
    var index, pages := Disordered(), [1, 2, 3];
    assert Linked(index, pages);
    OneKey(index[1], Key([5], Some(1)));
    OneKey(index[3], Key([3], Some(1)));
    hide Linked;
    assert LevelKeys(index, pages, 1) == [Key([5], Some(1))];
    assert LevelKeys(index, pages, 2) == [Key([5], Some(1))];
    var keys := LevelKeys(index, pages, 3);
    assert !Less(keys[0], keys[1]);
  }

  /** A leaf page with at most one item, followed by an empty page if it has one. */
  lemma LeafPassed(index: Index, left: nat, p: Page, item: Item)
    requires p.isLeaf && p.level == 0 && p.prev == left && !Ignored(p) && !p.isMeta && !p.hasFullXid
    requires p.items == (if Rightmost(p) then [] else [Item(Key([9], None), 0)]) + (if HasReal(p) then [item] else [])
    requires |item.key.attrs| == 1 && item.key.attrs[0] < 9 && item.key.tid.Some?
    requires !Rightmost(p) && HasReal(p) ==> p.next in index && !Ignored(index[p.next]) && !HasReal(index[p.next])
    ensures Standing(p) && PagePassed(index, 1, 0, left, p)
  {
    assert HasReal(p) && !Rightmost(p) ==> InvariantLeq(item.key, HighKey(p));
  }

  // ---------- Downlinks and the level below ----------

  lemma {:induction false} FirstLink(index: Index, n: nat, l: Level, pages: seq<nat>, m: nat)
    requires LevelVerified(index, n, l, pages) && l.level > 0 && 1 <= m <= |pages|
    ensures var links := LevelLinks(index, pages, m);
            links != [] && links[0].blk == Leftmost(index[pages[0]])
  {
    if m == 1 {
      assert PagePassed(index, n, l.level, LeftOf(pages, 0), index[pages[0]]);
      PageFirstLink(index[pages[0]], |index[pages[0]].items| + 1);
    } else {
      FirstLink(index, n, l, pages, m - 1);
      LoosenedAt(LevelLinks(index, pages, m - 1), 0);
    }
  }

  lemma {:induction false} PageFirstLink(p: Page, m: nat)
    requires m > FirstDataKey(p)
    ensures var links := PageLinks(p, m); links != [] && links[0].blk == ItemAt(p, FirstDataKey(p)).blk
  {
    if m > FirstDataKey(p) + 1 {
      PageFirstLink(p, m - 1);
    }
  }

  /** Pages on a whole chain are sane targets. */
  lemma PlacedIsSane(index: Index, links: seq<Link>, at: seq<nat>, chain: seq<nat>, first: nat)
    requires INVALID_BLOCK !in index && WholeChain(index, chain, first) && Placed(links, at, chain)
    ensures SaneLinks(index, links)
  {
    forall k | 0 <= k < |links|
      ensures links[k].blk != P_NONE && links[k].blk in index && index[links[k].blk].next != INVALID_BLOCK
    {
      var j := at[k];
      if j < |chain| - 1 {
        assert index[chain[j]].next == chain[j + 1];
      }
    }
  }

  /** The downlinks of a level fit the chain of the level below. */
  ghost predicate LeadsAlong(index: Index, level: nat, links: seq<Link>, chain: seq<nat>) {
    exists at :: ChildLevel(index, level, links, at, chain)
  }

  /**
    In a verified tree, the downlinks of a level in key order are an in-order subsequence
    of the pages of the next level, with every skipped live page excused and the high keys
    up to the last downlink equal to the separators, exactly if the downlinks are sane.
   */
  lemma DownlinksFollowChain(index: Index, n: nat, rootLevel: nat, root: nat, levels: seq<seq<nat>>, d: nat)
    requires INVALID_BLOCK !in index && TreeVerified(index, n, rootLevel, root, levels) && d + 1 < |levels|
    requires Linked(index, levels[d])
    ensures var links := LevelLinks(index, levels[d], |levels[d]|);
            SaneLinks(index, links) <==> LeadsAlong(index, rootLevel - d, links, levels[d + 1])
  {
    hide ChildLevel, SaneLinks, LevelLinks, LevelPassed, LevelAt;
    var l, pages, next := LevelAt(index, rootLevel, root, levels, d), levels[d], levels[d + 1];
    var links := LevelLinks(index, pages, |pages|);
    Neighbours(index, n, rootLevel, root, levels, d);
    FirstLink(index, n, l, pages, |pages|);
    if SaneLinks(index, links) {
      var at, chain :| ChildLevel(index, rootLevel - d, links, at, chain) && WholeChain(index, chain, links[0].blk);
      WholeChainUnique(index, chain, next, links[0].blk);
    }
    if LeadsAlong(index, rootLevel - d, links, next) {
      var at :| ChildLevel(index, rootLevel - d, links, at, next);
      ChildPlaced(index, rootLevel - d, links, at, next);
      PlacedIsSane(index, links, at, next, links[0].blk);
    }
  }

  // ---------- A missing child that passes ----------

  const MINUS_INFINITY := Key([], None)

  /** An internal page with the given items. */
  function Internal(level: nat, prev: nat, next: nat, isRoot: bool, items: seq<Item>): Page {
    Page(level, prev, next, false, isRoot, false, false, false, false, false, false, items, Item(MINUS_INFINITY, 0))
  }

  /**
    Root 1 over pages 2 and 3, of which page 2 leads to leaf 4 while the only downlink of
    page 3 is P_NONE.
   */
  function MissingChild(): Index {
    map[1 := Internal(2, 0, 0, true, [Item(MINUS_INFINITY, 2), Item(Key([5], None), 3)]),
        2 := Internal(1, 0, 3, false, [Item(Key([5], None), 0), Item(MINUS_INFINITY, 4)]),
        3 := Internal(1, 2, 0, false, [Item(MINUS_INFINITY, P_NONE)]),
        4 := Leaf(0, 0, [])]
  }

  /** The whole index passes although the downlinks of a level do not lead along the level below. */
  lemma MissingChildPasses()
    ensures TreeVerified(MissingChild(), 1, 2, 1, [[1], [2, 3], [4]])
    ensures Linked(MissingChild(), [2, 3])
    ensures !LeadsAlong(MissingChild(), 1, LevelLinks(MissingChild(), [2, 3], 2), [4])
  {
    hide LevelVerified, LeadsAlong, LevelLinks;
    var index, levels := MissingChild(), [[1], [2, 3], [4]];
    MissingChildTop();
    MissingChildMiddle();
    MissingChildLeaf();
    assert VerifiedAt(index, 1, 2, 1, levels, 0);
    assert VerifiedAt(index, 1, 2, 1, levels, 1);
    assert VerifiedAt(index, 1, 2, 1, levels, 2);
  }

  lemma MissingChildTop()
    ensures LevelVerified(MissingChild(), 1, Level(2, 1, true), [1])
  {
    var index, pages := MissingChild(), [1];
    var p := index[1];
    assert ChildBounded(index, p, 2);
    assert Checked(p, 1);
    assert PagePassed(index, 1, 2, LeftOf(pages, 0), p);
    TopLinks();
    TopLeads();
    hide LevelLinks, PagePassed;
  }

  lemma TopLinks()
    ensures Linked(MissingChild(), [1])
    ensures LevelLinks(MissingChild(), [1], 1) == [Link(2, Some(Key([5], None)), false), Link(3, None, false)]
  {
    var index := MissingChild();
    var p := index[1];
    assert PageLinks(p, 1) == [];
    assert PageLinks(p, 2) == [Link(2, Some(Key([5], None)), false)];
    assert PageLinks(p, 3) == PageLinks(p, 2) + [Link(3, None, false)];
    assert LevelLinks(index, [1], 0) == [];
  }

  lemma TopLeads()
    ensures Linked(MissingChild(), [1]) && LeadsTo(MissingChild(), 2, [1])
  {
    hide LevelLinks;
    TopLinks();
    var index, at, chain := MissingChild(), [0, 1], [2, 3];
    var links := LevelLinks(index, [1], 1);
    assert Placed(links, at, chain);
    assert 0 in at && 1 in at;
    assert ChildLevel(index, 2, links, at, chain);
    assert WholeChain(index, chain, 2);
  }

  lemma MiddleLinks()
    ensures Linked(MissingChild(), [2, 3])
    ensures LevelLinks(MissingChild(), [2, 3], 2) == [Link(4, Some(Key([5], None)), false), Link(P_NONE, None, false)]
  {
    var index, pages := MissingChild(), [2, 3];
    assert PageLinks(index[2], 2) == [];
    assert PageLinks(index[2], 3) == [Link(4, Some(Key([5], None)), false)];
    assert PageLinks(index[3], 1) == [];
    assert PageLinks(index[3], 2) == [Link(P_NONE, None, false)];
    assert LevelLinks(index, pages, 0) == [];
    assert LevelLinks(index, pages, 1) == PageLinks(index[2], 3);
  }

  lemma MissingChildMiddle()
    ensures LevelVerified(MissingChild(), 1, Level(1, 2, false), [2, 3])
    ensures !LeadsAlong(MissingChild(), 1, LevelLinks(MissingChild(), [2, 3], 2), [4])
  {
    var index, pages := MissingChild(), [2, 3];
    assert Checked(index[2], 1) && Checked(index[3], 1);
    assert PagePassed(index, 1, 1, LeftOf(pages, 0), index[2]);
    assert PagePassed(index, 1, 1, LeftOf(pages, 1), index[3]);
    MiddleLinks();
    hide LevelLinks, PagePassed;
    var links := LevelLinks(index, pages, 2);
    assert links[1].blk == P_NONE;
    assert !SaneLinks(index, links);
    assert forall at :: !ChildLevel(index, 1, links, at, [4]);
  }

  lemma MissingChildLeaf()
    ensures LevelVerified(MissingChild(), 1, Level(0, 4, false), [4])
  {
    var index := MissingChild();
    LeafPassed(index, 0, index[4], Item(Key([5], Some(1)), 0));
    assert PagePassed(index, 1, 0, LeftOf([4], 0), index[4]);
  }

  // ---------- Pages below a sane level ----------

  predicate Tight(links: seq<Link>) {
    forall k | 0 <= k < |links| :: !links[k].loose
  }

  /** Below a level with sane downlinks, no internal level has a half-dead page, so no downlink is loose. */
  lemma NoneLoose(index: Index, n: nat, rootLevel: nat, root: nat, levels: seq<seq<nat>>, d: nat)
    requires INVALID_BLOCK !in index && TreeVerified(index, n, rootLevel, root, levels)
    requires d + 1 < |levels| && d + 1 < rootLevel && Linked(index, levels[d]) && Linked(index, levels[d + 1])
    requires SaneLinks(index, LevelLinks(index, levels[d], |levels[d]|))
    ensures var next := levels[d + 1];
            (forall i | 0 <= i < |next| :: !Ignored(index[next[i]])) && Tight(LevelLinks(index, next, |next|))
  {
    hide SaneLinks, LevelLinks, LeadsTo, PagePassed, TreeVerified, KeysMatch, Excused;
    var links, next := LevelLinks(index, levels[d], |levels[d]|), levels[d + 1];
    DownlinksFollowChain(index, n, rootLevel, root, levels, d);
    Neighbours(index, n, rootLevel, root, levels, d);
    var at :| ChildLevel(index, rootLevel - d, links, at, next);
    forall i | 0 <= i < |next| ensures !Ignored(index[next[i]]) {
      assert Standing(index[next[i]]);
    }
    NoneLoosened(index, next, |next|);
  }

  lemma {:induction false} NoneLoosened(index: Index, pages: seq<nat>, m: nat)
    requires Linked(index, pages) && m <= |pages|
    requires forall i | 0 <= i < |pages| :: !Ignored(index[pages[i]])
    ensures Tight(LevelLinks(index, pages, m))
  {
    if m > 0 {
      NoneLoosened(index, pages, m - 1);
      PageLinksTight(index[pages[m - 1]], |index[pages[m - 1]].items| + 1);
    }
  }

  lemma {:induction false} PageLinksTight(p: Page, m: nat)
    ensures Tight(PageLinks(p, m))
  {
    if m > FirstDataKey(p) {
      PageLinksTight(p, m - 1);
    }
  }

  lemma ChildPlaced(index: Index, level: nat, links: seq<Link>, at: seq<nat>, chain: seq<nat>)
    requires ChildLevel(index, level, links, at, chain)
    ensures Placed(links, at, chain)
  {
  }

  lemma Neighbours(index: Index, n: nat, rootLevel: nat, root: nat, levels: seq<seq<nat>>, d: nat)
    requires TreeVerified(index, n, rootLevel, root, levels) && d + 1 < |levels|
    ensures var l := LevelAt(index, rootLevel, root, levels, d);
            l.level == rootLevel - d && LevelVerified(index, n, l, levels[d])
    ensures var l := LevelAt(index, rootLevel, root, levels, d + 1);
            l.level == rootLevel - d - 1 && LevelVerified(index, n, l, levels[d + 1])
    ensures WholeChain(index, levels[d + 1], Leftmost(index[levels[d][0]]))
  {
    hide LevelPassed, LeadsTo;
    assert VerifiedAt(index, n, rootLevel, root, levels, d);
    assert VerifiedAt(index, n, rootLevel, root, levels, d + 1);
  }

  lemma {:induction false} LinkOnPage(p: Page, offset: nat, m: nat) returns (k: nat)
    requires FirstDataKey(p) <= offset < m
    ensures k < |PageLinks(p, m)| && PageLinks(p, m)[k] == LinkAt(p, offset)
  {
    if offset == m - 1 {
      k := |PageLinks(p, m)| - 1;
    } else {
      k := LinkOnPage(p, offset, m - 1);
    }
  }

  /** Every downlink of a live page is among the downlinks of its level. */
  lemma {:induction false} LinkOnLevel(index: Index, pages: seq<nat>, i: nat, offset: nat, m: nat) returns (k: nat)
    requires Linked(index, pages) && i < m <= |pages| && !Ignored(index[pages[i]])
    requires FirstDataKey(index[pages[i]]) <= offset <= |index[pages[i]].items|
    ensures k < |LevelLinks(index, pages, m)|
    ensures var link, p := LevelLinks(index, pages, m)[k], index[pages[i]];
            link.blk == ItemAt(p, offset).blk && link.sep == Separator(p, offset)
  {
    hide PageLinks, Separator;
    if i == m - 1 {
      var p := index[pages[i]];
      var l := LinkOnPage(p, offset, |p.items| + 1);
      k := |LevelLinks(index, pages, m - 1)| + l;
    } else {
      k := LinkOnLevel(index, pages, i, offset, m - 1);
      LoosenedAt(LevelLinks(index, pages, m - 1), k);
    }
  }

  /** All real items of the child are above the key. */
  ghost predicate Above(key: Key, child: Page) {
    forall t | FirstReal(child) <= t <= |child.items| :: Less(key, ItemAt(child, t).key)
  }

  ghost predicate AtMost(child: Page, key: Key) {
    forall t | FirstReal(child) <= t <= |child.items| :: !Less(key, ItemAt(child, t).key)
  }

  /** The downlink's key and the next separator enclose all items of the child page. */
  lemma ChildWithinSeparators(
    index: Index, n: nat, rootLevel: nat, root: nat, levels: seq<seq<nat>>, d: nat, i: nat, offset: nat)
    requires INVALID_BLOCK !in index && TreeVerified(index, n, rootLevel, root, levels) && d + 1 < |levels|
    requires Linked(index, levels[d])
    requires SaneLinks(index, LevelLinks(index, levels[d], |levels[d]|))
    requires i < |levels[d]| && !Ignored(index[levels[d][i]])
    requires FirstDataKey(index[levels[d][i]]) <= offset <= |index[levels[d][i]].items|
    ensures var p := index[levels[d][i]];
            ItemAt(p, offset).blk in index
            && var child := index[ItemAt(p, offset).blk];
            && (!Ignored(child) && FirstReal(p) <= offset ==> Above(ItemAt(p, offset).key, child))
            && (!Ignored(child) && MustMatch(child) ==>
                  Separator(p, offset).Some? && AtMost(child, Separator(p, offset).value))
  {
    hide LevelLinks, SaneLinks, PagePassed, LevelAt, LevelVerified, ChildLevel, Separator, Above, AtMost, TreeVerified;
    var pages, next := levels[d], levels[d + 1];
    var links := LevelLinks(index, pages, |pages|);
    var p, level := index[pages[i]], rootLevel - d;
    DownlinksFollowChain(index, n, rootLevel, root, levels, d);
    Neighbours(index, n, rootLevel, root, levels, d);
    var at :| ChildLevel(index, level, links, at, next);
    var k := LinkOnLevel(index, pages, i, offset, |pages|);
    var j := LinkPlaced(index, level, links, at, next, k);
    var child := index[next[j]];
    PageAt(index, n, LevelAt(index, rootLevel, root, levels, d), pages, i);
    if !Ignored(child) {
      PageAt(index, n, LevelAt(index, rootLevel, root, levels, d + 1), next, j);
      if FirstReal(p) <= offset {
        LowerBound(index, n, level, LeftOf(pages, i), p, offset, LeftOf(next, j));
      }
      if MustMatch(child) {
        UpperBound(index, n, level - 1, LeftOf(next, j), child);
      }
    }
  }

  lemma LinkPlaced(index: Index, level: nat, links: seq<Link>, at: seq<nat>, chain: seq<nat>, k: nat) returns (j: nat)
    requires ChildLevel(index, level, links, at, chain) && k < |links|
    ensures j < |chain| && chain[j] == links[k].blk && chain[j] in index
    ensures MustMatch(index[chain[j]]) ==> links[k].sep == Some(HighKey(index[chain[j]]))
  {
    j := at[k];
    if MustMatch(index[chain[j]]) {
      KeyMatches(index, links, at, chain, k, j);
    }
  }

  lemma PageAt(index: Index, n: nat, l: Level, pages: seq<nat>, i: nat)
    requires LevelVerified(index, n, l, pages) && i < |pages| && !Ignored(index[pages[i]])
    ensures PagePassed(index, n, l.level, LeftOf(pages, i), index[pages[i]])
  {
    hide PagePassed, LeadsTo;
  }

  lemma LowerBound(index: Index, n: nat, level: nat, left: nat, p: Page, offset: nat, childLeft: nat)
    requires PagePassed(index, n, level, left, p) && !Ignored(p) && level > 0
    requires FirstReal(p) <= offset <= |p.items| && ItemAt(p, offset).blk in index
    requires var child := index[ItemAt(p, offset).blk];
             !Ignored(child) && PagePassed(index, n, level - 1, childLeft, child)
    ensures Above(ItemAt(p, offset).key, index[ItemAt(p, offset).blk])
  {
    hide Less, RightChecked, InvariantL, BelowHighKey;
    var key, child := ItemAt(p, offset).key, index[ItemAt(p, offset).blk];
    assert ChildBounded(index, p, offset);
    ItemWellFormed(p, n, offset);
    forall t | FirstReal(child) <= t <= |child.items| ensures Less(key, ItemAt(child, t).key) {
      ItemWellFormed(child, n, t);
      InvariantsDecideOrder(key, ItemAt(child, t).key, n);
    }
  }

  lemma UpperBound(index: Index, n: nat, level: nat, left: nat, child: Page)
    requires PagePassed(index, n, level, left, child) && !Ignored(child) && !Rightmost(child)
    ensures AtMost(child, HighKey(child))
  {
    hide Less, RightChecked, InvariantL, InvariantLeq, ChildBounded;
    assert NattsOk(child, n, P_HIKEY);
    forall t | FirstReal(child) <= t <= |child.items| ensures !Less(HighKey(child), ItemAt(child, t).key) {
      assert BelowHighKey(child, t);
      ItemWellFormed(child, n, t);
      InvariantsDecideOrder(ItemAt(child, t).key, HighKey(child), n);
      LessAsymmetric(ItemAt(child, t).key, HighKey(child));
    }
  }

  lemma LessAsymmetric(a: Key, b: Key)
    ensures !(Less(a, b) && Less(b, a))
  {
    if Less(a, b) && Less(b, a) {
      LessTransitive(a, b, a);
    }
  }
}
