/** The readonly B-tree verifier accepts every index in order that has no half-dead page. */
module BtreeHealthy {
  import opened Optional
  import opened BtreeKeys
  import opened BtreePages
  import opened BtreeLevels
  import opened BtreeFits
  import opened BtreeVerified
  import opened VerifyNbtree

  predicate NoneHalfDead(index: Index) {
    forall b | b in index :: !index[b].isHalfDead
  }

  predicate NoneSplit(index: Index) {
    forall b | b in index :: !index[b].incompleteSplit
  }

  /** A downlink leads to page j of the chain or to one to its right. */
  predicate LinkedFrom(links: seq<Link>, chain: seq<nat>, j: nat) {
    exists k, i | 0 <= k < |links| && j <= i < |chain| :: links[k].blk == chain[i]
  }

  /** Behind the last downlink, all pages but the rightmost are incompletely split. */
  predicate TailSplit(index: Index, links: seq<Link>, chain: seq<nat>)
    requires Linked(index, chain)
  {
    forall j | 0 <= j < |chain| - 1 :: !LinkedFrom(links, chain, j) ==> index[chain[j]].incompleteSplit
  }

  /** The downlinks of level d are sane, and no page is left over behind them that would have to match a separator. */
  ghost predicate GoodLevel(index: Index, rootLevel: nat, levels: seq<seq<nat>>, d: nat)
    requires d < |levels| && d <= rootLevel
  {
    Linked(index, levels[d])
    && (d < rootLevel ==>
          && SaneLinks(index, LevelLinks(index, levels[d], |levels[d]|))
          && (d + 1 < |levels| ==>
                && Linked(index, levels[d + 1])
                && TailSplit(index, LevelLinks(index, levels[d], |levels[d]|), levels[d + 1])))
  }

  /** Every level is in order and its downlinks lead to pages; no page is half-dead. */
  ghost predicate Healthy(index: Index, n: nat, rootLevel: nat, root: nat, levels: seq<seq<nat>>) {
    && INVALID_BLOCK !in index && NoneHalfDead(index)
    && TreeVerified(index, n, rootLevel, root, levels)
    && forall d | 0 <= d < |levels| :: GoodLevel(index, rootLevel, levels, d)
  }

  // ---------- Pages of a level ----------

  /** What is used of a verified level without half-dead pages. */
  ghost predicate GoodPages(index: Index, n: nat, l: Level, pages: seq<nat>) {
    && WholeChain(index, pages, l.leftmost)
    && (l.isTrueRoot ==> index[pages[0]].isRoot)
    && forall i | 0 <= i < |pages| ::
         !Ignored(index[pages[i]]) && PagePassed(index, n, l.level, LeftOf(pages, i), index[pages[i]])
  }

  lemma LevelGood(index: Index, n: nat, l: Level, pages: seq<nat>)
    requires LevelVerified(index, n, l, pages) && NoneHalfDead(index)
    ensures GoodPages(index, n, l, pages)
  {
    hide PagePassed, LeadsTo, SanePage;
    forall i | 0 <= i < |pages| ensures !Ignored(index[pages[i]]) {
      assert Standing(index[pages[i]]);
    }
  }

  lemma PageGood(index: Index, n: nat, l: Level, pages: seq<nat>, i: nat)
    requires GoodPages(index, n, l, pages) && i < |pages|
    ensures pages[i] in index && pages[i] != P_NONE && !Ignored(index[pages[i]])
    ensures var p := index[pages[i]];
            && SanePage(p) && p.level == l.level && p.prev == LeftOf(pages, i) && p.prev != pages[i]
            && Checked(p, n) && RightChecked(index, p)
            && (!p.isLeaf ==> ChildrenBounded(index, p, |p.items| + 1)) && (p.isLeaf <==> l.level == 0)
            && p.next == if i + 1 < |pages| then pages[i + 1] else P_NONE
  {
    hide Checked, RightChecked, ChildrenBounded;
    if i > 0 {
      WholeChainDistinct(index, pages, l.leftmost, i - 1, i);
    }
  }

  /** Blocks of a chain are at most as many as the index has. */
  lemma ChainIsShort(index: Index, chain: seq<nat>, first: nat)
    requires WholeChain(index, chain, first)
    ensures |chain| <= |index|
  {
    var seen := set i | 0 <= i < |chain| :: chain[i];
    DistinctCount(index, chain, first, |chain|);
    assert (set i | 0 <= i < |chain| :: chain[i]) <= index.Keys;
    SubsetCount(set i | 0 <= i < |chain| :: chain[i], index.Keys);
  }

  lemma {:induction false} DistinctCount(index: Index, chain: seq<nat>, first: nat, m: nat)
    requires WholeChain(index, chain, first) && m <= |chain|
    ensures |set i | 0 <= i < m :: chain[i]| == m
  {
    if m > 0 {
      DistinctCount(index, chain, first, m - 1);
      forall i | 0 <= i < m - 1 ensures chain[i] != chain[m - 1] {
        WholeChainDistinct(index, chain, first, i, m - 1);
      }
      assert (set i | 0 <= i < m :: chain[i]) == (set i | 0 <= i < m - 1 :: chain[i]) + {chain[m - 1]};
    }
  }

  lemma {:induction false} SubsetCount(a: set<nat>, b: set<nat>)
    requires a <= b
    ensures |a| <= |b|
  {
    if x :| x in a {
      SubsetCount(a - {x}, b - {x});
    }
  }

  lemma RightFitsGood(index: Index, n: nat, l: Level, pages: seq<nat>, i: nat, patience: nat)
    requires GoodPages(index, n, l, pages) && i < |pages| && patience > 0
    requires pages[i] in index && HasReal(index[pages[i]])
    ensures RightFits(index, index[pages[i]], patience)
  {
    hide GoodPages, InvariantG, SanePage, CheckedUpTo, ChildrenBounded;
    PageGood(index, n, l, pages, i);
    if i + 1 < |pages| {
      PageGood(index, n, l, pages, i + 1);
      var p := index[pages[i]];
      assert NextLive(index, p.next, 1) == Some(pages[i + 1]);
    }
  }

  lemma ItemFitsGood(index: Index, n: nat, l: Level, pages: seq<nat>, i: nat, m: nat, patience: nat)
    requires GoodPages(index, n, l, pages) && i < |pages| && patience > 0 && pages[i] in index
    requires FirstReal(index[pages[i]]) <= m <= |index[pages[i]].items|
    ensures ItemFits(index, index[pages[i]], m, patience)
  {
    hide GoodPages, InvariantL, SanePage, RightChecked, ChildrenBounded, RightFits, BelowHighKey, NattsOk;
    PageGood(index, n, l, pages, i);
    if m == |index[pages[i]].items| {
      RightFitsGood(index, n, l, pages, i, patience);
    }
  }

  // ---------- Downlinks and the level below ----------

  /** Everything known about a level and the one below it. */
  ghost predicate Linkage(
    index: Index, n: nat, l: Level, pages: seq<nat>, kids: Level, next: seq<nat>, links: seq<Link>, at: seq<nat>)
  {
    && GoodPages(index, n, l, pages) && GoodPages(index, n, kids, next) && kids.level == l.level - 1
    && NoneHalfDead(index) && INVALID_BLOCK !in index
    && links == LevelLinks(index, pages, |pages|) && links != [] && Tight(links)
    && ChildLevel(index, l.level, links, at, next) && TailSplit(index, links, next)
  }

  /** Without half-dead pages, a page without a downlink is a root or lies behind an incomplete split. */
  lemma PassedPage(index: Index, n: nat, kids: Level, level: nat, links: seq<Link>, at: seq<nat>, next: seq<nat>,
      j: nat, sep: Option<Key>)
    requires GoodPages(index, n, kids, next) && NoneHalfDead(index) && kids.level == level - 1
    requires ChildLevel(index, level, links, at, next) && j < |next| && j !in at
    requires MustMatch(index[next[j]]) ==> sep == Some(HighKey(index[next[j]]))
    ensures PassFits(index, level, next[j], j > 0 && index[next[j - 1]].incompleteSplit, sep)
  {
    hide SanePage, GoodPages, KeysMatch, Placed;
    PageGood(index, n, kids, next, j);
    assert Excused(index, next, j);
    forall path ensures !DeletionPath(index, path, next[j]) {
      NoDeletion(index, path, next[j]);
    }
  }

  lemma NoDeletion(index: Index, path: seq<nat>, b: nat)
    requires NoneHalfDead(index)
    ensures !DeletionPath(index, path, b)
  {
  }

  lemma Skipped(at: seq<nat>, k: nat, j: nat)
    requires k < |at| && (forall a, b | 0 <= a < b < |at| :: at[a] < at[b])
    requires at[k] < j && (k + 1 < |at| ==> j < at[k + 1])
    ensures j !in at
  {
  }

  lemma LinkLeads(
    index: Index, n: nat, l: Level, pages: seq<nat>, kids: Level, next: seq<nat>, links: seq<Link>, at: seq<nat>,
    k: nat, patience: nat)
    requires Linkage(index, n, l, pages, kids, next, links, at) && k < |links| && |next| <= patience
    ensures links[k].blk in index
    ensures var kid := index[links[k].blk];
            if k + 1 < |links|
            then Leads(index, l.level, kid.next, kid.incompleteSplit, links[k + 1].blk, links[k].sep, patience)
            else Leads(index, l.level, kid.next, kid.incompleteSplit, P_NONE, None, patience)
  {
    hide GoodPages, TailSplit, KeysMatch, IsWay;
    var last := k + 1 == |links|;
    var from, to := at[k] + 1, if last then |next| else at[k + 1];
    var sep := if last then None else links[k].sep;
    forall j | from <= j < to ensures j !in at && (MustMatch(index[next[j]]) ==> sep == Some(HighKey(index[next[j]]))) {
      Skipped(at, k, j);
      if last {
        TailPage(index, n, l, pages, kids, next, links, at, k, j);
      } else if MustMatch(index[next[j]]) {
        KeyMatches(index, links, at, next, k, j);
      }
    }
    SliceIsWay(index, n, kids, l.level, links, at, next, from, to, sep, patience);
  }

  /** Pages behind the last downlink do not have to match. */
  lemma TailPage(
    index: Index, n: nat, l: Level, pages: seq<nat>, kids: Level, next: seq<nat>, links: seq<Link>, at: seq<nat>,
    k: nat, j: nat)
    requires Linkage(index, n, l, pages, kids, next, links, at) && k + 1 == |links| && at[k] < j < |next|
    ensures !MustMatch(index[next[j]])
  {
    hide KeysMatch, GoodPages, WholeChain, LevelLinks, LinkedFrom;
    GoodChain(index, n, kids, next);
    PageGood(index, n, kids, next, j);
    TailUnlinked(index, links, at, next, kids.leftmost, k, j);
  }

  lemma TailUnlinked(
    index: Index, links: seq<Link>, at: seq<nat>, next: seq<nat>, first: nat, k: nat, j: nat)
    requires Linked(index, next) && WholeChain(index, next, first) && Placed(links, at, next)
    requires k + 1 == |links| && at[k] < j < |next|
    ensures !LinkedFrom(links, next, j)
  {
    forall a, i | 0 <= a < |links| && j <= i < |next| ensures links[a].blk != next[i] {
      assert next[at[a]] == links[a].blk && at[a] <= at[k] < i;
      WholeChainDistinct(index, next, first, at[a], i);
    }
  }

  /** No downlink leads to pages from up to before to, and their high keys match where they must. */
  predicate Stretch(index: Index, at: seq<nat>, next: seq<nat>, from: nat, to: nat, sep: Option<Key>)
    requires Linked(index, next) && to <= |next|
  {
    forall j | from <= j < to :: j !in at && (MustMatch(index[next[j]]) ==> sep == Some(HighKey(index[next[j]])))
  }

  /** A stretch of pages without downlinks is a way. */
  lemma SliceIsWay(
    index: Index, n: nat, kids: Level, level: nat, links: seq<Link>, at: seq<nat>, next: seq<nat>,
    from: nat, to: nat, sep: Option<Key>, patience: nat)
    requires Linked(index, next) && GoodPages(index, n, kids, next) && NoneHalfDead(index) && kids.level == level - 1
    requires ChildLevel(index, level, links, at, next) && 1 <= from <= to <= |next| <= patience
    requires Stretch(index, at, next, from, to, sep)
    ensures var kid := index[next[from - 1]];
            Leads(index, level, kid.next, kid.incompleteSplit, if to < |next| then next[to] else P_NONE, sep, patience)
  {
    hide GoodPages, ChildLevel, WayPage, WholeChain, Stretch;
    PageGood(index, n, kids, next, from - 1);
    GoodChain(index, n, kids, next);
    var kid, way := index[next[from - 1]], next[from..to];
    var goal := if to < |next| then next[to] else P_NONE;
    SliceLinked(index, next, from, to);
    if way != [] {
      PageGood(index, n, kids, next, to - 1);
      PageGood(index, n, kids, next, from);
    }
    forall i | 0 <= i < |way| ensures WayPage(index, level, kid.next, kid.incompleteSplit, way, goal, sep, i) {
      SlicePage(index, n, kids, level, links, at, next, from, to, sep, kid, way, i);
    }
    if way != [] && to < |next| {
      WholeChainDistinct(index, next, kids.leftmost, from, to);
    }
    assert IsWay(index, level, kid.next, kid.incompleteSplit, way, goal, sep, patience);
  }

  lemma GoodChain(index: Index, n: nat, l: Level, pages: seq<nat>)
    requires GoodPages(index, n, l, pages)
    ensures WholeChain(index, pages, l.leftmost) && Linked(index, pages)
  {
    hide PagePassed;
  }

  lemma SliceLinked(index: Index, chain: seq<nat>, from: nat, to: nat)
    requires Linked(index, chain) && from <= to <= |chain|
    ensures Linked(index, chain[from..to])
  {
    var way := chain[from..to];
    assert forall i | 0 <= i < |way| :: way[i] == chain[from + i];
    forall i | 0 <= i < |way| - 1 ensures index[way[i]].next == way[i + 1] {
      var j := from + i;
      assert index[chain[j]].next == chain[j + 1];
    }
  }

  lemma StretchAt(index: Index, at: seq<nat>, next: seq<nat>, from: nat, to: nat, sep: Option<Key>, j: nat)
    requires Linked(index, next) && to <= |next| && Stretch(index, at, next, from, to, sep) && from <= j < to
    ensures j !in at && (MustMatch(index[next[j]]) ==> sep == Some(HighKey(index[next[j]])))
  {
  }

  lemma SlicePage(
    index: Index, n: nat, kids: Level, level: nat, links: seq<Link>, at: seq<nat>, next: seq<nat>,
    from: nat, to: nat, sep: Option<Key>, kid: Page, way: seq<nat>, i: nat)
    requires Linked(index, next) && 1 <= from <= to <= |next| && i < to - from
    requires way == next[from..to] && Linked(index, way) && kid == index[next[from - 1]] && kid.next == next[from]
    requires GoodPages(index, n, kids, next) && NoneHalfDead(index) && kids.level == level - 1
    requires ChildLevel(index, level, links, at, next) && Stretch(index, at, next, from, to, sep)
    ensures WayPage(index, level, next[from], kid.incompleteSplit, way,
                    if to < |next| then next[to] else P_NONE, sep, i)
  {
    hide PassFits, GoodPages, ChildLevel, Stretch, WholeChain;
    var j := from + i;
    StretchAt(index, at, next, from, to, sep, j);
    PageGood(index, n, kids, next, j);
    GoodChain(index, n, kids, next);
    PassedPage(index, n, kids, level, links, at, next, j, sep);
    if to < |next| {
      WholeChainDistinct(index, next, kids.leftmost, j, to);
    }
    if i > 0 {
      WholeChainDistinct(index, next, kids.leftmost, from, j);
    }
  }

  // ---------- Where the downlinks of a page are ----------

  /** How many downlinks the pages before page i have. */
  function Start(index: Index, pages: seq<nat>, i: nat): nat
    requires Linked(index, pages) && i <= |pages|
  {
    |LevelLinks(index, pages, i)|
  }

  lemma {:induction false} PageLinksAt(p: Page, m: nat)
    ensures |PageLinks(p, m)| == if m <= FirstDataKey(p) then 0 else m - FirstDataKey(p)
    ensures forall o | FirstDataKey(p) <= o < m :: PageLinks(p, m)[o - FirstDataKey(p)] == LinkAt(p, o)
  {
    hide Separator;
    if m > FirstDataKey(p) {
      PageLinksAt(p, m - 1);
    }
  }

  lemma {:induction false} LinksGrow(index: Index, pages: seq<nat>, i: nat, m: nat)
    requires Linked(index, pages) && i <= m <= |pages| && forall a | 0 <= a < |pages| :: !Ignored(index[pages[a]])
    ensures LevelLinks(index, pages, i) <= LevelLinks(index, pages, m)
  {
    hide PageLinks;
    if i < m {
      LinksGrow(index, pages, i, m - 1);
    }
  }

  /** The downlink at an offset of page i, among those of its level. */
  lemma LinkIndex(index: Index, pages: seq<nat>, i: nat, m: nat)
    requires Linked(index, pages) && i < |pages| && forall a | 0 <= a < |pages| :: !Ignored(index[pages[a]])
    requires var p := index[pages[i]]; FirstDataKey(p) <= m <= |p.items|
    ensures var p, links := index[pages[i]], LevelLinks(index, pages, |pages|);
            var k := Start(index, pages, i) + m - FirstDataKey(p);
            && 0 <= k < |links| && links[k] == LinkAt(p, m)
            && Start(index, pages, i + 1) == Start(index, pages, i) + |p.items| + 1 - FirstDataKey(p) <= |links|
  {
    hide PageLinks, LinkAt, LevelLinks;
    var p := index[pages[i]];
    PageLinksAt(p, |p.items| + 1);
    LinksGrow(index, pages, i + 1, |pages|);
    LinksNext(index, pages, i);
    var before, own := LevelLinks(index, pages, i), PageLinks(p, |p.items| + 1);
    assert (before + own)[|before| + (m - FirstDataKey(p))] == own[m - FirstDataKey(p)];
  }

  lemma LinksNext(index: Index, pages: seq<nat>, i: nat)
    requires Linked(index, pages) && i < |pages| && !Ignored(index[pages[i]])
    ensures var p := index[pages[i]];
            LevelLinks(index, pages, i + 1) == LevelLinks(index, pages, i) + PageLinks(p, |p.items| + 1)
  {
    hide PageLinks;
  }

  // ---------- A page, a level, a tree ----------

  lemma NoneIgnored(index: Index, n: nat, l: Level, pages: seq<nat>)
    requires GoodPages(index, n, l, pages)
    ensures Linked(index, pages) && forall a | 0 <= a < |pages| :: !Ignored(index[pages[a]])
  {
    hide PagePassed;
  }

  /** An inner page and its downlinks among those of the level. */
  lemma InnerPage(
    index: Index, n: nat, l: Level, pages: seq<nat>, kids: Level, next: seq<nat>, links: seq<Link>, at: seq<nat>,
    i: nat, m: nat)
    returns (k: nat)
    requires Linkage(index, n, l, pages, kids, next, links, at) && l.level > 0 && i < |pages|
    requires pages[i] in index && FirstDataKey(index[pages[i]]) <= m <= |index[pages[i]].items|
    ensures Linked(index, pages)
    ensures var p := index[pages[i]];
            && k < |links| && links[k] == LinkAt(p, m) && k == Start(index, pages, i) + m - FirstDataKey(p)
            && Start(index, pages, i + 1) == Start(index, pages, i) + |p.items| + 1 - FirstDataKey(p)
            && Start(index, pages, |pages|) == |links|
  {
    hide GoodPages, ChildLevel, TailSplit, LinkAt;
    NoneIgnored(index, n, l, pages);
    LinkIndex(index, pages, i, m);
    k := Start(index, pages, i) + m - FirstDataKey(index[pages[i]]);
  }

  lemma KidFitsGood(
    index: Index, n: nat, l: Level, pages: seq<nat>, kids: Level, next: seq<nat>, links: seq<Link>, at: seq<nat>,
    i: nat, m: nat)
    requires Linkage(index, n, l, pages, kids, next, links, at) && l.level > 0 && i < |pages|
    requires pages[i] in index && FirstDataKey(index[pages[i]]) <= m <= |index[pages[i]].items|
    ensures KidFits(index, index[pages[i]], m)
  {
    hide GoodPages, ChildLevel, TailSplit, Separator, SanePage, Checked, RightChecked, ChildrenBounded;
    var k := InnerPage(index, n, l, pages, kids, next, links, at, i, m);
    var j := LinkPlaced(index, l.level, links, at, next, k);
    PageGood(index, n, l, pages, i);
    PageGood(index, n, kids, next, j);
  }

  lemma KidFollowsGood(
    index: Index, n: nat, l: Level, pages: seq<nat>, kids: Level, next: seq<nat>, links: seq<Link>, at: seq<nat>,
    i: nat, m: nat, patience: nat)
    requires Linkage(index, n, l, pages, kids, next, links, at) && l.level > 0 && i < |pages| && |next| <= patience
    requires pages[i] in index && FirstDataKey(index[pages[i]]) < m <= |index[pages[i]].items|
    ensures KidFollows(index, index[pages[i]], m, patience)
  {
    hide Linkage, Leads, LevelLinks, LinkAt;
    var p := index[pages[i]];
    var k := InnerPage(index, n, l, pages, kids, next, links, at, i, m - 1);
    var k' := InnerPage(index, n, l, pages, kids, next, links, at, i, m);
    PageLevel(index, n, l, pages, kids, next, links, at, i);
    LinkLeads(index, n, l, pages, kids, next, links, at, k, patience);
    LinkBlock(p, m - 1);
    LinkBlock(p, m);
  }

  lemma PageLevel(
    index: Index, n: nat, l: Level, pages: seq<nat>, kids: Level, next: seq<nat>, links: seq<Link>, at: seq<nat>,
        i: nat)
    requires Linkage(index, n, l, pages, kids, next, links, at) && i < |pages|
    ensures pages[i] in index && index[pages[i]].level == l.level
    ensures index[pages[i]].next == if i + 1 < |pages| then pages[i + 1] else P_NONE
    ensures i + 1 < |pages| ==> pages[i + 1] != P_NONE
    ensures !index[pages[i]].isLeaf ==> FirstDataKey(index[pages[i]]) <= |index[pages[i]].items|
    ensures index[pages[i]].isLeaf <==> l.level == 0
  {
    hide GoodPages, ChildLevel, TailSplit, Checked, RightChecked, ChildrenBounded;
    PageGood(index, n, l, pages, i);
    if i + 1 < |pages| {
      PageGood(index, n, l, pages, i + 1);
    }
  }

  lemma KidsLeadGood(
    index: Index, n: nat, l: Level, pages: seq<nat>, kids: Level, next: seq<nat>, links: seq<Link>, at: seq<nat>,
    i: nat, patience: nat)
    requires Linkage(index, n, l, pages, kids, next, links, at) && l.level > 0 && i < |pages| && |next| <= patience
    ensures pages[i] in index && KidsLead(index, pages, i, patience)
  {
    hide Linkage, Leads, LevelLinks, LinkAt;
    PageLevel(index, n, l, pages, kids, next, links, at, i);
    var p := index[pages[i]];
    var k := InnerPage(index, n, l, pages, kids, next, links, at, i, |p.items|);
    LinkLeads(index, n, l, pages, kids, next, links, at, k, patience);
    LastLink(p);
    if i + 1 < |pages| {
      PageLevel(index, n, l, pages, kids, next, links, at, i + 1);
      var q := index[pages[i + 1]];
      var k' := InnerPage(index, n, l, pages, kids, next, links, at, i + 1, FirstDataKey(q));
      LinkBlock(q, FirstDataKey(q));
    }
  }

  lemma LastLink(p: Page)
    ensures var link := LinkAt(p, |p.items|);
            link.blk == Child(p, |p.items|) && link.sep == if Rightmost(p) then None else Some(HighKey(p))
  {
  }

  lemma LinkBlock(p: Page, m: nat)
    ensures LinkAt(p, m).blk == Child(p, m)
    ensures m < |p.items| ==> LinkAt(p, m).sep == Some(ItemAt(p, m + 1).key)
  {
  }

  lemma KidsBeginGood(
    index: Index, n: nat, l: Level, pages: seq<nat>, kids: Level, next: seq<nat>, links: seq<Link>, at: seq<nat>)
    requires Linkage(index, n, l, pages, kids, next, links, at) && l.level > 0 && |pages| > 0
    ensures pages[0] in index && KidsBegin(index, index[pages[0]])
  {
    hide GoodPages, TailSplit, ChildLevel, Tight, LevelLinks;
    PageLevel(index, n, l, pages, kids, next, links, at, 0);
    var p := index[pages[0]];
    var k := InnerPage(index, n, l, pages, kids, next, links, at, 0, FirstDataKey(p));
    NothingBefore(index, pages);
    FirstPlaced(index, l.level, links, at, next);
  }

  lemma NothingBefore(index: Index, pages: seq<nat>)
    requires Linked(index, pages)
    ensures Start(index, pages, 0) == 0
  {
  }

  lemma FirstPlaced(index: Index, level: nat, links: seq<Link>, at: seq<nat>, chain: seq<nat>)
    requires ChildLevel(index, level, links, at, chain) && links != []
    ensures links[0].blk in index && index[links[0].blk].prev == P_NONE
  {
    hide KeysMatch, Excused;
    assert chain[at[0]] == links[0].blk;
  }

  /** The offsets of a page fit, on a leaf level or with downlinks. */
  lemma OffsetFitsGood(index: Index, n: nat, l: Level, pages: seq<nat>, i: nat, m: nat, patience: nat)
    requires GoodPages(index, n, l, pages) && i < |pages| && patience > 0 && pages[i] in index
    requires FirstDataKey(index[pages[i]]) <= m <= |index[pages[i]].items|
    requires l.level > 0 ==> KidFits(index, index[pages[i]], m)
    ensures OffsetFits(index, n, index[pages[i]], m, patience)
  {
    hide GoodPages, RightChecked, KidFits, ItemFits, NattsOk, BelowHighKey, InvariantL, ChildBounded;
    PageGood(index, n, l, pages, i);
    if FirstReal(index[pages[i]]) <= m {
      ItemFitsGood(index, n, l, pages, i, m, patience);
    }
  }

  /** What the downlinks of a level must be for its pages to fit. */
  ghost predicate KidsGood(index: Index, pages: seq<nat>, patience: nat)
    requires Linked(index, pages)
  {
    && (forall i, m | 0 <= i < |pages| && FirstDataKey(index[pages[i]]) <= m <= |index[pages[i]].items| ::
          KidFits(index, index[pages[i]], m))
    && (forall i, m | 0 <= i < |pages| && FirstDataKey(index[pages[i]]) < m <= |index[pages[i]].items| ::
          KidFollows(index, index[pages[i]], m, patience))
    && (forall i | 0 <= i < |pages| :: KidsLead(index, pages, i, patience))
  }

  lemma LiveFitsGood(index: Index, n: nat, l: Level, pages: seq<nat>, i: nat, patience: nat)
    requires GoodPages(index, n, l, pages) && Linked(index, pages) && i < |pages| && patience > 0
    requires l.level > 0 ==> KidsGood(index, pages, patience)
    ensures LiveFits(index, n, l.level, LeftOf(pages, i), index[pages[i]], patience)
  {
    hide GoodPages, RightChecked, KidFits, KidFollows, OffsetFits, ChildrenBounded, KidsLead;
    PageGood(index, n, l, pages, i);
    var p := index[pages[i]];
    forall m | FirstDataKey(p) <= m <= |p.items| ensures OffsetFits(index, n, p, m, patience) {
      OffsetFitsGood(index, n, l, pages, i, m, patience);
    }
  }

  lemma LevelFitsGood(index: Index, n: nat, l: Level, pages: seq<nat>, patience: nat)
    requires GoodPages(index, n, l, pages) && |index| <= patience && Linked(index, pages)
    requires l.level > 0 ==> KidsGood(index, pages, patience) && KidsBegin(index, index[pages[0]])
    ensures LevelFits(index, n, l, pages, patience)
  {
    hide PagePassed, LiveFits, KidsGood, KidsLead, KidsBegin;
    ChainIsShort(index, pages, l.leftmost);
    forall i | 0 <= i < |pages| ensures LiveFits(index, n, l.level, LeftOf(pages, i), index[pages[i]], patience) {
      LiveFitsGood(index, n, l, pages, i, patience);
    }
    if l.level > 0 {
      KidsLeadAll(index, pages, patience);
    }
  }

  lemma KidsLeadAll(index: Index, pages: seq<nat>, patience: nat)
    requires Linked(index, pages) && KidsGood(index, pages, patience)
    ensures forall i | 0 <= i < |pages| :: KidsLead(index, pages, i, patience)
  {
    hide KidsLead;
  }

  lemma LinkageGood(
    index: Index, n: nat, l: Level, pages: seq<nat>, kids: Level, next: seq<nat>, links: seq<Link>, at: seq<nat>,
    patience: nat)
    requires Linkage(index, n, l, pages, kids, next, links, at) && l.level > 0 && |index| <= patience
            && Linked(index, pages)
    ensures KidsGood(index, pages, patience) && pages != [] && KidsBegin(index, index[pages[0]])
  {
    hide KidFits, KidFollows, KidsLead, KidsBegin, ChildLevel, TailSplit, PagePassed;
    ChainIsShort(index, next, kids.leftmost);
    forall i, m | 0 <= i < |pages| && FirstDataKey(index[pages[i]]) <= m <= |index[pages[i]].items|
      ensures KidFits(index, index[pages[i]], m)
    {
      KidFitsGood(index, n, l, pages, kids, next, links, at, i, m);
    }
    forall i, m | 0 <= i < |pages| && FirstDataKey(index[pages[i]]) < m <= |index[pages[i]].items|
      ensures KidFollows(index, index[pages[i]], m, patience)
    {
      KidFollowsGood(index, n, l, pages, kids, next, links, at, i, m, patience);
    }
    forall i | 0 <= i < |pages| ensures KidsLead(index, pages, i, patience) {
      KidsLeadGood(index, n, l, pages, kids, next, links, at, i, patience);
    }
    KidsBeginGood(index, n, l, pages, kids, next, links, at);
  }

  /** Above the leaves there is always another level. */
  lemma NotLast(index: Index, n: nat, rootLevel: nat, root: nat, levels: seq<seq<nat>>, d: nat)
    requires Healthy(index, n, rootLevel, root, levels) && d < |levels| && d < rootLevel
    ensures d + 1 < |levels|
  {
    hide LevelLinks, LeadsTo, PagePassed, TailSplit, SaneLinks;
    var l := LevelAt(index, rootLevel, root, levels, d);
    assert VerifiedAt(index, n, rootLevel, root, levels, d) && GoodLevel(index, rootLevel, levels, d);
    FirstLink(index, n, l, levels[d], |levels[d]|);
    FirstIsSane(index, LevelLinks(index, levels[d], |levels[d]|));
  }

  lemma FirstIsSane(index: Index, links: seq<Link>)
    requires links != [] && SaneLinks(index, links)
    ensures links[0].blk != P_NONE
  {
  }

  lemma HealthyLinkage(index: Index, n: nat, rootLevel: nat, root: nat, levels: seq<seq<nat>>, d: nat)
    returns (links: seq<Link>, at: seq<nat>)
    requires Healthy(index, n, rootLevel, root, levels) && d + 1 < |levels| && d < rootLevel
    ensures |levels| <= rootLevel + 1
    ensures Linkage(index, n, LevelAt(index, rootLevel, root, levels, d), levels[d],
                    LevelAt(index, rootLevel, root, levels, d + 1), levels[d + 1], links, at)
  {
    hide LevelLinks, LeadsTo, PagePassed, TailSplit, SaneLinks, ChildLevel, Tight;
    var l, kids := LevelAt(index, rootLevel, root, levels, d), LevelAt(index, rootLevel, root, levels, d + 1);
    var pages, next := levels[d], levels[d + 1];
    assert GoodLevel(index, rootLevel, levels, d);
    Neighbours(index, n, rootLevel, root, levels, d);
    LevelGood(index, n, l, pages);
    LevelGood(index, n, kids, next);
    DownlinksFollowChain(index, n, rootLevel, root, levels, d);
    links := LevelLinks(index, pages, |pages|);
    at :| ChildLevel(index, rootLevel - d, links, at, next);
    FirstLink(index, n, l, pages, |pages|);
    NoneLoosened(index, pages, |pages|);
  }

  lemma HealthyLevelFits(index: Index, n: nat, rootLevel: nat, root: nat, levels: seq<seq<nat>>, d: nat, patience: nat)
    requires Healthy(index, n, rootLevel, root, levels) && d < |levels| && |index| <= patience
    ensures |levels| <= rootLevel + 1
    ensures LevelFits(index, n, LevelAt(index, rootLevel, root, levels, d), levels[d], patience)
  {
    hide LeadsTo, LevelPassed, TailSplit, SaneLinks, LevelFits, Linkage, GoodPages, KidsGood, KidsBegin;
    var l := LevelAt(index, rootLevel, root, levels, d);
    assert VerifiedAt(index, n, rootLevel, root, levels, d);
    LevelGood(index, n, l, levels[d]);
    if d < rootLevel {
      NotLast(index, n, rootLevel, root, levels, d);
      var links, at := HealthyLinkage(index, n, rootLevel, root, levels, d);
      LinkageGood(index, n, l, levels[d], LevelAt(index, rootLevel, root, levels, d + 1), levels[d + 1], links, at,
          patience);
    }
    LevelFitsGood(index, n, l, levels[d], patience);
  }

  /** A healthy index passes all tests of a run that is not interrupted. */
  lemma HealthyFits(index: Index, n: nat, rootLevel: nat, root: nat, levels: seq<seq<nat>>, patience: nat)
    requires Healthy(index, n, rootLevel, root, levels) && |index| <= patience
    ensures TreeFits(index, n, rootLevel, root, levels, patience)
  {
    hide LevelFits, VerifiedAt, GoodLevel, EndsBelow;
    forall d | 0 <= d < |levels|
      ensures LevelFits(index, n, LevelAt(index, rootLevel, root, levels, d), levels[d], patience)
    {
      HealthyLevelFits(index, n, rootLevel, root, levels, d, patience);
    }
  }

  /** bt_check_every_level on a healthy index, with time for every page. */
  method CheckHealthy(index: Index, n: nat, page: Page, rootLevel: nat, root: nat, patience: nat,
      ghost levels: seq<seq<nat>>)
    returns (r: Outcome)
    requires Healthy(index, n, rootLevel, root, levels) && |index| <= patience
    ensures r.Ok?
  {
    hide TreeFits, TreeVerified, GoodLevel;
    var state := new BtreeCheckState(index, n, page);
    HealthyFits(index, n, rootLevel, root, levels, patience);
    ghost var seen;
    r, seen := state.CheckEveryLevel(rootLevel, root, patience);
  }

  // ---------- Without incomplete splits ----------

  /** The last downlink of a level has no separator. */
  lemma LastSeparates(index: Index, n: nat, l: Level, pages: seq<nat>)
    requires GoodPages(index, n, l, pages) && l.level > 0 && Linked(index, pages) && pages != []
    ensures var links := LevelLinks(index, pages, |pages|); links != [] && links[|links| - 1].sep == None
  {
    hide GoodPages, LevelLinks, Checked, RightChecked, ChildrenBounded;
    NoneIgnored(index, n, l, pages);
    PageGood(index, n, l, pages, |pages| - 1);
    var p := index[pages[|pages| - 1]];
    LinkIndex(index, pages, |pages| - 1, |p.items|);
  }

  /** If no page is incompletely split, the last downlink leads to the rightmost page. */
  lemma NothingLeftOver(
    index: Index, n: nat, kids: Level, level: nat, links: seq<Link>, at: seq<nat>, next: seq<nat>)
    requires Linked(index, next) && GoodPages(index, n, kids, next) && NoneSplit(index)
    requires ChildLevel(index, level, links, at, next) && links != [] && links[|links| - 1].sep == None
    ensures TailSplit(index, links, next)
  {
    hide GoodPages, KeysMatch, Excused;
    var k := |links| - 1;
    var j := at[k];
    PageGood(index, n, kids, next, j);
    if MustMatch(index[next[j]]) {
      KeyMatches(index, links, at, next, k, j);
    }
    assert j == |next| - 1 && links[k].blk == next[j];
    forall i | 0 <= i < |next| - 1 ensures LinkedFrom(links, next, i) {
    }
  }

  ghost predicate SaneTree(index: Index, rootLevel: nat, levels: seq<seq<nat>>) {
    forall d | 0 <= d < |levels| && d < rootLevel ::
      Linked(index, levels[d]) && SaneLinks(index, LevelLinks(index, levels[d], |levels[d]|))
  }

  /** In order, with sane downlinks, and no page half-dead or incompletely split: that is healthy. */
  lemma FinishedIsHealthy(index: Index, n: nat, rootLevel: nat, root: nat, levels: seq<seq<nat>>)
    requires INVALID_BLOCK !in index && TreeVerified(index, n, rootLevel, root, levels)
    requires SaneTree(index, rootLevel, levels) && NoneHalfDead(index) && NoneSplit(index)
    ensures Healthy(index, n, rootLevel, root, levels)
  {
    hide LevelLinks, LevelVerified, TailSplit, SaneLinks;
    forall d | 0 <= d < |levels| ensures GoodLevel(index, rootLevel, levels, d) {
      FinishedLevel(index, n, rootLevel, root, levels, d);
    }
  }

  lemma FinishedLevel(index: Index, n: nat, rootLevel: nat, root: nat, levels: seq<seq<nat>>, d: nat)
    requires INVALID_BLOCK !in index && TreeVerified(index, n, rootLevel, root, levels) && d < |levels|
    requires SaneTree(index, rootLevel, levels) && NoneHalfDead(index) && NoneSplit(index)
    ensures |levels| <= rootLevel + 1 && GoodLevel(index, rootLevel, levels, d)
  {
    hide LevelLinks, LeadsTo, PagePassed, TailSplit, SaneLinks, ChildLevel;
    var l, pages := LevelAt(index, rootLevel, root, levels, d), levels[d];
    assert VerifiedAt(index, n, rootLevel, root, levels, d);
    if d < rootLevel && d + 1 < |levels| {
      var kids, next := LevelAt(index, rootLevel, root, levels, d + 1), levels[d + 1];
      Neighbours(index, n, rootLevel, root, levels, d);
      LevelGood(index, n, l, pages);
      LevelGood(index, n, kids, next);
      DownlinksFollowChain(index, n, rootLevel, root, levels, d);
      var links := LevelLinks(index, pages, |pages|);
      var at :| ChildLevel(index, rootLevel - d, links, at, next);
      LastSeparates(index, n, l, pages);
      NothingLeftOver(index, n, kids, rootLevel - d, links, at, next);
    }
  }

  // ---------- A small healthy index ----------

  function SmallLeaf(prev: nat, next: nat, items: seq<Item>): Page {
    Page(0, prev, next, true, false, false, false, false, false, false, false, items, Item(MINUS_INFINITY, 0))
  }

  /** Root 3 over leaf 1 with item 5 and high key 9, and leaf 2 with item 10. */
  function TwoLeaves(): Index {
    map[1 := SmallLeaf(0, 2, [Item(Key([9], None), 0), Item(Key([5], Some(1)), 0)]),
        2 := SmallLeaf(1, 0, [Item(Key([10], Some(1)), 0)]),
        3 := Internal(1, 0, 0, true, [Item(MINUS_INFINITY, 1), Item(Key([9], None), 2)])]
  }

  lemma TwoLeavesHealthy()
    ensures Healthy(TwoLeaves(), 1, 1, 3, [[3], [1, 2]])
  {
    hide TreeVerified, SaneTree;
    SmallTree();
    SmallSane();
    FinishedIsHealthy(TwoLeaves(), 1, 1, 3, [[3], [1, 2]]);
  }

  lemma SmallTree()
    ensures TreeVerified(TwoLeaves(), 1, 1, 3, [[3], [1, 2]])
  {
    hide LevelVerified;
    var index, levels := TwoLeaves(), [[3], [1, 2]];
    SmallRoot();
    SmallLeaves();
    assert VerifiedAt(index, 1, 1, 3, levels, 0);
    assert VerifiedAt(index, 1, 1, 3, levels, 1);
  }

  lemma SmallSane()
    ensures SaneTree(TwoLeaves(), 1, [[3], [1, 2]])
  {
    hide SaneLinks, LevelLinks, LevelVerified;
    SmallRoot();
  }

  lemma SmallRootLinks()
    ensures Linked(TwoLeaves(), [3])
    ensures LevelLinks(TwoLeaves(), [3], 1) == [Link(1, Some(Key([9], None)), false), Link(2, None, false)]
  {
    var index := TwoLeaves();
    var p := index[3];
    assert PageLinks(p, 1) == [];
    assert PageLinks(p, 2) == [Link(1, Some(Key([9], None)), false)];
    assert PageLinks(p, 3) == PageLinks(p, 2) + [Link(2, None, false)];
    assert LevelLinks(index, [3], 0) == [];
  }

  lemma SmallRoot()
    ensures LevelVerified(TwoLeaves(), 1, Level(1, 3, true), [3])
    ensures Linked(TwoLeaves(), [3]) && SaneLinks(TwoLeaves(), LevelLinks(TwoLeaves(), [3], 1))
  {
    hide LevelLinks;
    var index, pages := TwoLeaves(), [3];
    SmallRootLinks();
    SmallRootPage();
    SmallRootLeads();
    hide PagePassed, LeadsTo;
  }

  lemma SmallRootPage()
    ensures PagePassed(TwoLeaves(), 1, 1, P_NONE, TwoLeaves()[3]) && Standing(TwoLeaves()[3])
  {
    var index := TwoLeaves();
    var p := index[3];
    assert Checked(p, 1);
    assert ChildBounded(index, p, 2);
  }

  lemma SmallRootLeads()
    ensures Linked(TwoLeaves(), [3]) && LeadsTo(TwoLeaves(), 1, [3])
  {
    hide LevelLinks;
    SmallRootLinks();
    var index, at, chain := TwoLeaves(), [0, 1], [1, 2];
    var links := LevelLinks(index, [3], 1);
    assert Placed(links, at, chain);
    assert 0 in at && 1 in at;
    assert ChildLevel(index, 1, links, at, chain);
    assert WholeChain(index, chain, 1);
  }

  lemma SmallLeaves()
    ensures LevelVerified(TwoLeaves(), 1, Level(0, 1, false), [1, 2])
  {
    var index, pages := TwoLeaves(), [1, 2];
    SmallLeafPages();
    hide PagePassed, Standing;
    assert forall i | 0 <= i < 2 ::
      Standing(index[pages[i]]) && PagePassed(index, 1, 0, LeftOf(pages, i), index[pages[i]]);
  }

  lemma SmallLeafPages()
    ensures var index := TwoLeaves();
            && Standing(index[1]) && PagePassed(index, 1, 0, P_NONE, index[1])
            && Standing(index[2]) && PagePassed(index, 1, 0, 1, index[2])
  {
    var index := TwoLeaves();
    assert Checked(index[1], 1) && Checked(index[2], 1);
    assert InvariantG(Key([10], Some(1)), Key([5], Some(1)));
  }
}
