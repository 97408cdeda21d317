/** What the readonly B-tree verifier learns about a level and the level below it, page by page. */
module BtreeLevels {
  import opened Optional
  import opened BtreeKeys
  import opened BtreePages

  // ---------- What is learned about the child level ----------

  /** Downlinks point to pages, and those pages have a well-formed right link. */
  predicate SaneLinks(index: Index, links: seq<Link>) {
    forall k | 0 <= k < |links| ::
      links[k].blk != P_NONE && links[k].blk in index && index[links[k].blk].next != INVALID_BLOCK
  }

  /** The k-th downlink points to the page at position at[k] of the chain. */
  predicate Placed(links: seq<Link>, at: seq<nat>, chain: seq<nat>) {
    && |at| == |links| && (links != [] ==> at[0] == 0)
    && (forall k | 0 <= k < |at| :: at[k] < |chain| && chain[at[k]] == links[k].blk)
    && (forall k, l | 0 <= k < l < |at| :: at[k] < at[l])
  }

  /** A half-dead leaf at the bottom of the leftmost path from b names b as its top parent. */
  predicate DeletionPath(index: Index, path: seq<nat>, b: nat) {
    && |path| >= 2 && path[0] == b
    && (forall i | 0 <= i < |path| :: path[i] in index)
    && (forall i | 0 <= i < |path| - 1 ::
          var p := index[path[i]]; !p.isLeaf && path[i + 1] == ItemAt(p, FirstDataKey(p)).blk)
    && (forall i | 0 < i < |path| - 1 :: index[path[i]].level == index[path[i - 1]].level - 1)
    && var leaf := index[path[|path| - 1]];
       && leaf.isLeaf && leaf.isHalfDead && !leaf.isDeleted && !Rightmost(leaf)
       && ItemAt(leaf, P_HIKEY).blk == b
  }

  /** Why a live page may lack a downlink. */
  ghost predicate Excused(index: Index, chain: seq<nat>, j: nat)
    requires Linked(index, chain) && j < |chain|
  {
    || index[chain[j]].isRoot
    || (j > 0 && index[chain[j - 1]].incompleteSplit)
    || exists path :: DeletionPath(index, path, chain[j])
  }

  /** A child page whose high key must equal a separator of its parent level. */
  predicate MustMatch(p: Page) {
    !p.incompleteSplit && !Rightmost(p)
  }

  /** Position after the pages whose high key is compared with separator k. */
  function StretchEnd(at: seq<nat>, k: nat): nat
    requires k < |at|
  {
    if k + 1 < |at| then at[k + 1] else at[k] + 1
  }

  predicate KeysMatch(index: Index, links: seq<Link>, at: seq<nat>, chain: seq<nat>)
    requires Linked(index, chain) && Placed(links, at, chain)
  {
    forall k, j | 0 <= k < |at| && at[k] <= j < StretchEnd(at, k) ::
      MustMatch(index[chain[j]]) && (j == at[k] || !links[k].loose) ==> links[k].sep == Some(HighKey(index[chain[j]]))
  }

  /** The part of the child level passed so far, for a parent level at the given level. */
  ghost predicate ChildLevel(index: Index, level: nat, links: seq<Link>, at: seq<nat>, chain: seq<nat>) {
    && Linked(index, chain) && Placed(links, at, chain)
    && (chain != [] ==> index[chain[0]].prev == P_NONE)
    && (forall j | 0 <= j < |chain| :: !index[chain[j]].isDeleted ==> index[chain[j]].level == level - 1)
    && (forall j | 0 <= j < |chain| && j !in at && !Ignored(index[chain[j]]) :: Excused(index, chain, j))
    && KeysMatch(index, links, at, chain)
  }

  /** All real items of the child are above the downlink's key. */
  predicate BoundedBelow(key: Key, child: Page) {
    forall i | FirstReal(child) <= i <= |child.items| :: InvariantL(key, ItemAt(child, i).key)
  }

  /** Pages passed between two downlinks: on level, excused, high keys equal to the separator. */
  ghost predicate Passed(index: Index, level: nat, from: nat, to: nat, c: seq<nat>, sep: Option<Key>, loose: bool)
    requires Linked(index, c) && to <= |c|
  {
    forall j | from <= j < to ::
      && (!index[c[j]].isDeleted ==> index[c[j]].level == level - 1)
      && (!Ignored(index[c[j]]) ==> Excused(index, c, j))
      && (!loose && MustMatch(index[c[j]]) ==> sep == Some(HighKey(index[c[j]])))
  }

  /** What a walk from one downlink's page to the next one's has seen. */
  ghost predicate WalkTo(index: Index, level: nat, links: seq<Link>, at: seq<nat>, chain: seq<nat>, c: seq<nat>,
      link: Link)
    requires ChildLevel(index, level, links, at, chain)
  {
    && (if links == [] then chain == [] && |c| == 1 else at[|at| - 1] == |chain| - 1)
    && chain < c && Linked(index, c) && index[c[0]].prev == P_NONE && c[|c| - 1] == link.blk
    && (links != [] ==> Passed(index, level, |chain|, |c| - 1, c, links[|links| - 1].sep, links[|links| - 1].loose))
    && !link.loose
    && var p := index[link.blk];
       && (!p.isDeleted ==> p.level == level - 1)
       && (MustMatch(p) ==> link.sep == Some(HighKey(p)))
  }

  lemma PlacedNext(index: Index, level: nat, links: seq<Link>, at: seq<nat>, chain: seq<nat>, c: seq<nat>, link: Link)
    requires ChildLevel(index, level, links, at, chain) && WalkTo(index, level, links, at, chain, c, link)
    ensures Placed(links + [link], at + [|c| - 1], c)
  {
    hide KeysMatch, Excused, Passed;
  }

  lemma ExcusedNext(index: Index, level: nat, links: seq<Link>, at: seq<nat>, chain: seq<nat>, c: seq<nat>,
      link: Link, j: nat)
    requires ChildLevel(index, level, links, at, chain) && WalkTo(index, level, links, at, chain, c, link)
    requires j < |c| && j !in at + [|c| - 1] && !Ignored(index[c[j]])
    ensures Excused(index, c, j)
  {
    hide KeysMatch, Placed;
    if j < |chain| {
      assert j !in at;
      assert Excused(index, chain, j);
      assert c[j] == chain[j] && (j > 0 ==> c[j - 1] == chain[j - 1]);
    } else {
      assert j != |c| - 1 by { assert (at + [|c| - 1])[|at|] == |c| - 1; }
    }
  }

  lemma KeyNext(index: Index, level: nat, links: seq<Link>, at: seq<nat>, chain: seq<nat>, c: seq<nat>, link: Link,
      k: nat, j: nat)
    requires ChildLevel(index, level, links, at, chain) && WalkTo(index, level, links, at, chain, c, link)
    requires k <= |at| && j < |c| && MustMatch(index[c[j]])
    requires if k < |at| then at[k] <= j < StretchEnd(at + [|c| - 1], k) else j == |c| - 1
    requires k < |at| ==> j == at[k] || !links[k].loose
    ensures (links + [link])[k].sep == Some(HighKey(index[c[j]]))
  {
    hide Excused, KeysMatch;
    if k < |at| - 1 || (k == |at| - 1 && j < |chain|) {
      assert at[k] <= j < StretchEnd(at, k) && c[j] == chain[j];
      KeyMatches(index, links, at, chain, k, j);
    }
  }

  lemma KeyMatches(index: Index, links: seq<Link>, at: seq<nat>, chain: seq<nat>, k: nat, j: nat)
    requires Linked(index, chain) && Placed(links, at, chain) && KeysMatch(index, links, at, chain)
    requires k < |at| && at[k] <= j < StretchEnd(at, k) && j < |chain| && MustMatch(index[chain[j]])
    requires j == at[k] || !links[k].loose
    ensures links[k].sep == Some(HighKey(index[chain[j]]))
  {
  }

  lemma KeysNext(index: Index, level: nat, links: seq<Link>, at: seq<nat>, chain: seq<nat>, c: seq<nat>, link: Link)
    requires ChildLevel(index, level, links, at, chain) && WalkTo(index, level, links, at, chain, c, link)
    requires Placed(links + [link], at + [|c| - 1], c)
    ensures KeysMatch(index, links + [link], at + [|c| - 1], c)
  {
    var at' := at + [|c| - 1];
    forall k, j | 0 <= k < |at'| && at'[k] <= j < StretchEnd(at', k) && MustMatch(index[c[j]])
                  && (j == at'[k] || !(links + [link])[k].loose)
      ensures (links + [link])[k].sep == Some(HighKey(index[c[j]]))
    {
      KeyNext(index, level, links, at, chain, c, link, k, j);
    }
  }

  /** The walk from one downlink's page to the next one's extends the picture of the level. */
  lemma ReachedDownlink(index: Index, level: nat, links: seq<Link>, at: seq<nat>, chain: seq<nat>, c: seq<nat>,
      link: Link)
    requires ChildLevel(index, level, links, at, chain) && WalkTo(index, level, links, at, chain, c, link)
    ensures ChildLevel(index, level, links + [link], at + [|c| - 1], c)
  {
    PlacedNext(index, level, links, at, chain, c, link);
    KeysNext(index, level, links, at, chain, c, link);
    hide KeysMatch, Placed, Excused;
    forall j | 0 <= j < |c| && j !in at + [|c| - 1] && !Ignored(index[c[j]])
      ensures Excused(index, c, j)
    {
      ExcusedNext(index, level, links, at, chain, c, link, j);
    }
    forall j | 0 <= j < |c| && !index[c[j]].isDeleted
      ensures index[c[j]].level == level - 1
    {
      if j < |chain| {
        assert c[j] == chain[j];
      }
    }
  }

  lemma NotSane(index: Index, links: seq<Link>, link: Link)
    requires link.blk == P_NONE
    ensures !SaneLinks(index, links + [link])
  {
    assert (links + [link])[|links|] == link;
  }

  lemma SaneLinksSnoc(index: Index, links: seq<Link>, link: Link)
    requires SaneLinks(index, links + [link])
    ensures SaneLinks(index, links) && link.blk != P_NONE
  {
    assert forall k | 0 <= k < |links| :: (links + [link])[k] == links[k];
    assert (links + [link])[|links|] == link;
  }

  /**
    prl and pis are the right link and the incomplete split flag of the last child page
    passed, and what was passed fits the downlinks seen.
   */
  ghost predicate Follows(index: Index, level: nat, links: seq<Link>, at: seq<nat>, chain: seq<nat>, prl: nat,
      pis: bool) {
    && ChildLevel(index, level, links, at, chain)
    && (links == [] ==> chain == [] && prl == INVALID_BLOCK)
    && (links != [] ==>
          && at[|at| - 1] == |chain| - 1
          && prl == index[chain[|chain| - 1]].next
          && pis == index[chain[|chain| - 1]].incompleteSplit)
  }

  /** On the way from the last downlink's page to blkno, with pages c passed in all. */
  ghost predicate Walking(
    index: Index, level: nat, links: seq<Link>, chain: seq<nat>,
    c: seq<nat>, blkno: nat, rightsplit: bool, downlink: nat, left: Option<Key>)
  {
    && chain <= c && Linked(index, c)
    && (links == [] ==> c == [])
    && (c == [] ==> blkno == downlink && !rightsplit)
    && (c != [] ==> index[c[0]].prev == P_NONE
                    && blkno == index[c[|c| - 1]].next
                    && rightsplit == index[c[|c| - 1]].incompleteSplit)
    && Passed(index, level, |chain|, |c|, c, left, false)
  }

  /** What one round of bt_child_highkey_check knows about the page it read. */
  ghost predicate PageSeen(index: Index, level: nat, blkno: nat, isDownlink: bool, isFirst: bool, rightsplit: bool,
      pivot: Option<Key>) {
    && blkno in index && blkno != P_NONE
    && var p := index[blkno];
       && (isFirst ==> p.prev == P_NONE)
       && (!p.isDeleted ==> p.level == level - 1)
       && (!isDownlink && !Ignored(p) ==> p.isRoot || rightsplit || exists path :: DeletionPath(index, path, blkno))
       && (MustMatch(p) ==> pivot == Some(HighKey(p)))
  }

  lemma WalkBegins(index: Index, level: nat, links: seq<Link>, at: seq<nat>, chain: seq<nat>, prl: nat, pis: bool,
      downlink: nat, left: Option<Key>)
    requires Follows(index, level, links, at, chain, prl, pis) && SaneLinks(index, links)
    ensures links == [] <==> prl == INVALID_BLOCK
    ensures Walking(index, level, links, chain, chain, if prl == INVALID_BLOCK then downlink else prl,
                    prl != INVALID_BLOCK && pis, downlink, left)
  {
    hide Excused, KeysMatch;
    if links != [] {
      var k := |links| - 1;
      assert chain[at[k]] == links[k].blk;
      assert index[links[k].blk].next != INVALID_BLOCK;
    }
  }

  lemma WalkGoesOn(
    index: Index, level: nat, links: seq<Link>, chain: seq<nat>,
    c: seq<nat>, blkno: nat, rightsplit: bool, downlink: nat, left: Option<Key>)
    requires Walking(index, level, links, chain, c, blkno, rightsplit, downlink, left)
    requires blkno != downlink && PageSeen(index, level, blkno, false, false, rightsplit, left)
    ensures var p := index[blkno];
            Walking(index, level, links, chain, c + [blkno], p.next, p.incompleteSplit, downlink, left)
  {
    var d := c + [blkno];
    assert Linked(index, d);
    forall j | |chain| <= j < |c| && !Ignored(index[d[j]])
      ensures Excused(index, d, j)
    {
      assert Excused(index, c, j);
    }
  }

  lemma WalkEnds(
    index: Index, level: nat, links: seq<Link>, at: seq<nat>, chain: seq<nat>, prl: nat, pis: bool,
    c: seq<nat>, blkno: nat, rightsplit: bool, left: Option<Key>, link: Link)
    requires Follows(index, level, links, at, chain, prl, pis)
    requires Walking(index, level, links, chain, c, blkno, rightsplit, link.blk, left)
    requires links != [] && !links[|links| - 1].loose ==> links[|links| - 1].sep == left
    requires !link.loose && blkno == link.blk && PageSeen(index, level, blkno, true, links == [], rightsplit, link.sep)
    ensures var p := index[blkno];
            Follows(index, level, links + [link], at + [|c|], c + [blkno], p.next, p.incompleteSplit)
  {
    hide ChildLevel, WalkTo, Walking;
    WalkReaches(index, level, links, at, chain, prl, pis, c, blkno, rightsplit, left, link);
    ReachedDownlink(index, level, links, at, chain, c + [blkno], link);
  }

  lemma WalkReaches(
    index: Index, level: nat, links: seq<Link>, at: seq<nat>, chain: seq<nat>, prl: nat, pis: bool,
    c: seq<nat>, blkno: nat, rightsplit: bool, left: Option<Key>, link: Link)
    requires Follows(index, level, links, at, chain, prl, pis)
    requires Walking(index, level, links, chain, c, blkno, rightsplit, link.blk, left)
    requires links != [] && !links[|links| - 1].loose ==> links[|links| - 1].sep == left
    requires !link.loose && blkno == link.blk && PageSeen(index, level, blkno, true, links == [], rightsplit, link.sep)
    ensures WalkTo(index, level, links, at, chain, c + [blkno], link)
  {
    hide KeysMatch, Excused;
    var d := c + [blkno];
    assert Linked(index, d);
    PassedLonger(index, level, |chain|, c, d, left, links == [] || links[|links| - 1].loose);
  }

  lemma PassedLonger(index: Index, level: nat, from: nat, c: seq<nat>, d: seq<nat>, sep: Option<Key>, loose: bool)
    requires Linked(index, c) && Linked(index, d) && c <= d && Passed(index, level, from, |c|, c, sep, false)
    ensures Passed(index, level, from, |c|, d, sep, false)
    ensures loose ==> forall other :: Passed(index, level, from, |c|, d, other, true)
  {
    forall j | from <= j < |c| && !Ignored(index[d[j]])
      ensures Excused(index, d, j)
    {
      assert Excused(index, c, j);
    }
  }

  lemma WalkFinishes(
    index: Index, level: nat, links: seq<Link>, at: seq<nat>, chain: seq<nat>, prl: nat, pis: bool,
    c: seq<nat>, rightsplit: bool, left: Option<Key>)
    requires Follows(index, level, links, at, chain, prl, pis) && links != []
    requires Walking(index, level, links, chain, c, P_NONE, rightsplit, P_NONE, left)
    ensures ChildLevel(index, level, links, at, c) && WholeChain(index, c, links[0].blk)
  {
    assert forall j | 0 <= j < |chain| :: c[j] == chain[j];
    assert Placed(links, at, c);
    assert chain[at[0]] == links[0].blk;
    forall j | 0 <= j < |c| && j !in at && !Ignored(index[c[j]])
      ensures Excused(index, c, j)
    {
      if j < |chain| {
        assert Excused(index, chain, j);
      }
    }
    forall k, j | 0 <= k < |at| && at[k] <= j < StretchEnd(at, k) && MustMatch(index[c[j]])
                  && (j == at[k] || !links[k].loose)
      ensures links[k].sep == Some(HighKey(index[c[j]]))
    {
      assert j < |chain| && MustMatch(index[chain[j]]);
    }
  }

  /** The child of the downlink at offset is not deleted and lies above the downlink's key. */
  predicate ChildBounded(index: Index, p: Page, offset: nat) {
    var item := ItemAt(p, offset);
    item.blk in index && !index[item.blk].isDeleted && BoundedBelow(item.key, index[item.blk])
  }

  /** The children of the real items before offset m. */
  predicate ChildrenBounded(index: Index, p: Page, m: nat) {
    forall i | FirstReal(p) <= i < m :: ChildBounded(index, p, i)
  }

  lemma PageLinksBegin(before: seq<Link>, p: Page)
    ensures before + PageLinks(p, FirstDataKey(p)) == before
  {
  }

  /** The downlink at an offset of a page. */
  function LinkAt(p: Page, m: nat): Link {
    Link(ItemAt(p, m).blk, Separator(p, m), false)
  }

  /** One more downlink of a page. */
  lemma PageLinksNext(before: seq<Link>, p: Page, m: nat)
    requires FirstDataKey(p) <= m <= |p.items|
    ensures before + PageLinks(p, m) + [LinkAt(p, m)] == before + PageLinks(p, m + 1)
    ensures m < |p.items| ==>
              (before + PageLinks(p, m + 1))[|before + PageLinks(p, m + 1)| - 1].sep == Some(ItemAt(p, m + 1).key)
  {
  }

  /** What the item loop of bt_target_page_check has established before offset m. */
  ghost predicate ItemsPassed(index: Index, n: nat, p: Page, m: nat)
    requires m > 0
  {
    && CheckedUpTo(p, n, m - 1)
    && (!p.isLeaf ==> ChildrenBounded(index, p, m))
    && (m > |p.items| ==> RightChecked(index, p))
  }

  lemma ItemsBegin(index: Index, n: nat, p: Page)
    requires FirstDataKey(p) <= |p.items| + 1 && (!Rightmost(p) ==> NattsOk(p, n, P_HIKEY))
    ensures ItemsPassed(index, n, p, FirstDataKey(p))
  {
  }

  lemma ItemsNext(index: Index, n: nat, p: Page, m: nat)
    requires FirstDataKey(p) <= m <= |p.items| && ItemsPassed(index, n, p, m) && NattsOk(p, n, m)
    requires FirstReal(p) <= m ==>
               && BelowHighKey(p, m)
               && (m < |p.items| ==> InvariantL(ItemAt(p, m).key, ItemAt(p, m + 1).key))
               && (m == |p.items| ==> RightChecked(index, p))
               && (!p.isLeaf ==> ChildBounded(index, p, m))
    ensures ItemsPassed(index, n, p, m + 1)
  {
    hide NattsOk, BelowHighKey, InvariantL, ChildBounded;
    if !HasReal(p) {
      NothingRight(index, p);
    }
    hide RightChecked;
  }

  lemma ItemsEnd(index: Index, n: nat, p: Page)
    requires ItemsPassed(index, n, p, |p.items| + 1)
    ensures Checked(p, n) && RightChecked(index, p) && (!p.isLeaf ==> ChildrenBounded(index, p, |p.items| + 1))
  {
  }

  lemma NothingRight(index: Index, p: Page)
    requires !HasReal(p)
    ensures RightChecked(index, p)
  {
  }

  // ---------- What is learned about the level itself ----------

  /** Where a level starts: its number, its leftmost block, and whether it is the root level. */
  datatype Level = Level(level: nat, leftmost: nat, isTrueRoot: bool)

  /** A live page of the level has passed all tests that concern it. */
  ghost predicate PagePassed(index: Index, n: nat, level: nat, left: nat, p: Page) {
    && SanePage(p) && p.level == level && p.prev == left
    && Checked(p, n) && RightChecked(index, p)
    && (!p.isLeaf ==> ChildrenBounded(index, p, |p.items| + 1))
  }

  function LeftOf(pages: seq<nat>, i: nat): nat
    requires i < |pages|
  {
    if i == 0 then P_NONE else pages[i - 1]
  }

  /** A page that may stand in a level, half-dead or live. */
  predicate Standing(p: Page) {
    !p.isDeleted && SanePage(p)
  }

  ghost predicate LevelPassed(index: Index, n: nat, level: nat, pages: seq<nat>) {
    && Linked(index, pages)
    && (forall i | 0 <= i < |pages| :: Standing(index[pages[i]]))
    && (forall i | 0 <= i < |pages| && !Ignored(index[pages[i]]) ::
          PagePassed(index, n, level, LeftOf(pages, i), index[pages[i]]))
  }

  lemma LevelPassedNext(index: Index, n: nat, level: nat, pages: seq<nat>, b: nat)
    requires LevelPassed(index, n, level, pages)
    requires b in index && b != P_NONE && (pages != [] ==> b == index[pages[|pages| - 1]].next)
    requires Standing(index[b])
    requires !Ignored(index[b]) ==> PagePassed(index, n, level, LeftOf(pages + [b], |pages|), index[b])
    ensures LevelPassed(index, n, level, pages + [b])
  {
    hide PagePassed, Standing;
    var q := pages + [b];
    assert Linked(index, q);
    assert forall i | 0 <= i < |pages| :: q[i] == pages[i] && LeftOf(q, i) == LeftOf(pages, i);
  }

  /** Where the level below starts, according to a page. */
  function Leftmost(p: Page): nat {
    if p.isLeaf then P_NONE else ItemAt(p, FirstDataKey(p)).blk
  }

  function NextLeftmost(index: Index, pages: seq<nat>): nat {
    if pages == [] || pages[0] !in index || Ignored(index[pages[0]]) then INVALID_BLOCK
    else Leftmost(index[pages[0]])
  }

  /** The downlinks of a level lead, in order, along the whole of the level below. */
  ghost predicate LeadsTo(index: Index, level: nat, pages: seq<nat>)
    requires Linked(index, pages)
  {
    var links := LevelLinks(index, pages, |pages|);
    links != [] && SaneLinks(index, links) ==>
      exists at, chain :: ChildLevel(index, level, links, at, chain) && WholeChain(index, chain, links[0].blk)
  }

  /** What is known after some pages of a level. */
  ghost predicate LevelSoFar(
    index: Index, n: nat, level: nat, pages: seq<nat>, current: nat, leftcurrent: nat,
    links: seq<Link>, at: seq<nat>, chain: seq<nat>, prl: nat, pis: bool, lowkey: Option<Item>)
  {
    && INVALID_BLOCK !in index
    && LevelPassed(index, n, level, pages)
    && (if pages == [] then leftcurrent == P_NONE
        else leftcurrent == pages[|pages| - 1] && current == index[leftcurrent].next)
    && links == (if level == 0 then [] else LevelLinks(index, pages, |pages|))
    && (current != P_NONE && SaneLinks(index, links) ==>
          Follows(index, level, links, at, chain, prl, pis))
    && (current != P_NONE && links != [] && !links[|links| - 1].loose ==>
          lowkey.Some? && links[|links| - 1].sep == Some(lowkey.value.key))
    && (current == P_NONE && level != 0 ==> LeadsTo(index, level, pages))
  }

  /** What a run over a level that raises no error has verified. */
  ghost predicate LevelVerified(index: Index, n: nat, l: Level, pages: seq<nat>) {
    && WholeChain(index, pages, l.leftmost)
    && LevelPassed(index, n, l.level, pages)
    && !Ignored(index[pages[0]]) && (l.isTrueRoot ==> index[pages[0]].isRoot)
    && (l.level > 0 ==> LeadsTo(index, l.level, pages))
  }

  /** Where level number d from the top starts, given the levels above it. */
  function LevelAt(index: Index, rootLevel: nat, root: nat, levels: seq<seq<nat>>, d: nat): Level
    requires d <= |levels| && d <= rootLevel
  {
    if d == 0 then Level(rootLevel, root, true)
    else Level(rootLevel - d, Below(index, levels[d - 1]), false)
  }

  /** The leftmost block of the next level down. */
  function Below(index: Index, pages: seq<nat>): nat {
    if pages == [] || pages[0] !in index then P_NONE else Leftmost(index[pages[0]])
  }

  /** Level number d from the top has been verified. */
  ghost predicate VerifiedAt(index: Index, n: nat, rootLevel: nat, root: nat, levels: seq<seq<nat>>, d: nat)
    requires d < |levels| && d <= rootLevel
  {
    LevelVerified(index, n, LevelAt(index, rootLevel, root, levels, d), levels[d])
  }

  ghost predicate LevelsVerified(index: Index, n: nat, rootLevel: nat, root: nat, levels: seq<seq<nat>>) {
    && |levels| <= rootLevel + 1
    && forall d | 0 <= d < |levels| :: VerifiedAt(index, n, rootLevel, root, levels, d)
  }

  predicate EndsBelow(index: Index, levels: seq<seq<nat>>) {
    levels != [] && Below(index, levels[|levels| - 1]) == P_NONE
  }

  /** Every level from the root down has been verified. */
  ghost predicate TreeVerified(index: Index, n: nat, rootLevel: nat, root: nat, levels: seq<seq<nat>>) {
    LevelsVerified(index, n, rootLevel, root, levels) && EndsBelow(index, levels)
  }

  lemma BelowLeaves(index: Index, n: nat, l: Level, pages: seq<nat>)
    requires LevelVerified(index, n, l, pages)
    ensures pages != [] && pages[0] in index && Below(index, pages) == Leftmost(index[pages[0]])
    ensures l.level == 0 ==> Below(index, pages) == P_NONE
  {
    hide LeadsTo, Checked, RightChecked, ChildrenBounded;
    assert PagePassed(index, n, l.level, LeftOf(pages, 0), index[pages[0]]);
  }

  lemma LevelAtGrows(index: Index, rootLevel: nat, root: nat, levels: seq<seq<nat>>, pages: seq<nat>, d: nat)
    requires d <= |levels| <= rootLevel
    ensures LevelAt(index, rootLevel, root, levels + [pages], d) == LevelAt(index, rootLevel, root, levels, d)
    ensures LevelAt(index, rootLevel, root, levels, d).level == rootLevel - d
  {
  }

  /** One more level verified; below the leaf level there is nothing. */
  lemma LevelDone(index: Index, n: nat, rootLevel: nat, root: nat, levels: seq<seq<nat>>, pages: seq<nat>)
    requires |levels| <= rootLevel && LevelsVerified(index, n, rootLevel, root, levels)
    requires LevelVerified(index, n, LevelAt(index, rootLevel, root, levels, |levels|), pages)
    ensures LevelsVerified(index, n, rootLevel, root, levels + [pages])
    ensures pages != [] && pages[0] in index && Below(index, pages) == Leftmost(index[pages[0]])
    ensures |levels| == rootLevel ==> Below(index, pages) == P_NONE
  {
    hide LevelVerified, LevelAt;
    LevelAtGrows(index, rootLevel, root, levels, pages, |levels|);
    BelowLeaves(index, n, LevelAt(index, rootLevel, root, levels, |levels|), pages);
    forall d | 0 <= d <= |levels| ensures VerifiedAt(index, n, rootLevel, root, levels + [pages], d) {
      LevelAtGrows(index, rootLevel, root, levels, pages, d);
      if d < |levels| {
        assert VerifiedAt(index, n, rootLevel, root, levels, d);
      }
    }
  }

  lemma LevelBegins(index: Index, n: nat, level: nat, b: nat, prl: nat, pis: bool, lowkey: Option<Item>)
    requires INVALID_BLOCK !in index && b != P_NONE && prl == INVALID_BLOCK
    ensures LevelSoFar(index, n, level, [], b, P_NONE, [], [], [], prl, pis, lowkey)
  {
  }

  lemma LevelEnds(
    index: Index, n: nat, l: Level, pages: seq<nat>, leftcurrent: nat,
    links: seq<Link>, at: seq<nat>, chain: seq<nat>, prl: nat, pis: bool, lowkey: Option<Item>)
    requires LevelSoFar(index, n, l.level, pages, P_NONE, leftcurrent, links, at, chain, prl, pis, lowkey)
    requires pages != [] && pages[0] == l.leftmost && pages[0] in index && !Ignored(index[pages[0]])
    requires l.isTrueRoot ==> index[pages[0]].isRoot
    ensures LevelVerified(index, n, l, pages)
  {
    hide SaneLinks, Follows, LevelLinks, LeadsTo, PagePassed;
  }

  lemma LoosenedAt(links: seq<Link>, k: nat)
    requires k < |links|
    ensures |Loosened(links)| == |links|
    ensures var l := Loosened(links)[k]; l.blk == links[k].blk && l.sep == links[k].sep && (links[k].loose ==> l.loose)
  {
  }

  lemma PlacedLoosened(links: seq<Link>, at: seq<nat>, chain: seq<nat>)
    requires Placed(links, at, chain)
    ensures Placed(Loosened(links), at, chain)
  {
    forall k | 0 <= k < |at| ensures |Loosened(links)| == |links| && chain[at[k]] == Loosened(links)[k].blk {
      LoosenedAt(links, k);
    }
  }

  lemma KeysLoosened(index: Index, links: seq<Link>, at: seq<nat>, chain: seq<nat>)
    requires Linked(index, chain) && Placed(links, at, chain) && Placed(Loosened(links), at, chain)
    requires KeysMatch(index, links, at, chain)
    ensures KeysMatch(index, Loosened(links), at, chain)
  {
    hide Loosened;
    forall k, j | 0 <= k < |at| && at[k] <= j < StretchEnd(at, k) && MustMatch(index[chain[j]])
                  && (j == at[k] || !Loosened(links)[k].loose)
      ensures Loosened(links)[k].sep == Some(HighKey(index[chain[j]]))
    {
      LoosenedAt(links, k);
      KeyMatches(index, links, at, chain, k, j);
    }
  }

  /** A looser picture of the child level. */
  lemma FollowsLoosened(index: Index, level: nat, links: seq<Link>, at: seq<nat>, chain: seq<nat>, prl: nat, pis: bool)
    requires Follows(index, level, links, at, chain, prl, pis)
    ensures Follows(index, level, Loosened(links), at, chain, prl, pis)
  {
    PlacedLoosened(links, at, chain);
    KeysLoosened(index, links, at, chain);
    hide Excused, KeysMatch, Placed;
  }

  lemma SaneLoosened(index: Index, links: seq<Link>)
    ensures SaneLinks(index, Loosened(links)) <==> SaneLinks(index, links)
  {
    var l := Loosened(links);
    assert |l| == |links| && forall k | 0 <= k < |l| :: l[k].blk == links[k].blk;
  }

  lemma IgnoredRound(
    index: Index, n: nat, level: nat, pages: seq<nat>, b: nat, leftcurrent: nat,
    links: seq<Link>, at: seq<nat>, chain: seq<nat>, prl: nat, pis: bool, lowkey: Option<Item>)
    requires LevelSoFar(index, n, level, pages, b, leftcurrent, links, at, chain, prl, pis, lowkey)
    requires b != P_NONE && b in index && Ignored(index[b]) && Standing(index[b]) && !Rightmost(index[b])
    ensures forall k :: LevelSoFar(index, n, level, pages + [b], index[b].next, b, Loosened(links), at, chain, prl,
        pis, k)
    ensures NextLeftmost(index, pages + [b]) == NextLeftmost(index, pages)
  {
    hide SaneLinks, Follows, LevelLinks, LeadsTo, LevelPassed, PagePassed, Standing;
    LevelPassedNext(index, n, level, pages, b);
    PassedLinked(index, n, level, pages);
    PassedLinked(index, n, level, pages + [b]);
    LevelLinksNext(index, pages, b);
    SaneLoosened(index, links);
    if SaneLinks(index, links) {
      FollowsLoosened(index, level, links, at, chain, prl, pis);
    }
  }

  /** The state in which bt_target_page_check is entered. */
  lemma LiveBegins(
    index: Index, n: nat, level: nat, pages: seq<nat>, b: nat, leftcurrent: nat,
    links: seq<Link>, at: seq<nat>, chain: seq<nat>, prl: nat, pis: bool, lowkey: Option<Item>)
    requires LevelSoFar(index, n, level, pages, b, leftcurrent, links, at, chain, prl, pis, lowkey)
    requires b != P_NONE
    ensures INVALID_BLOCK !in index
    ensures SaneLinks(index, links) ==> Follows(index, level, links, at, chain, prl, pis)
    ensures links != [] && !links[|links| - 1].loose ==>
              lowkey.Some? && links[|links| - 1].sep == Some(lowkey.value.key)
    ensures LeftOf(pages + [b], |pages|) == leftcurrent
    ensures leftcurrent == P_NONE ==> pages == []
  {
    hide SaneLinks, Follows, LevelLinks, LeadsTo, PagePassed;
  }

  lemma LastSeparator(before: seq<Link>, p: Page)
    requires SanePage(p) && !p.isDeleted && !p.isLeaf && !Rightmost(p)
    ensures var links := before + PageLinks(p, |p.items| + 1);
            links != [] && links[|links| - 1].sep == Some(HighKey(p))
  {
  }

  lemma LiveRound(
    index: Index, n: nat, level: nat, pages: seq<nat>, b: nat, leftcurrent: nat,
    links0: seq<Link>, at0: seq<nat>, chain0: seq<nat>, prl0: nat, pis0: bool, lowkey0: Option<Item>,
    links: seq<Link>, at: seq<nat>, chain: seq<nat>, prl: nat, pis: bool)
    requires LevelSoFar(index, n, level, pages, b, leftcurrent, links0, at0, chain0, prl0, pis0, lowkey0)
    requires b != P_NONE && b in index && !Ignored(index[b])
    requires PagePassed(index, n, level, leftcurrent, index[b])
    requires links == if index[b].isLeaf then links0 else links0 + PageLinks(index[b], |index[b].items| + 1)
    requires (index[b].isLeaf || !Rightmost(index[b])) && SaneLinks(index, links) ==>
               Follows(index, level, links, at, chain, prl, pis)
    requires !index[b].isLeaf && Rightmost(index[b]) && links != [] && SaneLinks(index, links) ==>
               ChildLevel(index, level, links, at, chain) && WholeChain(index, chain, links[0].blk)
    ensures LevelSoFar(index, n, level, pages + [b], index[b].next, b, links, at, chain, prl, pis,
                       if !Rightmost(index[b]) then Some(ItemAt(index[b], P_HIKEY)) else None)
  {
    hide SaneLinks, Follows, LevelLinks, PageLinks, LevelPassed, ChildLevel, WholeChain, PagePassed, LeadsTo;
    LiveBegins(index, n, level, pages, b, leftcurrent, links0, at0, chain0, prl0, pis0, lowkey0);
    PageKind(index, n, level, leftcurrent, index[b]);
    LevelPassedNext(index, n, level, pages, b);
    PassedLinked(index, n, level, pages);
    PassedLinked(index, n, level, pages + [b]);
    LevelLinksNext(index, pages, b);
    if !index[b].isLeaf && !Rightmost(index[b]) {
      LastSeparator(links0, index[b]);
    }
    if !index[b].isLeaf && Rightmost(index[b]) {
      Led(index, level, pages + [b], links, at, chain);
    }
  }

  lemma PageKind(index: Index, n: nat, level: nat, left: nat, p: Page)
    requires PagePassed(index, n, level, left, p) && !Ignored(p)
    ensures SanePage(p) && (p.isLeaf <==> level == 0)
  {
  }

  lemma PassedLinked(index: Index, n: nat, level: nat, pages: seq<nat>)
    requires LevelPassed(index, n, level, pages)
    ensures Linked(index, pages)
  {
  }

  lemma Led(index: Index, level: nat, pages: seq<nat>, links: seq<Link>, at: seq<nat>, chain: seq<nat>)
    requires Linked(index, pages) && links == LevelLinks(index, pages, |pages|)
    requires links != [] && SaneLinks(index, links) ==>
               ChildLevel(index, level, links, at, chain) && WholeChain(index, chain, links[0].blk)
    ensures LeadsTo(index, level, pages)
  {
    hide SaneLinks, LevelLinks, ChildLevel, WholeChain;
  }
}
