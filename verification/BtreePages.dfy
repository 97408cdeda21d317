/** Pages of a B-tree as amcheck reads them, and facts about chains of right links. */
module BtreePages {
  import opened Optional
  import opened BtreeKeys

  const P_NONE: nat := 0
  const P_HIKEY: nat := 1
  const INVALID_BLOCK: nat := 0xFFFF_FFFF

  /**
    An index tuple: its key and the block number in its t_tid, which is a downlink on an
    internal page and the top parent link in the high key of a half-dead leaf page.
   */
  datatype Item = Item(key: Key, blk: nat)

  /** junk stands for whatever an access to a line pointer outside the page yields. */
  datatype Page = Page(
    level: nat, prev: nat, next: nat,
    isLeaf: bool, isRoot: bool, isDeleted: bool, isHalfDead: bool, incompleteSplit: bool,
    hasFullXid: bool, hasGarbage: bool, isMeta: bool,
    items: seq<Item>, junk: Item)

  type Index = map<nat, Page>

  predicate Rightmost(p: Page) {
    p.next == P_NONE
  }

  predicate Ignored(p: Page) {
    p.isDeleted || p.isHalfDead
  }

  function FirstDataKey(p: Page): nat {
    if Rightmost(p) then P_HIKEY else P_HIKEY + 1
  }

  function ItemAt(p: Page, offset: nat): Item {
    if 1 <= offset <= |p.items| then p.items[offset - 1] else p.junk
  }

  function HighKey(p: Page): Key {
    ItemAt(p, P_HIKEY).key
  }

  predicate NegativeInfinity(p: Page, offset: nat) {
    !p.isLeaf && offset == FirstDataKey(p)
  }

  /** Offset of the first item that is neither high key nor minus infinity. */
  function FirstReal(p: Page): nat {
    if p.isLeaf then FirstDataKey(p) else FirstDataKey(p) + 1
  }

  predicate HasReal(p: Page) {
    FirstReal(p) <= |p.items|
  }

  // ---------- Tests on one page ----------

  /** The sanity checks of palloc_btree_page, for a block other than the metapage. */
  predicate SanePage(p: Page) {
    && !p.isMeta
    && ((!p.isDeleted || p.hasFullXid) ==> (p.isLeaf <==> p.level == 0))
    && (!p.isLeaf && !p.isDeleted ==> |p.items| >= FirstDataKey(p))
    && (p.isLeaf && !p.isDeleted && !Rightmost(p) ==> |p.items| >= P_HIKEY)
    && (!p.isLeaf ==> !p.isHalfDead && !p.hasGarbage)
    && (p.hasFullXid ==> p.isDeleted)
    && !(p.isDeleted && p.isHalfDead)
  }

  /** _bt_check_natts for a heapkeyspace index with n key attributes. */
  predicate NattsOk(p: Page, n: nat, offset: nat) {
    var k := ItemAt(p, offset).key;
    Ignored(p)
    || if p.isLeaf && offset >= FirstDataKey(p) then |k.attrs| == n && k.tid.Some?
       else if NegativeInfinity(p, offset) then k.attrs == []
       else 0 < |k.attrs| <= n && (k.tid.Some? ==> |k.attrs| == n)
  }

  /** A real item respects the high key of its page. */
  predicate BelowHighKey(p: Page, offset: nat) {
    var k := ItemAt(p, offset).key;
    Rightmost(p) || if p.isLeaf then InvariantLeq(k, HighKey(p)) else InvariantL(k, HighKey(p))
  }

  /** What bt_target_page_check establishes about the items up to offset m. */
  predicate CheckedUpTo(p: Page, n: nat, m: nat) {
    && (!Rightmost(p) ==> NattsOk(p, n, P_HIKEY))
    && (forall i | FirstDataKey(p) <= i <= m :: NattsOk(p, n, i))
    && (forall i | FirstReal(p) <= i <= m :: BelowHighKey(p, i))
    && (forall i | FirstReal(p) <= i <= m && i + 1 <= |p.items| ::
          InvariantL(ItemAt(p, i).key, ItemAt(p, i + 1).key))
  }

  predicate Checked(p: Page, n: nat) {
    CheckedUpTo(p, n, |p.items|)
  }

  // ---------- Right links ----------

  /** Blocks that follow each other by right links. */
  predicate Linked(index: Index, chain: seq<nat>) {
    && (forall i | 0 <= i < |chain| :: chain[i] in index && chain[i] != P_NONE)
    && (forall i | 0 <= i < |chain| - 1 :: index[chain[i]].next == chain[i + 1])
  }

  /** A whole level: from a block along the right links to the end. */
  predicate WholeChain(index: Index, chain: seq<nat>, first: nat) {
    && chain != [] && Linked(index, chain) && chain[0] == first
    && index[chain[|chain| - 1]].next == P_NONE
  }

  /** Right links determine the chain. */
  lemma {:induction false} ChainsAgree(index: Index, a: seq<nat>, b: seq<nat>, i: nat)
    requires Linked(index, a) && Linked(index, b) && a != [] && b != [] && a[0] == b[0]
    requires i < |a| && i < |b|
    ensures a[i] == b[i]
  {
    if i > 0 {
      ChainsAgree(index, a, b, i - 1);
    }
  }

  lemma WholeChainUnique(index: Index, a: seq<nat>, b: seq<nat>, first: nat)
    requires WholeChain(index, a, first) && WholeChain(index, b, first)
    ensures a == b
  {
    var n := if |a| < |b| then |a| else |b|;
    forall i | 0 <= i < n ensures a[i] == b[i] {
      ChainsAgree(index, a, b, i);
    }
    EndsOnce(index, a, first, n - 1);
    EndsOnce(index, b, first, n - 1);
  }

  lemma EndsOnce(index: Index, chain: seq<nat>, first: nat, i: nat)
    requires WholeChain(index, chain, first) && i < |chain|
    ensures index[chain[i]].next == P_NONE <==> i == |chain| - 1
  {
    if i < |chain| - 1 {
      assert index[chain[i]].next == chain[i + 1];
    }
  }

  /** No block occurs twice on a chain that reaches the end. */
  lemma {:induction false} WholeChainDistinct(index: Index, chain: seq<nat>, first: nat, i: nat, j: nat)
    requires WholeChain(index, chain, first) && i < j < |chain|
    ensures chain[i] != chain[j]
    decreases |chain| - j
  {
    assert index[chain[i]].next == chain[i + 1];
    if j + 1 < |chain| {
      WholeChainDistinct(index, chain, first, i + 1, j + 1);
    }
  }

  /** The first live page from b on, within n pages. */
  function NextLive(index: Index, b: nat, n: nat): Option<nat>
    decreases n
  {
    if n == 0 || b == P_NONE || b !in index then None
    else if !Ignored(index[b]) then Some(b)
    else NextLive(index, index[b].next, n - 1)
  }

  lemma {:induction false} NextLiveOnChain(index: Index, chain: seq<nat>, i: nat, j: nat)
    requires Linked(index, chain) && i <= j < |chain| && !Ignored(index[chain[j]])
    requires forall k | i <= k < j :: Ignored(index[chain[k]])
    ensures NextLive(index, chain[i], j - i + 1) == Some(chain[j])
    decreases j - i
  {
    if i < j {
      NextLiveOnChain(index, chain, i + 1, j);
    }
  }

  /** The last real item of p precedes the first real item of the next live page. */
  ghost predicate RightChecked(index: Index, p: Page) {
    HasReal(p) ==>
      forall n: nat :: var r := NextLive(index, p.next, n);
        r.Some? && r.value in index && HasReal(index[r.value]) ==>
          InvariantG(ItemAt(index[r.value], FirstReal(index[r.value])).key, ItemAt(p, |p.items|).key)
  }

  // ---------- Downlinks ----------

  /**
    A downlink and the key that separates its child from the next one, if there is any.  A
    loose downlink is the last one before a half-dead page of its level, whose high key
    then stands in for the separator.
   */
  datatype Link = Link(blk: nat, sep: Option<Key>, loose: bool)

  /** The next key on the page, or else its high key. */
  function Separator(p: Page, offset: nat): Option<Key> {
    if offset + 1 <= |p.items| then Some(ItemAt(p, offset + 1).key)
    else if Rightmost(p) then None
    else Some(HighKey(p))
  }

  /** The downlinks of an internal page from its first data item up to before offset m. */
  function PageLinks(p: Page, m: nat): seq<Link> {
    if m <= FirstDataKey(p) then []
    else PageLinks(p, m - 1) + [Link(ItemAt(p, m - 1).blk, Separator(p, m - 1), false)]
  }

  function Loosened(links: seq<Link>): seq<Link> {
    if links == [] then [] else links[|links| - 1 := links[|links| - 1].(loose := true)]
  }

  /** The downlinks of a level after one more page. */
  function Extended(links: seq<Link>, p: Page): seq<Link> {
    if Ignored(p) then Loosened(links) else links + PageLinks(p, |p.items| + 1)
  }

  /** The downlinks of the live pages among the first n of a level, in key order. */
  function LevelLinks(index: Index, chain: seq<nat>, n: nat): seq<Link>
    requires Linked(index, chain) && n <= |chain|
  {
    if n == 0 then [] else Extended(LevelLinks(index, chain, n - 1), index[chain[n - 1]])
  }

  lemma {:induction false} LevelLinksAgree(index: Index, a: seq<nat>, b: seq<nat>, m: nat)
    requires Linked(index, a) && Linked(index, b) && m <= |a| && m <= |b|
    requires forall i | 0 <= i < m :: a[i] == b[i]
    ensures LevelLinks(index, a, m) == LevelLinks(index, b, m)
  {
    hide Extended;
    if m > 0 {
      LevelLinksAgree(index, a, b, m - 1);
    }
  }

  lemma LevelLinksNext(index: Index, pages: seq<nat>, b: nat)
    requires Linked(index, pages) && Linked(index, pages + [b]) && b in index
    ensures LevelLinks(index, pages + [b], |pages| + 1) == Extended(LevelLinks(index, pages, |pages|), index[b])
  {
    hide Extended;
    var q := pages + [b];
    assert q[|pages|] == b;
    LevelLinksAgree(index, pages, q, |pages|) by { hide Linked, LevelLinks; }
  }
}
