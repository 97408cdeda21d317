/** What the readonly B-tree verifier accepts: the tests on a page, a level and a tree, without its loops. */
module BtreeFits {
  import opened Optional
  import opened BtreeKeys
  import opened BtreePages
  import opened BtreeLevels

  /** Reading right from block b meets sane pages and ends, within n of them, at a live page or the last one. */
  predicate ReadableRight(index: Index, b: nat, n: nat)
    decreases n
  {
    && n > 0 && b != P_NONE && b in index && SanePage(index[b])
    && (!Ignored(index[b]) || Rightmost(index[b]) || ReadableRight(index, index[b].next, n - 1))
  }

  /** The first real item of the page where that reading ends. */
  function RightKey(index: Index, b: nat, n: nat): Option<Key>
    requires ReadableRight(index, b, n)
    decreases n
  {
    var p := index[b];
    if Ignored(p) && !Rightmost(p) then RightKey(index, p.next, n - 1)
    else if HasReal(p) then Some(ItemAt(p, FirstReal(p)).key)
    else None
  }

  /** The last item of the page precedes what is found to its right. */
  predicate RightFits(index: Index, p: Page, patience: nat) {
    Rightmost(p) || (ReadableRight(index, p.next, patience)
                     && var k := RightKey(index, p.next, patience);
                        k.Some? ==> InvariantG(k.value, ItemAt(p, |p.items|).key))
  }

  /** A real item fits its page and what follows it. */
  predicate ItemFits(index: Index, p: Page, offset: nat, patience: nat) {
    && BelowHighKey(p, offset)
    && if offset < |p.items| then InvariantL(ItemAt(p, offset).key, ItemAt(p, offset + 1).key)
       else RightFits(index, p, patience)
  }

  function Child(p: Page, offset: nat): nat {
    ItemAt(p, offset).blk
  }

  /** The child is a sane page of the next level whose high key is the separator. */
  predicate KidFits(index: Index, p: Page, offset: nat) {
    var b := Child(p, offset);
    && b != P_NONE && b in index && SanePage(index[b]) && !index[b].isDeleted
    && index[b].level == p.level - 1 && index[b].prev != b
    && (MustMatch(index[b]) ==> Separator(p, offset) == Some(HighKey(index[b])))
  }

  predicate OffsetFits(index: Index, n: nat, p: Page, offset: nat, patience: nat) {
    && NattsOk(p, n, offset)
    && (FirstReal(p) <= offset ==> ItemFits(index, p, offset, patience))
    && (!p.isLeaf ==> KidFits(index, p, offset))
    && (!p.isLeaf && FirstReal(p) <= offset ==> ChildBounded(index, p, offset))
  }

  /** A page that may be passed without a downlink to it. */
  predicate PassFits(index: Index, level: nat, b: nat, rightsplit: bool, sep: Option<Key>) {
    && b != P_NONE && b in index && SanePage(index[b]) && !index[b].isDeleted
    && index[b].level == level - 1 && index[b].prev != b
    && (index[b].isRoot || rightsplit)
    && (MustMatch(index[b]) ==> sep == Some(HighKey(index[b])))
  }

  /** Whether the page before way[i] is incompletely split. */
  function SplitBefore(index: Index, split: bool, way: seq<nat>, i: nat): bool
    requires Linked(index, way) && i <= |way|
  {
    if i == 0 then split else index[way[i - 1]].incompleteSplit
  }

  predicate WayPage(
    index: Index, level: nat, from: nat, split: bool, way: seq<nat>, to: nat, sep: Option<Key>, i: nat)
    requires Linked(index, way) && i < |way|
  {
    && way[i] != to && (i > 0 ==> way[i] != from)
    && PassFits(index, level, way[i], SplitBefore(index, split, way, i), sep)
  }

  /** The pages passed on the child level from block from to block to. */
  predicate IsWay(
    index: Index, level: nat, from: nat, split: bool, way: seq<nat>, to: nat, sep: Option<Key>, patience: nat)
  {
    && |way| < patience && Linked(index, way)
    && (if way == [] then from == to else way[0] == from != to && index[way[|way| - 1]].next == to)
    && forall i | 0 <= i < |way| :: WayPage(index, level, from, split, way, to, sep, i)
  }

  ghost predicate Leads(index: Index, level: nat, from: nat, split: bool, to: nat, sep: Option<Key>, patience: nat) {
    exists way :: IsWay(index, level, from, split, way, to, sep, patience)
  }

  /** The walk on the child level, with its last right link and split flag, will find block to. */
  ghost predicate Expected(index: Index, level: nat, prl: nat, split: bool, to: nat, sep: Option<Key>, patience: nat) {
    && patience > 0
    && if prl == INVALID_BLOCK then to in index && index[to].prev == P_NONE
       else Leads(index, level, prl, split, to, sep, patience)
  }

  /** After i pages the walk to block to is at block blkno. */
  ghost predicate OnWay(
    index: Index, level: nat, prl: nat, split: bool, way: seq<nat>, to: nat, sep: Option<Key>, patience: nat,
    i: nat, blkno: nat, rightsplit: bool)
  {
    if prl == INVALID_BLOCK then
      && way == [] && i == 0 < patience && blkno == to && blkno in index && index[blkno].prev == P_NONE
    else
      && IsWay(index, level, prl, split, way, to, sep, patience)
      && i <= |way| && rightsplit == SplitBefore(index, split, way, i)
      && blkno == if i < |way| then way[i] else to
  }

  lemma WayFor(index: Index, level: nat, prl: nat, split: bool, to: nat, sep: Option<Key>, patience: nat)
    returns (way: seq<nat>)
    requires Expected(index, level, prl, split, to, sep, patience)
    ensures if prl == INVALID_BLOCK then OnWay(index, level, prl, split, way, to, sep, patience, 0, to, false)
            else OnWay(index, level, prl, split, way, to, sep, patience, 0, prl, split)
  {
    hide PassFits;
    way := [];
    if prl != INVALID_BLOCK {
      way :| IsWay(index, level, prl, split, way, to, sep, patience);
    }
  }

  /** What the tests on page i of the way need, and where it leads. */
  lemma WayGives(
    index: Index, level: nat, prl: nat, split: bool, way: seq<nat>, to: nat, sep: Option<Key>, patience: nat,
    i: nat, blkno: nat, rightsplit: bool)
    requires OnWay(index, level, prl, split, way, to, sep, patience, i, blkno, rightsplit)
    ensures i < patience && (blkno == to <==> i == |way|)
    ensures blkno != to ==>
              && prl != INVALID_BLOCK && (i == 0 || blkno != prl) && blkno != P_NONE && blkno in index
              && PassFits(index, level, blkno, rightsplit, sep)
              && OnWay(index, level, prl, split, way, to, sep, patience,
                       i + 1, index[blkno].next, index[blkno].incompleteSplit)
    ensures blkno == to ==>
              if prl == INVALID_BLOCK then i == 0 && blkno in index && index[blkno].prev == P_NONE
              else i == 0 || blkno != prl
  {
    if prl != INVALID_BLOCK && i < |way| {
      assert WayPage(index, level, prl, split, way, to, sep, i);
    }
  }

  /** Pages without a downlink may lie between the children at two offsets. */
  ghost predicate KidFollows(index: Index, p: Page, offset: nat, patience: nat)
    requires offset > 0
  {
    && Child(p, offset - 1) in index
    && var kid := index[Child(p, offset - 1)];
       Leads(index, p.level, kid.next, kid.incompleteSplit, Child(p, offset), Some(ItemAt(p, offset).key), patience)
  }

  ghost predicate PageFits(index: Index, n: nat, p: Page, patience: nat) {
    && (!Rightmost(p) ==> NattsOk(p, n, P_HIKEY))
    && (forall m | FirstDataKey(p) <= m <= |p.items| :: OffsetFits(index, n, p, m, patience))
    && (forall m | FirstDataKey(p) < m <= |p.items| :: !p.isLeaf ==> KidFollows(index, p, m, patience))
  }

  /** A page of a level as a run wants it. */
  ghost predicate LiveFits(index: Index, n: nat, level: nat, left: nat, p: Page, patience: nat) {
    && SanePage(p) && !Ignored(p) && p.level == level && p.prev == left
    && PageFits(index, n, p, patience)
  }

  /** Right link and split flag of the last child of a page. */
  predicate KidsLeft(index: Index, p: Page, prl: nat, split: bool) {
    var b := Child(p, |p.items|);
    b in index && prl == index[b].next && split == index[b].incompleteSplit
  }

  /** From the last child of page i of a level the walk leads to the first one of the next page, or out of the level. */
  ghost predicate KidsLead(index: Index, pages: seq<nat>, i: nat, patience: nat)
    requires i < |pages| && pages[i] in index
  {
    && var p := index[pages[i]];
       var b := Child(p, |p.items|);
       && b in index
       && Leads(index, p.level, index[b].next, index[b].incompleteSplit, FirstKid(index, pages, i + 1),
                if i + 1 < |pages| then Some(HighKey(p)) else None, patience)
  }

  predicate KidsBegin(index: Index, p: Page) {
    Child(p, FirstDataKey(p)) in index && index[Child(p, FirstDataKey(p))].prev == P_NONE
  }

  /** The first child of page i of a level, or none behind its last page. */
  function FirstKid(index: Index, pages: seq<nat>, i: nat): nat {
    if i < |pages| && pages[i] in index then Child(index[pages[i]], FirstDataKey(index[pages[i]])) else P_NONE
  }

  /** A level that a run accepts: fitting pages whose children form the whole next level, in order. */
  ghost predicate LevelFits(index: Index, n: nat, l: Level, pages: seq<nat>, patience: nat) {
    && WholeChain(index, pages, l.leftmost) && |pages| <= patience
    && (l.isTrueRoot ==> index[pages[0]].isRoot)
    && (forall i | 0 <= i < |pages| :: LiveFits(index, n, l.level, LeftOf(pages, i), index[pages[i]], patience))
    && (l.level > 0 ==> KidsBegin(index, index[pages[0]]))
    && (l.level > 0 ==>
          forall i | 0 <= i < |pages| :: KidsLead(index, pages, i, patience))
  }

  /** What one page of the level needs to be accepted. */
  ghost predicate RoundFits(
    index: Index, n: nat, l: Level, pages: seq<nat>, current: nat, leftcurrent: nat, patience: nat)
  {
    && patience > 0 && current != P_NONE && current in index
    && LiveFits(index, n, l.level, leftcurrent, index[current], patience)
    && current != leftcurrent
    && (pages == [] ==> leftcurrent == P_NONE && (l.isTrueRoot ==> index[current].isRoot))
    && (NextLeftmost(index, pages) == INVALID_BLOCK ==> pages == [])
    && (l.level > 0 && Rightmost(index[current]) ==> KidsEndHere(index, index[current], patience))
  }

  /** Behind the last child of the last page of a level the walk leads out of the child level. */
  ghost predicate KidsEndHere(index: Index, p: Page, patience: nat) {
    && Child(p, |p.items|) in index
    && var kid := index[Child(p, |p.items|)];
       Leads(index, p.level, kid.next, kid.incompleteSplit, P_NONE, None, patience)
  }

  ghost predicate TreeFits(index: Index, n: nat, rootLevel: nat, root: nat, levels: seq<seq<nat>>, patience: nat) {
    && |levels| <= rootLevel + 1 && EndsBelow(index, levels)
    && forall d | 0 <= d < |levels| ::
         LevelFits(index, n, LevelAt(index, rootLevel, root, levels, d), levels[d], patience)
  }

  lemma KidFound(index: Index, p: Page, offset: nat)
    ensures KidFits(index, p, offset) ==> Child(p, offset) != P_NONE && Child(p, offset) in index
  {
  }

  lemma RoundGives(index: Index, n: nat, l: Level, pages: seq<nat>, current: nat, leftcurrent: nat, patience: nat)
    requires current in index
    ensures RoundFits(index, n, l, pages, current, leftcurrent, patience) ==>
              var p := index[current];
              && patience > 0 && SanePage(p) && !Ignored(p) && p.level == l.level && p.prev == leftcurrent
              && current != leftcurrent && PageFits(index, n, p, patience) && (p.isLeaf <==> l.level == 0)
              && (pages == [] ==> leftcurrent == P_NONE && (l.isTrueRoot ==> p.isRoot))
              && (NextLeftmost(index, pages) == INVALID_BLOCK ==> pages == [])
              && (!p.isLeaf ==> FirstDataKey(p) <= |p.items| && KidFits(index, p, |p.items|))
              && (!p.isLeaf ==> Child(p, |p.items|) in index)
              && (!p.isLeaf && Rightmost(p) ==> KidsEndHere(index, p, patience))
  {
    if RoundFits(index, n, l, pages, current, leftcurrent, patience) {
      var p := index[current];
      if !p.isLeaf {
        OffsetHasKid(index, n, p, |p.items|, patience);
      }
    }
  }

  lemma GoalBegins(index: Index, n: nat, l: Level, goal: seq<nat>, patience: nat)
    requires LevelFits(index, n, l, goal, patience)
    ensures goal != [] && |goal| <= patience && goal[0] == l.leftmost && LeftOf(goal, 0) == P_NONE && goal[0] in index
    ensures l.level > 0 ==> var b := FirstKid(index, goal, 0); b in index && index[b].prev == P_NONE
  {
    hide LiveFits;
  }

  /** Page i of a level that fits is ready for its round, and its children lead to those of the next page. */
  lemma GoalRound(index: Index, n: nat, l: Level, goal: seq<nat>, patience: nat, i: nat)
    requires INVALID_BLOCK !in index && LevelFits(index, n, l, goal, patience) && i < |goal|
    ensures RoundFits(index, n, l, goal[..i], goal[i], LeftOf(goal, i), patience)
    ensures goal[i] in index && FirstKid(index, goal, i) == Child(index[goal[i]], FirstDataKey(index[goal[i]]))
    ensures index[goal[i]].next == if i + 1 < |goal| then goal[i + 1] else P_NONE
    ensures i + 1 < |goal| ==> goal[i + 1] != P_NONE
    ensures index[goal[i]].level == l.level
    ensures l.level > 0 ==> KidsLead(index, goal, i, patience)
    ensures l.level > 0 && i + 1 < |goal| ==> FirstKid(index, goal, i + 1) in index
  {
    hide LevelFits, LiveFits, WholeChain, Linked, Leads;
    GoalPage(index, n, l, goal, patience, i);
    GoalFirst(index, n, l, goal, patience);
    if i + 1 < |goal| {
      GoalPage(index, n, l, goal, patience, i + 1);
      if l.level > 0 {
        FirstKidIn(index, n, l.level, LeftOf(goal, i + 1), index[goal[i + 1]], patience);
      }
    }
  }

  lemma GoalPage(index: Index, n: nat, l: Level, goal: seq<nat>, patience: nat, i: nat)
    requires LevelFits(index, n, l, goal, patience) && i < |goal|
    ensures patience > 0 && goal[i] != P_NONE && goal[i] in index && goal[i] != LeftOf(goal, i) && goal[0] in index
    ensures LiveFits(index, n, l.level, LeftOf(goal, i), index[goal[i]], patience)
    ensures index[goal[i]].next == if i + 1 < |goal| then goal[i + 1] else P_NONE
    ensures i == 0 && l.isTrueRoot ==> index[goal[0]].isRoot
    ensures index[goal[i]].level == l.level
    ensures l.level > 0 ==> KidsLead(index, goal, i, patience)
  {
    hide PageFits, SanePage, KidsLead;
    if i > 0 {
      WholeChainDistinct(index, goal, l.leftmost, i - 1, i);
    }
  }

  lemma GoalFirst(index: Index, n: nat, l: Level, goal: seq<nat>, patience: nat)
    requires INVALID_BLOCK !in index && LevelFits(index, n, l, goal, patience)
    ensures goal != [] && goal[0] in index && !Ignored(index[goal[0]]) && Leftmost(index[goal[0]]) != INVALID_BLOCK
  {
    hide PageFits;
    assert LiveFits(index, n, l.level, LeftOf(goal, 0), index[goal[0]], patience);
    if l.level > 0 {
      FirstKidIn(index, n, l.level, LeftOf(goal, 0), index[goal[0]], patience);
    }
  }

  lemma FirstKidIn(index: Index, n: nat, level: nat, left: nat, p: Page, patience: nat)
    requires LiveFits(index, n, level, left, p, patience) && level > 0
    ensures !p.isLeaf && Child(p, FirstDataKey(p)) in index
  {
    OffsetHasKid(index, n, p, FirstDataKey(p), patience);
  }

  lemma LevelAtPrefix(index: Index, rootLevel: nat, root: nat, levels: seq<seq<nat>>, d: nat)
    requires d <= |levels| && d <= rootLevel
    ensures LevelAt(index, rootLevel, root, levels[..d], d) == LevelAt(index, rootLevel, root, levels, d)
  {
  }

  lemma SamePages(index: Index, n: nat, l: Level, pages: seq<nat>, goal: seq<nat>, patience: nat)
    requires INVALID_BLOCK !in index && LevelVerified(index, n, l, pages) && LevelFits(index, n, l, goal, patience)
    ensures pages == goal && pages != [] && pages[0] in index && Leftmost(index[pages[0]]) != INVALID_BLOCK
    ensures Below(index, pages) == Leftmost(index[pages[0]])
  {
    hide LevelPassed, LeadsTo, LiveFits;
    WholeChainUnique(index, pages, goal, l.leftmost);
    GoalFirst(index, n, l, goal, patience);
  }

  /** What the walk expects once the children of page i have been passed. */
  lemma LeadsOn(index: Index, goal: seq<nat>, i: nat, prl: nat, split: bool, patience: nat)
    requires INVALID_BLOCK !in index && i + 1 < |goal| && goal[i] in index && patience > 0
    requires KidsLeft(index, index[goal[i]], prl, split) && KidsLead(index, goal, i, patience)
    requires FirstKid(index, goal, i + 1) in index
    ensures var p := index[goal[i]];
            Expected(index, p.level, prl, split, FirstKid(index, goal, i + 1), Some(HighKey(p)), patience)
  {
    var p := index[goal[i]];
    LeadsFrom(index, p.level, prl, split, FirstKid(index, goal, i + 1), Some(HighKey(p)), patience);
  }

  lemma LeadsFrom(index: Index, level: nat, from: nat, split: bool, to: nat, sep: Option<Key>, patience: nat)
    requires Leads(index, level, from, split, to, sep, patience)
    ensures from == to || from in index
  {
    var way :| IsWay(index, level, from, split, way, to, sep, patience);
  }

  lemma OffsetHasKid(index: Index, n: nat, p: Page, offset: nat, patience: nat)
    requires PageFits(index, n, p, patience) && FirstDataKey(p) <= offset <= |p.items|
    ensures OffsetFits(index, n, p, offset, patience)
    ensures !p.isLeaf ==> KidFits(index, p, offset) && Child(p, offset) in index
    ensures !p.isLeaf && offset < |p.items| ==> KidFollows(index, p, offset + 1, patience)
  {
    hide NattsOk, ItemFits, ChildBounded, Leads;
    if !p.isLeaf && offset < |p.items| {
      var m := offset + 1;
      assert KidFollows(index, p, m, patience);
    }
  }

  /** Inner pages down the leftmost path from block b. */
  predicate WayDown(index: Index, path: seq<nat>, b: nat) {
    && path != [] && path[0] == b
    && (forall k | 0 <= k < |path| :: path[k] in index && !index[path[k]].isLeaf)
    && (forall k | 0 <= k < |path| - 1 :: path[k + 1] == ItemAt(index[path[k]], FirstDataKey(index[path[k]])).blk)
    && (forall k | 0 < k < |path| :: index[path[k]].level == index[path[k - 1]].level - 1)
  }

  predicate SanePath(index: Index, path: seq<nat>) {
    forall k | 0 < k < |path| :: path[k] != P_NONE && path[k] in index && SanePage(index[path[k]])
  }

  /** One page down a deletion path. */
  lemma PathNext(index: Index, goal: seq<nat>, b: nat, i: nat)
    requires DeletionPath(index, goal, b) && SanePath(index, goal) && i + 1 < |goal|
    ensures goal[i] in index && goal[i + 1] in index && goal[i + 1] != P_NONE && SanePage(index[goal[i + 1]])
    ensures goal[i + 1] == ItemAt(index[goal[i]], FirstDataKey(index[goal[i]])).blk
    ensures var c := index[goal[i + 1]];
            if i + 2 == |goal| then c.isLeaf && c.isHalfDead && !c.isDeleted && !Rightmost(c)
                    && ItemAt(c, P_HIKEY).blk == b
            else !c.isLeaf && c.level == index[goal[i]].level - 1
    ensures goal[..i + 1] + [goal[i + 1]] == goal[..i + 2]
  {
    hide SanePage;
    var k := i + 1;
    assert index[goal[i]].isLeaf == false && goal[k] == ItemAt(index[goal[i]], FirstDataKey(index[goal[i]])).blk;
    if k + 1 < |goal| {
      assert goal[k + 1] == ItemAt(index[goal[k]], FirstDataKey(index[goal[k]])).blk;
    }
  }

  lemma WayBegins(index: Index, b: nat)
    requires b in index && !index[b].isLeaf
    ensures WayDown(index, [b], b)
  {
  }

  lemma WayNext(index: Index, path: seq<nat>, b: nat, child: nat)
    requires WayDown(index, path, b) && child in index
    requires var last := index[path[|path| - 1]]; child == ItemAt(last, FirstDataKey(last)).blk
    ensures var c := index[child];
            && (!c.isLeaf && c.level == index[path[|path| - 1]].level - 1 ==> WayDown(index, path + [child], b))
            && (c.isLeaf && c.isHalfDead && !c.isDeleted && !Rightmost(c) && ItemAt(c, P_HIKEY).blk == b ==>
                  DeletionPath(index, path + [child], b))
  {
  }

  /** A deletion path starts at an inner page. */
  lemma PathBegins(index: Index, goal: seq<nat>, b: nat)
    requires DeletionPath(index, goal, b)
    ensures |goal| >= 2 && goal[0] == b && b in index && !index[b].isLeaf
  {
    assert goal[1] == ItemAt(index[goal[0]], FirstDataKey(index[goal[0]])).blk;
  }
}
