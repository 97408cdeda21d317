/**
  bt_index_parent_check on a heapkeyspace index of plain tuples, in readonly mode: what is
  true of an index whenever a run ends without an error, and which indexes it accepts.
  patience bounds the number of pages a loop reads before a pending interrupt cancels the
  query; every result holds for every patience.
 */
module VerifyNbtree {
  import opened Optional
  import opened BtreeKeys
  import opened BtreePages
  import opened BtreeLevels
  import opened BtreeFits

  datatype Outcome = Ok | Corrupt | Interrupted

  class BtreeCheckState {
    const index: Index
    const natts: nat
    var target: Page
    var targetblock: nat
    var lowkey: Option<Item>
    var prevrightlink: nat
    var previncompletesplit: bool
    ghost var links: seq<Link>
    ghost var at: seq<nat>
    ghost var chain: seq<nat>

    constructor (index: Index, natts: nat, page: Page)
      requires INVALID_BLOCK !in index
      ensures this.index == index && this.natts == natts && lowkey == None
    {
      this.index, this.natts := index, natts;
      target, targetblock, lowkey := page, P_NONE, None;
      prevrightlink, previncompletesplit := INVALID_BLOCK, false;
      links, at, chain := [], [], [];
    }

    /** palloc_btree_page. */
    function Palloc(b: nat): (r: Option<Page>)
      ensures r.Some? ==> b in index && r.value == index[b]
      ensures r.Some? && b != P_NONE ==> SanePage(r.value)
    {
      if b !in index then None
      else if b == P_NONE then (if index[b].isMeta then Some(index[b]) else None)
      else if SanePage(index[b]) then Some(index[b])
      else None
    }

    ghost predicate Tracks()
      reads this
    {
      && INVALID_BLOCK !in index
      && (SaneLinks(index, links) ==>
            Follows(index, target.level, links, at, chain, prevrightlink, previncompletesplit))
    }

    /** The whole child level has been passed. */
    ghost predicate Finished()
      reads this
    {
      links != [] && SaneLinks(index, links) ==>
        && ChildLevel(index, target.level, links, at, chain)
        && WholeChain(index, chain, links[0].blk)
    }

    /** The separator to the left of the downlink at offset. */
    function KeyLeftOf(offset: nat): Option<Key>
      reads this
    {
      if !NegativeInfinity(target, offset) then Some(ItemAt(target, offset).key)
      else if lowkey.Some? then Some(lowkey.value.key)
      else None
    }

    /** The separator to the left of the downlink at offset is that of the last downlink seen. */
    ghost predicate LeftKnown(offset: nat)
      reads this
    {
      links != [] && !links[|links| - 1].loose ==> links[|links| - 1].sep == KeyLeftOf(offset)
    }

    /** The walk on the child level will find the child at offset. */
    ghost predicate Expects(offset: nat, patience: nat)
      reads this
    {
      Expected(index, target.level, prevrightlink, previncompletesplit,
               Child(target, offset), PivotKey(offset, false), patience)
    }

    /** The page is as a run wants it, and the walk stands before the child at offset, or behind the last one. */
    ghost predicate Ready(offset: nat, patience: nat)
      reads this
    {
      && patience > 0 && PageFits(index, natts, target, patience)
      && (target.isLeaf || if offset <= |target.items| then Expects(offset, patience) else KidsEnd(|target.items|))
    }

    /** bt_downlink_missing_check. */
    method DownlinkMissingCheck(rightsplit: bool, blkno: nat, patience: nat) returns (r: Outcome)
      requires blkno in index
      ensures r.Ok? ==> index[blkno].isRoot || rightsplit || exists path :: DeletionPath(index, path, blkno)
      ensures index[blkno].isRoot || rightsplit ==> r.Ok?
      ensures (exists path | DeletionPath(index, path, blkno) :: SanePath(index, path) && |path| <= patience + 1) ==>
                r.Ok?
    {
      var page := index[blkno];
      if page.isRoot || rightsplit {
        return Ok;
      }
      if page.isLeaf {
        if p :| DeletionPath(index, p, blkno) {
          PathBegins(index, p, blkno);
        }
        return Corrupt;
      }
      r := LeftmostPath(blkno, patience);
    }

    /** The loop of bt_downlink_missing_check down the leftmost path. */
    method LeftmostPath(blkno: nat, patience: nat) returns (r: Outcome)
      requires blkno in index && !index[blkno].isLeaf
      ensures r.Ok? ==> exists path :: DeletionPath(index, path, blkno)
      ensures (exists path | DeletionPath(index, path, blkno) :: SanePath(index, path) && |path| <= patience + 1) ==>
                r.Ok?
    {
      hide DeletionPath, SanePath, WayDown, SanePage;
      var page := index[blkno];
      var level: int := page.level;
      var childblk := ItemAt(page, FirstDataKey(page)).blk;
      ghost var path := [blkno];
      ghost var goal: seq<nat> := [];
      if p :| DeletionPath(index, p, blkno) && SanePath(index, p) && |p| <= patience + 1 {
        goal := p;
        PathBegins(index, goal, blkno);
      }
      WayBegins(index, blkno);
      for i := 0 to patience
        invariant |path| == i + 1 && WayDown(index, path, blkno) && path[i] in index
        invariant var last := index[path[i]]; level == last.level && childblk == ItemAt(last, FirstDataKey(last)).blk
        invariant goal != [] ==> i + 1 < |goal| && path == goal[..i + 1]
      {
        if goal != [] {
          PathNext(index, goal, blkno, i);
        }
        var child := Palloc(childblk);
        if child.None? {
          return Corrupt;
        }
        var c := child.value;
        WayNext(index, path, blkno, childblk);
        if c.isLeaf {
          if !c.isDeleted && c.isHalfDead && !Rightmost(c) && ItemAt(c, P_HIKEY).blk == blkno {
            return Ok;
          }
          return Corrupt;
        }
        if c.level != level - 1 {
          return Corrupt;
        }
        level := c.level;
        path := path + [childblk];
        childblk := ItemAt(c, FirstDataKey(c)).blk;
      }
      r := Interrupted;
    }

    /** The key a child high key is compared with, or None for an error. */
    function PivotKey(offset: nat, isDownlink: bool): Option<Key>
      reads this
    {
      var pivot := if isDownlink then offset + 1 else offset;
      if NegativeInfinity(target, pivot) then
        if lowkey.Some? then Some(lowkey.value.key) else None
      else if pivot > |target.items| then
        if Rightmost(target) then None else Some(HighKey(target))
      else Some(ItemAt(target, pivot).key)
    }

    /** The separator for pages passed before the child at offset; there is none behind the last child. */
    function WalkKey(offset: nat): Option<Key>
      reads this
    {
      if offset == 0 then None else PivotKey(offset, false)
    }

    /** The tests bt_child_highkey_check makes on one page of the child level. */
    method ChildPageCheck(offset: nat, blkno: nat, isDownlink: bool, first: bool, rightsplit: bool, patience: nat)
      returns (r: Outcome, page: Page)
      requires blkno != P_NONE
      ensures r.Ok? ==> blkno in index && page == index[blkno]
      ensures r.Ok? ==>
                PageSeen(index, target.level, blkno, isDownlink, first && prevrightlink == INVALID_BLOCK,
                         rightsplit, PivotKey(offset, isDownlink))
      ensures (&& isDownlink && blkno == Child(target, offset) && KidFits(index, target, offset)
               && FirstDataKey(target) <= offset <= |target.items|
               && (if prevrightlink == INVALID_BLOCK then first && index[blkno].prev == P_NONE
                   else first || blkno != prevrightlink)) ==> r.Ok?
      ensures (&& !isDownlink && prevrightlink != INVALID_BLOCK && (first || blkno != prevrightlink)
               && PassFits(index, target.level, blkno, rightsplit, WalkKey(offset))) ==> r.Ok?
    {
      if FirstDataKey(target) <= offset <= |target.items| {
        PivotKeys(offset);
      }
      var p := Palloc(blkno);
      page := target;
      if p.None? {
        return Corrupt, page;
      }
      page := p.value;
      if first && prevrightlink == INVALID_BLOCK && page.prev != P_NONE {
        return Corrupt, page;
      }
      if (!page.isDeleted || page.hasFullXid) && page.level != target.level - 1 {
        return Corrupt, page;
      }
      if (!first && blkno == prevrightlink) || blkno == page.prev {
        return Corrupt, page;
      }
      if !isDownlink && !Ignored(page) {
        r := DownlinkMissingCheck(rightsplit, blkno, patience);
        if !r.Ok? {
          return r, page;
        }
      }
      if MustMatch(page) {
        var itup := PivotKey(offset, isDownlink);
        if itup.None? || HighKey(page) != itup.value {
          return Corrupt, page;
        }
      }
      r := Ok;
    }

    lemma PivotKeys(offset: nat)
      requires 1 <= offset <= |target.items| && FirstDataKey(target) <= offset
      ensures PivotKey(offset, true) == Separator(target, offset)
      ensures PivotKey(offset, false) == KeyLeftOf(offset)
    {
    }

    /** Behind the last child the walk leads out of the child level. */
    ghost predicate LeadsOut(patience: nat)
      reads this
    {
      prevrightlink != INVALID_BLOCK
      && Expected(index, target.level, prevrightlink, previncompletesplit, P_NONE, None, patience)
    }

    /** Where the walk for the child at offset is to arrive. */
    function Goal(offset: nat): nat
      reads this
    {
      if offset == 0 then P_NONE else Child(target, offset)
    }

    /** One page of the walk. */
    method WalkPage(offset: nat, blkno: nat, isDownlink: bool, first: bool, rightsplit: bool, patience: nat,
                    ghost way: seq<nat>, ghost i: nat)
      returns (r: Outcome, page: Page)
      requires blkno != P_NONE && isDownlink == (blkno == Goal(offset)) && first == (i == 0)
      requires offset == 0 || FirstDataKey(target) <= offset <= |target.items|
      ensures r.Ok? ==> blkno in index && page == index[blkno]
      ensures r.Ok? ==>
                PageSeen(index, target.level, blkno, isDownlink, first && prevrightlink == INVALID_BLOCK,
                         rightsplit, PivotKey(offset, isDownlink))
      ensures (&& OnWay(index, target.level, prevrightlink, previncompletesplit, way, Goal(offset), WalkKey(offset),
                        patience, i, blkno, rightsplit)
               && (offset == 0 || KidFits(index, target, offset))) ==>
                && r.Ok?
                && (!isDownlink ==>
                      OnWay(index, target.level, prevrightlink, previncompletesplit, way, Goal(offset), WalkKey(offset),
                            patience, i + 1, page.next, page.incompleteSplit))
    {
      hide PageSeen, PivotKey, PassFits, KidFits, OnWay;
      if OnWay(index, target.level, prevrightlink, previncompletesplit, way, Goal(offset), WalkKey(offset),
               patience, i, blkno, rightsplit)
      {
        WayGives(index, target.level, prevrightlink, previncompletesplit, way, Goal(offset), WalkKey(offset),
                 patience, i, blkno, rightsplit);
      }
      KidFound(index, target, offset);
      r, page := ChildPageCheck(offset, blkno, isDownlink, first, rightsplit, patience);
    }

    /** The walk has reached the page of the next downlink. */
    method Arrive(page: Page, ghost c: seq<nat>, ghost isFirst: bool, ghost rightsplit: bool,
                  ghost left: Option<Key>, ghost link: Link)
      requires Tracks() && !link.loose && link.blk in index && page == index[link.blk]
      requires SaneLinks(index, links) && link.blk != P_NONE ==>
                 && Walking(index, target.level, links, chain, c, link.blk, rightsplit, link.blk, left)
                 && isFirst == (links == [])
      requires links != [] && !links[|links| - 1].loose ==> links[|links| - 1].sep == left
      requires PageSeen(index, target.level, link.blk, true, isFirst, rightsplit, link.sep)
      modifies this`prevrightlink, this`previncompletesplit, this`links, this`at, this`chain
      ensures Tracks() && links == old(links) + [link]
      ensures prevrightlink == page.next && previncompletesplit == page.incompleteSplit
    {
      hide Follows, Walking, PageSeen, SaneLinks;
      if SaneLinks(index, links + [link]) {
        SaneLinksSnoc(index, links, link);
        WalkEnds(index, target.level, links, at, chain, prevrightlink, previncompletesplit,
                 c, link.blk, rightsplit, left, link);
      }
      prevrightlink, previncompletesplit := page.next, page.incompleteSplit;
      links, at, chain := links + [link], at + [|c|], c + [link.blk];
    }

    /** The walk has reached the end of the child level, or never began because the downlink is none. */
    method Leave(ghost offset: nat, ghost c: seq<nat>, ghost rightsplit: bool, ghost left: Option<Key>,
        ghost link: Link)
      requires Tracks() && (offset != 0 ==> link.blk == P_NONE)
      requires offset == 0 && SaneLinks(index, links) ==>
                 Walking(index, target.level, links, chain, c, P_NONE, rightsplit, P_NONE, left)
      modifies this`prevrightlink, this`previncompletesplit, this`links, this`at, this`chain
      ensures offset != 0 ==> Tracks() && links == old(links) + [link]
      ensures offset == 0 ==> Finished() && links == old(links)
    {
      hide Follows, Walking, SaneLinks, ChildLevel, WholeChain;
      if offset != 0 {
        NotSane(index, links, link);
        links, at := links + [link], at + [0];
      } else if SaneLinks(index, links) && links != [] {
        WalkFinishes(index, target.level, links, at, chain, prevrightlink, previncompletesplit, c, rightsplit, left);
      }
      chain := c;
      prevrightlink, previncompletesplit := INVALID_BLOCK, false;
    }

    /** What the walk for the child at offset has passed, as far as the downlinks are sane. */
    ghost predicate Underway(offset: nat, c: seq<nat>, blkno: nat, rightsplit: bool, first: bool)
      reads this
    {
      SaneLinks(index, links) && (offset != 0 ==> Goal(offset) != P_NONE) ==>
        && Walking(index, target.level, links, chain, c, blkno, rightsplit, Goal(offset), PivotKey(offset, false))
        && (links == [] <==> prevrightlink == INVALID_BLOCK) && (links == [] ==> first && blkno == Goal(offset))
    }

    lemma SetsOut(offset: nat)
      requires Tracks()
      ensures if prevrightlink == INVALID_BLOCK then Underway(offset, chain, Goal(offset), false, true)
              else Underway(offset, chain, prevrightlink, previncompletesplit, true)
    {
      hide Follows, Walking, SaneLinks, PivotKey;
      if SaneLinks(index, links) {
        WalkBegins(index, target.level, links, at, chain, prevrightlink, previncompletesplit,
                   Goal(offset), PivotKey(offset, false));
      }
    }

    /** One round of the loop of bt_child_highkey_check. */
    method WalkRound(offset: nat, blkno: nat, rightsplit: bool, first: bool, patience: nat,
                     ghost c: seq<nat>, ghost way: seq<nat>, ghost i: nat)
      returns (r: Outcome, done: bool, next: nat, split: bool)
      requires Tracks() && Underway(offset, c, blkno, rightsplit, first) && first == (i == 0)
      requires offset == 0 || FirstDataKey(target) <= offset <= |target.items|
      requires offset != 0 ==> LeftKnown(offset)
      modifies this`prevrightlink, this`previncompletesplit, this`links, this`at, this`chain
      ensures r.Ok? && done && offset != 0 ==>
                && Tracks() && links == old(links) + [LinkAt(target, offset)]
                && (KidFits(index, target, offset) ==> KidsEnd(offset))
      ensures r.Ok? && done && offset == 0 ==> links == old(links) && Finished()
      ensures r.Ok? && !done ==>
                && links == old(links) && at == old(at) && chain == old(chain)
                && prevrightlink == old(prevrightlink) && previncompletesplit == old(previncompletesplit)
                && Underway(offset, c + [blkno], next, split, false)
      ensures (&& old(OnWay(index, target.level, prevrightlink, previncompletesplit, way, Goal(offset), WalkKey(offset),
                            patience, i, blkno, rightsplit))
               && (offset == 0 || KidFits(index, target, offset))) ==>
                && r.Ok?
                && (!done ==>
                      OnWay(index, target.level, prevrightlink, previncompletesplit, way, Goal(offset), WalkKey(offset),
                            patience, i + 1, next, split))
    {
      hide Follows, Walking, PageSeen, SaneLinks, PivotKey, ChildLevel, WholeChain, Separator, KidFits, PassFits, OnWay;
      next, split, done := blkno, rightsplit, false;
      if OnWay(index, target.level, prevrightlink, previncompletesplit, way, Goal(offset), WalkKey(offset),
               patience, i, blkno, rightsplit)
      {
        WayGives(index, target.level, prevrightlink, previncompletesplit, way, Goal(offset), WalkKey(offset), patience,
                 i, blkno, rightsplit);
      }
      KidFound(index, target, offset);
      if offset != 0 {
        PivotKeys(offset);
      }
      ghost var link := Link(Goal(offset), Separator(target, offset), false);
      var downlink: nat := if offset != 0 then ItemAt(target, offset).blk else P_NONE;
      if blkno == P_NONE && downlink == P_NONE {
        Leave(offset, c, rightsplit, PivotKey(offset, false), link);
        return Ok, true, next, split;
      }
      if blkno == P_NONE {
        return Corrupt, false, next, split;
      }
      var page;
      r, page := WalkPage(offset, blkno, blkno == downlink, first, rightsplit, patience, way, i);
      if !r.Ok? {
        return;
      }
      if blkno == downlink {
        Arrive(page, c, first && prevrightlink == INVALID_BLOCK, rightsplit, PivotKey(offset, false), link);
        return Ok, true, next, split;
      }
      if SaneLinks(index, links) && (offset != 0 ==> Goal(offset) != P_NONE) {
        WalkGoesOn(index, target.level, links, chain, c, blkno, rightsplit, Goal(offset), PivotKey(offset, false));
      }
      next, split := page.next, page.incompleteSplit;
    }

    /**
      bt_child_highkey_check.  For the downlink at a real offset: walk right on the child
      level from where the previous call stopped until the downlink's page.  For offset 0,
      after the last downlink of the level: walk on to the end of the child level.
     */
    method ChildHighkeyCheck(offset: nat, patience: nat) returns (r: Outcome)
      requires Tracks()
      requires offset == 0 || FirstDataKey(target) <= offset <= |target.items|
      requires offset != 0 ==> LeftKnown(offset)
      modifies this`prevrightlink, this`previncompletesplit, this`links, this`at, this`chain
      ensures r.Ok? && offset != 0 ==>
                && Tracks()
                && links == old(links) + [LinkAt(target, offset)]
      ensures r.Ok? && offset == 0 ==> links == old(links)
      ensures r.Ok? && offset == 0 ==> Finished()
      ensures offset != 0 && KidFits(index, target, offset) && old(Expects(offset, patience)) ==> r.Ok?
      ensures offset == 0 && old(LeadsOut(patience)) ==> r.Ok?
      ensures r.Ok? && offset != 0 && KidFits(index, target, offset) ==> KidsEnd(offset)
    {
      hide Walking, SaneLinks, PivotKey, Separator, KidFits, OnWay, Expected, this.Underway, this.Finished;
      ghost var fits := if offset == 0 then LeadsOut(patience)
                        else KidFits(index, target, offset) && Expects(offset, patience);
      ghost var way := [];
      if fits {
        way := WayFor(index, target.level, prevrightlink, previncompletesplit, Goal(offset), WalkKey(offset), patience);
      }
      var downlink: nat := if offset != 0 then ItemAt(target, offset).blk else P_NONE;
      SetsOut(offset);
      var blkno: nat, rightsplit, first, done := prevrightlink, previncompletesplit, true, false;
      if blkno == INVALID_BLOCK {
        blkno, rightsplit := downlink, false;
      }
      ghost var c: seq<nat> := chain;
      for i := 0 to patience
        invariant links == old(links) && at == old(at) && chain == old(chain)
        invariant prevrightlink == old(prevrightlink) && previncompletesplit == old(previncompletesplit)
        invariant Underway(offset, c, blkno, rightsplit, first) && first == (i == 0)
        invariant fits ==> OnWay(index, target.level, prevrightlink, previncompletesplit, way, Goal(offset),
                                 WalkKey(offset), patience, i, blkno, rightsplit)
      {
        ghost var before := blkno;
        r, done, blkno, rightsplit := WalkRound(offset, blkno, rightsplit, first, patience, c, way, i);
        if !r.Ok? || done {
          return r;
        }
        c, first := c + [before], false;
      }
      if fits {
        WayGives(index, target.level, prevrightlink, previncompletesplit, way, Goal(offset), WalkKey(offset), patience,
                 patience, blkno, rightsplit);
      }
      r := Interrupted;
    }

    /** bt_child_check. */
    method ChildCheck(offset: nat, patience: nat) returns (r: Outcome)
      requires Tracks() && FirstReal(target) <= offset <= |target.items| && !target.isLeaf
      requires LeftKnown(offset)
      modifies this`prevrightlink, this`previncompletesplit, this`links, this`at, this`chain
      ensures r.Ok? ==>
                && Tracks()
                && links == old(links) + [LinkAt(target, offset)]
                && ChildBounded(index, target, offset)
      ensures (&& KidFits(index, target, offset)
               && ChildBounded(index, target, offset)
               && old(Expects(offset, patience))) ==> r.Ok?
      ensures r.Ok? && KidFits(index, target, offset) ==> KidsEnd(offset)
    {
      hide Tracks, Separator, this.Expects;
      var key := ItemAt(target, offset).key;
      var childblock := ItemAt(target, offset).blk;
      var loaded := Palloc(childblock);
      if loaded.None? {
        return Corrupt;
      }
      var child := loaded.value;
      r := ChildHighkeyCheck(offset, patience);
      if !r.Ok? {
        return r;
      }
      if child.isDeleted {
        return Corrupt;
      }
      var i := FirstDataKey(child);
      while i <= |child.items|
        invariant forall j | FirstReal(child) <= j < i && j <= |child.items| :: InvariantL(key, ItemAt(child, j).key)
      {
        if !NegativeInfinity(child, i) && !InvariantL(key, ItemAt(child, i).key) {
          return Corrupt;
        }
        i := i + 1;
      }
    }

    /** bt_right_page_check_scankey; right is the page whose first item is returned. */
    method RightPageCheckScankey(patience: nat) returns (r: Outcome, key: Option<Key>)
      ensures r.Ok? ==> forall n: nat :: var q := NextLive(index, target.next, n);
                q.Some? && q.value in index && HasReal(index[q.value]) ==>
                  key == Some(ItemAt(index[q.value], FirstReal(index[q.value])).key)
      ensures r.Ok? <==> Rightmost(target) || ReadableRight(index, target.next, patience)
      ensures r.Ok? ==> key == if Rightmost(target) then None else RightKey(index, target.next, patience)
    {
      hide SanePage;
      key := None;
      if Rightmost(target) {
        return Ok, None;
      }
      var targetnext := target.next;
      for i := 0 to patience
        invariant targetnext != P_NONE
        invariant forall n: nat :: NextLive(index, target.next, n).Some? ==>
                    n >= i && NextLive(index, target.next, n) == NextLive(index, targetnext, n - i)
        invariant ReadableRight(index, target.next, patience) <==> ReadableRight(index, targetnext, patience - i)
        invariant ReadableRight(index, target.next, patience) ==>
                    RightKey(index, target.next, patience) == RightKey(index, targetnext, patience - i)
      {
        var rightpage := Palloc(targetnext);
        if rightpage.None? {
          return Corrupt, None;
        }
        var p := rightpage.value;
        if !Ignored(p) || Rightmost(p) {
          if HasReal(p) {
            key := Some(ItemAt(p, FirstReal(p)).key);
          }
          assert forall n: nat :: NextLive(index, targetnext, n).Some? ==>
              NextLive(index, targetnext, n) == Some(targetnext);
          return Ok, key;
        }
        targetnext := p.next;
      }
      r := Interrupted;
    }

    /** The tests on one real item against its page and the page to the right. */
    method ItemCheck(offset: nat, patience: nat) returns (r: Outcome)
      requires FirstReal(target) <= offset <= |target.items|
      ensures r.Ok? ==> BelowHighKey(target, offset)
      ensures r.Ok? && offset + 1 <= |target.items| ==>
                InvariantL(ItemAt(target, offset).key, ItemAt(target, offset + 1).key)
      ensures r.Ok? && offset == |target.items| ==> RightChecked(index, target)
      ensures r.Ok? <==> ItemFits(index, target, offset, patience)
    {
      var key := ItemAt(target, offset).key;
      if !BelowHighKey(target, offset) {
        return Corrupt;
      }
      if offset + 1 <= |target.items| {
        if !InvariantL(key, ItemAt(target, offset + 1).key) {
          return Corrupt;
        }
      } else {
        var rightkey;
        r, rightkey := RightPageCheckScankey(patience);
        if !r.Ok? {
          return r;
        }
        if rightkey.Some? && !InvariantG(rightkey.value, key) {
          return Corrupt;
        }
      }
      r := Ok;
    }

    /** The separator left of the target page is the last one of the downlinks seen. */
    ghost predicate Joined()
      reads this
    {
      !target.isLeaf ==> LeftKnown(FirstDataKey(target))
    }

    /** One round of the item loop of bt_target_page_check. */
    method OffsetCheck(offset: nat, patience: nat) returns (r: Outcome)
      requires FirstDataKey(target) <= offset <= |target.items| && Tracks()
      requires !target.isLeaf ==> LeftKnown(offset)
      modifies this`prevrightlink, this`previncompletesplit, this`links, this`at, this`chain
      ensures r.Ok? ==> Tracks() && NattsOk(target, natts, offset)
      ensures r.Ok? && FirstReal(target) <= offset ==>
                && BelowHighKey(target, offset)
                && (offset + 1 <= |target.items| ==>
                      InvariantL(ItemAt(target, offset).key, ItemAt(target, offset + 1).key))
                && (offset == |target.items| ==> RightChecked(index, target))
                && (!target.isLeaf ==> ChildBounded(index, target, offset))
      ensures r.Ok? ==>
                links == if target.isLeaf then old(links)
                         else old(links) + [LinkAt(target, offset)]
      ensures old(Ready(offset, patience)) ==> r.Ok? && Ready(offset + 1, patience)
    {
      hide Tracks, NattsOk, Separator, RightChecked, KidFits, ItemFits, ChildBounded, this.Expects, this.Ready,
          PageFits;
      ghost var ready := Ready(offset, patience);
      ReadyGives(offset, patience);
      if !NattsOk(target, natts, offset) {
        return Corrupt;
      }
      if NegativeInfinity(target, offset) {
        r := ChildHighkeyCheck(offset, patience);
      } else {
        r := ItemCheck(offset, patience);
        if r.Ok? && !target.isLeaf {
          r := ChildCheck(offset, patience);
        }
      }
      if ready {
        Tracked();
        ReadyNext(offset, patience);
      }
    }

    /** Behind the last child of the last page. */
    lemma ReadyOut(patience: nat)
      requires INVALID_BLOCK !in index && Ready(|target.items| + 1, patience)
      requires !target.isLeaf && Rightmost(target) && Closed(target, patience)
      ensures LeadsOut(patience)
    {
      hide PageFits, Leads;
      LeadsFrom(index, target.level, prevrightlink, previncompletesplit, P_NONE, None, patience);
    }

    lemma ReadyHigh(patience: nat)
      requires Ready(FirstDataKey(target), patience)
      ensures !Rightmost(target) ==> NattsOk(target, natts, P_HIKEY)
    {
    }

    lemma Tracked()
      requires Tracks()
      ensures INVALID_BLOCK !in index
      ensures SaneLinks(index, links) ==>
                Follows(index, target.level, links, at, chain, prevrightlink, previncompletesplit)
    {
    }

    /** What being ready means for the tests at offset. */
    lemma ReadyGives(offset: nat, patience: nat)
      requires FirstDataKey(target) <= offset <= |target.items|
      ensures Ready(offset, patience) ==>
                && patience > 0 && PageFits(index, natts, target, patience)
                && OffsetFits(index, natts, target, offset, patience)
                && (!target.isLeaf ==>
                      && Expects(offset, patience) && KidFits(index, target, offset)
                      && Child(target, offset) in index)
    {
      if Ready(offset, patience) {
        OffsetHasKid(index, natts, target, offset, patience);
      }
    }

    lemma ReadyNext(offset: nat, patience: nat)
      requires FirstDataKey(target) <= offset <= |target.items| && INVALID_BLOCK !in index
      requires patience > 0 && PageFits(index, natts, target, patience)
      requires !target.isLeaf ==> KidsEnd(offset)
      ensures Ready(offset + 1, patience)
    {
      hide OffsetFits, Leads;
      OffsetHasKid(index, natts, target, offset, patience);
      if !target.isLeaf && offset < |target.items| {
        OffsetHasKid(index, natts, target, offset + 1, patience);
        LeadsFrom(index, target.level, prevrightlink, previncompletesplit,
                  Child(target, offset + 1), PivotKey(offset + 1, false), patience);
      }
    }

    /** If the page is the last of its level, its children end the next level. */
    ghost predicate Closed(p: Page, patience: nat) {
      p.isLeaf || !Rightmost(p) || KidsEndHere(index, p, patience)
    }

    /** The walk stands behind the child at offset. */
    ghost predicate KidsEnd(offset: nat)
      reads this
    {
      var b := Child(target, offset);
      b in index && prevrightlink == index[b].next && previncompletesplit == index[b].incompleteSplit
    }

    /** The item loop of bt_target_page_check. */
    method ItemLoop(patience: nat) returns (r: Outcome)
      requires FirstDataKey(target) <= |target.items| + 1 && Tracks() && Joined()
      requires !Rightmost(target) ==> NattsOk(target, natts, P_HIKEY)
      modifies this`prevrightlink, this`previncompletesplit, this`links, this`at, this`chain
      ensures r.Ok? ==> Tracks() && Checked(target, natts) && RightChecked(index, target)
      ensures r.Ok? && target.isLeaf ==> links == old(links)
      ensures r.Ok? && !target.isLeaf ==>
                && links == old(links) + PageLinks(target, |target.items| + 1)
                && ChildrenBounded(index, target, |target.items| + 1)
      ensures old(Ready(FirstDataKey(target), patience)) ==> r.Ok? && Ready(|target.items| + 1, patience)
    {
      hide Tracks, NattsOk, ItemsPassed, BelowHighKey, RightChecked, ChildBounded, InvariantL, PageLinks, this.Ready;
      var offset := FirstDataKey(target);
      ItemsBegin(index, natts, target);
      PageLinksBegin(links, target);
      while offset <= |target.items|
        invariant FirstDataKey(target) <= offset <= |target.items| + 1 && Tracks()
        invariant !target.isLeaf && offset <= |target.items| ==> LeftKnown(offset)
        invariant ItemsPassed(index, natts, target, offset)
        invariant links == if target.isLeaf then old(links) else old(links) + PageLinks(target, offset)
        invariant old(Ready(FirstDataKey(target), patience)) ==> Ready(offset, patience)
      {
        r := OffsetCheck(offset, patience);
        if !r.Ok? {
          return r;
        }
        PageLinksNext(old(links), target, offset);
        ItemsNext(index, natts, target, offset);
        offset := offset + 1;
      }
      ItemsEnd(index, natts, target);
      r := Ok;
    }

    /** bt_target_page_check. */
    method TargetPageCheck(patience: nat) returns (r: Outcome)
      requires SanePage(target) && !Ignored(target) && Tracks() && Joined()
      modifies this`prevrightlink, this`previncompletesplit, this`links, this`at, this`chain
      ensures r.Ok? ==> Checked(target, natts) && RightChecked(index, target)
      ensures r.Ok? && target.isLeaf ==> links == old(links)
      ensures r.Ok? && !target.isLeaf ==>
                && links == old(links) + PageLinks(target, |target.items| + 1)
                && ChildrenBounded(index, target, |target.items| + 1)
      ensures r.Ok? && (target.isLeaf || !Rightmost(target)) ==> Tracks()
      ensures r.Ok? && !target.isLeaf && Rightmost(target) ==> Finished()
      ensures old(Ready(FirstDataKey(target), patience)) && Closed(target, patience) ==> r.Ok?
      ensures old(Ready(FirstDataKey(target), patience)) && !Rightmost(target) ==> Ready(|target.items| + 1, patience)
    {
      hide PageFits, Tracks, NattsOk, RightChecked, Checked, Finished, ChildrenBounded,
           this.Ready, this.Closed, this.LeadsOut;
      if Ready(FirstDataKey(target), patience) {
        ReadyHigh(patience);
      }
      if !Rightmost(target) && !NattsOk(target, natts, P_HIKEY) {
        return Corrupt;
      }
      Tracked();
      r := ItemLoop(patience);
      if Ready(|target.items| + 1, patience) && !target.isLeaf && Rightmost(target) && Closed(target, patience) {
        ReadyOut(patience);
      }
      if r.Ok? && !target.isLeaf && Rightmost(target) {
        r := ChildHighkeyCheck(0, patience);
      }
    }

    /** The tests bt_check_level_from_leftmost makes on a live page before its items. */
    method LivePageCheck(l: Level, leftcurrent: nat, nextleft: nat) returns (r: Outcome, down: nat)
      ensures r.Ok? ==> target.prev == leftcurrent && target.level == l.level
      ensures r.Ok? && nextleft == INVALID_BLOCK ==>
                leftcurrent == P_NONE && (l.isTrueRoot ==> target.isRoot) && down == Leftmost(target)
      ensures nextleft != INVALID_BLOCK ==> down == nextleft
      ensures (&& target.prev == leftcurrent && target.level == l.level
               && (nextleft == INVALID_BLOCK ==> leftcurrent == P_NONE && (l.isTrueRoot ==> target.isRoot))) ==> r.Ok?
    {
      down := nextleft;
      if nextleft == INVALID_BLOCK {
        if target.prev != P_NONE || (l.isTrueRoot && !target.isRoot) {
          return Corrupt, down;
        }
        down := Leftmost(target);
      }
      r := if target.prev == leftcurrent && l.level == target.level then Ok else Corrupt;
    }

    ghost predicate Between(level: nat, pages: seq<nat>, current: nat, leftcurrent: nat)
      reads this
    {
      LevelSoFar(index, natts, level, pages, current, leftcurrent,
                 links, at, chain, prevrightlink, previncompletesplit, lowkey)
    }

    /** bt_target_page_check in the loop over a level. */
    method LivePage(ghost level: nat, ghost current: nat, ghost leftcurrent: nat, ghost pages: seq<nat>, patience: nat)
      returns (r: Outcome)
      requires Between(level, pages, current, leftcurrent)
      requires current != P_NONE && current in index && target == index[current]
      requires SanePage(target) && !Ignored(target) && target.level == level && target.prev == leftcurrent
      modifies this`prevrightlink, this`previncompletesplit, this`links, this`at, this`chain
      ensures r.Ok? ==> LevelSoFar(index, natts, level, pages + [current], target.next, current,
                                   links, at, chain, prevrightlink, previncompletesplit,
                                   if !Rightmost(target) then Some(ItemAt(target, P_HIKEY)) else None)
      ensures old(Ready(FirstDataKey(target), patience)) && Closed(target, patience) ==> r.Ok?
      ensures old(Ready(FirstDataKey(target), patience)) && !Rightmost(target) ==> Ready(|target.items| + 1, patience)
    {
      hide LevelSoFar, SaneLinks, Follows, PageLinks, ChildLevel, WholeChain, Checked, RightChecked, ChildrenBounded,
          SanePage, PageFits, this.Ready, this.Closed;
      LiveBegins(index, natts, level, pages, current, leftcurrent, links, at, chain,
                 prevrightlink, previncompletesplit, lowkey);
      r := TargetPageCheck(patience);
      if r.Ok? {
        LiveRound(index, natts, level, pages, current, leftcurrent, old(links), old(at), old(chain),
                  old(prevrightlink), old(previncompletesplit), lowkey,
                  links, at, chain, prevrightlink, previncompletesplit);
      }
    }

    /** The walk will find the first child of page p, which comes next on its level. */
    ghost predicate Awaits(level: nat, p: Page, patience: nat)
      reads this
    {
      Expected(index, level, prevrightlink, previncompletesplit, Child(p, FirstDataKey(p)),
               if lowkey.Some? then Some(lowkey.value.key) else None, patience)
    }

    lemma BecomesReady(level: nat, patience: nat)
      requires patience > 0 && PageFits(index, natts, target, patience) && target.level == level
      requires target.isLeaf || Awaits(level, target, patience)
      requires FirstDataKey(target) <= |target.items| || target.isLeaf
      ensures Ready(FirstDataKey(target), patience)
    {
      hide PageFits, Expected;
    }

    /** After the last child. */
    lemma LeftReady(patience: nat)
      requires Ready(|target.items| + 1, patience) && !target.isLeaf
      ensures KidsLeft(index, target, prevrightlink, previncompletesplit)
    {
      hide PageFits, Expected;
    }

    /** The round of a live page, which has been loaded. */
    method LiveBranch(l: Level, current: nat, leftcurrent: nat, nextleft: nat, ghost pages: seq<nat>, patience: nat)
      returns (r: Outcome, down: nat)
      requires current != P_NONE && nextleft == NextLeftmost(index, pages)
      requires Between(l.level, pages, current, leftcurrent)
      requires current in index && target == index[current] && SanePage(target) && !Ignored(target)
      modifies this`prevrightlink, this`previncompletesplit, this`links, this`at, this`chain
      ensures r.Ok? ==>
                && LevelSoFar(index, natts, l.level, pages + [current], target.next, current,
                              links, at, chain, prevrightlink, previncompletesplit,
                              if !Rightmost(target) then Some(ItemAt(target, P_HIKEY)) else None)
                && down == NextLeftmost(index, pages + [current]) && target.prev == leftcurrent
                && !Ignored(index[(pages + [current])[0]])
                && (l.isTrueRoot && pages == [] ==> target.isRoot)
      ensures (&& RoundFits(index, natts, l, pages, current, leftcurrent, patience)
               && (target.isLeaf || old(Awaits(l.level, target, patience)))) ==>
                r.Ok? && (!target.isLeaf && !Rightmost(target) ==>
                    KidsLeft(index, target, prevrightlink, previncompletesplit))
    {
      hide LevelSoFar, RoundFits, PageFits, KidFits, SanePage, KidsLeft, this.Awaits, this.Ready, this.Closed;
      LiveBegins(index, natts, l.level, pages, current, leftcurrent, links, at, chain,
                 prevrightlink, previncompletesplit, lowkey);
      RoundGives(index, natts, l, pages, current, leftcurrent, patience);
      ghost var fits := RoundFits(index, natts, l, pages, current, leftcurrent, patience)
                        && (target.isLeaf || Awaits(l.level, target, patience));
      if fits {
        BecomesReady(l.level, patience);
        ClosedIf(patience);
      }
      r, down := LivePageCheck(l, leftcurrent, nextleft);
      if r.Ok? {
        r := LivePage(l.level, current, leftcurrent, pages, patience);
      }
      if fits && !target.isLeaf && !Rightmost(target) {
        LeftReady(patience);
      }
    }

    lemma ClosedIf(patience: nat)
      requires !target.isLeaf && Rightmost(target) ==> KidsEndHere(index, target, patience)
      ensures Closed(target, patience)
    {
    }

    /** One round of the loop of bt_check_level_from_leftmost, up to the move to the next page. */
    method LevelRound(l: Level, current: nat, leftcurrent: nat, nextleft: nat, ghost pages: seq<nat>, patience: nat)
      returns (r: Outcome, down: nat)
      requires current != P_NONE && nextleft == NextLeftmost(index, pages)
      requires Between(l.level, pages, current, leftcurrent)
      modifies this
      ensures r.Ok? ==>
                && current in index && target == index[current]
                && Between(l.level, pages + [current], target.next, current)
                && down == NextLeftmost(index, pages + [current])
                && (target.next == P_NONE ==> !Ignored(index[(pages + [current])[0]]))
                && (l.isTrueRoot && pages == [] && !Ignored(target) ==> target.isRoot)
      ensures (&& RoundFits(index, natts, l, pages, current, leftcurrent, patience)
               && (l.level == 0 || old(Awaits(l.level, index[current], patience)))) ==> r.Ok?
      ensures (&& RoundFits(index, natts, l, pages, current, leftcurrent, patience)
               && l.level > 0 && old(Awaits(l.level, index[current], patience))
               && !Rightmost(index[current])) ==>
                KidsLeft(index, index[current], prevrightlink, previncompletesplit)
      ensures r.Ok? ==> lowkey == if Rightmost(target) then None else Some(ItemAt(target, P_HIKEY))
    {
      hide LevelSoFar, SanePage, PageFits, LiveFits, KidsEndHere, KidsLeft, Expected;
      down := nextleft;
      if current in index {
        RoundGives(index, natts, l, pages, current, leftcurrent, patience);
      }
      var loaded := Palloc(current);
      if loaded.None? {
        return Corrupt, down;
      }
      targetblock, target := current, loaded.value;
      if Ignored(target) {
        if target.isDeleted || Rightmost(target) {
          return Corrupt, down;
        }
        IgnoredRound(index, natts, l.level, pages, current, leftcurrent, links, at, chain,
                     prevrightlink, previncompletesplit, lowkey);
        links := Loosened(links);
      } else {
        r, down := LiveBranch(l, current, leftcurrent, nextleft, pages, patience);
        if !r.Ok? {
          return r, down;
        }
      }
      if current == leftcurrent || current == target.prev {
        return Corrupt, down;
      }
      r := Ok;
      lowkey := if !Rightmost(target) then Some(ItemAt(target, P_HIKEY)) else None;
    }

    /** The loop over a level stands before page i of a level that fits. */
    ghost predicate OnCourse(
      l: Level, goal: seq<nat>, patience: nat, i: nat, pages: seq<nat>, current: nat, leftcurrent: nat)
      reads this
    {
      && LevelFits(index, natts, l, goal, patience) && INVALID_BLOCK !in index
      && i < |goal| <= patience && pages == goal[..i] && current == goal[i] && leftcurrent == LeftOf(goal, i)
      && goal[i] in index && (l.level == 0 || Awaits(l.level, index[goal[i]], patience))
    }

    lemma CourseBegins(l: Level, goal: seq<nat>, patience: nat)
      requires INVALID_BLOCK !in index && LevelFits(index, natts, l, goal, patience)
      requires prevrightlink == INVALID_BLOCK
      ensures OnCourse(l, goal, patience, 0, [], l.leftmost, P_NONE)
    {
      hide LevelFits;
      GoalBegins(index, natts, l, goal, patience);
    }

    lemma CourseGives(l: Level, goal: seq<nat>, patience: nat, i: nat, pages: seq<nat>, current: nat, leftcurrent: nat)
      requires OnCourse(l, goal, patience, i, pages, current, leftcurrent)
      ensures i < |goal| <= patience && pages == goal[..i] && current == goal[i]
      ensures INVALID_BLOCK !in index && LevelFits(index, natts, l, goal, patience)
      ensures RoundFits(index, natts, l, pages, current, leftcurrent, patience) && current in index
      ensures l.level == 0 || Awaits(l.level, index[current], patience)
    {
      hide LevelFits, RoundFits, KidsLead, Expected;
      GoalRound(index, natts, l, goal, patience, i);
    }

    /** After the round of page i. */
    lemma CourseNext(l: Level, goal: seq<nat>, patience: nat, i: nat, pages: seq<nat>, current: nat, leftcurrent: nat)
      requires INVALID_BLOCK !in index && LevelFits(index, natts, l, goal, patience) && i < |goal| <= patience
      requires pages == goal[..i] + [goal[i]] && leftcurrent == goal[i] && goal[i] in index
      requires current == index[goal[i]].next && current != P_NONE
      requires lowkey == Some(ItemAt(index[goal[i]], P_HIKEY))
      requires l.level > 0 ==> KidsLeft(index, index[goal[i]], prevrightlink, previncompletesplit)
      ensures OnCourse(l, goal, patience, i + 1, pages, current, leftcurrent)
    {
      hide LevelFits, RoundFits, KidsLead, Expected, KidsLeft;
      GoalRound(index, natts, l, goal, patience, i);
      GoalRound(index, natts, l, goal, patience, i + 1);
      if l.level > 0 {
        LeadsOn(index, goal, i, prevrightlink, previncompletesplit, patience);
      }
    }

    /** One round of the loop, for a level that may fit. */
    method LevelStep(l: Level, current: nat, leftcurrent: nat, nextleft: nat, ghost pages: seq<nat>, patience: nat,
                     ghost goal: seq<nat>, ghost i: nat)
      returns (r: Outcome, down: nat)
      requires current != P_NONE && nextleft == NextLeftmost(index, pages)
      requires Between(l.level, pages, current, leftcurrent)
      modifies this
      ensures r.Ok? ==>
                && current in index && target == index[current]
                && Between(l.level, pages + [current], target.next, current)
                && down == NextLeftmost(index, pages + [current])
                && (target.next == P_NONE ==> !Ignored(index[(pages + [current])[0]]))
                && (l.isTrueRoot && pages == [] && !Ignored(target) ==> target.isRoot)
      ensures old(OnCourse(l, goal, patience, i, pages, current, leftcurrent)) ==>
                && r.Ok?
                && (target.next != P_NONE ==>
                      OnCourse(l, goal, patience, i + 1, pages + [current], target.next, current))
    {
      hide LevelSoFar, LevelFits, RoundFits, KidsLeft, NextLeftmost, this.OnCourse, this.Awaits;
      ghost var course := OnCourse(l, goal, patience, i, pages, current, leftcurrent);
      if course {
        CourseGives(l, goal, patience, i, pages, current, leftcurrent);
      }
      r, down := LevelRound(l, current, leftcurrent, nextleft, pages, patience);
      if course && target.next != P_NONE {
        CourseNext(l, goal, patience, i, pages + [current], target.next, current);
      }
    }

    /** bt_check_level_from_leftmost.  pages are the pages of the level, from left to right. */
    method CheckLevel(l: Level, patience: nat) returns (r: Outcome, next: Level, ghost pages: seq<nat>)
      requires INVALID_BLOCK !in index && l.leftmost != P_NONE && lowkey == None
      modifies this
      ensures r.Ok? ==> LevelVerified(index, natts, l, pages) && lowkey == None
      ensures r.Ok? ==> next.leftmost == Leftmost(index[pages[0]]) && (l.level > 0 ==> next.level == l.level - 1)
      ensures !next.isTrueRoot
      ensures (exists goal :: LevelFits(index, natts, l, goal, patience)) ==> r.Ok?
    {
      hide LevelSoFar, LevelFits, this.OnCourse;
      ghost var fits := exists goal :: LevelFits(index, natts, l, goal, patience);
      ghost var goal := [];
      if fits {
        goal :| LevelFits(index, natts, l, goal, patience);
      }
      prevrightlink, previncompletesplit := INVALID_BLOCK, false;
      links, at, chain, pages := [], [], [], [];
      next := Level(if l.level > 0 then l.level - 1 else 0, INVALID_BLOCK, false);
      LevelBegins(index, natts, l.level, l.leftmost, prevrightlink, previncompletesplit, lowkey);
      var leftcurrent, current := P_NONE, l.leftmost;
      if fits {
        CourseBegins(l, goal, patience);
      }
      for i := 0 to patience
        invariant current != P_NONE && Between(l.level, pages, current, leftcurrent)
        invariant next.leftmost == NextLeftmost(index, pages) && !next.isTrueRoot
        invariant next.level == if l.level > 0 then l.level - 1 else 0
        invariant (pages + [current])[0] == l.leftmost
        invariant pages != [] ==>
                    pages[0] in index && (l.isTrueRoot && !Ignored(index[pages[0]]) ==> index[pages[0]].isRoot)
        invariant fits ==> OnCourse(l, goal, patience, i, pages, current, leftcurrent)
      {
        var down;
        r, down := LevelStep(l, current, leftcurrent, next.leftmost, pages, patience, goal, i);
        if !r.Ok? {
          return;
        }
        pages := pages + [current];
        next := next.(leftmost := down);
        leftcurrent, current := current, target.next;
        if current == P_NONE {
          LevelEnds(index, natts, l, pages, leftcurrent, links, at, chain, prevrightlink, previncompletesplit, lowkey);
          lowkey := None;
          return;
        }
      }
      if fits {
        CourseGives(l, goal, patience, patience, pages, current, leftcurrent);
      }
      r := Interrupted;
    }

    /** The loop of bt_check_every_level, from the root named by the metapage. */
    method CheckEveryLevel(rootLevel: nat, root: nat, patience: nat) returns (r: Outcome, ghost levels: seq<seq<nat>>)
      requires INVALID_BLOCK !in index && lowkey == None
      modifies this
      ensures r.Ok? && root != P_NONE ==> TreeVerified(index, natts, rootLevel, root, levels)
      ensures (exists goal :: TreeFits(index, natts, rootLevel, root, goal, patience)) ==> r.Ok?
    {
      hide LevelVerified, LevelFits, Below;
      ghost var fits := exists goal :: TreeFits(index, natts, rootLevel, root, goal, patience);
      ghost var goal := [];
      if fits {
        goal :| TreeFits(index, natts, rootLevel, root, goal, patience);
      }
      levels := [];
      var current := Level(rootLevel, root, true);
      while current.leftmost != P_NONE
        invariant lowkey == None && |levels| <= rootLevel + 1
        invariant current.leftmost != P_NONE ==>
                    |levels| <= rootLevel && current == LevelAt(index, rootLevel, root, levels, |levels|)
        invariant current.leftmost == P_NONE && root != P_NONE ==> EndsBelow(index, levels)
        invariant LevelsVerified(index, natts, rootLevel, root, levels)
        invariant fits ==> |levels| <= |goal| && levels == goal[..|levels|]
        invariant fits && current.leftmost != P_NONE ==> |levels| < |goal|
        decreases rootLevel + 1 - |levels|
      {
        ghost var pages;
        ghost var l := current;
        if fits {
          LevelAtPrefix(index, rootLevel, root, goal, |levels|);
          assert LevelFits(index, natts, l, goal[|levels|], patience);
        }
        r, current, pages := CheckLevel(current, patience);
        if !r.Ok? {
          return;
        }
        if fits {
          SamePages(index, natts, l, pages, goal[|levels|], patience);
          assert levels + [pages] == goal[..|levels| + 1];
        }
        if current.leftmost == INVALID_BLOCK {
          return Corrupt, levels;
        }
        LevelDone(index, natts, rootLevel, root, levels, pages);
        levels := levels + [pages];
      }
      r := Ok;
    }
  }
}
