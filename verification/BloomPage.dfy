/**
  Pages of the bloom index: layout arithmetic, adding a tuple, and the in-place
  compaction of VACUUM.
 */
module BloomPage {
  import opened BloomSignature
  import opened Sequences

  const SIZE_OF_PAGE_HEADER: nat := 24
  const SIZE_OF_OPAQUE: nat := 8
  const BLOOMTUPLEHDRSZ: nat := 6

  /** A page size PostgreSQL can be configured with. */
  predicate LegalBlockSize(blcksz: nat) {
    1024 <= blcksz <= 32768
  }

  datatype Tuple = Tuple(heapPtr: nat, sign: seq<Word>)

  /** A data page: never initialized, or with its deleted flag and its tuples. */
  datatype Page = New | Used(deleted: bool, items: seq<Tuple>)

  function ItemsOf(p: Page): seq<Tuple> {
    if p.New? then [] else p.items
  }

  /** A page that may be handed out again. */
  predicate Reusable(p: Page) {
    p.New? || p.deleted
  }

  /** All tuples of an index. */
  function Stored(pages: seq<Page>): multiset<Tuple> {
    if pages == [] then multiset{}
    else Stored(pages[..|pages| - 1]) + multiset(ItemsOf(pages[|pages| - 1]))
  }

  /** Replacing a page replaces its tuples. */
  lemma {:induction false} StoredUpdate(pages: seq<Page>, b: nat, p: Page)
    requires b < |pages|
    ensures Stored(pages[b := p]) + multiset(ItemsOf(pages[b])) == Stored(pages) + multiset(ItemsOf(p))
    ensures multiset(ItemsOf(pages[b])) <= Stored(pages)
  {
    hide ItemsOf;
    var n, next := |pages| - 1, pages[b := p];
    var x, y, last := multiset(ItemsOf(pages[b])), multiset(ItemsOf(p)), multiset(ItemsOf(pages[n]));
    if b < n {
      StoredUpdate(pages[..n], b, p);
      assert next[..n] == pages[..n][b := p];
      assert Stored(next) + x == (Stored(next[..n]) + x) + last;
      assert Stored(pages) + y == (Stored(pages[..n]) + y) + last;
    } else {
      assert next[..n] == pages[..n];
    }
  }

  lemma StoredSnoc(pages: seq<Page>, p: Page)
    ensures Stored(pages + [p]) == Stored(pages) + multiset(ItemsOf(p))
  {
    assert (pages + [p])[..|pages|] == pages;
  }

  // ---------- Layout ----------

  function TupleSize(o: Options): nat {
    BLOOMTUPLEHDRSZ + 2 * o.bloomLength
  }

  /** BloomPageGetFreeSpace. */
  function FreeSpace(blcksz: nat, o: Options, maxoff: nat): int {
    blcksz - SIZE_OF_PAGE_HEADER - maxoff * TupleSize(o) - SIZE_OF_OPAQUE
  }

  /** Start of tuple number offset, counted from 1, within the page. */
  function TupleStart(o: Options, offset: nat): int {
    SIZE_OF_PAGE_HEADER + TupleSize(o) * (offset - 1)
  }

  function Capacity(blcksz: nat, o: Options): nat
    requires LegalBlockSize(blcksz)
  {
    QuotientBound(blcksz - SIZE_OF_PAGE_HEADER - SIZE_OF_OPAQUE, TupleSize(o), 0);
    (blcksz - SIZE_OF_PAGE_HEADER - SIZE_OF_OPAQUE) / TupleSize(o)
  }

  /** Number of block numbers the metapage holds (FreeBlockNumberArray). */
  function MetaBlockN(blcksz: nat): nat
    requires LegalBlockSize(blcksz)
  {
    (blcksz - SIZE_OF_PAGE_HEADER - SIZE_OF_OPAQUE - 144) / 8 * 8 / 4
  }

  /** The free space test is a count of tuples, and a tuple that fits ends before the special area. */
  lemma FitsIff(blcksz: nat, o: Options, maxoff: nat)
    requires LegalBlockSize(blcksz)
    ensures FreeSpace(blcksz, o, maxoff) >= TupleSize(o) <==> maxoff < Capacity(blcksz, o)
    ensures maxoff < Capacity(blcksz, o) ==>
              TupleStart(o, maxoff + 1) + TupleSize(o) <= blcksz - SIZE_OF_OPAQUE
  {
    var area, size := blcksz - 32, TupleSize(o);
    QuotientBound(area, size, maxoff + 1);
    assert (maxoff + 1) * size == maxoff * size + size;
  }

  lemma QuotientBound(a: nat, n: nat, k: nat)
    requires n > 0
    ensures k * n <= a <==> k <= a / n
  {
    var q := a / n;
    assert a == n * q + a % n;
    if k <= q {
      assert k * n <= q * n;
    } else {
      assert k * n >= (q + 1) * n;
    }
  }

  /** The error "could not add new bloom tuple to empty page" is unreachable. */
  lemma EmptyPageTakesTuple(blcksz: nat, o: Options)
    requires LegalBlockSize(blcksz) && Legal(o)
    ensures 1 <= Capacity(blcksz, o) <= 4092
    ensures 1 <= MetaBlockN(blcksz) <= 8148
  {
    QuotientBound(blcksz - 32, TupleSize(o), 1);
    QuotientBound(blcksz - 32, TupleSize(o), 4093);
  }

  // ---------- Operations on a page image ----------

  /** Start a fresh page when the old one may be reused. */
  function Prepared(p: Page): (r: Page)
    ensures r.Used?
  {
    if Reusable(p) then Used(false, []) else p
  }

  /** The page after a tuple was appended. */
  function Added(p: Page, t: Tuple): Page
    requires p.Used?
  {
    p.(items := p.items + [t])
  }

  function Alive(dead: set<nat>): Tuple -> bool {
    (t: Tuple) => t.heapPtr !in dead
  }

  /** A data page after blbulkdelete: survivors in order, marked deleted once emptied. */
  function Vacuumed(p: Page, dead: set<nat>): Page {
    if Reusable(p) then p
    else
      var kept := Filter(p.items, Alive(dead));
      if |kept| == |p.items| then p else Used(kept == [], kept)
  }

  /** A page in use keeps its survivors, and is flagged exactly if it had tuples and lost them all. */
  lemma VacuumedIs(p: Page, dead: set<nat>)
    requires !Reusable(p)
    ensures var v := Vacuumed(p, dead);
            && v.Used? && v.items == Filter(p.items, Alive(dead))
            && (v.deleted <==> p.items != [] && forall i | 0 <= i < |p.items| :: p.items[i].heapPtr in dead)
  {
    FilterLength(p.items, Alive(dead));
    if Filter(p.items, Alive(dead)) == [] {
      FilterEmpty(p.items, Alive(dead));
    }
    if forall i | 0 <= i < |p.items| :: p.items[i].heapPtr in dead {
      FilterNone(p.items, Alive(dead));
    }
  }

  /** A working copy of a page, as GenericXLogRegisterBuffer returns it. */
  class PageBuffer {
    const blcksz: nat
    const o: Options
    var isNew: bool
    var deleted: bool
    var maxoff: nat
    var pdLower: int
    const slots: array<Tuple>

    ghost predicate Valid()
      reads this
    {
      && LegalBlockSize(blcksz) && Legal(o)
      && slots.Length == Capacity(blcksz, o)
      && maxoff <= slots.Length
      && (!isNew ==> pdLower == TupleStart(o, maxoff + 1))
    }

    ghost function Image(): Page
      requires Valid()
      reads this, slots
    {
      if isNew then New else Used(deleted, slots[..maxoff])
    }

    /** Copy a page image into working memory. */
    constructor (blcksz: nat, o: Options, page: Page)
      requires LegalBlockSize(blcksz) && Legal(o)
      requires |ItemsOf(page)| <= Capacity(blcksz, o)
      ensures Valid() && fresh(slots) && Image() == page
      ensures this.blcksz == blcksz && this.o == o
    {
      var items := ItemsOf(page);
      var n := |items|;
      this.blcksz, this.o := blcksz, o;
      isNew := page.New?;
      deleted := page.Used? && page.deleted;
      maxoff := n;
      pdLower := TupleStart(o, n + 1);
      slots := new Tuple[Capacity(blcksz, o)](i => if 0 <= i < n then items[i] else Tuple(0, []));
      new;
      assert slots[..n] == items;
    }

    /** The page image GenericXLogFinish writes back. */
    method Written() returns (page: Page)
      requires Valid()
      ensures page == Image()
    {
      page := if isNew then New else Used(deleted, slots[..maxoff]);
    }

    /** BloomInitPage(page, 0). */
    method Init()
      requires Valid()
      modifies this
      ensures Valid() && Image() == Used(false, [])
    {
      isNew, deleted, maxoff := false, false, 0;
      pdLower := SIZE_OF_PAGE_HEADER;
    }

    /** BloomPageAddItem. */
    method AddItem(t: Tuple) returns (ok: bool)
      requires Valid() && !isNew
      modifies this, slots
      ensures Valid()
      ensures ok <==> |old(Image()).items| < Capacity(blcksz, o)
      ensures Image() == if ok then Added(old(Image()), t) else old(Image())
    {
      FitsIff(blcksz, o, maxoff);
      if FreeSpace(blcksz, o, maxoff) < TupleSize(o) {
        return false;
      }
      slots[maxoff] := t;
      maxoff := maxoff + 1;
      pdLower := TupleStart(o, maxoff + 1);
      assert pdLower <= blcksz - SIZE_OF_OPAQUE;
      return true;
    }

    /**
      The tuple loop of blbulkdelete and the flag and pd_lower updates after it.  Here itup
      and itupPtr are slot numbers.
     */
    method Compact(dead: set<nat>) returns (removed: nat)
      requires Valid() && !isNew && !deleted
      modifies this, slots
      ensures Valid() && !isNew
      ensures Image() == Vacuumed(old(Image()), dead)
      ensures removed == |old(Image()).items| - maxoff
    {
      ghost var was := slots[..maxoff];
      var itup, itupPtr, itupEnd := 0, 0, maxoff;
      while itup < itupEnd
        invariant itupPtr <= itup <= itupEnd == |was| <= slots.Length
        invariant !isNew && !deleted && pdLower == old(pdLower)
        invariant maxoff == itupEnd - (itup - itupPtr)
        invariant slots[..itupPtr] == Filter(was[..itup], Alive(dead))
        invariant forall k | itup <= k < itupEnd :: slots[k] == was[k]
      {
        hide Filter;
        ghost var t := slots[itup];
        FilterSnoc(was, itup, Alive(dead));
        if slots[itup].heapPtr in dead {
          maxoff := maxoff - 1;
        } else {
          if itupPtr != itup {
            slots[itupPtr] := slots[itup];
          }
          assert slots[..itupPtr + 1] == slots[..itupPtr] + [t];
          itupPtr := itupPtr + 1;
        }
        itup := itup + 1;
      }
      assert was[..itup] == was;
      FilterLength(was, Alive(dead));
      removed := itupEnd - itupPtr;
      if itupPtr != itup {
        if maxoff == 0 {
          deleted := true;
        }
        pdLower := TupleStart(o, itupPtr + 1);
      }
    }
  }
}
