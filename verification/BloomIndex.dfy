/**
  The bloom index as a whole, used by one backend at a time: build, insert, bulk delete
  and scan, against the multiset of stored tuples and the rows they stand for.
 */
module BloomIndex {
  import opened Optional
  import opened BloomSignature
  import opened BloomPage
  import opened Sequences

  /** A heap row with its indexed columns, and a scan key column = argument. */
  datatype Row<+D> = Row(tid: nat, values: seq<Option<D>>)

  datatype ScanKey<+D> = ScanKey(attno: nat, arg: Option<D>)

  // ---------- Signatures of rows and of scans ----------

  /** The bits of the first n columns of a row; nulls contribute none. */
  function RowBits<D>(o: Options, hash: (nat, D) -> uint32, values: seq<Option<D>>, n: nat): set<int>
    requires Legal(o) && n <= |values| <= |o.bitSize|
  {
    if n == 0 then {}
    else RowBits(o, hash, values, n - 1)
         + if values[n - 1].None? then {} else ValueBits(o, n - 1, hash(n - 1, values[n - 1].value))
  }

  predicate DrawableRow<D>(hash: (nat, D) -> uint32, values: seq<Option<D>>)
    requires |values| <= 32
  {
    forall i | 0 <= i < |values| && values[i].Some? :: Drawable(i, hash(i, values[i].value))
  }

  /** The scan key is not null and its hash does not leave the generator stuck. */
  predicate DrawableKey<D>(hash: (nat, D) -> uint32, k: ScanKey<D>) {
    k.attno < 32 && k.arg.Some? && Drawable(k.attno, hash(k.attno, k.arg.value))
  }

  function ScanBits<D>(o: Options, hash: (nat, D) -> uint32, keys: seq<ScanKey<D>>): set<int>
    requires Legal(o) && forall i | 0 <= i < |keys| :: keys[i].attno < |o.bitSize| && keys[i].arg.Some?
  {
    if keys == [] then {}
    else
      var n := |keys| - 1;
      ScanBits(o, hash, keys[..n]) + ValueBits(o, keys[n].attno, hash(keys[n].attno, keys[n].arg.value))
  }

  /** The row has, in every key's column, a value that hashes like the key's argument. */
  predicate Matches<D>(hash: (nat, D) -> uint32, values: seq<Option<D>>, keys: seq<ScanKey<D>>) {
    forall i | 0 <= i < |keys| ::
      && keys[i].arg.Some? && keys[i].attno < |values| && values[keys[i].attno].Some?
      && hash(keys[i].attno, values[keys[i].attno].value) == hash(keys[i].attno, keys[i].arg.value)
  }

  /** The bits of a row are those of its values, each signed for its column. */
  lemma {:induction false} RowBitsAre<D>(o: Options, hash: (nat, D) -> uint32, values: seq<Option<D>>, n: nat, p: int)
    requires Legal(o) && n <= |values| <= |o.bitSize|
    ensures p in RowBits(o, hash, values, n)
       <==> exists i | 0 <= i < n :: values[i].Some? && p in ValueBits(o, i, hash(i, values[i].value))
  {
    hide ValueBits;
    if n > 0 {
      RowBitsAre(o, hash, values, n - 1, p);
    }
  }

  lemma {:induction false} ScanBitsAre<D>(o: Options, hash: (nat, D) -> uint32, keys: seq<ScanKey<D>>, p: int)
    requires Legal(o) && forall i | 0 <= i < |keys| :: keys[i].attno < |o.bitSize| && keys[i].arg.Some?
    ensures p in ScanBits(o, hash, keys)
       <==> exists i | 0 <= i < |keys| ::
              p in ValueBits(o, keys[i].attno, hash(keys[i].attno, keys[i].arg.value))
  {
    hide ValueBits;
    if keys != [] {
      ScanBitsAre(o, hash, keys[..|keys| - 1], p);
    }
  }

  lemma {:induction false} ColumnInRow<D>(o: Options, hash: (nat, D) -> uint32, values: seq<Option<D>>, n: nat, i: nat)
    requires Legal(o) && i < n <= |values| <= |o.bitSize| && values[i].Some?
    ensures ValueBits(o, i, hash(i, values[i].value)) <= RowBits(o, hash, values, n)
  {
    hide ValueBits;
    if i < n - 1 {
      ColumnInRow(o, hash, values, n - 1, i);
    }
  }

  /** The signature of a matching row covers the signature of the scan. */
  lemma {:induction false} MatchIsCovered<D>(o: Options, hash: (nat, D) -> uint32, values: seq<Option<D>>,
      keys: seq<ScanKey<D>>)
    requires Legal(o) && |values| <= |o.bitSize| && Matches(hash, values, keys)
    ensures ScanBits(o, hash, keys) <= RowBits(o, hash, values, |values|)
  {
    if keys != [] {
      var n := |keys| - 1;
      MatchIsCovered(o, hash, values, keys[..n]);
      ColumnInRow(o, hash, values, |values|, keys[n].attno);
    }
  }

  /** A stored tuple with the signature of a row. */
  predicate StandsFor<D>(o: Options, hash: (nat, D) -> uint32, t: Tuple, r: Row<D>) {
    && Legal(o) && |r.values| <= |o.bitSize|
    && t.heapPtr == r.tid
    && BitsOf(t.sign) == RowBits(o, hash, r.values, |r.values|)
  }

  lemma NoBits(sign: seq<Word>)
    requires forall i | 0 <= i < |sign| :: sign[i] == {}
    ensures BitsOf(sign) == {}
  {
  }

  /** BloomFormTuple. */
  method FormTuple<D>(g: Generator, o: Options, hash: (nat, D) -> uint32, r: Row<D>) returns (t: Tuple)
    requires Legal(o) && |r.values| <= |o.bitSize|
    modifies g
    ensures t.heapPtr == r.tid && |t.sign| == o.bloomLength
    ensures DrawableRow(hash, r.values) ==> StandsFor(o, hash, t, r)
  {
    hide BitsOf, ValueBits, Drawable;
    var sign := new Word[o.bloomLength](_ => {});
    NoBits(sign[..]);
    for i := 0 to |r.values|
      invariant DrawableRow(hash, r.values) ==> BitsOf(sign[..]) == RowBits(o, hash, r.values, i)
    {
      if r.values[i].Some? {
        SignValue(g, o, sign, i, hash(i, r.values[i].value));
      }
    }
    t := Tuple(r.tid, sign[..]);
  }

  // ---------- The index ----------

  predicate PageFits(cap: nat, len: nat, p: Page) {
    p.Used? ==>
      && |p.items| <= cap && (p.deleted ==> p.items == [])
      && forall i | 0 <= i < |p.items| :: |p.items[i].sign| == len
  }

  /** Block 0 is the metapage; it never holds tuples. */
  predicate PagesFit(cap: nat, len: nat, pages: seq<Page>) {
    |pages| >= 1 && pages[0].New? && forall b | 0 <= b < |pages| :: PageFits(cap, len, pages[b])
  }

  predicate Blocks(bs: seq<nat>, npages: nat) {
    forall i | 0 <= i < |bs| :: 1 <= bs[i] < npages
  }

  lemma PageReplaced(cap: nat, len: nat, pages: seq<Page>, b: nat, p: Page)
    requires PagesFit(cap, len, pages) && 1 <= b < |pages| && PageFits(cap, len, p)
    ensures PagesFit(cap, len, pages[b := p])
  {
  }

  /** A tuple added to a page is added to the index, also when the page is recycled for it. */
  lemma TupleStored(cap: nat, len: nat, pages: seq<Page>, b: nat, t: Tuple)
    requires PagesFit(cap, len, pages) && 1 <= b < |pages| && |t.sign| == len
    requires |Prepared(pages[b]).items| < cap
    ensures var next := pages[b := Added(Prepared(pages[b]), t)];
            PagesFit(cap, len, next) && Stored(next) == Stored(pages) + multiset{t}
  {
    hide Stored, PagesFit;
    PageIn(cap, len, pages, b);
    var p := Added(Prepared(pages[b]), t);
    AddedItems(cap, len, pages[b], t);
    StoredUpdate(pages, b, p);
    BagMoves(Stored(pages[b := p]), Stored(pages), multiset(ItemsOf(pages[b])), multiset{t});
    PageReplaced(cap, len, pages, b, p);
  }

  lemma ReusableEmpty(cap: nat, len: nat, pages: seq<Page>, b: nat)
    requires PagesFit(cap, len, pages) && b < |pages| && Reusable(pages[b])
    ensures ItemsOf(pages[b]) == []
  {
    PageIn(cap, len, pages, b);
  }

  lemma PageAppended(cap: nat, len: nat, pages: seq<Page>)
    requires PagesFit(cap, len, pages)
    ensures PagesFit(cap, len, pages + [New]) && Stored(pages + [New]) == Stored(pages) && |pages| >= 1
  {
    hide Stored;
    StoredSnoc(pages, New);
    assert multiset(ItemsOf(New)) == multiset{};
  }

  lemma FirstIsMeta(cap: nat, len: nat, pages: seq<Page>)
    requires PagesFit(cap, len, pages)
    ensures |pages| >= 1 && pages[0].New?
  {
  }

  lemma PageIn(cap: nat, len: nat, pages: seq<Page>, b: nat)
    requires PagesFit(cap, len, pages) && b < |pages|
    ensures PageFits(cap, len, pages[b])
  {
  }

  lemma AddedItems(cap: nat, len: nat, page: Page, t: Tuple)
    requires PageFits(cap, len, page) && |t.sign| == len && |Prepared(page).items| < cap
    ensures var p := Added(Prepared(page), t);
            PageFits(cap, len, p) && multiset(ItemsOf(p)) == multiset(ItemsOf(page)) + multiset{t}
  {
  }

  lemma BagMoves(a: multiset<Tuple>, b: multiset<Tuple>, x: multiset<Tuple>, y: multiset<Tuple>)
    requires a + x == b + (x + y)
    ensures a == b + y
  {
    assert a == a + x - x && b + y == b + (x + y) - x;
  }

  /** Block b is a free page that was recorded, or a new one at the end if no recorded page is free. */
  predicate IsFresh(before: seq<Page>, fsm: set<nat>, after: seq<Page>, b: nat)
    requires forall f | f in fsm :: f < |before|
  {
    || (after == before && b in fsm && Reusable(before[b]))
    || (after == before + [New] && b == |before| && forall f | f in fsm :: !Reusable(before[f]))
  }

  predicate TakesMore(cap: nat, pages: seq<Page>, b: nat) {
    b < |pages| && |Prepared(pages[b]).items| < cap
  }

  /** The first listed page from position from on that takes a tuple is list[i]. */
  predicate FirstTaking(cap: nat, pages: seq<Page>, list: seq<nat>, from: nat, to: nat, i: nat) {
    from <= i < to <= |list| && TakesMore(cap, pages, list[i]) && NoneTakes(cap, pages, list, from, i)
  }

  predicate NoneTakes(cap: nat, pages: seq<Page>, list: seq<nat>, from: nat, to: nat) {
    forall j | from <= j < to && j < |list| :: !TakesMore(cap, pages, list[j])
  }

  /** Copy a page, start it afresh if it may be reused, and add t if there is room. */
  method AddToPage(blcksz: nat, o: Options, page: Page, t: Tuple) returns (ok: bool, r: Page)
    requires LegalBlockSize(blcksz) && Legal(o) && |ItemsOf(page)| <= Capacity(blcksz, o)
    ensures ok <==> |Prepared(page).items| < Capacity(blcksz, o)
    ensures ok ==> r == Added(Prepared(page), t)
  {
    hide Capacity;
    var buf := new PageBuffer(blcksz, o, page);
    if buf.isNew || buf.deleted {
      buf.Init();
    }
    ok := buf.AddItem(t);
    r := buf.Written();
  }

  lemma Taking(cap: nat, pages: seq<Page>, b: nat)
    requires b < |pages|
    ensures TakesMore(cap, pages, b) <==> |Prepared(pages[b]).items| < cap
  {
  }

  /** Exactly the tuples with dead heap pointers are gone. */
  ghost predicate Survivors(after: multiset<Tuple>, before: multiset<Tuple>, dead: set<nat>) {
    forall t :: after[t] == if t.heapPtr in dead then 0 else before[t]
  }

  lemma NoSurvivors(dead: set<nat>)
    ensures Survivors(multiset{}, multiset{}, dead)
  {
  }

  lemma SurvivorsAdd(
    a: multiset<Tuple>, b: multiset<Tuple>, x: multiset<Tuple>, y: multiset<Tuple>, dead: set<nat>)
    requires Survivors(a, b, dead) && Survivors(x, y, dead)
    ensures Survivors(a + x, b + y, dead)
  {
  }

  lemma {:induction false} StoredVacuumed(cap: nat, len: nat, pages: seq<Page>, next: seq<Page>, dead: set<nat>)
    requires |next| == |pages|
    requires forall b | 0 <= b < |pages| :: PageFits(cap, len, pages[b]) && next[b] == Vacuumed(pages[b], dead)
    ensures Survivors(Stored(next), Stored(pages), dead)
  {
    hide Vacuumed, PageFits, Survivors;
    if pages == [] {
      NoSurvivors(dead);
    } else {
      var n := |pages| - 1;
      StoredVacuumed(cap, len, pages[..n], next[..n], dead);
      PageSurvivors(cap, len, pages[n], dead);
      SurvivorsAdd(Stored(next[..n]), Stored(pages[..n]),
                   multiset(ItemsOf(next[n])), multiset(ItemsOf(pages[n])), dead);
    }
  }

  lemma PageSurvivors(cap: nat, len: nat, p: Page, dead: set<nat>)
    requires PageFits(cap, len, p)
    ensures Survivors(multiset(ItemsOf(Vacuumed(p, dead))), multiset(ItemsOf(p)), dead)
    ensures PageFits(cap, len, Vacuumed(p, dead))
  {
    var items := ItemsOf(p);
    FilterLength(items, Alive(dead));
    FilterSatisfies(items, Alive(dead));
    forall t: Tuple
      ensures multiset(Filter(items, Alive(dead)))[t] == if t.heapPtr in dead then 0 else multiset(items)[t]
    {
      FilterCount(items, Alive(dead), t);
    }
  }

  lemma ReusableStays(p: Page, dead: set<nat>)
    requires Reusable(p)
    ensures Vacuumed(p, dead) == p
  {
  }

  lemma PageShrinks(pages: seq<Page>, b: nat, p: Page)
    requires b < |pages|
    ensures |Stored(pages[b := p])| + |ItemsOf(pages[b])| == |Stored(pages)| + |ItemsOf(p)|
  {
    StoredUpdate(pages, b, p);
    var x, y := multiset(ItemsOf(pages[b])), multiset(ItemsOf(p));
    assert |Stored(pages[b := p]) + x| == |Stored(pages) + y|;
    assert |x| == |ItemsOf(pages[b])| && |y| == |ItemsOf(p)|;
  }

  /** A page with tuples and room for one more. */
  predicate HasRoom(cap: nat, p: Page) {
    0 < |ItemsOf(p)| < cap
  }

  /** The blocks before n with room, in order. */
  function Roomy(cap: nat, pages: seq<Page>, n: nat): seq<nat>
    requires n <= |pages|
  {
    if n <= 1 then [] else Roomy(cap, pages, n - 1) + if HasRoom(cap, pages[n - 1]) then [n - 1] else []
  }

  function FirstOf(list: seq<nat>, n: nat): seq<nat> {
    if |list| <= n then list else list[..n]
  }

  /** The blocks listed are those with room. */
  lemma {:induction false} RoomyIs(cap: nat, pages: seq<Page>, n: nat, b: nat)
    requires n <= |pages|
    ensures b in Roomy(cap, pages, n) <==> 1 <= b < n && HasRoom(cap, pages[b])
  {
    hide HasRoom;
    if n > 1 {
      RoomyIs(cap, pages, n - 1, b);
    }
  }

  lemma {:induction false} RoomyAscends(cap: nat, pages: seq<Page>, n: nat, i: nat, j: nat)
    requires n <= |pages| && i < j < |Roomy(cap, pages, n)|
    ensures Roomy(cap, pages, n)[i] < Roomy(cap, pages, n)[j]
  {
    hide HasRoom;
    var before := Roomy(cap, pages, n - 1);
    if j < |before| {
      RoomyAscends(cap, pages, n - 1, i, j);
    } else {
      RoomyIs(cap, pages, n - 1, before[i]);
      assert before[i] in before;
    }
  }

  lemma NoneRoomy(cap: nat, pages: seq<Page>, n: nat)
    requires |pages| >= 1
    ensures FirstOf(Roomy(cap, pages, 1), n) == []
  {
  }

  lemma {:induction false} RoomySame(cap: nat, a: seq<Page>, b: seq<Page>, n: nat)
    requires n <= |a| && n <= |b| && forall i | 0 <= i < n :: a[i] == b[i]
    ensures Roomy(cap, a, n) == Roomy(cap, b, n)
  {
    hide HasRoom;
    if n > 1 {
      RoomySame(cap, a, b, n - 1);
    }
  }

  /** One more page, which may have changed, is listed if it has room and the list too. */
  lemma RoomyNext(cap: nat, before: seq<Page>, after: seq<Page>, b: nat, n: nat)
    requires 1 <= b < |before| == |after| && forall i | 0 <= i < b :: before[i] == after[i]
    ensures var list := FirstOf(Roomy(cap, before, b), n);
            FirstOf(Roomy(cap, after, b + 1), n) == if HasRoom(cap, after[b]) && |list| < n then list + [b] else list
  {
    hide HasRoom;
    RoomySame(cap, before, after, b);
  }

  lemma ReusableHasNone(cap: nat, len: nat, pages: seq<Page>, b: nat)
    requires PagesFit(cap, len, pages) && b < |pages| && Reusable(pages[b])
    ensures !HasRoom(cap, pages[b])
  {
    ReusableEmpty(cap, len, pages, b);
  }

  function ReusableUpTo(pages: seq<Page>, n: nat): set<nat>
    requires n <= |pages|
  {
    set b | 1 <= b < n && Reusable(pages[b])
  }

  lemma NoneReusable(pages: seq<Page>)
    requires |pages| >= 1
    ensures ReusableUpTo(pages, 1) == {}
  {
  }

  lemma ReusableNext(pages: seq<Page>, n: nat)
    requires 1 <= n < |pages|
    ensures var r := ReusableUpTo(pages, n);
            ReusableUpTo(pages, n + 1) == (if Reusable(pages[n]) then r + {n} else r) && n !in r
  {
  }

  /** Filling an empty page adds its tuples. */
  lemma EmptyFilled(pages: seq<Page>, b: nat, p: Page)
    requires b < |pages| && ItemsOf(pages[b]) == []
    ensures Stored(pages[b := p]) == Stored(pages) + multiset(ItemsOf(p))
  {
    hide Stored;
    StoredUpdate(pages, b, p);
    assert multiset(ItemsOf(pages[b])) == multiset{};
  }

  lemma StoredNothing()
    ensures Stored([]) == multiset{}
  {
  }

  lemma StoredPrefix(pages: seq<Page>, n: nat)
    requires 1 <= n <= |pages|
    ensures |Stored(pages[..n])| == |Stored(pages[..n - 1])| + |ItemsOf(pages[n - 1])|
  {
    assert pages[..n][..n - 1] == pages[..n - 1];
    assert |multiset(ItemsOf(pages[n - 1]))| == |ItemsOf(pages[n - 1])|;
  }

  /** Copy a page, remove its dead tuples in place, and read the result back. */
  method VacuumPage(blcksz: nat, o: Options, page: Page, dead: set<nat>) returns (r: Page, removed: nat)
    requires LegalBlockSize(blcksz) && Legal(o) && |ItemsOf(page)| <= Capacity(blcksz, o)
    requires !Reusable(page)
    ensures r == Vacuumed(page, dead) && removed == |page.items| - |ItemsOf(r)|
  {
    hide Capacity, Vacuumed;
    var buf := new PageBuffer(blcksz, o, page);
    removed := buf.Compact(dead);
    r := buf.Written();
  }

  // ---------- Scanning ----------

  /** Heap pointers of the tuples whose signature covers the given bits. */
  function Hits(bag: multiset<Tuple>, bits: set<int>): set<nat> {
    set t | t in bag && bits <= BitsOf(t.sign) :: t.heapPtr
  }

  lemma HitsOfSum(a: multiset<Tuple>, b: multiset<Tuple>, bits: set<int>)
    ensures Hits(a + b, bits) == Hits(a, bits) + Hits(b, bits)
  {
  }

  lemma HitsOfTuple(items: seq<Tuple>, n: nat, bits: set<int>)
    requires n < |items|
    ensures Hits(multiset(items[..n + 1]), bits)
         == Hits(multiset(items[..n]), bits) + if bits <= BitsOf(items[n].sign) then {items[n].heapPtr} else {}
  {
    hide BitsOf;
    assert items[..n + 1] == items[..n] + [items[n]];
    HitsOfSum(multiset(items[..n]), multiset{items[n]}, bits);
  }

  lemma HitsOfPage(pages: seq<Page>, b: nat, bits: set<int>)
    requires b < |pages|
    ensures Hits(Stored(pages[..b + 1]), bits)
         == Hits(Stored(pages[..b]), bits) + Hits(multiset(ItemsOf(pages[b])), bits)
  {
    hide Hits;
    assert pages[..b + 1] == pages[..b] + [pages[b]];
    StoredSnoc(pages[..b], pages[b]);
    HitsOfSum(Stored(pages[..b]), multiset(ItemsOf(pages[b])), bits);
  }

  function Covering(bits: set<int>): Tuple -> bool {
    (t: Tuple) => bits <= BitsOf(t.sign)
  }

  /** Number of covering tuples on the first n pages. */
  function CountHits(pages: seq<Page>, n: nat, bits: set<int>): nat
    requires n <= |pages|
  {
    if n == 0 then 0
    else CountHits(pages, n - 1, bits) + |Filter(ItemsOf(pages[n - 1]), Covering(bits))|
  }

  /** The word loop of blgetbitmap. */
  method SignCovers(sign: seq<Word>, query: seq<Word>) returns (res: bool)
    requires |sign| == |query|
    ensures res <==> BitsOf(query) <= BitsOf(sign)
  {
    WordsCover(sign, query);
    hide BitsOf;
    res := true;
    var i := 0;
    while i < |query|
      invariant 0 <= i <= |query| && res
      invariant forall j | 0 <= j < i :: sign[j] * query[j] == query[j]
    {
      if sign[i] * query[i] != query[i] {
        res := false;
        break;
      }
      i := i + 1;
    }
  }

  /** The tuple loop of blgetbitmap. */
  method ScanPage(items: seq<Tuple>, query: seq<Word>) returns (tids: set<nat>, ntids: nat)
    requires forall i | 0 <= i < |items| :: |items[i].sign| == |query|
    ensures tids == Hits(multiset(items), BitsOf(query))
    ensures ntids == |Filter(items, Covering(BitsOf(query)))|
  {
    hide BitsOf, Hits;
    tids, ntids := {}, 0;
    NoHits(BitsOf(query));
    for offset := 0 to |items|
      invariant tids == Hits(multiset(items[..offset]), BitsOf(query))
      invariant ntids == |Filter(items[..offset], Covering(BitsOf(query)))|
    {
      hide Filter;
      HitsOfTuple(items, offset, BitsOf(query));
      FilterSnoc(items, offset, Covering(BitsOf(query)));
      var res := SignCovers(items[offset].sign, query);
      if res {
        tids := tids + {items[offset].heapPtr};
        ntids := ntids + 1;
      }
    }
    assert items[..|items|] == items;
  }

  /** The first n rows, as a set. */
  ghost function Members<T>(s: seq<T>, n: nat): set<T>
    requires n <= |s|
  {
    if n == 0 then {} else Members(s, n - 1) + {s[n - 1]}
  }

  lemma MembersNext<T>(s: seq<T>, n: nat)
    requires n < |s|
    ensures Members(s, n + 1) == Members(s, n) + {s[n]}
  {
  }

  lemma MembersAll<T>(s: seq<T>)
    ensures Members(s, |s|) == (set x | x in s)
  {
    MembersUpTo(s, |s|);
    assert s[..|s|] == s;
  }

  lemma {:induction false} MembersUpTo<T>(s: seq<T>, n: nat)
    requires n <= |s|
    ensures Members(s, n) == (set x | x in s[..n])
  {
    if n > 0 {
      MembersUpTo(s, n - 1);
      assert s[..n] == s[..n - 1] + [s[n - 1]];
    }
  }

  class Index<D(!new)> {
    const blcksz: nat
    const o: Options
    const hash: (nat, D) -> uint32
    const g: Generator
    var pages: seq<Page>
    var nStart: nat
    var nEnd: nat
    var notFull: seq<nat>
    var fsm: set<nat>
    ghost var live: map<Row<D>, Tuple>

    predicate Legally() {
      LegalBlockSize(blcksz) && Legal(o)
    }

    ghost predicate PagesValid()
      reads this
    {
      Legally() && PagesFit(Capacity(blcksz, o), o.bloomLength, pages)
    }

    ghost predicate MetaValid()
      reads this
    {
      && Legally() && |notFull| == MetaBlockN(blcksz)
      && nStart <= nEnd <= |notFull| && Blocks(notFull[..nEnd], |pages|)
      && forall b | b in fsm :: 1 <= b < |pages|
    }

    /** Each live row has its tuple in the bag. */
    ghost predicate LiveIn(bag: multiset<Tuple>)
      reads this
    {
      forall r | r in live ::
        && live[r] in bag && live[r].heapPtr == r.tid
        && |r.values| <= |o.bitSize| <= 32
        && (DrawableRow(hash, r.values) ==> StandsFor(o, hash, live[r], r))
    }

    ghost predicate Valid()
      reads this
    {
      PagesValid() && MetaValid() && LiveIn(Stored(pages))
    }

    /** blbuild over an empty relation. */
    constructor (blcksz: nat, o: Options, hash: (nat, D) -> uint32, heap: seq<Row<D>>)
      requires LegalBlockSize(blcksz) && Legal(o)
      requires forall i | 0 <= i < |heap| :: |heap[i].values| <= |o.bitSize|
      ensures Valid() && fresh(g)
      ensures this.blcksz == blcksz && this.o == o && this.hash == hash
      ensures live.Keys == (set r | r in heap) && |Stored(pages)| == |heap|
    {
      this.blcksz, this.o, this.hash := blcksz, o, hash;
      g := new Generator();
      pages, fsm, live := [New], {}, map[];
      nStart, nEnd, notFull := 0, 0, seq(MetaBlockN(blcksz), _ => 0);
      new;
      assert Stored(pages) == multiset{} by { StoredSnoc([], New); assert pages == [] + [New]; }
      Load(heap);
    }

    /** The heap scan of blbuild, and the flush of the last page. */
    method Load(heap: seq<Row<D>>)
      requires Valid() && fsm == {} && live == map[] && Stored(pages) == multiset{}
      requires forall i | 0 <= i < |heap| :: |heap[i].values| <= |o.bitSize|
      modifies this, g
      ensures Valid() && live.Keys == (set r | r in heap) && |Stored(pages)| == |heap|
    {
      hide Stored, DrawableRow, StandsFor, Capacity, PagesFit, MetaBlockN, Blocks, Members;
      var cached := Used(false, []);
      assert Stored(pages) + multiset(cached.items) == Stored(pages);
      MembersUpTo(heap, 0);
      for i := 0 to |heap|
        invariant PagesValid() && MetaValid() && fsm == {}
        invariant Cached(cached)
        invariant LiveIn(Stored(pages) + multiset(cached.items))
        invariant live.Keys == Members(heap, i)
        invariant |Stored(pages)| + |cached.items| == i
      {
        MembersNext(heap, i);
        cached := AddRow(cached, heap[i]);
      }
      MembersAll(heap);
      if |cached.items| > 0 {
        FlushCachedPage(cached);
      }
    }

    ghost predicate Cached(cached: Page)
      requires Legally()
    {
      cached.Used? && !cached.deleted && PageFits(Capacity(blcksz, o), o.bloomLength, cached)
    }

    /** One row of the heap scan. */
    method AddRow(cached: Page, r: Row<D>) returns (next: Page)
      requires PagesValid() && MetaValid() && fsm == {} && Cached(cached)
      requires LiveIn(Stored(pages) + multiset(cached.items)) && |r.values| <= |o.bitSize|
      modifies this, g
      ensures PagesValid() && MetaValid() && fsm == {} && Cached(next)
      ensures LiveIn(Stored(pages) + multiset(next.items)) && live.Keys == old(live).Keys + {r}
      ensures |Stored(pages)| + |next.items| == |old(Stored(pages))| + |cached.items| + 1
    {
      hide Stored, DrawableRow, StandsFor, Capacity, PagesFit;
      var t := FormTuple(g, o, hash, r);
      next := BuildCallback(cached, t);
      live := live[r := t];
    }

    /** flushCachedPage: the cached page goes to a new block. */
    method FlushCachedPage(cached: Page)
      requires PagesValid() && MetaValid() && fsm == {}
      requires cached.Used? && PageFits(Capacity(blcksz, o), o.bloomLength, cached)
      modifies this`pages, this`fsm
      ensures PagesValid() && MetaValid() && fsm == {}
      ensures pages == old(pages) + [cached] && Stored(pages) == old(Stored(pages)) + multiset(cached.items)
    {
      hide Stored, Capacity, MetaBlockN, PageFits;
      var b := NewBuffer();
      EmptyFilled(pages, b, cached);
      PageReplaced(Capacity(blcksz, o), o.bloomLength, pages, b, cached);
      pages := pages[b := cached];
    }

    /** bloomBuildCallback: add to the cached page, or flush it and start another. */
    method BuildCallback(cached: Page, t: Tuple) returns (r: Page)
      requires PagesValid() && MetaValid() && fsm == {} && |t.sign| == o.bloomLength
      requires cached.Used? && !cached.deleted && PageFits(Capacity(blcksz, o), o.bloomLength, cached)
      modifies this`pages, this`fsm
      ensures PagesValid() && MetaValid() && fsm == {}
      ensures r.Used? && !r.deleted && PageFits(Capacity(blcksz, o), o.bloomLength, r)
      ensures Stored(pages) + multiset(r.items) == old(Stored(pages)) + multiset(cached.items) + multiset{t}
      ensures |Stored(pages)| + |r.items| == |old(Stored(pages))| + |cached.items| + 1
      ensures if |cached.items| < Capacity(blcksz, o) then pages == old(pages) && r == Added(cached, t)
              else pages == old(pages) + [cached] && r == Used(false, [t])
    {
      hide Stored, Capacity, MetaBlockN, PagesFit, Blocks;
      var buf := new PageBuffer(blcksz, o, cached);
      var ok := buf.AddItem(t);
      if !ok {
        FlushCachedPage(cached);
        buf.Init();
        EmptyPageTakesTuple(blcksz, o);
        ok := buf.AddItem(t);
        assert ok;
      }
      r := buf.Written();
      assert |multiset(r.items)| == |r.items| && |multiset(cached.items)| == |cached.items|;
    }

    /** BloomNewBuffer: recycle a page from the free space map or extend the file. */
    method NewBuffer() returns (b: nat)
      requires PagesValid() && MetaValid()
      modifies this`pages, this`fsm
      ensures PagesValid() && MetaValid() && fsm <= old(fsm)
      ensures 1 <= b < |pages| && ItemsOf(pages[b]) == [] && Stored(pages) == old(Stored(pages))
      ensures IsFresh(old(pages), old(fsm), pages, b)
    {
      hide Stored, Capacity, PagesFit, MetaBlockN;
      while fsm != {}
        invariant MetaValid() && pages == old(pages) && fsm <= old(fsm)
        invariant forall f | f in old(fsm) && f !in fsm :: !Reusable(pages[f])
        decreases |fsm|
      {
        b :| b in fsm;
        fsm := fsm - {b};
        if Reusable(pages[b]) {
          ReusableEmpty(Capacity(blcksz, o), o.bloomLength, pages, b);
          return;
        }
      }
      PageAppended(Capacity(blcksz, o), o.bloomLength, pages);
      b := |pages|;
      pages := pages + [New];
      assert notFull[..nEnd] == old(notFull)[..nEnd];
    }

    /** Copy page b, prepare it if it may be reused, add t, write it back if that worked. */
    method TryPage(b: nat, t: Tuple) returns (ok: bool)
      requires PagesValid() && 1 <= b < |pages| && |t.sign| == o.bloomLength
      modifies this`pages
      ensures PagesValid() && |pages| == |old(pages)|
      ensures ok <==> |Prepared(old(pages[b])).items| < Capacity(blcksz, o)
      ensures pages == if ok then old(pages)[b := Added(Prepared(old(pages[b])), t)] else old(pages)
      ensures ok ==> Stored(pages) == old(Stored(pages)) + multiset{t}
    {
      hide Stored, Capacity;
      assert PageFits(Capacity(blcksz, o), o.bloomLength, pages[b]);
      var page;
      ok, page := AddToPage(blcksz, o, pages[b], t);
      if ok {
        TupleStored(Capacity(blcksz, o), o.bloomLength, pages, b, t);
        pages := pages[b := page];
      }
    }

    /** blinsert. */
    method Insert(r: Row<D>)
      requires Valid() && |r.values| <= |o.bitSize|
      modifies this, g
      ensures Valid() && r in live && live == old(live)[r := live[r]]
      ensures Stored(pages) == old(Stored(pages)) + multiset{live[r]}
    {
      hide Stored, DrawableRow, StandsFor, Capacity, PagesFit;
      var t := FormTuple(g, o, hash, r);
      Place(t);
      live := live[r := t];
    }

    /** The page search of blinsert. */
    method Place(t: Tuple)
      requires PagesValid() && MetaValid() && |t.sign| == o.bloomLength
      modifies this`pages, this`fsm, this`nStart, this`nEnd, this`notFull
      ensures PagesValid() && MetaValid()
      ensures Stored(pages) == old(Stored(pages)) + multiset{t}
      ensures forall i: nat | FirstTaking(Capacity(blcksz, o), old(pages), old(notFull), old(nStart), old(nEnd), i) ::
                IsPlaced(old(pages), old(notFull), i, t) && nEnd == old(nEnd) && fsm == old(fsm)
      ensures NoneTakes(Capacity(blcksz, o), old(pages), old(notFull), old(nStart), old(nEnd)) ==>
                IsNewPage(old(pages), old(fsm), old(notFull), t)
    {
      hide Stored, Capacity, PagesFit, TakesMore;
      var blkno := 0;
      if nEnd > nStart {
        blkno := notFull[nStart];
        assert blkno == notFull[..nEnd][nStart];
        Taking(Capacity(blcksz, o), pages, blkno);
        var ok := TryPage(blkno, t);
        if ok {
          return;
        }
      }
      var n := nStart;
      if n < nEnd && blkno == notFull[n] {
        n := n + 1;
      }
      while n < nEnd
        invariant nStart <= n && pages == old(pages) && PagesValid() && MetaValid()
        invariant NoneTakes(Capacity(blcksz, o), pages, notFull, nStart, n)
        invariant nStart == old(nStart) && nEnd == old(nEnd) && notFull == old(notFull) && fsm == old(fsm)
      {
        assert notFull[n] == notFull[..nEnd][n];
        Taking(Capacity(blcksz, o), pages, notFull[n]);
        var ok := TryPage(notFull[n], t);
        if ok {
          nStart := n;
          return;
        }
        n := n + 1;
      }
      InsertIntoNewPage(t);
    }

    /** The last part of blinsert: a new page becomes the only entry of notFullPage. */
    method InsertIntoNewPage(t: Tuple)
      requires PagesValid() && MetaValid() && |t.sign| == o.bloomLength
      modifies this`pages, this`fsm, this`nStart, this`nEnd, this`notFull
      ensures PagesValid() && MetaValid()
      ensures Stored(pages) == old(Stored(pages)) + multiset{t}
      ensures IsNewPage(old(pages), old(fsm), old(notFull), t)
    {
      hide Stored, Capacity;
      var b := NewBuffer();
      ghost var grown := pages;
      EmptyPageTakesTuple(blcksz, o);
      var ok, page := AddToPage(blcksz, o, New, t);
      assert page == Used(false, [t]);
      StoredUpdate(pages, b, page);
      PageReplaced(Capacity(blcksz, o), o.bloomLength, pages, b, page);
      pages := pages[b := page];
      nStart, nEnd := 0, 1;
      notFull := notFull[0 := b];
      assert IsFresh(old(pages), old(fsm), grown, b) && pages == grown[b := Used(false, [t])];
    }

    /** The tuple has been added to the page listed at i, where the list now starts. */
    ghost predicate IsPlaced(before: seq<Page>, list: seq<nat>, i: nat, t: Tuple)
      reads this
    {
      && i < |list| && list[i] < |before| && notFull == list && nStart == i
      && pages == before[list[i] := Added(Prepared(before[list[i]]), t)]
    }

    /** The tuple is alone on a fresh page, which is now the only listed one. */
    ghost predicate IsNewPage(before: seq<Page>, free: set<nat>, list: seq<nat>, t: Tuple)
      reads this
      requires forall f | f in free :: f < |before|
    {
      exists b: nat, grown ::
        && IsFresh(before, free, grown, b) && b < |grown| && pages == grown[b := Used(false, [t])]
        && nStart == 0 && nEnd == 1 && |list| > 0 && notFull == list[0 := b]
    }

    /** blbulkdelete. */
    method BulkDelete(dead: set<nat>) returns (removed: nat)
      requires Valid()
      modifies this
      ensures Valid() && Survivors(Stored(pages), old(Stored(pages)), dead)
      ensures live == map r | r in old(live) && r.tid !in dead :: old(live)[r]
      ensures removed == |old(Stored(pages))| - |Stored(pages)|
      ensures nStart == 0 && notFull[..nEnd] == FirstOf(Roomy(Capacity(blcksz, o), pages, |pages|), MetaBlockN(blcksz))
    {
      hide Stored, DrawableRow, StandsFor, Capacity, MetaBlockN, PageFits, Vacuumed, Roomy, FirstOf;
      ghost var was := pages;
      var list;
      list, removed := VacuumPages(dead);
      StoredVacuumed(Capacity(blcksz, o), o.bloomLength, was, pages, dead);
      assert forall r | r in live && r.tid !in dead :: live[r] in Stored(pages);
      hide PagesFit, Survivors;
      notFull := list + notFull[|list|..];
      nStart, nEnd := 0, |list|;
      assert notFull[..nEnd] == list;
      live := map r | r in live && r.tid !in dead :: live[r];
    }

    /** The page loop of blbulkdelete, and the list of pages with room it collects. */
    method VacuumPages(dead: set<nat>) returns (list: seq<nat>, removed: nat)
      requires PagesValid() && MetaValid()
      modifies this`pages
      ensures PagesValid() && |pages| == |old(pages)|
      ensures forall b | 0 <= b < |pages| :: pages[b] == Vacuumed(old(pages)[b], dead)
      ensures |list| <= MetaBlockN(blcksz) && Blocks(list, |pages|)
      ensures list == FirstOf(Roomy(Capacity(blcksz, o), pages, |pages|), MetaBlockN(blcksz))
      ensures removed == |old(Stored(pages))| - |Stored(pages)|
    {
      hide Stored, Vacuumed, Capacity, Roomy, FirstOf;
      NoneRoomy(Capacity(blcksz, o), pages, MetaBlockN(blcksz));
      list, removed := [], 0;
      var npages := |pages|;
      assert Vacuumed(New, dead) == New by { ReusableStays(New, dead); }
      for blkno := 1 to npages
        invariant PagesValid() && |pages| == npages
        invariant forall b | 0 <= b < blkno :: pages[b] == Vacuumed(old(pages)[b], dead)
        invariant forall b | blkno <= b < npages :: pages[b] == old(pages)[b]
        invariant |list| <= MetaBlockN(blcksz) && Blocks(list, npages)
        invariant list == FirstOf(Roomy(Capacity(blcksz, o), pages, blkno), MetaBlockN(blcksz))
        invariant removed == |old(Stored(pages))| - |Stored(pages)|
      {
        hide MetaBlockN, Reusable, PageFits, this.PagesValid;
        ghost var before := pages;
        if Reusable(pages[blkno]) {
          ReusableStays(pages[blkno], dead);
          ReusableHasNone(Capacity(blcksz, o), o.bloomLength, pages, blkno);
          RoomyNext(Capacity(blcksz, o), before, pages, blkno, MetaBlockN(blcksz));
        } else {
          var hasRoom, gone := VacuumBlock(blkno, dead);
          RoomyNext(Capacity(blcksz, o), before, pages, blkno, MetaBlockN(blcksz));
          if hasRoom && |list| < MetaBlockN(blcksz) {
            list := list + [blkno];
          }
          removed := removed + gone;
        }
      }
    }

    /** One page in use; hasRoom says that it is not empty and can take another tuple. */
    method VacuumBlock(blkno: nat, dead: set<nat>) returns (hasRoom: bool, gone: nat)
      requires PagesValid() && blkno < |pages| && !Reusable(pages[blkno])
      modifies this`pages
      ensures PagesValid() && pages == old(pages)[blkno := Vacuumed(old(pages)[blkno], dead)]
      ensures gone == |old(Stored(pages))| - |Stored(pages)|
      ensures hasRoom <==> HasRoom(Capacity(blcksz, o), pages[blkno])
    {
      hide Stored, Vacuumed;
      var page := pages[blkno];
      assert PageFits(Capacity(blcksz, o), o.bloomLength, page);
      var v;
      v, gone := VacuumPage(blcksz, o, page, dead);
      PageSurvivors(Capacity(blcksz, o), o.bloomLength, page, dead);
      FitsIff(blcksz, o, |ItemsOf(v)|);
      hasRoom := |ItemsOf(v)| != 0 && FreeSpace(blcksz, o, |ItemsOf(v)|) >= TupleSize(o);
      PageShrinks(pages, blkno, v);
      PageReplaced(Capacity(blcksz, o), o.bloomLength, pages, blkno, v);
      pages := pages[blkno := v];
    }

    /** blvacuumcleanup: record free pages, count the tuples on the others. */
    method VacuumCleanup() returns (pagesFree: nat, tuples: nat)
      requires Valid()
      modifies this`fsm
      ensures Valid() && fsm == old(fsm) + ReusableUpTo(pages, |pages|)
      ensures pagesFree == |ReusableUpTo(pages, |pages|)| && tuples == |Stored(pages)|
    {
      hide DrawableRow, StandsFor, Stored, Capacity, ReusableUpTo, MetaBlockN, Blocks;
      pagesFree, tuples := 0, 0;
      StoredPrefix(pages, 1);
      StoredNothing();
      NoneReusable(pages);
      for blkno := 1 to |pages|
        invariant fsm == old(fsm) + ReusableUpTo(pages, blkno) && forall b | b in fsm :: 1 <= b < |pages|
        invariant pagesFree == |ReusableUpTo(pages, blkno)| && tuples == |Stored(pages[..blkno])|
      {
        ReusableNext(pages, blkno);
        assert PageFits(Capacity(blcksz, o), o.bloomLength, pages[blkno]);
        StoredPrefix(pages, blkno + 1);
        if Reusable(pages[blkno]) {
          fsm := fsm + {blkno};
          pagesFree := pagesFree + 1;
        } else {
          tuples := tuples + |pages[blkno].items|;
        }
      }
      assert pages[..|pages|] == pages;
    }

    predicate KeysOk(keys: seq<ScanKey<D>>) {
      forall i | 0 <= i < |keys| :: keys[i].attno < |o.bitSize|
    }

    predicate AllDrawable(keys: seq<ScanKey<D>>) {
      forall i | 0 <= i < |keys| :: DrawableKey(hash, keys[i])
    }

    /** The search signature; false when a key is null. */
    method ScanSignature(keys: seq<ScanKey<D>>) returns (ok: bool, sign: array<Word>)
      requires Legally() && KeysOk(keys)
      modifies g
      ensures fresh(sign) && sign.Length == o.bloomLength
      ensures ok <==> forall i | 0 <= i < |keys| :: keys[i].arg.Some?
      ensures ok && AllDrawable(keys) ==> BitsOf(sign[..]) == ScanBits(o, hash, keys)
    {
      hide BitsOf, ValueBits, Drawable;
      sign := new Word[o.bloomLength](_ => {});
      NoBits(sign[..]);
      for i := 0 to |keys|
        invariant forall j | 0 <= j < i :: keys[j].arg.Some?
        invariant AllDrawable(keys) ==> BitsOf(sign[..]) == ScanBits(o, hash, keys[..i])
      {
        if keys[i].arg.None? {
          return false, sign;
        }
        ScanBitsSnoc(o, hash, keys, i);
        SignValue(g, o, sign, keys[i].attno, hash(keys[i].attno, keys[i].arg.value));
      }
      assert keys[..|keys|] == keys;
      ok := true;
    }

    /**
      blgetbitmap.  With drawable keys the result is exactly the tuples whose signature
      covers the search signature, and every live row that matches is among them.
     */
    method GetBitmap(keys: seq<ScanKey<D>>) returns (tids: set<nat>, ntids: nat)
      requires Valid() && KeysOk(keys)
      modifies g
      ensures (exists i :: 0 <= i < |keys| && keys[i].arg.None?) ==> tids == {} && ntids == 0
      ensures AllDrawable(keys) ==>
                && tids == Hits(Stored(pages), ScanBits(o, hash, keys))
                && ntids == CountHits(pages, |pages|, ScanBits(o, hash, keys))
      ensures AllDrawable(keys) ==>
                forall r | r in live && DrawableRow(hash, r.values) && Matches(hash, r.values, keys) :: r.tid in tids
    {
      hide BitsOf, Stored, Capacity, ScanBits, Hits, StandsFor, Drawable;
      var ok, sign := ScanSignature(keys);
      if !ok {
        return {}, 0;
      }
      tids, ntids := ScanPages(sign[..]);
      if AllDrawable(keys) {
        forall r | r in live && DrawableRow(hash, r.values) && Matches(hash, r.values, keys)
          ensures r.tid in tids
        {
          RowIsHit(o, hash, live[r], r, keys, Stored(pages));
        }
      }
    }

    /** The page loop of blgetbitmap. */
    method ScanPages(query: seq<Word>) returns (tids: set<nat>, ntids: nat)
      requires PagesValid() && |query| == o.bloomLength
      ensures tids == Hits(Stored(pages), BitsOf(query))
      ensures ntids == CountHits(pages, |pages|, BitsOf(query))
    {
      hide BitsOf, Hits, Capacity, Stored, PagesFit, Filter, CountHits;
      FirstIsMeta(Capacity(blcksz, o), o.bloomLength, pages);
      tids, ntids := {}, 0;
      NoHits(BitsOf(query));
      StoredNothing();
      HitsOfPage(pages, 0, BitsOf(query));
      CountNext(pages, 0, BitsOf(query));
      for blkno := 1 to |pages|
        invariant tids == Hits(Stored(pages[..blkno]), BitsOf(query))
        invariant ntids == CountHits(pages, blkno, BitsOf(query))
      {
        PageIn(Capacity(blcksz, o), o.bloomLength, pages, blkno);
        HitsOfPage(pages, blkno, BitsOf(query));
        CountNext(pages, blkno, BitsOf(query));
        if !pages[blkno].New? && !pages[blkno].deleted {
          var found, n := ScanPage(pages[blkno].items, query);
          tids, ntids := tids + found, ntids + n;
        }
      }
      assert pages[..|pages|] == pages;
    }
  }

  lemma CountNext(pages: seq<Page>, b: nat, bits: set<int>)
    requires b < |pages|
    ensures CountHits(pages, 0, bits) == 0
    ensures CountHits(pages, b + 1, bits)
            == CountHits(pages, b, bits) + |Filter(ItemsOf(pages[b]), Covering(bits))|
    ensures ItemsOf(pages[b]) == [] ==> CountHits(pages, b + 1, bits) == CountHits(pages, b, bits)
  {
  }

  lemma NoHits(bits: set<int>)
    ensures Hits(multiset{}, bits) == {}
  {
  }

  lemma ScanBitsSnoc<D>(o: Options, hash: (nat, D) -> uint32, keys: seq<ScanKey<D>>, n: nat)
    requires Legal(o) && n < |keys|
    requires forall i | 0 <= i <= n :: keys[i].attno < |o.bitSize| && keys[i].arg.Some?
    ensures ScanBits(o, hash, keys[..n + 1])
         == ScanBits(o, hash, keys[..n]) + ValueBits(o, keys[n].attno, hash(keys[n].attno, keys[n].arg.value))
  {
    assert keys[..n + 1][..n] == keys[..n];
  }

  lemma RowIsHit<D>(o: Options, hash: (nat, D) -> uint32, t: Tuple, r: Row<D>, keys: seq<ScanKey<D>>,
      bag: multiset<Tuple>)
    requires StandsFor(o, hash, t, r) && Matches(hash, r.values, keys) && t in bag
    ensures r.tid in Hits(bag, ScanBits(o, hash, keys))
  {
    MatchIsCovered(o, hash, r.values, keys);
  }
}
