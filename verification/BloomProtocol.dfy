/**
  Concurrent use of a bloom index.  Any number of backends run blinsert, blbulkdelete,
  blvacuumcleanup and blgetbitmap, interleaved between any two accesses to shared memory.
  A backend changes a page by copying it under the lock, editing the copy and writing the
  copy back (GenericXLogRegisterBuffer, GenericXLogFinish), so a lost update is possible
  unless the locks rule it out.
 */
module BloomProtocol {
  import opened BloomPage

  /** Tuples per page and block numbers per metapage. */
  datatype Config = Config(cap: nat, metaN: nat)

  predicate Sane(c: Config) {
    c.cap >= 1 && c.metaN >= 1
  }

  datatype Meta = Meta(nStart: nat, nEnd: nat, notFull: seq<nat>)

  type Bag = multiset<Tuple>

  /**
    Where a backend is.  Block 0 is the metapage; m and copy are working copies of the
    metapage and of page blk or cur.
   */
  datatype Proc =
    | Idle
    // blinsert: the first page of the notFullPage array
    | InsMeta(t: Tuple)
    | InsPeek(t: Tuple)
    | InsWait(t: Tuple, blk: nat)
    | InsCopy(t: Tuple, blk: nat)
    | InsTry(t: Tuple, blk: nat, copy: Page)
    // blinsert: the other pages, under the exclusive metapage lock
    | SlowMeta(t: Tuple, tried: nat)
    | SlowRead(t: Tuple, tried: nat)
    | SlowLoop(t: Tuple, n: nat)
    | SlowWait(t: Tuple, n: nat, m: Meta, blk: nat)
    | SlowCopy(t: Tuple, n: nat, m: Meta, blk: nat)
    | SlowTry(t: Tuple, n: nat, m: Meta, blk: nat, copy: Page)
    // blinsert: BloomNewBuffer and the new page
    | Alloc(t: Tuple, m: Meta)
    | AllocTry(t: Tuple, m: Meta, blk: nat)
    | AllocLook(t: Tuple, m: Meta, blk: nat)
    | Extended(t: Tuple, m: Meta, blk: nat)
    | AllocInit(t: Tuple, m: Meta, blk: nat)
    // blbulkdelete
    | VacNext(dead: set<nat>, cur: nat, npages: nat, list: seq<nat>)
    | VacCopy(dead: set<nat>, cur: nat, npages: nat, list: seq<nat>)
    | VacWrite(dead: set<nat>, cur: nat, npages: nat, list: seq<nat>, copy: Page)
    | VacMeta(dead: set<nat>, npages: nat, list: seq<nat>)
    | VacFinish(dead: set<nat>, npages: nat, list: seq<nat>)
    // blvacuumcleanup
    | ClnNext(cur: nat, npages: nat)
    | ClnLook(cur: nat, npages: nat)
    // blgetbitmap: base is what had been inserted, per block, when the scan began
    | ScanNext(base: seq<Bag>, cur: nat, seen: seq<seq<Tuple>>)
    | ScanRead(base: seq<Bag>, cur: nat, seen: seq<seq<Tuple>>)
    | ScanDone(base: seq<Bag>, seen: seq<seq<Tuple>>)

  /**
    Shared memory, the backends, and a history: per block what was ever inserted and
    removed, and the tuples of all inserts that have returned.
   */
  datatype State = State(
    pages: seq<Page>, meta: Meta, fsm: set<nat>, procs: seq<Proc>,
    ins: seq<Bag>, rem: seq<Bag>, done: Bag)

  // ---------- Locks ----------

  predicate Excl(pc: Proc, b: nat) {
    match pc
    case InsCopy(_, blk) => b == blk
    case InsTry(_, blk, _) => b == blk
    case SlowRead(_, _) => b == 0
    case SlowLoop(_, _) => b == 0
    case SlowWait(_, _, _, _) => b == 0
    case SlowCopy(_, _, _, blk) => b == 0 || b == blk
    case SlowTry(_, _, _, blk, _) => b == 0 || b == blk
    case Alloc(_, _) => b == 0
    case AllocTry(_, _, _) => b == 0
    case AllocLook(_, _, blk) => b == 0 || b == blk
    case Extended(_, _, _) => b == 0
    case AllocInit(_, _, blk) => b == 0 || b == blk
    case VacCopy(_, cur, _, _) => b == cur
    case VacWrite(_, cur, _, _, _) => b == cur
    case VacFinish(_, _, _) => b == 0
    case _ => false
  }

  predicate Shares(pc: Proc, b: nat) {
    match pc
    case InsPeek(_) => b == 0
    case ClnLook(cur, _) => b == cur
    case ScanRead(_, cur, _) => b == cur
    case _ => false
  }

  predicate FreeFor(s: State, p: nat, b: nat, exclusive: bool) {
    forall q | 0 <= q < |s.procs| && q != p ::
      !Excl(s.procs[q], b) && (exclusive ==> !Shares(s.procs[q], b))
  }

  // ---------- Steps ----------

  function To(s: State, p: nat, pc: Proc): State
    requires p < |s.procs|
  {
    s.(procs := s.procs[p := pc])
  }

  /** GenericXLogFinish of a page that gained tuple t; the insert returns. */
  function Commit(s: State, p: nat, b: nat, page: Page, t: Tuple): State
    requires p < |s.procs| && b < |s.pages| && b < |s.ins|
  {
    To(s.(pages := s.pages[b := page],
          ins := s.ins[b := s.ins[b] + multiset{t}],
          done := s.done + multiset{t}),
       p, Idle)
  }

  /** A fresh page at the end of the file. */
  function Extend(s: State): State {
    s.(pages := s.pages + [New], ins := s.ins + [multiset{}], rem := s.rem + [multiset{}])
  }

  /** The first |list| entries of the array replaced. */
  function Overwrite(a: seq<nat>, list: seq<nat>): seq<nat>
    requires |list| <= |a|
  {
    list + a[|list|..]
  }

  function VacuumPage(s: State, b: nat, dead: set<nat>, copy: Page): State
    requires b < |s.pages| && b < |s.rem|
  {
    var v := Vacuumed(copy, dead);
    var gone := multiset(ItemsOf(copy)) - multiset(ItemsOf(v));
    s.(pages := s.pages[b := v], rem := s.rem[b := s.rem[b] + gone])
  }

  /** The notFullPage list of blbulkdelete after page cur. */
  function Relisted(c: Config, list: seq<nat>, cur: nat, v: Page): seq<nat> {
    if |ItemsOf(v)| != 0 && |ItemsOf(v)| < c.cap && |list| < c.metaN then list + [cur] else list
  }

  /** What an idle backend may begin. */
  predicate Begins(s: State, pc: Proc) {
    match pc
    case InsMeta(_) => true
    case VacNext(_, cur, npages, list) => cur == 1 && npages == |s.pages| && list == []
    case ClnNext(cur, npages) => cur == 1 && npages == |s.pages|
    case ScanNext(base, cur, seen) => base == s.ins && cur == 1 && seen == [[]]
    case _ => false
  }

  predicate InFastPath(pc: Proc) {
    pc.InsMeta? || pc.InsPeek? || pc.InsWait? || pc.InsCopy? || pc.InsTry?
  }

  predicate InSlowPath(pc: Proc) {
    || pc.SlowMeta? || pc.SlowRead? || pc.SlowLoop? || pc.SlowWait? || pc.SlowCopy? || pc.SlowTry?
  }

  predicate InNewBuffer(pc: Proc) {
    pc.Alloc? || pc.AllocTry? || pc.AllocLook? || pc.Extended? || pc.AllocInit?
  }

  predicate Inserting(pc: Proc) {
    InFastPath(pc) || InSlowPath(pc) || InNewBuffer(pc)
  }

  predicate InVacuum(pc: Proc) {
    pc.VacNext? || pc.VacCopy? || pc.VacWrite? || pc.VacMeta? || pc.VacFinish?
  }

  /** Steps of blinsert on the first not full page. */
  ghost predicate FastStep(c: Config, s: State, p: nat, z: State)
    requires Inv(c, s) && p < |s.procs| && |z.procs| == |s.procs|
  {
    assert Local(c, s, s.procs[p]);
    match s.procs[p]
    case InsMeta(t) => FreeFor(s, p, 0, false) && z == To(s, p, InsPeek(t))
    case InsPeek(t) =>
      z == To(s, p, if s.meta.nEnd > s.meta.nStart then InsWait(t, s.meta.notFull[s.meta.nStart])
                    else SlowMeta(t, 0))
    case InsWait(t, blk) => FreeFor(s, p, blk, true) && z == To(s, p, InsCopy(t, blk))
    case InsCopy(t, blk) => z == To(s, p, InsTry(t, blk, s.pages[blk]))
    case InsTry(t, blk, copy) =>
      if |Prepared(copy).items| < c.cap then z == Commit(s, p, blk, Added(Prepared(copy), t), t)
      else z == To(s, p, SlowMeta(t, blk))
    case _ => false
  }

  /** Steps of blinsert under the exclusive metapage lock. */
  ghost predicate SlowStep(c: Config, s: State, p: nat, z: State)
    requires Inv(c, s) && p < |s.procs| && |z.procs| == |s.procs|
  {
    assert Local(c, s, s.procs[p]);
    match s.procs[p]
    case SlowMeta(t, tried) => FreeFor(s, p, 0, true) && z == To(s, p, SlowRead(t, tried))
    case SlowRead(t, tried) =>
      var n := s.meta.nStart;
      z == To(s, p, SlowLoop(t, if n < s.meta.nEnd && tried == s.meta.notFull[n] then n + 1 else n))
    case SlowLoop(t, n) =>
      z == To(s, p, if n >= s.meta.nEnd then Alloc(t, s.meta)
                    else SlowWait(t, n, s.meta, s.meta.notFull[n]))
    case SlowWait(t, n, m, blk) => FreeFor(s, p, blk, true) && z == To(s, p, SlowCopy(t, n, m, blk))
    case SlowCopy(t, n, m, blk) => z == To(s, p, SlowTry(t, n, m, blk, s.pages[blk]))
    case SlowTry(t, n, m, blk, copy) =>
      if |Prepared(copy).items| < c.cap
      then z == Commit(s, p, blk, Added(Prepared(copy), t), t).(meta := m.(nStart := n))
      else z == To(s, p, SlowLoop(t, n + 1))
    case _ => false
  }

  /** Steps of BloomNewBuffer and of filling the new page. */
  ghost predicate AllocStep(c: Config, s: State, p: nat, z: State)
    requires Inv(c, s) && p < |s.procs| && |z.procs| == |s.procs|
  {
    assert Local(c, s, s.procs[p]);
    match s.procs[p]
    case Alloc(t, m) =>
      || (&& z.procs[p].AllocTry? && z.procs[p].blk in s.fsm
          && z == To(s.(fsm := s.fsm - {z.procs[p].blk}), p, AllocTry(t, m, z.procs[p].blk)))
      || z == To(Extend(s), p, Extended(t, m, |s.pages|))
    case AllocTry(t, m, blk) =>
      z == To(s, p, if FreeFor(s, p, blk, true) then AllocLook(t, m, blk) else Alloc(t, m))
    case AllocLook(t, m, blk) =>
      z == To(s, p, if Reusable(s.pages[blk]) then AllocInit(t, m, blk) else Alloc(t, m))
    case Extended(t, m, blk) => FreeFor(s, p, blk, true) && z == To(s, p, AllocInit(t, m, blk))
    case AllocInit(t, m, blk) =>
      z == Commit(s, p, blk, Used(false, [t]), t).(meta := Meta(0, 1, m.notFull[0 := blk]))
    case _ => false
  }

  /** Steps of blbulkdelete. */
  ghost predicate VacuumStep(c: Config, s: State, p: nat, z: State)
    requires Inv(c, s) && p < |s.procs| && |z.procs| == |s.procs|
  {
    assert Local(c, s, s.procs[p]);
    match s.procs[p]
    case VacNext(dead, cur, npages, list) =>
      if cur < npages then FreeFor(s, p, cur, true) && z == To(s, p, VacCopy(dead, cur, npages, list))
      else z == To(s, p, VacMeta(dead, npages, list))
    case VacCopy(dead, cur, npages, list) =>
      z == To(s, p, VacWrite(dead, cur, npages, list, s.pages[cur]))
    case VacWrite(dead, cur, npages, list, copy) =>
      if Reusable(copy) then z == To(s, p, VacNext(dead, cur + 1, npages, list))
      else z == To(VacuumPage(s, cur, dead, copy), p,
                   VacNext(dead, cur + 1, npages, Relisted(c, list, cur, Vacuumed(copy, dead))))
    case VacMeta(dead, npages, list) =>
      FreeFor(s, p, 0, true) && z == To(s, p, VacFinish(dead, npages, list))
    case VacFinish(dead, npages, list) =>
      z == To(s.(meta := Meta(0, |list|, Overwrite(s.meta.notFull, list))), p, Idle)
    case _ => false
  }

  /** The start of a call, and steps of blvacuumcleanup and blgetbitmap. */
  ghost predicate ReadStep(c: Config, s: State, p: nat, z: State)
    requires Inv(c, s) && p < |s.procs| && |z.procs| == |s.procs|
  {
    assert Local(c, s, s.procs[p]);
    match s.procs[p]
    case Idle => Begins(s, z.procs[p]) && z == To(s, p, z.procs[p])
    case ClnNext(cur, npages) =>
      if cur < npages then FreeFor(s, p, cur, false) && z == To(s, p, ClnLook(cur, npages))
      else z == To(s, p, Idle)
    case ClnLook(cur, npages) =>
      z == To(s.(fsm := if Reusable(s.pages[cur]) then s.fsm + {cur} else s.fsm), p, ClnNext(cur + 1, npages))
    case ScanNext(base, cur, seen) =>
      if cur < |base| then FreeFor(s, p, cur, false) && z == To(s, p, ScanRead(base, cur, seen))
      else z == To(s, p, ScanDone(base, seen))
    case ScanRead(base, cur, seen) =>
      var items := if Reusable(s.pages[cur]) then [] else s.pages[cur].items;
      z == To(s, p, ScanNext(base, cur + 1, seen + [items]))
    case ScanDone(_, _) => z == To(s, p, Idle)
    case _ => false
  }

  /** Backend p takes one step from s to z. */
  ghost predicate Next(c: Config, s: State, p: nat, z: State)
    requires Inv(c, s) && p < |s.procs| && |z.procs| == |s.procs|
  {
    && (forall q | 0 <= q < |s.procs| && q != p :: z.procs[q] == s.procs[q])
    && if InFastPath(s.procs[p]) then FastStep(c, s, p, z)
       else if InSlowPath(s.procs[p]) then SlowStep(c, s, p, z)
       else if InNewBuffer(s.procs[p]) then AllocStep(c, s, p, z)
       else if InVacuum(s.procs[p]) then VacuumStep(c, s, p, z)
       else ReadStep(c, s, p, z)
  }

  // ---------- Invariant ----------

  /** A page that the metapage or a backend may list as not full. */
  predicate Listed(s: State, b: nat) {
    1 <= b < |s.pages| && s.pages[b].Used?
  }

  predicate AllListed(s: State, list: seq<nat>) {
    forall i | 0 <= i < |list| :: Listed(s, list[i])
  }

  predicate PageOk(c: Config, p: Page) {
    p.Used? ==> |p.items| <= c.cap && (p.deleted ==> p.items == [])
  }

  /** Tuples on the page and tuples removed from it make up the tuples inserted into it. */
  predicate Balanced(p: Page, ins: Bag, rem: Bag) {
    multiset(ItemsOf(p)) + rem == ins
  }

  predicate MetaOk(c: Config, s: State) {
    && |s.meta.notFull| == c.metaN
    && s.meta.nStart <= s.meta.nEnd <= c.metaN
    && AllListed(s, s.meta.notFull[..s.meta.nEnd])
  }

  predicate Shape(c: Config, s: State) {
    && |s.pages| == |s.ins| == |s.rem| >= 1
    && s.pages[0].New?
    && (forall b | 0 <= b < |s.pages| :: PageOk(c, s.pages[b]))
    && (forall b | 0 <= b < |s.pages| :: Balanced(s.pages[b], s.ins[b], s.rem[b]))
    && (forall b | b in s.fsm :: 1 <= b < |s.pages|)
    && MetaOk(c, s)
  }

  predicate VacOk(c: Config, s: State, cur: nat, npages: nat, list: seq<nat>) {
    1 <= cur && npages <= |s.pages| && |list| <= c.metaN && AllListed(s, list)
  }

  /** What a scan has read so far accounts for all that was there when it began. */
  predicate ScanOk(s: State, base: seq<Bag>, cur: nat, seen: seq<seq<Tuple>>) {
    && 1 <= cur <= |base| <= |s.ins| == |s.rem| && |seen| == cur
    && (forall b | 0 <= b < |base| :: base[b] <= s.ins[b])
    && (forall b | 0 <= b < cur :: base[b] <= multiset(seen[b]) + s.rem[b])
    && (forall b | 0 <= b < cur :: multiset(seen[b]) <= s.ins[b])
  }

  predicate InsertLocal(s: State, pc: Proc) {
    match pc
    case InsWait(_, blk) => Listed(s, blk)
    case InsCopy(_, blk) => Listed(s, blk)
    case InsTry(_, blk, copy) => Listed(s, blk) && copy == s.pages[blk]
    case SlowWait(_, n, m, blk) => m == s.meta && n < m.nEnd && Listed(s, blk)
    case SlowCopy(_, n, m, blk) => m == s.meta && n < m.nEnd && Listed(s, blk)
    case SlowTry(_, n, m, blk, copy) =>
      m == s.meta && n < m.nEnd && Listed(s, blk) && copy == s.pages[blk]
    case Alloc(_, m) => m == s.meta
    case AllocTry(_, m, blk) => m == s.meta && 1 <= blk < |s.pages|
    case AllocLook(_, m, blk) => m == s.meta && 1 <= blk < |s.pages|
    case Extended(_, m, blk) => m == s.meta && 1 <= blk < |s.pages| && s.pages[blk].New?
    case AllocInit(_, m, blk) => m == s.meta && 1 <= blk < |s.pages| && Reusable(s.pages[blk])
    case _ => true
  }

  predicate VacuumLocal(c: Config, s: State, pc: Proc)
    requires InVacuum(pc)
  {
    match pc
    case VacNext(_, cur, npages, list) => VacOk(c, s, cur, npages, list)
    case VacCopy(_, cur, npages, list) => cur < npages && VacOk(c, s, cur, npages, list)
    case VacWrite(_, cur, npages, list, copy) =>
      cur < npages && VacOk(c, s, cur, npages, list) && copy == s.pages[cur]
    case _ => VacOk(c, s, 1, pc.npages, pc.list)
  }

  predicate ReadLocal(s: State, pc: Proc) {
    match pc
    case ClnNext(cur, npages) => 1 <= cur && npages <= |s.pages|
    case ClnLook(cur, npages) => 1 <= cur < npages <= |s.pages|
    case ScanNext(base, cur, seen) => ScanOk(s, base, cur, seen)
    case ScanRead(base, cur, seen) => cur < |base| && ScanOk(s, base, cur, seen)
    case ScanDone(base, seen) => ScanOk(s, base, |base|, seen)
    case _ => true
  }

  /** What holds of a backend where it is. */
  predicate Local(c: Config, s: State, pc: Proc) {
    if Inserting(pc) then InsertLocal(s, pc)
    else if InVacuum(pc) then VacuumLocal(c, s, pc)
    else ReadLocal(s, pc)
  }

  ghost predicate Exclusion(s: State) {
    forall p, q, b: nat | 0 <= p < |s.procs| && 0 <= q < |s.procs| && p != q && Excl(s.procs[p], b) ::
      !Excl(s.procs[q], b) && !Shares(s.procs[q], b)
  }

  ghost predicate Inv(c: Config, s: State) {
    && Sane(c) && Shape(c, s) && Exclusion(s)
    && forall q | 0 <= q < |s.procs| :: Local(c, s, s.procs[q])
  }

  ghost predicate StepOf(c: Config, s: State, p: nat, z: State) {
    Inv(c, s) && p < |s.procs| && |z.procs| == |s.procs| && Next(c, s, p, z)
  }
}
