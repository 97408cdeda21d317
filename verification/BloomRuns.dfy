/** Whole runs of any number of backends on a bloom index: what inserts, scans and vacuums can rely on. */
module BloomRuns {
  import opened BloomPage
  import opened BloomProtocol
  import opened BloomInvariant
  import opened Sequences

  /** An index as blbuild leaves it, before any concurrent use. */
  ghost predicate Built(c: Config, s: State) {
    && Sane(c) && |s.pages| == |s.ins| == |s.rem| >= 1
    && s.pages[0].New? && s.fsm == {}
    && s.meta.nStart == s.meta.nEnd == 0 && |s.meta.notFull| == c.metaN
    && (forall b | 1 <= b < |s.pages| :: s.pages[b].Used? && !s.pages[b].deleted && |s.pages[b].items| <= c.cap)
    && (forall b | 0 <= b < |s.pages| :: s.ins[b] == multiset(ItemsOf(s.pages[b])) && s.rem[b] == multiset{})
    && (forall q | 0 <= q < |s.procs| :: s.procs[q].Idle?)
    && s.done == Total(s.ins)
  }

  /**
    who[i] takes the step from run[i] to run[i + 1].  Steps are defined where the
    invariant holds; RunKeepsInv shows that it holds everywhere.
   */
  ghost predicate Run(c: Config, run: seq<State>, who: seq<nat>) {
    && |run| == |who| + 1 && Built(c, run[0])
    && forall i | 0 <= i < |who| ::
         && who[i] < |run[i].procs| == |run[i + 1].procs|
         && (Inv(c, run[i]) ==> Next(c, run[i], who[i], run[i + 1]))
  }

  function Total(bags: seq<Bag>): Bag {
    if bags == [] then multiset{} else Total(bags[..|bags| - 1]) + bags[|bags| - 1]
  }

  lemma {:induction false} TotalUpdate(bags: seq<Bag>, b: nat, x: Bag)
    requires b < |bags|
    ensures Total(bags[b := bags[b] + x]) == Total(bags) + x
  {
    var n, next := |bags| - 1, bags[b := bags[b] + x];
    if b < n {
      TotalUpdate(bags[..n], b, x);
      assert next[..n] == bags[..n][b := bags[b] + x];
    } else {
      assert next[..n] == bags[..n];
    }
  }

  lemma {:induction false} TotalBalanced(pages: seq<Page>, ins: seq<Bag>, rem: seq<Bag>)
    requires |pages| == |ins| == |rem|
    requires forall b | 0 <= b < |pages| :: Balanced(pages[b], ins[b], rem[b])
    ensures Stored(pages) + Total(rem) == Total(ins)
  {
    if pages != [] {
      var n := |pages| - 1;
      TotalBalanced(pages[..n], ins[..n], rem[..n]);
      assert Balanced(pages[n], ins[n], rem[n]);
    }
  }

  /** Exactly the inserts that returned are counted in. */
  lemma StepKeepsDone(c: Config, s: State, p: nat, z: State)
    requires StepOf(c, s, p, z) && s.done == Total(s.ins)
    ensures z.done == Total(z.ins)
  {
    hide Inv, Next, Total, Vacuumed, MetaOk, PageOk, Balanced, ScanOk, VacOk;
    StepKind(c, s, p, z);
    Known(c, s, p);
    var pc := s.procs[p];
    if pc.Alloc? && z.procs[p].Extended? {
      TotalSnoc(s.ins, multiset{});
    } else if pc.AllocInit? || ((pc.InsTry? || pc.SlowTry?) && |Prepared(pc.copy).items| < c.cap) {
      TotalUpdate(s.ins, pc.blk, multiset{pc.t});
    }
  }

  lemma TotalSnoc(bags: seq<Bag>, x: Bag)
    ensures Total(bags + [x]) == Total(bags) + x
  {
    assert (bags + [x])[..|bags|] == bags;
  }

  lemma BuiltInv(c: Config, s: State)
    requires Built(c, s)
    ensures Inv(c, s) && s.done == Total(s.ins)
  {
    hide Total;
  }

  lemma {:induction false} RunKeepsInv(c: Config, run: seq<State>, who: seq<nat>, i: nat)
    requires Run(c, run, who) && i < |run|
    ensures Inv(c, run[i]) && run[i].done == Total(run[i].ins)
  {
    hide Inv, Next, Built;
    if i == 0 {
      BuiltInv(c, run[0]);
    } else {
      RunKeepsInv(c, run, who, i - 1);
      StepKeepsInv(c, run[i - 1], who[i - 1], run[i]);
      StepKeepsDone(c, run[i - 1], who[i - 1], run[i]);
    }
  }

  /** At every point of every run, stored tuples are those inserted minus those removed. */
  lemma Conservation(c: Config, run: seq<State>, who: seq<nat>, i: nat)
    requires Run(c, run, who) && i < |run|
    ensures Stored(run[i].pages) + Total(run[i].rem) == run[i].done
    ensures forall b | 0 <= b < |run[i].pages| :: Reusable(run[i].pages[b]) ==> ItemsOf(run[i].pages[b]) == []
  {
    var s := run[i];
    RunKeepsInv(c, run, who, i);
    TotalBalanced(s.pages, s.ins, s.rem);
    assert forall b | 0 <= b < |s.pages| :: PageOk(c, s.pages[b]);
  }

  /**
    A scan misses nothing: whatever was in a page when the scan began and was not removed
    since is among the tuples read, and everything read had been inserted.
   */
  lemma ScanIsComplete(c: Config, run: seq<State>, who: seq<nat>, i: nat, p: nat)
    requires Run(c, run, who) && i < |run| && p < |run[i].procs| && run[i].procs[p].ScanDone?
    ensures var ScanDone(base, seen) := run[i].procs[p];
            && |seen| == |base| <= |run[i].rem| == |run[i].ins|
            && forall b | 0 <= b < |base| ::
                 base[b] - run[i].rem[b] <= multiset(seen[b]) <= run[i].ins[b]
  {
    RunKeepsInv(c, run, who, i);
    assert Local(c, run[i], run[i].procs[p]);
  }

  // ---------- VACUUM removes all dead tuples ----------

  /** No heap pointer that the VACUUM of backend p is to remove is being inserted. */
  predicate Quiet(s: State, p: nat)
    requires p < |s.procs|
  {
    InVacuum(s.procs[p]) ==>
      forall q | 0 <= q < |s.procs| && Inserting(s.procs[q]) :: s.procs[q].t.heapPtr !in s.procs[p].dead
  }

  predicate Clean(p: Page, dead: set<nat>) {
    forall t | t in ItemsOf(p) :: t.heapPtr !in dead
  }

  /** The first page VACUUM has still to visit. */
  function VacPos(pc: Proc): nat
    requires InVacuum(pc)
  {
    if pc.VacMeta? || pc.VacFinish? then pc.npages else pc.cur
  }

  /** Pages behind a VACUUM, and pages younger than it, hold no dead tuple. */
  predicate Swept(s: State, pc: Proc)
    requires InVacuum(pc)
  {
    forall b | 1 <= b < |s.pages| && (b < VacPos(pc) || pc.npages <= b) :: Clean(s.pages[b], pc.dead)
  }

  predicate SweptBy(s: State, p: nat)
    requires p < |s.procs|
  {
    InVacuum(s.procs[p]) ==> Swept(s, s.procs[p])
  }

  /** Page b of z holds nothing new except possibly the tuple x brings. */
  predicate Grows(s: State, z: State, x: set<Tuple>) {
    && |z.pages| >= |s.pages|
    && (forall b | |s.pages| <= b < |z.pages| :: ItemsOf(z.pages[b]) == [])
    && (forall b, t | 0 <= b < |s.pages| && t in ItemsOf(z.pages[b]) :: t in ItemsOf(s.pages[b]) || t in x)
  }

  function Brings(pc: Proc): set<Tuple> {
    if Inserting(pc) then {pc.t} else {}
  }

  lemma InsertGrows(c: Config, s: State, p: nat, z: State)
    requires StepOf(c, s, p, z) && Inserting(s.procs[p])
    ensures Grows(s, z, Brings(s.procs[p]))
  {
    hide Inv, Next, MetaOk, Balanced, ScanOk, VacOk, PageOk;
    StepKind(c, s, p, z);
    Known(c, s, p);
  }

  lemma VacuumGrows(c: Config, s: State, p: nat, z: State)
    requires StepOf(c, s, p, z) && s.procs[p].VacWrite?
    ensures Grows(s, z, Brings(s.procs[p]))
  {
    hide Inv, Next, MetaOk, Balanced, ScanOk;
    StepKind(c, s, p, z);
    Known(c, s, p);
    var pc := s.procs[p];
    FilterSatisfies(ItemsOf(pc.copy), Alive(pc.dead));
  }

  lemma ReadersKeepPages(c: Config, s: State, p: nat, z: State)
    requires StepOf(c, s, p, z) && !Inserting(s.procs[p]) && !s.procs[p].VacWrite?
    ensures z.pages == s.pages
  {
    hide Inv, Next, MetaOk, Balanced, ScanOk, VacOk, Vacuumed, PageOk;
    StepKind(c, s, p, z);
    Known(c, s, p);
  }

  /** Backend q takes a step while, possibly, backend p runs VACUUM. */
  lemma StepKeepsSwept(c: Config, s: State, q: nat, z: State, p: nat)
    requires StepOf(c, s, q, z) && p < |s.procs| && Quiet(s, p) && SweptBy(s, p)
    ensures SweptBy(z, p)
  {
    hide Inv, Next, Grows, Swept;
    if q == p {
      if InVacuum(z.procs[p]) {
        VacuumSweeps(c, s, p, z);
      }
    } else {
      OnlyOwnPlace(c, s, q, z, p);
      StepGrows(c, s, q, z);
      if InVacuum(s.procs[p]) {
        SweptStays(s, z, z.procs[p], Brings(s.procs[q]));
      }
    }
  }

  lemma StepGrows(c: Config, s: State, p: nat, z: State)
    requires StepOf(c, s, p, z)
    ensures Grows(s, z, Brings(s.procs[p]))
  {
    hide Inv, Next;
    if Inserting(s.procs[p]) {
      InsertGrows(c, s, p, z);
    } else if s.procs[p].VacWrite? {
      VacuumGrows(c, s, p, z);
    } else {
      ReadersKeepPages(c, s, p, z);
    }
  }

  lemma OnlyOwnPlace(c: Config, s: State, p: nat, z: State, q: nat)
    requires StepOf(c, s, p, z) && q < |s.procs| && q != p
    ensures z.procs[q] == s.procs[q]
  {
  }

  lemma SweptStays(s: State, z: State, pc: Proc, x: set<Tuple>)
    requires InVacuum(pc) && Swept(s, pc) && Grows(s, z, x)
    requires forall t | t in x :: t.heapPtr !in pc.dead
    ensures Swept(z, pc)
  {
  }

  lemma VacuumSweeps(c: Config, s: State, p: nat, z: State)
    requires StepOf(c, s, p, z) && InVacuum(z.procs[p])
    requires InVacuum(s.procs[p]) ==> Swept(s, s.procs[p])
    ensures Swept(z, z.procs[p])
  {
    if s.procs[p].VacWrite? {
      PageSwept(c, s, p, z);
    } else if InVacuum(s.procs[p]) {
      VacuumAdvances(c, s, p, z);
    } else {
      VacuumBegins(c, s, p, z);
    }
  }

  lemma VacuumedIsClean(c: Config, page: Page, dead: set<nat>)
    requires PageOk(c, page)
    ensures Clean(Vacuumed(page, dead), dead)
  {
    FilterSatisfies(ItemsOf(page), Alive(dead));
    FilterLength(ItemsOf(page), Alive(dead));
  }

  lemma PageSwept(c: Config, s: State, p: nat, z: State)
    requires StepOf(c, s, p, z) && s.procs[p].VacWrite? && Swept(s, s.procs[p])
    ensures InVacuum(z.procs[p]) && Swept(z, z.procs[p])
  {
    hide Inv, Next, MetaOk, Balanced, ScanOk, Vacuumed;
    StepKind(c, s, p, z);
    Known(c, s, p);
    var pc := s.procs[p];
    VacuumedIsClean(c, pc.copy, pc.dead);
    assert PageOk(c, s.pages[pc.cur]);
    assert Clean(z.pages[pc.cur], pc.dead);
  }

  lemma VacuumAdvances(c: Config, s: State, p: nat, z: State)
    requires StepOf(c, s, p, z) && InVacuum(z.procs[p]) && !s.procs[p].VacWrite?
    requires InVacuum(s.procs[p]) && Swept(s, s.procs[p])
    ensures Swept(z, z.procs[p])
  {
    hide Inv, Next, MetaOk, Balanced, ScanOk, Vacuumed, PageOk;
    StepKind(c, s, p, z);
    Known(c, s, p);
    assert z.pages == s.pages;
  }

  lemma VacuumBegins(c: Config, s: State, p: nat, z: State)
    requires StepOf(c, s, p, z) && InVacuum(z.procs[p]) && !InVacuum(s.procs[p])
    ensures Swept(z, z.procs[p])
  {
    hide Inv, Next;
    if Inserting(s.procs[p]) {
      InsertStaysInsert(c, s, p, z);
    }
    StepKind(c, s, p, z);
  }

  lemma InsertStaysInsert(c: Config, s: State, p: nat, z: State)
    requires StepOf(c, s, p, z) && Inserting(s.procs[p])
    ensures !InVacuum(z.procs[p])
  {
    hide Inv, Next, FreeFor, Local, Added, Prepared, Reusable;
    StepKind(c, s, p, z);
  }

  /** Since when backend p has been where it is without a break in running VACUUM. */
  function Since(run: seq<State>, p: nat, i: nat): nat
    requires i < |run| && forall j | 0 <= j <= i :: p < |run[j].procs|
  {
    if i == 0 || !InVacuum(run[i - 1].procs[p]) then i else Since(run, p, i - 1)
  }

  lemma {:induction false} SinceBefore(run: seq<State>, p: nat, i: nat)
    requires i < |run| && forall j | 0 <= j <= i :: p < |run[j].procs|
    ensures Since(run, p, i) <= i
  {
    hide InVacuum;
    if i > 0 {
      SinceBefore(run, p, i - 1);
    }
  }

  lemma {:induction false} RunKeepsSwept(c: Config, run: seq<State>, who: seq<nat>, i: nat, p: nat)
    requires Run(c, run, who) && i < |run| && forall j | 0 <= j <= i :: p < |run[j].procs|
    requires forall j | Since(run, p, i) <= j < i :: Quiet(run[j], p)
    ensures SweptBy(run[i], p)
  {
    hide Inv, Next, Built, Swept, Quiet;
    if i == 0 {
      NoneRunning(c, run[0], p);
    } else {
      RunKeepsInv(c, run, who, i - 1);
      if InVacuum(run[i - 1].procs[p]) {
        SinceBefore(run, p, i - 1);
        RunKeepsSwept(c, run, who, i - 1, p);
      } else {
        NotRunning(run[i - 1], p);
      }
      StepKeepsSwept(c, run[i - 1], who[i - 1], run[i], p);
    }
  }

  lemma NotRunning(s: State, p: nat)
    requires p < |s.procs| && !InVacuum(s.procs[p])
    ensures Quiet(s, p) && SweptBy(s, p)
  {
  }

  lemma NoneRunning(c: Config, s: State, p: nat)
    requires Built(c, s) && p < |s.procs|
    ensures SweptBy(s, p)
  {
  }

  /**
    When blbulkdelete is done with its pages, no dead tuple is left anywhere in the index,
    provided no tuple with a pointer it is to remove was being inserted since it began.
   */
  lemma VacuumIsComplete(c: Config, run: seq<State>, who: seq<nat>, i: nat, p: nat)
    requires Run(c, run, who) && i < |run| && forall j | 0 <= j <= i :: p < |run[j].procs|
    requires run[i].procs[p].VacFinish? && forall j | Since(run, p, i) <= j < i :: Quiet(run[j], p)
    ensures forall b | 1 <= b < |run[i].pages| :: Clean(run[i].pages[b], run[i].procs[p].dead)
  {
    hide Run;
    RunKeepsSwept(c, run, who, i, p);
    assert Swept(run[i], run[i].procs[p]);
    RunKeepsInv(c, run, who, i);
    Known(c, run[i], p);
  }
}
