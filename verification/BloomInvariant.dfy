/** Every step of every backend keeps the invariant of a bloom index under concurrent use. */
module BloomInvariant {
  import opened BloomPage
  import opened BloomProtocol
  import opened Sequences

  /** How the rest of memory may move under a backend that stands still. */
  ghost predicate Evolves(s: State, z: State, pc: Proc)
    requires |s.pages| == |s.ins| == |s.rem| && |z.pages| == |z.ins| == |z.rem|
  {
    && |s.pages| <= |z.pages|
    && (forall b | 0 <= b < |s.pages| :: s.pages[b].Used? ==> z.pages[b].Used?)
    && (forall b | 0 <= b < |s.pages| && Excl(pc, b) :: z.pages[b] == s.pages[b])
    && (Excl(pc, 0) ==> z.meta == s.meta)
    && (pc.Extended? && pc.blk < |s.pages| ==> z.pages[pc.blk] == s.pages[pc.blk])
    && (forall b | 0 <= b < |s.pages| :: s.ins[b] <= z.ins[b] && s.rem[b] <= z.rem[b])
  }

  lemma LocalStable(c: Config, s: State, z: State, pc: Proc)
    requires |s.pages| == |s.ins| == |s.rem| && |z.pages| == |z.ins| == |z.rem|
    requires Local(c, s, pc) && Evolves(s, z, pc)
    ensures Local(c, z, pc)
  {
    hide InsertLocal, VacuumLocal, ReadLocal, Evolves;
    if Inserting(pc) {
      InsertLocalStable(s, z, pc);
    } else if InVacuum(pc) {
      VacuumLocalStable(c, s, z, pc);
    } else {
      ReadLocalStable(s, z, pc);
    }
  }

  lemma InsertLocalStable(s: State, z: State, pc: Proc)
    requires |s.pages| == |s.ins| == |s.rem| && |z.pages| == |z.ins| == |z.rem|
    requires Inserting(pc) && InsertLocal(s, pc) && Evolves(s, z, pc)
    ensures InsertLocal(z, pc)
  {
  }

  lemma VacuumLocalStable(c: Config, s: State, z: State, pc: Proc)
    requires |s.pages| == |s.ins| == |s.rem| && |z.pages| == |z.ins| == |z.rem|
    requires InVacuum(pc) && VacuumLocal(c, s, pc) && Evolves(s, z, pc)
    ensures VacuumLocal(c, z, pc)
  {
    hide AllListed;
    AllListedStable(s, z, pc, pc.list);
  }

  lemma AllListedStable(s: State, z: State, pc: Proc, list: seq<nat>)
    requires |s.pages| == |s.ins| == |s.rem| && |z.pages| == |z.ins| == |z.rem|
    requires Evolves(s, z, pc) && AllListed(s, list)
    ensures AllListed(z, list)
  {
    hide Excl;
  }

  lemma ReadLocalStable(s: State, z: State, pc: Proc)
    requires |s.pages| == |s.ins| == |s.rem| && |z.pages| == |z.ins| == |z.rem|
    requires ReadLocal(s, pc) && Evolves(s, z, pc)
    ensures ReadLocal(z, pc)
  {
    hide ScanOk, Excl;
    match pc {
      case ScanNext(base, cur, seen) => ScanOkStable(s, z, pc, base, cur, seen);
      case ScanRead(base, cur, seen) => ScanOkStable(s, z, pc, base, cur, seen);
      case ScanDone(base, seen) => ScanOkStable(s, z, pc, base, |base|, seen);
      case _ =>
    }
  }

  lemma ScanOkStable(s: State, z: State, pc: Proc, base: seq<Bag>, cur: nat, seen: seq<seq<Tuple>>)
    requires |s.pages| == |s.ins| == |s.rem| && |z.pages| == |z.ins| == |z.rem|
    requires Evolves(s, z, pc) && ScanOk(s, base, cur, seen)
    ensures ScanOk(z, base, cur, seen)
  {
    hide Excl;
  }

  /** Backend p moves to pc, keeping locks it had or taking free ones. */
  ghost predicate LocksFollow(s: State, p: nat, pc: Proc)
    requires p < |s.procs|
  {
    && (forall b: nat | Excl(pc, b) :: Excl(s.procs[p], b) || FreeFor(s, p, b, true))
    && (forall b: nat | Shares(pc, b) ::
          Shares(s.procs[p], b) || Excl(s.procs[p], b) || FreeFor(s, p, b, false))
  }

  lemma ExclusionKept(s: State, p: nat, pc: Proc)
    requires Exclusion(s) && p < |s.procs| && LocksFollow(s, p, pc)
    ensures Exclusion(To(s, p, pc))
  {
    hide Excl, Shares;
  }

  /** Everybody else is unaffected and p has its new place. */
  lemma Assemble(c: Config, s: State, p: nat, z: State, pc: Proc)
    requires Inv(c, s) && p < |s.procs| && LocksFollow(s, p, pc)
    requires z.procs == s.procs[p := pc]
    requires Shape(c, z) && Local(c, z, pc)
    requires forall q | 0 <= q < |s.procs| && q != p :: Evolves(s, z, s.procs[q])
    ensures Inv(c, z)
  {
    hide Inv, Local, Shape, Evolves, LocksFollow, Exclusion;
    Sizes(c, s, z);
    Excluded(c, s);
    ExclusionKept(s, p, pc);
    SameExclusion(To(s, p, pc), z);
    Known(c, s, p);
    forall q | 0 <= q < |z.procs|
      ensures Local(c, z, z.procs[q])
    {
      if q != p {
        Known(c, s, q);
        LocalStable(c, s, z, s.procs[q]);
      }
    }
    Assembled(c, z);
  }

  lemma Sizes(c: Config, s: State, z: State)
    requires Inv(c, s) && Shape(c, z)
    ensures |s.pages| == |s.ins| == |s.rem| && |z.pages| == |z.ins| == |z.rem|
  {
    hide Exclusion, Local;
  }

  lemma Excluded(c: Config, s: State)
    requires Inv(c, s)
    ensures Exclusion(s)
  {
    hide Exclusion, Local, Shape;
  }

  lemma SameExclusion(s: State, z: State)
    requires Exclusion(s) && z.procs == s.procs
    ensures Exclusion(z)
  {
    hide Excl, Shares;
  }

  lemma Assembled(c: Config, z: State)
    requires Sane(c) && Shape(c, z) && Exclusion(z) && forall q | 0 <= q < |z.procs| :: Local(c, z, z.procs[q])
    ensures Inv(c, z)
  {
    hide Exclusion, Local, Shape;
  }

  /** Steps that touch neither a page nor the metapage. */
  lemma MoveKeepsInv(c: Config, s: State, p: nat, fsm: set<nat>, pc: Proc)
    requires Inv(c, s) && p < |s.procs| && LocksFollow(s, p, pc) && Local(c, s, pc)
    requires forall b | b in fsm :: 1 <= b < |s.pages|
    ensures Inv(c, To(s.(fsm := fsm), p, pc))
  {
    var z := To(s.(fsm := fsm), p, pc);
    LocalStable(c, s, z, pc);
    Assemble(c, s, p, z, pc);
  }

  /**
    An insert that holds page b, and possibly the metapage, writes both back.  Nothing
    was on the page that is not in the written image.
   */
  lemma CommitKeepsInv(c: Config, s: State, p: nat, b: nat, t: Tuple, meta: Meta)
    requires Inv(c, s) && p < |s.procs|
    requires 1 <= b < |s.pages| && Excl(s.procs[p], b) && |Prepared(s.pages[b]).items| < c.cap
    requires Excl(s.procs[p], 0) || (meta == s.meta && s.pages[b].Used?)
    requires |meta.notFull| == c.metaN && meta.nStart <= meta.nEnd <= c.metaN
    requires forall i | 0 <= i < meta.nEnd :: meta.notFull[i] == b || Listed(s, meta.notFull[i])
    ensures Inv(c, Commit(s, p, b, Added(Prepared(s.pages[b]), t), t).(meta := meta))
  {
    hide Inv, Evolves, PageOk, Balanced, MetaOk, Excl, Listed;
    Known(c, s, p);
    var z := Commit(s, p, b, Added(Prepared(s.pages[b]), t), t).(meta := meta);
    CommitShape(c, s, p, b, t, meta);
    forall q | 0 <= q < |s.procs| && q != p
      ensures Evolves(s, z, s.procs[q])
    {
      CommitEvolves(c, s, p, q, b, t, meta);
    }
    NoLocks(s, p);
    Assemble(c, s, p, z, Idle);
  }

  lemma NoLocks(s: State, p: nat)
    requires p < |s.procs|
    ensures LocksFollow(s, p, Idle)
  {
    hide FreeFor;
  }

  lemma CommitShape(c: Config, s: State, p: nat, b: nat, t: Tuple, meta: Meta)
    requires Shape(c, s) && p < |s.procs|
    requires 1 <= b < |s.pages| && |Prepared(s.pages[b]).items| < c.cap
    requires |meta.notFull| == c.metaN && meta.nStart <= meta.nEnd <= c.metaN
    requires forall i | 0 <= i < meta.nEnd :: meta.notFull[i] == b || Listed(s, meta.notFull[i])
    ensures Shape(c, Commit(s, p, b, Added(Prepared(s.pages[b]), t), t).(meta := meta))
  {
    var page := Added(Prepared(s.pages[b]), t);
    var z := Commit(s, p, b, page, t).(meta := meta);
    assert PageOk(c, s.pages[b]) && Balanced(s.pages[b], s.ins[b], s.rem[b]);
    assert Balanced(page, z.ins[b], z.rem[b]);
    assert MetaOk(c, z);
  }

  lemma CommitEvolves(c: Config, s: State, p: nat, q: nat, b: nat, t: Tuple, meta: Meta)
    requires Inv(c, s) && p < |s.procs| && q < |s.procs| && p != q && |s.pages| == |s.ins| == |s.rem|
    requires 1 <= b < |s.pages| && Excl(s.procs[p], b)
    requires Excl(s.procs[p], 0) || (meta == s.meta && s.pages[b].Used?)
    ensures Evolves(s, Commit(s, p, b, Added(Prepared(s.pages[b]), t), t).(meta := meta), s.procs[q])
  {
    hide Inv, Excl;
    OthersElsewhere(c, s, p, q, b);
  }

  /** No other backend holds p's page, nor waits for it as a page of its own making. */
  lemma OthersElsewhere(c: Config, s: State, p: nat, q: nat, b: nat)
    requires Inv(c, s) && p < |s.procs| && q < |s.procs| && p != q
    requires Excl(s.procs[p], b)
    requires Excl(s.procs[p], 0) || (b < |s.pages| && s.pages[b].Used?)
    ensures !Excl(s.procs[q], b)
    ensures Excl(s.procs[p], 0) ==> !Excl(s.procs[q], 0)
    ensures s.procs[q].Extended? ==> s.procs[q].blk != b
  {
    assert Local(c, s, s.procs[q]);
  }

  /** Survivors and removed tuples of a vacuumed page add up. */
  lemma VacuumedAddsUp(c: Config, copy: Page, dead: set<nat>, ins: Bag, rem: Bag)
    requires !Reusable(copy) && PageOk(c, copy) && Balanced(copy, ins, rem)
    ensures var v := Vacuumed(copy, dead);
            var gone := multiset(ItemsOf(copy)) - multiset(ItemsOf(v));
            && v.Used? && PageOk(c, v) && Balanced(v, ins, rem + gone)
  {
    FilterBag(copy.items, Alive(dead));
    FilterLength(copy.items, Alive(dead));
  }

  lemma VacuumShape(c: Config, s: State, cur: nat, dead: set<nat>)
    requires Shape(c, s) && cur < |s.pages| && !Reusable(s.pages[cur])
    ensures Shape(c, VacuumPage(s, cur, dead, s.pages[cur]))
  {
    hide Vacuumed;
    var z := VacuumPage(s, cur, dead, s.pages[cur]);
    VacuumedAddsUp(c, s.pages[cur], dead, s.ins[cur], s.rem[cur]);
    assert forall b | 0 <= b < |s.pages| && b != cur :: z.pages[b] == s.pages[b];
    assert forall b | 0 <= b < |s.pages| :: Listed(s, b) ==> Listed(z, b);
  }

  lemma ShapeTo(c: Config, s: State, p: nat, pc: Proc)
    requires Shape(c, s) && p < |s.procs|
    ensures Shape(c, To(s, p, pc))
  {
    hide PageOk, Balanced;
  }

  /** What the vacuum of a page changes for another backend. */
  lemma VacuumEvolves(c: Config, s: State, p: nat, q: nat, cur: nat, dead: set<nat>, pc: Proc)
    requires Inv(c, s) && p < |s.procs| && q < |s.procs| && p != q && Excl(s.procs[p], cur)
    requires cur < |s.pages| && !Reusable(s.pages[cur]) && |s.pages| == |s.ins| == |s.rem|
    ensures Evolves(s, To(VacuumPage(s, cur, dead, s.pages[cur]), p, pc), s.procs[q])
  {
    hide Inv, Excl, Vacuumed;
    OthersElsewhere(c, s, p, q, cur);
    VacuumedUsed(s.pages[cur], dead);
  }

  lemma VacuumedUsed(page: Page, dead: set<nat>)
    requires !Reusable(page)
    ensures Vacuumed(page, dead).Used?
  {
  }

  lemma VacuumLists(c: Config, s: State, p: nat, dead: set<nat>, cur: nat, npages: nat, list: seq<nat>)
    requires Shape(c, s) && p < |s.procs| && cur < npages && VacOk(c, s, cur, npages, list)
    requires !Reusable(s.pages[cur])
    ensures var relisted := Relisted(c, list, cur, Vacuumed(s.pages[cur], dead));
            var pc := VacNext(dead, cur + 1, npages, relisted);
            VacOk(c, To(VacuumPage(s, cur, dead, s.pages[cur]), p, pc), cur + 1, npages, relisted)
  {
    hide PageOk, Balanced, MetaOk, Vacuumed;
    var v := Vacuumed(s.pages[cur], dead);
    VacuumedUsed(s.pages[cur], dead);
    var pc := VacNext(dead, cur + 1, npages, Relisted(c, list, cur, v));
    var z := To(VacuumPage(s, cur, dead, s.pages[cur]), p, pc);
    assert forall b | 0 <= b < |s.pages| :: Listed(s, b) ==> Listed(z, b);
    assert Listed(z, cur);
  }

  /** VACUUM writes a page back. */
  lemma VacuumKeepsInv(c: Config, s: State, p: nat)
    requires Inv(c, s) && p < |s.procs| && s.procs[p].VacWrite? && !Reusable(s.procs[p].copy)
    ensures var VacWrite(dead, cur, npages, list, copy) := s.procs[p];
            && Local(c, s, s.procs[p])
            && Inv(c, To(VacuumPage(s, cur, dead, copy), p,
                         VacNext(dead, cur + 1, npages, Relisted(c, list, cur, Vacuumed(copy, dead)))))
  {
    hide Inv, Vacuumed, Evolves, PageOk, Balanced, MetaOk, AllListed;
    Known(c, s, p);
    var VacWrite(dead, cur, npages, list, copy) := s.procs[p];
    VacuumShape(c, s, cur, dead);
    var pc := VacNext(dead, cur + 1, npages, Relisted(c, list, cur, Vacuumed(copy, dead)));
    var z := To(VacuumPage(s, cur, dead, copy), p, pc);
    ShapeTo(c, VacuumPage(s, cur, dead, copy), p, pc);
    VacuumLists(c, s, p, dead, cur, npages, list);
    forall q | 0 <= q < |s.procs| && q != p
      ensures Evolves(s, z, s.procs[q])
    {
      VacuumEvolves(c, s, p, q, cur, dead, pc);
    }
    Assemble(c, s, p, z, pc);
  }

  lemma ExtendKeepsInv(c: Config, s: State, p: nat)
    requires Inv(c, s) && p < |s.procs| && s.procs[p].Alloc?
    ensures Inv(c, To(Extend(s), p, Extended(s.procs[p].t, s.procs[p].m, |s.pages|)))
  {
    hide Inv, PageOk, ScanOk, VacOk;
    Known(c, s, p);
    var pc := Extended(s.procs[p].t, s.procs[p].m, |s.pages|);
    Assemble(c, s, p, To(Extend(s), p, pc), pc);
  }

  lemma RelistKeepsInv(c: Config, s: State, p: nat)
    requires Inv(c, s) && p < |s.procs| && s.procs[p].VacFinish?
    ensures var list := s.procs[p].list;
            && |list| <= |s.meta.notFull|
            && Inv(c, To(s.(meta := Meta(0, |list|, Overwrite(s.meta.notFull, list))), p, Idle))
  {
    assert Local(c, s, s.procs[p]);
    var list := s.procs[p].list;
    var z := To(s.(meta := Meta(0, |list|, Overwrite(s.meta.notFull, list))), p, Idle);
    assert z.meta.notFull[..|list|] == list;
    Assemble(c, s, p, z, Idle);
  }

  /** Which kind of step a backend takes, from its place. */
  lemma StepKind(c: Config, s: State, p: nat, z: State)
    requires StepOf(c, s, p, z)
    ensures InFastPath(s.procs[p]) ==> FastStep(c, s, p, z)
    ensures InSlowPath(s.procs[p]) ==> SlowStep(c, s, p, z)
    ensures InNewBuffer(s.procs[p]) ==> AllocStep(c, s, p, z)
    ensures InVacuum(s.procs[p]) ==> VacuumStep(c, s, p, z)
    ensures !Inserting(s.procs[p]) && !InVacuum(s.procs[p]) ==> ReadStep(c, s, p, z)
  {
    hide Inv, FastStep, SlowStep, AllocStep, VacuumStep, ReadStep;
  }

  lemma Known(c: Config, s: State, p: nat)
    requires Inv(c, s) && p < |s.procs|
    ensures Sane(c) && Shape(c, s) && Local(c, s, s.procs[p])
  {
    hide Shape, Local, Exclusion;
  }

  lemma FastLocks(c: Config, s: State, p: nat, z: State)
    requires Inv(c, s) && p < |s.procs| && |z.procs| == |s.procs| && FastStep(c, s, p, z)
    ensures LocksFollow(s, p, z.procs[p])
  {
    hide Inv, Local, FreeFor;
  }

  lemma SlowLocks(c: Config, s: State, p: nat, z: State)
    requires Inv(c, s) && p < |s.procs| && |z.procs| == |s.procs| && SlowStep(c, s, p, z)
    ensures LocksFollow(s, p, z.procs[p])
  {
    hide Inv, Local, FreeFor;
  }

  lemma AllocLocks(c: Config, s: State, p: nat, z: State)
    requires Inv(c, s) && p < |s.procs| && |z.procs| == |s.procs| && AllocStep(c, s, p, z)
    ensures LocksFollow(s, p, z.procs[p])
  {
    hide Inv, Local, FreeFor;
  }

  lemma VacuumLocks(c: Config, s: State, p: nat, z: State)
    requires Inv(c, s) && p < |s.procs| && |z.procs| == |s.procs| && VacuumStep(c, s, p, z)
    ensures LocksFollow(s, p, z.procs[p])
  {
    hide Inv, Local, FreeFor, Vacuumed;
  }

  lemma ReadLocks(c: Config, s: State, p: nat, z: State)
    requires Inv(c, s) && p < |s.procs| && |z.procs| == |s.procs| && ReadStep(c, s, p, z)
    ensures LocksFollow(s, p, z.procs[p])
  {
    hide Inv, Local, FreeFor;
  }

  lemma FastPathKeepsInv(c: Config, s: State, p: nat, z: State)
    requires StepOf(c, s, p, z) && InFastPath(s.procs[p])
    ensures Inv(c, z)
  {
    hide Inv, Next, Balanced, ScanOk, VacOk, PageOk, LocksFollow, FreeFor;
    StepKind(c, s, p, z);
    FastLocks(c, s, p, z);
    Known(c, s, p);
    var pc := s.procs[p];
    if pc.InsTry? && |Prepared(pc.copy).items| < c.cap {
      CommitKeepsInv(c, s, p, pc.blk, pc.t, s.meta);
    } else {
      assert z == To(s, p, z.procs[p]);
      MoveKeepsInv(c, s, p, s.fsm, z.procs[p]);
    }
  }

  lemma SlowPathKeepsInv(c: Config, s: State, p: nat, z: State)
    requires StepOf(c, s, p, z) && InSlowPath(s.procs[p])
    ensures Inv(c, z)
  {
    hide Inv, Next, Balanced, ScanOk, VacOk, PageOk, LocksFollow, FreeFor;
    StepKind(c, s, p, z);
    SlowLocks(c, s, p, z);
    Known(c, s, p);
    var pc := s.procs[p];
    if pc.SlowTry? && |Prepared(pc.copy).items| < c.cap {
      CommitKeepsInv(c, s, p, pc.blk, pc.t, pc.m.(nStart := pc.n));
    } else {
      assert z == To(s, p, z.procs[p]);
      MoveKeepsInv(c, s, p, s.fsm, z.procs[p]);
    }
  }

  lemma NewBufferKeepsInv(c: Config, s: State, p: nat, z: State)
    requires StepOf(c, s, p, z) && InNewBuffer(s.procs[p])
    ensures Inv(c, z)
  {
    hide Inv, Next, Balanced, ScanOk, VacOk, LocksFollow, FreeFor;
    StepKind(c, s, p, z);
    AllocLocks(c, s, p, z);
    Known(c, s, p);
    var pc := s.procs[p];
    if pc.AllocInit? {
      assert Added(Prepared(s.pages[pc.blk]), pc.t) == Used(false, [pc.t]);
      CommitKeepsInv(c, s, p, pc.blk, pc.t, Meta(0, 1, pc.m.notFull[0 := pc.blk]));
    } else if z.procs[p].Extended? {
      ExtendKeepsInv(c, s, p);
    } else {
      assert z == To(s.(fsm := z.fsm), p, z.procs[p]);
      MoveKeepsInv(c, s, p, z.fsm, z.procs[p]);
    }
  }

  lemma VacuumStepKeepsInv(c: Config, s: State, p: nat, z: State)
    requires StepOf(c, s, p, z) && InVacuum(s.procs[p])
    ensures Inv(c, z)
  {
    hide Inv, Next, Balanced, ScanOk, Vacuumed, PageOk, MetaOk, AllListed, LocksFollow, FreeFor;
    StepKind(c, s, p, z);
    VacuumLocks(c, s, p, z);
    Known(c, s, p);
    var pc := s.procs[p];
    if pc.VacWrite? && !Reusable(pc.copy) {
      VacuumKeepsInv(c, s, p);
    } else if pc.VacFinish? {
      RelistKeepsInv(c, s, p);
    } else {
      assert z == To(s, p, z.procs[p]);
      MoveKeepsInv(c, s, p, s.fsm, z.procs[p]);
    }
  }

  /** A scan reads one more page. */
  lemma ScanAdvances(c: Config, s: State, base: seq<Bag>, cur: nat, seen: seq<seq<Tuple>>)
    requires Shape(c, s) && cur < |base| && ScanOk(s, base, cur, seen)
    ensures var items := if Reusable(s.pages[cur]) then [] else s.pages[cur].items;
            ScanOk(s, base, cur + 1, seen + [items])
  {
    hide MetaOk;
    var items := if Reusable(s.pages[cur]) then [] else s.pages[cur].items;
    assert Balanced(s.pages[cur], s.ins[cur], s.rem[cur]) && PageOk(c, s.pages[cur]);
    assert multiset(items) + s.rem[cur] == s.ins[cur];
  }

  lemma ScanMoves(c: Config, s: State, p: nat, z: State)
    requires StepOf(c, s, p, z)
    requires s.procs[p].ScanNext? || s.procs[p].ScanRead? || s.procs[p].ScanDone?
    ensures z == To(s, p, z.procs[p]) && Local(c, s, z.procs[p])
  {
    hide Inv, Next, Shape, ScanOk, FreeFor, InsertLocal, VacuumLocal;
    StepKind(c, s, p, z);
    Known(c, s, p);
    var pc := s.procs[p];
    if pc.ScanRead? {
      ScanAdvances(c, s, pc.base, pc.cur, pc.seen);
    }
    ScanEnds(s, pc);
  }

  lemma ScanKeepsInv(c: Config, s: State, p: nat, z: State)
    requires StepOf(c, s, p, z)
    requires s.procs[p].ScanNext? || s.procs[p].ScanRead? || s.procs[p].ScanDone?
    ensures Inv(c, z)
  {
    hide Inv, Next, Local, ReadStep, LocksFollow, MetaOk, Balanced, PageOk;
    StepKind(c, s, p, z);
    ReadLocks(c, s, p, z);
    ScanMoves(c, s, p, z);
    Known(c, s, p);
    MoveKeepsInv(c, s, p, s.fsm, z.procs[p]);
  }

  lemma ScanEnds(s: State, pc: Proc)
    requires pc.ScanNext? ==> ScanOk(s, pc.base, pc.cur, pc.seen)
    ensures pc.ScanNext? ==> pc.cur <= |pc.base|
  {
  }

  /** Steps of blvacuumcleanup. */
  lemma CleanupKeepsInv(c: Config, s: State, p: nat, z: State)
    requires StepOf(c, s, p, z) && (s.procs[p].ClnNext? || s.procs[p].ClnLook?)
    ensures Inv(c, z)
  {
    hide Inv, Next, MetaOk, PageOk, Balanced, ScanOk, LocksFollow, FreeFor, InsertLocal, VacuumLocal, Listed;
    StepKind(c, s, p, z);
    ReadLocks(c, s, p, z);
    Known(c, s, p);
    assert z == To(s.(fsm := z.fsm), p, z.procs[p]);
    MoveKeepsInv(c, s, p, z.fsm, z.procs[p]);
  }

  /** The start of any call. */
  lemma BeginKeepsInv(c: Config, s: State, p: nat, z: State)
    requires StepOf(c, s, p, z) && s.procs[p].Idle?
    ensures Inv(c, z)
  {
    hide Inv, Next, MetaOk, PageOk, Balanced, ScanOk, LocksFollow;
    StepKind(c, s, p, z);
    Known(c, s, p);
    if z.procs[p].ScanNext? {
      ScanBegins(c, s);
    }
    ReadLocks(c, s, p, z);
    MoveKeepsInv(c, s, p, s.fsm, z.procs[p]);
  }

  lemma ScanBegins(c: Config, s: State)
    requires Shape(c, s)
    ensures ScanOk(s, s.ins, 1, [[]])
  {
    assert Balanced(s.pages[0], s.ins[0], s.rem[0]);
  }

  /** Every step of every backend keeps the invariant. */
  lemma StepKeepsInv(c: Config, s: State, p: nat, z: State)
    requires StepOf(c, s, p, z)
    ensures Inv(c, z)
  {
    hide Inv, Next;
    if InFastPath(s.procs[p]) {
      FastPathKeepsInv(c, s, p, z);
    } else if InSlowPath(s.procs[p]) {
      SlowPathKeepsInv(c, s, p, z);
    } else if InNewBuffer(s.procs[p]) {
      NewBufferKeepsInv(c, s, p, z);
    } else if InVacuum(s.procs[p]) {
      VacuumStepKeepsInv(c, s, p, z);
    } else if s.procs[p].ScanNext? || s.procs[p].ScanRead? || s.procs[p].ScanDone? {
      ScanKeepsInv(c, s, p, z);
    } else if s.procs[p].Idle? {
      BeginKeepsInv(c, s, p, z);
    } else {
      CleanupKeepsInv(c, s, p, z);
    }
  }
}
