/** The bloom index as a transition system at the granularity of page locks:
    inserts, vacuum and page reuse may interleave in every way; no tuple is lost
    or duplicated, and a scan finds every surviving row that matches. */
module BloomSystem {
  import opened Prelude
  import opened BloomSign
  import opened BloomPage

  /** Where an insert stands: it has chosen a page and released the metapage; it
      has missed; it holds the metapage lock and looks at list position `at`; or
      it has extended the file and will fill the new page. */
  datatype Proc = Idle
                | Chosen(t: Tuple, blk: nat)
                | Missed(t: Tuple, tried: Option<nat>)
                | Holding(t: Tuple, at: nat)
                | Extended(t: Tuple, blk: nat)

  /** The pages, the metapage's list of pages with room, the free space map, the
      inserts under way, the exclusive lock on the metapage, the pages with room
      that the vacuum under way has noted, and what has been inserted and removed
      so far. */
  datatype State = State(pages: seq<Page>, nStart: nat, nEnd: nat, notFull: seq<nat>, fsm: set<nat>,
                         procs: map<nat, Proc>, lock: Option<nat>, vac: seq<nat>,
                         inserted: multiset<Tuple>, removed: multiset<Tuple>)

  datatype Step = StartInsert(p: nat, t: Tuple)
                | FirstTry(p: nat)
                | LockMeta(p: nat)
                | RetryPage(p: nat)
                | Recycle(p: nat, blk: nat, busy: bool)
                | Extend(p: nat)
                | FillNew(p: nat)
                | VacuumStart
                | VacuumPage(blk: nat, dead: Dead)
                | VacuumMeta
                | RecordFree(blk: nat)

  function ProcOf(s: State, p: nat): Proc {
    if p in s.procs then s.procs[p] else Idle
  }

  predicate IsData(s: State, blk: nat) {
    blk < |s.pages| && s.pages[blk].Data?
  }

  predicate Reusable(s: State, blk: nat) {
    blk < |s.pages| && (s.pages[blk].New? || (s.pages[blk].Data? && s.pages[blk].deleted))
  }

  /** When a step can be taken. */
  ghost predicate Enabled(s: State, step: Step) {
    match step
    case StartInsert(p, t) => ProcOf(s, p).Idle? && s.lock.None?
    case FirstTry(p) => ProcOf(s, p).Chosen?
    case LockMeta(p) => ProcOf(s, p).Missed? && s.lock.None?
    case RetryPage(p) => ProcOf(s, p).Holding? && ProcOf(s, p).at < s.nEnd
    case Recycle(p, blk, busy) => ProcOf(s, p).Holding? && ProcOf(s, p).at >= s.nEnd && blk in s.fsm
    case Extend(p) => ProcOf(s, p).Holding? && ProcOf(s, p).at >= s.nEnd
    case FillNew(p) => ProcOf(s, p).Extended?
    case VacuumPage(blk, dead) => IsData(s, blk) && !s.pages[blk].deleted
    case VacuumStart => true
    case VacuumMeta => s.lock.None?
    case RecordFree(blk) => Reusable(s, blk)
  }

  /** The page of a block and the block at a place of the list. By the invariant
      below neither is ever asked for something that does not exist. */
  function PageAt(s: State, blk: nat): Page {
    if blk < |s.pages| then s.pages[blk] else Meta
  }

  function Listed(s: State, k: nat): nat {
    if k < |s.notFull| then s.notFull[k] else 0
  }

  function SetPage(pages: seq<Page>, blk: nat, page: Page): seq<Page> {
    if blk < |pages| then pages[blk := page] else pages
  }

  /** A tuple goes to a page and the insert is finished. */
  function Placed(s: State, p: nat, blk: nat, page: Page, t: Tuple): State {
    s.(pages := SetPage(s.pages, blk, page), procs := s.procs[p := Idle], inserted := s.inserted + multiset{t})
  }

  /** A fresh page is filled and becomes the only one in the list. */
  function PlacedAlone(s: State, p: nat, blk: nat, t: Tuple): State {
    Placed(s, p, blk, Data(false, [t]), t).(nStart := 0, nEnd := 1, notFull := Overlay([blk], s.notFull), lock := None)
  }

  /** Copying over the front of the list. */
  function Overlay(list: seq<nat>, old_: seq<nat>): (r: seq<nat>)
    ensures list <= r
  {
    if |list| <= |old_| then list + old_[|list|..] else list
  }

  /** Vacuum notes pages that keep tuples and have room for more. */
  function Noted(l: Layout, vac: seq<nat>, blk: nat, page: Page): seq<nat>
    requires page.Data?
  {
    if page.items != [] && Fits(l, |page.items|) && |vac| < l.metaBlocks then vac + [blk] else vac
  }

  /** What a step does. Every case is one period under one page lock. */
  ghost function Apply(l: Layout, s: State, step: Step): State
    requires Enabled(s, step)
  {
    match step
    case StartInsert(p, t) =>
      if s.nEnd > s.nStart then s.(procs := s.procs[p := Chosen(t, Listed(s, s.nStart))])
      else s.(procs := s.procs[p := Missed(t, None)])
    case FirstTry(p) =>
      var Chosen(t, blk) := ProcOf(s, p);
      var r := Added(l, PageAt(s, blk), t);
      if r.Some? then Placed(s, p, blk, r.value, t) else s.(procs := s.procs[p := Missed(t, Some(blk))])
    case LockMeta(p) =>
      var Missed(t, tried) := ProcOf(s, p);
      var skip := s.nStart < s.nEnd && tried == Some(Listed(s, s.nStart));
      s.(lock := Some(p), procs := s.procs[p := Holding(t, if skip then s.nStart + 1 else s.nStart)])
    case RetryPage(p) =>
      var Holding(t, at) := ProcOf(s, p);
      var r := Added(l, PageAt(s, Listed(s, at)), t);
      if r.Some? then Placed(s, p, Listed(s, at), r.value, t).(nStart := at, lock := None)
      else s.(procs := s.procs[p := Holding(t, at + 1)])
    case Recycle(p, blk, busy) =>
      if busy || !Reusable(s, blk) then s.(fsm := s.fsm - {blk})
      else PlacedAlone(s.(fsm := s.fsm - {blk}), p, blk, ProcOf(s, p).t)
    case Extend(p) =>
      s.(pages := s.pages + [New], procs := s.procs[p := Extended(ProcOf(s, p).t, |s.pages|)])
    case FillNew(p) => PlacedAlone(s, p, ProcOf(s, p).blk, ProcOf(s, p).t)
    case VacuumPage(blk, dead) =>
      var page := Vacuumed(s.pages[blk], dead);
      s.(pages := SetPage(s.pages, blk, page), vac := Noted(l, s.vac, blk, page),
         removed := s.removed + multiset(Removed(s.pages[blk].items, dead)))
    case VacuumStart => s.(vac := [])
    case VacuumMeta => s.(nStart := 0, nEnd := |s.vac|, notFull := Overlay(s.vac, s.notFull))
    case RecordFree(blk) => s.(fsm := s.fsm + {blk})
  }

  // ----- what every step keeps -----

  /** All tuples on pages that are neither new nor deleted. */
  function Live(pages: seq<Page>): multiset<Tuple> {
    if pages == [] then multiset{} else Live(pages[..|pages| - 1]) + multiset(ItemsOf(pages[|pages| - 1]))
  }

  /** The list names initialized pages only. */
  ghost predicate GoodList(s: State) {
    s.nStart <= s.nEnd <= |s.notFull| && forall k :: s.nStart <= k < s.nEnd ==> IsData(s, s.notFull[k])
  }

  ghost predicate GoodVac(s: State) {
    forall i :: 0 <= i < |s.vac| ==> IsData(s, s.vac[i])
  }

  ghost predicate GoodProc(s: State, p: nat) {
    match ProcOf(s, p)
    case Idle => true
    case Chosen(t, blk) => IsData(s, blk)
    case Missed(t, tried) => true
    case Holding(t, at) => s.lock == Some(p) && s.nStart <= at
    case Extended(t, blk) => s.lock == Some(p) && blk < |s.pages| && s.pages[blk].New?
  }

  /** Conservation: what was inserted is on a live page or was removed. */
  ghost predicate Conserved(s: State) {
    Live(s.pages) + s.removed == s.inserted
  }

  ghost predicate Inv(s: State) {
    && GoodList(s) && GoodVac(s) && (forall p: nat :: GoodProc(s, p)) && (forall b :: b in s.fsm ==> b < |s.pages|)
    && Conserved(s)
  }

  lemma {:induction false} LiveUpdate(pages: seq<Page>, i: nat, p: Page)
    requires i < |pages|
    ensures Live(pages[i := p]) + multiset(ItemsOf(pages[i])) == Live(pages) + multiset(ItemsOf(p))
    decreases |pages|
  {
    hide *;
    var n := |pages| - 1;
    var qs := pages[i := p];
    LiveLast(pages);
    LiveLast(qs);
    if i == n {
      assert qs[..n] == pages[..n];
      Swap(Live(pages[..n]), multiset(ItemsOf(p)), multiset(ItemsOf(pages[n])));
    } else {
      assert qs[..n] == pages[..n][i := p];
      LiveUpdate(pages[..n], i, p);
      AddLast(Live(qs[..n]), Live(pages[..n]), multiset(ItemsOf(pages[i])), multiset(ItemsOf(p)),
        multiset(ItemsOf(pages[n])));
    }
  }

  lemma {:induction false} LiveLast(pages: seq<Page>)
    requires pages != []
    ensures Live(pages) == Live(pages[..|pages| - 1]) + multiset(ItemsOf(pages[|pages| - 1]))
  {
  }

  lemma {:induction false} Swap(a: multiset<Tuple>, b: multiset<Tuple>, c: multiset<Tuple>)
    ensures (a + b) + c == (a + c) + b
  {
  }

  lemma {:induction false} AddLast(x: multiset<Tuple>, y: multiset<Tuple>, a: multiset<Tuple>, b: multiset<Tuple>,
                                   last: multiset<Tuple>)
    requires x + a == y + b
    ensures (x + last) + a == (y + last) + b
  {
    Swap(x, last, a);
    Swap(y, last, b);
  }

  lemma {:induction false} Cancel(a: multiset<Tuple>, b: multiset<Tuple>, c: multiset<Tuple>)
    requires a + c == b + c
    ensures a == b
  {
    assert a == (a + c) - c && b == (b + c) - c;
  }

  lemma {:induction false} LivePushNew(pages: seq<Page>)
    ensures Live(pages + [New]) == Live(pages)
  {
    assert (pages + [New])[..|pages|] == pages;
  }

  /** Placing a tuple on a page keeps the balance. */
  lemma {:induction false} PlacedConserves(s: State, p: nat, blk: nat, page: Page, t: Tuple)
    requires Conserved(s) && blk < |s.pages| && page == Data(false, ItemsOf(s.pages[blk]) + [t])
    ensures Conserved(Placed(s, p, blk, page, t))
  {
    var items, pages' := ItemsOf(s.pages[blk]), s.pages[blk := page];
    LiveUpdate(s.pages, blk, page);
    assert ItemsOf(page) == items + [t];
    assert multiset(items + [t]) == multiset(items) + multiset{t};
    hide Live, ItemsOf;
    var after, before, m := Live(pages'), Live(s.pages), multiset(items);
    assert after + m == (before + multiset{t}) + m;
    Cancel(after, before + multiset{t}, m);
    Swap(before, multiset{t}, s.removed);
  }

  /** Pages never vanish, and initialized pages stay initialized. */
  ghost predicate KeepsData(s: State, s': State) {
    |s.pages| <= |s'.pages| && forall b: nat :: IsData(s, b) ==> IsData(s', b)
  }

  ghost predicate KeepsNew(s: State, s': State) {
    forall b: nat :: b < |s.pages| && s.pages[b].New? ==> b < |s'.pages| && s'.pages[b].New?
  }

  /** A step that leaves the metapage's bounds alone disturbs no other insert. */
  lemma {:induction false} OthersGood(s: State, s': State, p: nat, q: nat)
    requires Inv(s) && q != p && ProcOf(s', q) == ProcOf(s, q)
    requires KeepsData(s, s') && KeepsNew(s, s') && s'.nStart == s.nStart
    requires s'.lock == s.lock || s.lock.None?
    ensures GoodProc(s', q)
  {
    hide Conserved, GoodList;
    assert GoodProc(s, q);
  }

  /** Only the holder of the metapage lock is past it, so what the holder does to
      the metapage disturbs no other insert. */
  lemma {:induction false} HolderOthers(s: State, s': State, p: nat, q: nat)
    requires Inv(s) && s.lock == Some(p) && q != p && ProcOf(s', q) == ProcOf(s, q) && KeepsData(s, s')
    ensures GoodProc(s', q)
  {
    hide Conserved, GoodList;
    assert GoodProc(s, q);
  }

  lemma {:induction false} PageChange(s: State, s': State, blk: nat, page: Page)
    requires blk < |s.pages| && s'.pages == s.pages[blk := page] && page.Data?
    ensures KeepsData(s, s') && (s.pages[blk].Data? ==> KeepsNew(s, s'))
  {
  }

  lemma {:induction false} ListKept(s: State, s': State)
    requires GoodList(s) && KeepsData(s, s')
    requires s.nStart <= s'.nStart <= s'.nEnd == s.nEnd && s'.notFull == s.notFull
    ensures GoodList(s')
  {
    hide IsData;
  }

  lemma {:induction false} VacKept(s: State, s': State)
    requires GoodVac(s) && KeepsData(s, s') && s'.vac == s.vac
    ensures GoodVac(s')
  {
    hide IsData;
  }

  lemma {:induction false} PagePush(s: State, s': State)
    requires s'.pages == s.pages + [New]
    ensures KeepsData(s, s') && KeepsNew(s, s')
  {
  }

  lemma {:induction false} MakeInv(s: State)
    requires GoodList(s) && GoodVac(s) && (forall p: nat :: GoodProc(s, p))
             && (forall b :: b in s.fsm ==> b < |s.pages|) && Conserved(s)
    ensures Inv(s)
  {
  }

  lemma {:induction false} OwnStep(l: Layout, s: State, step: Step)
    requires Inv(s) && Enabled(s, step) && (step.StartInsert? || step.LockMeta?)
    ensures Inv(Apply(l, s, step))
  {
    var s', p := Apply(l, s, step), step.p;
    assert s' == s.(procs := s'.procs, lock := s'.lock) && s'.procs == s.procs[p := ProcOf(s', p)] && s.lock.None?;
    assert GoodProc(s, p) && GoodProc(s', p);
    hide Apply, Enabled, Live;
    assert KeepsData(s, s') && KeepsNew(s, s') && GoodList(s') && GoodVac(s') && Conserved(s');
    hide KeepsData, KeepsNew, GoodList, GoodVac, Conserved, GoodProc;
    forall q: nat
      ensures GoodProc(s', q)
    {
      if q != p {
        OthersGood(s, s', p, q);
      }
    }
  }

  lemma {:induction false} QuietStep(l: Layout, s: State, step: Step)
    requires Inv(s) && Enabled(s, step) && (step.RecordFree? || step.VacuumStart?)
    ensures Inv(Apply(l, s, step))
  {
    var s' := Apply(l, s, step);
    assert s' == s.(fsm := s'.fsm, vac := s'.vac) && GoodVac(s') && forall b :: b in s'.fsm ==> b < |s'.pages|;
    hide Apply, Enabled, Live;
    forall q: nat
      ensures GoodProc(s', q)
    {
      assert GoodProc(s, q);
    }
  }

  lemma {:induction false} FirstTryStep(l: Layout, s: State, p: nat)
    requires Inv(s) && Enabled(s, FirstTry(p))
    ensures Inv(Apply(l, s, FirstTry(p)))
  {
    assert GoodProc(s, p);
    var Chosen(t, blk) := ProcOf(s, p);
    var r, s' := Added(l, s.pages[blk], t), Apply(l, s, FirstTry(p));
    if r.Some? {
      PlacedConserves(s, p, blk, r.value, t);
      PageChange(s, s', blk, r.value);
    }
    assert KeepsData(s, s') && KeepsNew(s, s') && Conserved(s');
    assert s'.nStart == s.nStart && s'.lock == s.lock && forall q: nat :: q != p ==> ProcOf(s', q) == ProcOf(s, q);
    ListKept(s, s');
    VacKept(s, s');
    assert GoodProc(s', p) && forall b :: b in s'.fsm ==> b < |s'.pages|;
    hide *;
    forall q: nat
      ensures GoodProc(s', q)
    {
      if q != p {
        OthersGood(s, s', p, q);
      }
    }
    MakeInv(s');
  }

  lemma {:induction false} RetryStep(l: Layout, s: State, p: nat)
    requires Inv(s) && Enabled(s, RetryPage(p))
    ensures Inv(Apply(l, s, RetryPage(p)))
  {
    assert GoodProc(s, p);
    var Holding(t, at) := ProcOf(s, p);
    var blk := s.notFull[at];
    assert IsData(s, blk);
    var r, s' := Added(l, s.pages[blk], t), Apply(l, s, RetryPage(p));
    if r.Some? {
      PlacedConserves(s, p, blk, r.value, t);
      PageChange(s, s', blk, r.value);
    }
    assert KeepsData(s, s') && Conserved(s') && forall q: nat :: q != p ==> ProcOf(s', q) == ProcOf(s, q);
    ListKept(s, s');
    VacKept(s, s');
    assert GoodProc(s', p) && s.lock == Some(p) && forall b :: b in s'.fsm ==> b < |s'.pages|;
    hide *;
    forall q: nat
      ensures GoodProc(s', q)
    {
      if q != p {
        HolderOthers(s, s', p, q);
      }
    }
    MakeInv(s');
  }

  lemma {:induction false} AloneStep(s: State, p: nat, blk: nat, t: Tuple)
    requires Inv(s) && s.lock == Some(p) && Reusable(s, blk)
    ensures Inv(PlacedAlone(s, p, blk, t))
  {
    var s' := PlacedAlone(s, p, blk, t);
    assert ItemsOf(s.pages[blk]) + [t] == [t];
    PlacedConserves(s, p, blk, Data(false, [t]), t);
    PageChange(s, s', blk, Data(false, [t]));
    assert Conserved(s') && s'.notFull[0] == blk && forall q: nat :: q != p ==> ProcOf(s', q) == ProcOf(s, q);
    assert GoodList(s');
    VacKept(s, s');
    assert GoodProc(s', p) && forall b :: b in s'.fsm ==> b < |s'.pages|;
    hide *;
    forall q: nat
      ensures GoodProc(s', q)
    {
      if q != p {
        HolderOthers(s, s', p, q);
      }
    }
    MakeInv(s');
  }

  lemma {:induction false} NewPageStep(l: Layout, s: State, step: Step)
    requires Inv(s) && Enabled(s, step) && (step.Recycle? || step.FillNew?)
    ensures Inv(Apply(l, s, step))
  {
    assert GoodProc(s, step.p);
    if step.FillNew? {
      AloneStep(s, step.p, ProcOf(s, step.p).blk, ProcOf(s, step.p).t);
    } else {
      var s1 := s.(fsm := s.fsm - {step.blk});
      LessFsm(s, s1);
      if !step.busy && Reusable(s, step.blk) {
        AloneStep(s1, step.p, step.blk, ProcOf(s, step.p).t);
      }
    }
  }

  lemma {:induction false} LessFsm(s: State, s1: State)
    requires Inv(s) && s1 == s.(fsm := s1.fsm) && s1.fsm <= s.fsm
    ensures Inv(s1)
  {
    hide Live;
    forall q: nat
      ensures GoodProc(s1, q)
    {
      assert GoodProc(s, q);
    }
  }

  lemma {:induction false} ExtendStep(l: Layout, s: State, p: nat)
    requires Inv(s) && Enabled(s, Extend(p))
    ensures Inv(Apply(l, s, Extend(p)))
  {
    assert GoodProc(s, p);
    var s' := Apply(l, s, Extend(p));
    assert s' == s.(pages := s.pages + [New], procs := s.procs[p := Extended(ProcOf(s, p).t, |s.pages|)]);
    hide Apply, Enabled;
    LivePushNew(s.pages);
    PagePush(s, s');
    assert Conserved(s');
    hide Conserved, Live;
    ListKept(s, s');
    VacKept(s, s');
    assert forall q: nat :: q != p ==> ProcOf(s', q) == ProcOf(s, q);
    assert GoodProc(s', p) && s.lock == Some(p) && forall b :: b in s'.fsm ==> b < |s'.pages|;
    hide *;
    forall q: nat
      ensures GoodProc(s', q)
    {
      if q != p {
        HolderOthers(s, s', p, q);
      }
    }
    MakeInv(s');
  }

  lemma {:induction false} VacuumStep(l: Layout, s: State, blk: nat, dead: Dead)
    requires Inv(s) && Enabled(s, VacuumPage(blk, dead))
    ensures Inv(Apply(l, s, VacuumPage(blk, dead)))
  {
    var s' := Apply(l, s, VacuumPage(blk, dead));
    VacuumConserves(s, blk, dead);
    PageChange(s, s', blk, Vacuumed(s.pages[blk], dead));
    assert Conserved(s') && forall q: nat :: ProcOf(s', q) == ProcOf(s, q);
    ListKept(s, s');
    VacNoted(l, s, s', blk, Vacuumed(s.pages[blk], dead));
    assert s'.fsm == s.fsm && |s.pages| == |s'.pages| && s'.nStart == s.nStart && s'.lock == s.lock;
    assert forall b :: b in s'.fsm ==> b < |s'.pages|;
    hide *;
    forall q: nat
      ensures GoodProc(s', q)
    {
      OthersGood(s, s', q + 1, q);
    }
    MakeInv(s');
  }

  lemma {:induction false} VacNoted(l: Layout, s: State, s': State, blk: nat, page: Page)
    requires GoodVac(s) && KeepsData(s, s') && IsData(s, blk) && page.Data? && s'.vac == Noted(l, s.vac, blk, page)
    ensures GoodVac(s')
  {
    hide IsData, Fits;
  }

  lemma {:induction false} VacuumConserves(s: State, blk: nat, dead: Dead)
    requires Conserved(s) && IsData(s, blk) && !s.pages[blk].deleted
    ensures var p := s.pages[blk];
            Live(s.pages[blk := Vacuumed(p, dead)]) + (s.removed + multiset(Removed(p.items, dead))) == s.inserted
  {
    var p, q := s.pages[blk], Vacuumed(s.pages[blk], dead);
    LiveUpdate(s.pages, blk, q);
    KeptAndRemoved(p.items, dead);
    assert ItemsOf(q) == Kept(p.items, dead) && ItemsOf(p) == p.items;
    hide Live, Kept, Removed, Vacuumed;
    var after, before, kept, gone := Live(s.pages[blk := q]), Live(s.pages), multiset(ItemsOf(q)),
      multiset(Removed(p.items, dead));
    assert (after + gone) + kept == before + kept by { Swap(after, kept, gone); }
    Cancel(after + gone, before, kept);
    assert after + (s.removed + gone) == (after + gone) + s.removed;
  }

  lemma {:induction false} VacuumMetaStep(l: Layout, s: State)
    requires Inv(s) && Enabled(s, VacuumMeta)
    ensures Inv(Apply(l, s, VacuumMeta))
  {
    var s' := Apply(l, s, VacuumMeta);
    hide Live;
    ListedFirst(s.vac, s.notFull);
    forall q: nat
      ensures GoodProc(s', q)
    {
      assert GoodProc(s, q);
    }
  }

  lemma {:induction false} ListedFirst(list: seq<nat>, old_: seq<nat>)
    ensures |Overlay(list, old_)| >= |list| && forall k :: 0 <= k < |list| ==> Overlay(list, old_)[k] == list[k]
  {
  }

  /** Every step of every participant keeps the invariant. */
  lemma {:induction false} StepKeepsInv(l: Layout, s: State, step: Step)
    requires Inv(s) && Enabled(s, step)
    ensures Inv(Apply(l, s, step))
  {
    hide Inv, Enabled, Apply;
    match step
    case StartInsert(_, _) => OwnStep(l, s, step);
    case LockMeta(_) => OwnStep(l, s, step);
    case RecordFree(_) => QuietStep(l, s, step);
    case FirstTry(p) => FirstTryStep(l, s, p);
    case RetryPage(p) => RetryStep(l, s, p);
    case Recycle(_, _, _) => NewPageStep(l, s, step);
    case FillNew(_) => NewPageStep(l, s, step);
    case Extend(p) => ExtendStep(l, s, p);
    case VacuumPage(blk, dead) => VacuumStep(l, s, blk, dead);
    case VacuumStart => QuietStep(l, s, step);
    case VacuumMeta => VacuumMetaStep(l, s);
  }

  // ----- runs and scans -----

  /** Block 0 is the metapage. */
  predicate MetaFirst(s: State) {
    s.pages != [] && s.pages[0].Meta?
  }

  /** The index starts with the metapage and the pages a build made, and nothing
      in flight. */
  ghost predicate Initial(s: State) {
    && MetaFirst(s) && s.nStart == 0 == s.nEnd && s.fsm == {} && s.procs == map[] && s.lock.None? && s.vac == []
    && s.inserted == Live(s.pages) && s.removed == multiset{}
  }

  /** The index as blbuild leaves it: the metapage, then the pages it filled. */
  function Fresh(pages: seq<seq<Tuple>>, notFull: seq<nat>): State {
    State([Meta] + DataPages(pages), 0, 0, notFull, {}, map[], None, [], multiset(Flatten(pages)), multiset{})
  }

  function DataPages(pages: seq<seq<Tuple>>): (ps: seq<Page>)
    ensures |ps| == |pages| && forall i :: 0 <= i < |pages| ==> ps[i] == Data(false, pages[i])
  {
    seq(|pages|, i requires 0 <= i < |pages| => Data(false, pages[i]))
  }

  method BuildIndex(l: Layout, rows: seq<Tuple>) returns (s: State)
    requires GoodLayout(l)
    ensures Initial(s) && s.inserted == multiset(rows)
  {
    var pages := Build(l, rows);
    FreshInitial(pages, []);
    s := Fresh(pages, []);
  }

  /** What was inserted is what the build was given. */
  lemma {:induction false} FreshInitial(pages: seq<seq<Tuple>>, notFull: seq<nat>)
    ensures Initial(Fresh(pages, notFull)) && Fresh(pages, notFull).inserted == multiset(Flatten(pages))
  {
    LiveFlat(pages);
    hide Live, Flatten, DataPages;
  }

  lemma {:induction false} LiveFlat(pages: seq<seq<Tuple>>)
    ensures Live([Meta] + DataPages(pages)) == multiset(Flatten(pages))
    decreases |pages|
  {
    hide *;
    if pages == [] {
      LiveMeta(pages);
    } else {
      var n := |pages| - 1;
      var init := pages[..n];
      assert pages == init + [pages[n]];
      LiveFlat(init);
      LivePush(init, pages[n]);
      FlattenPush(init, pages[n]);
      SumOf(Flatten(init), pages[n]);
    }
  }

  lemma {:induction false} LiveMeta(pages: seq<seq<Tuple>>)
    requires pages == []
    ensures Live([Meta] + DataPages(pages)) == multiset(Flatten(pages))
  {
    assert [Meta] + DataPages(pages) == [Meta];
    LiveLast([Meta]);
    assert [Meta][..0] == [];
  }

  lemma {:induction false} LivePush(init: seq<seq<Tuple>>, p: seq<Tuple>)
    ensures Live([Meta] + DataPages(init + [p])) == Live([Meta] + DataPages(init)) + multiset(p)
  {
    var ps := [Meta] + DataPages(init + [p]);
    assert ps[..|ps| - 1] == [Meta] + DataPages(init);
    assert ps[|ps| - 1] == Data(false, p);
    LiveLast(ps);
    hide Live, DataPages;
  }

  lemma {:induction false} SumOf(a: seq<Tuple>, b: seq<Tuple>)
    ensures multiset(a + b) == multiset(a) + multiset(b)
  {
  }

  /** A run of the system: any interleaving of enabled steps. */
  ghost predicate Run(l: Layout, states: seq<State>, steps: seq<Step>) {
    && |states| == |steps| + 1 && Initial(states[0])
    && forall i :: 0 <= i < |steps| ==> Leads(l, states[i], steps[i], states[i + 1])
  }

  ghost predicate Leads(l: Layout, s: State, step: Step, s': State) {
    Enabled(s, step) && s' == Apply(l, s, step)
  }

  lemma {:induction false} InitialInv(s: State)
    requires Initial(s)
    ensures Inv(s)
  {
  }

  /** Every state of every run satisfies the invariant. */
  lemma {:induction false} RunInv(l: Layout, states: seq<State>, steps: seq<Step>, i: nat)
    requires Run(l, states, steps) && i < |states|
    ensures Inv(states[i])
  {
    if i == 0 {
      InitialInv(states[0]);
    } else {
      RunInv(l, states, steps, i - 1);
      assert Leads(l, states[i - 1], steps[i - 1], states[i]);
      hide Inv, Enabled, Apply, Initial;
      StepKeepsInv(l, states[i - 1], steps[i - 1]);
    }
  }

  /** No step overwrites the metapage with a page of tuples. */
  lemma {:induction false} StepKeepsMeta(l: Layout, s: State, step: Step)
    requires Inv(s) && Enabled(s, step) && MetaFirst(s)
    ensures MetaFirst(Apply(l, s, step))
  {
    hide Live, Conserved;
    if step.FirstTry? || step.FillNew? || step.RetryPage? {
      InsertKeepsMeta(l, s, step);
    } else {
      hide Inv;
    }
  }

  lemma {:induction false} InsertKeepsMeta(l: Layout, s: State, step: Step)
    requires Inv(s) && Enabled(s, step) && MetaFirst(s) && (step.FirstTry? || step.FillNew? || step.RetryPage?)
    ensures MetaFirst(Apply(l, s, step))
  {
    hide Live, Conserved, Added;
    assert GoodProc(s, step.p);
    var proc := ProcOf(s, step.p);
    var blk := if step.RetryPage? then s.notFull[proc.at] else proc.blk;
    assert blk != 0 by {
      assert step.RetryPage? ==> IsData(s, s.notFull[proc.at]);
    }
    hide Inv;
  }

  lemma {:induction false} RunMeta(l: Layout, states: seq<State>, steps: seq<Step>, i: nat)
    requires Run(l, states, steps) && i < |states|
    ensures MetaFirst(states[i])
  {
    if i > 0 {
      hide *;
      RunLeads(l, states, steps, i - 1);
      RunMeta(l, states, steps, i - 1);
      RunInv(l, states, steps, i - 1);
      LeadKeepsMeta(l, states[i - 1], steps[i - 1], states[i]);
    }
  }

  lemma {:induction false} LeadKeepsMeta(l: Layout, s: State, step: Step, s': State)
    requires Inv(s) && Leads(l, s, step, s') && MetaFirst(s)
    ensures MetaFirst(s')
  {
    hide Apply, Inv, Enabled;
    StepKeepsMeta(l, s, step);
  }

  /** In every reachable state the tuples on live pages are what was inserted
      minus what vacuum removed. */
  lemma {:induction false} RunConserves(l: Layout, states: seq<State>, steps: seq<Step>, i: nat)
    requires Run(l, states, steps) && i < |states|
    ensures Live(states[i].pages) == states[i].inserted - states[i].removed
    ensures states[i].removed <= states[i].inserted
  {
    RunInv(l, states, steps, i);
    hide Live;
    assert Live(states[i].pages) == (Live(states[i].pages) + states[i].removed) - states[i].removed;
  }

  ghost predicate OnPage(s: State, blk: nat, t: Tuple) {
    blk < |s.pages| && t in ItemsOf(s.pages[blk])
  }

  ghost predicate Removes(step: Step, t: Tuple) {
    step.VacuumPage? && step.dead(t.tid)
  }

  /** A page written with the tuples it had and more keeps them all. */
  lemma {:induction false} WriteKeeps(s: State, s': State, at: nat, page: Page, blk: nat, t: Tuple)
    requires at < |s.pages| && s'.pages == SetPage(s.pages, at, page) && OnPage(s, blk, t)
    requires t in ItemsOf(s.pages[at]) ==> t in ItemsOf(page)
    ensures OnPage(s', blk, t)
  {
  }

  /** A tuple stays on its page until vacuum is told that its row is dead. */
  lemma {:induction false} StepKeepsTuple(l: Layout, s: State, step: Step, blk: nat, t: Tuple)
    requires Inv(s) && Enabled(s, step) && OnPage(s, blk, t) && !Removes(step, t)
    ensures OnPage(Apply(l, s, step), blk, t)
  {
    var s' := Apply(l, s, step);
    match step
    case VacuumPage(at, dead) =>
      KeptIs(s.pages[at].items, dead, t);
      hide Live, Kept, Inv;
      WriteKeeps(s, s', at, Vacuumed(s.pages[at], dead), blk, t);
    case FirstTry(p) => TryKeeps(l, s, step, blk, t);
    case RetryPage(p) => TryKeeps(l, s, step, blk, t);
    case FillNew(p) =>
      assert GoodProc(s, p);
      hide Live, Inv;
      WriteKeeps(s, s', ProcOf(s, p).blk, Data(false, [ProcOf(s, p).t]), blk, t);
    case Recycle(p, at, busy) =>
      hide Live, Inv;
      if !busy && Reusable(s, at) {
        WriteKeeps(s, s', at, Data(false, [ProcOf(s, p).t]), blk, t);
      }
    case Extend(p) =>
    case StartInsert(_, _) =>
    case LockMeta(_) =>
    case VacuumStart =>
    case VacuumMeta =>
    case RecordFree(_) =>
  }

  lemma {:induction false} TryKeeps(l: Layout, s: State, step: Step, blk: nat, t: Tuple)
    requires Inv(s) && Enabled(s, step) && OnPage(s, blk, t) && (step.FirstTry? || step.RetryPage?)
    ensures OnPage(Apply(l, s, step), blk, t)
  {
    assert GoodProc(s, step.p);
    var proc := ProcOf(s, step.p);
    var at := if step.FirstTry? then proc.blk else s.notFull[proc.at];
    assert IsData(s, at);
    hide Live, Inv, OnPage, Added;
    InsertKeeps(l, s, Apply(l, s, step), at, proc.t, blk, t);
  }

  lemma {:induction false} InsertKeeps(l: Layout, s: State, s': State, at: nat, x: Tuple, blk: nat, t: Tuple)
    requires at < |s.pages| && OnPage(s, blk, t)
    requires var r := Added(l, s.pages[at], x);
             s'.pages == if r.Some? then SetPage(s.pages, at, r.value) else s.pages
    ensures OnPage(s', blk, t)
  {
    var r := Added(l, s.pages[at], x);
    if r.Some? {
      WriteKeeps(s, s', at, r.value, blk, t);
    }
  }

  lemma {:induction false} LeadKeepsTuple(l: Layout, s: State, step: Step, s': State, blk: nat, t: Tuple)
    requires Inv(s) && Leads(l, s, step, s') && OnPage(s, blk, t) && !Removes(step, t)
    ensures OnPage(s', blk, t)
  {
    hide OnPage, Apply, Inv, Enabled;
    StepKeepsTuple(l, s, step, blk, t);
  }

  lemma {:induction false} RunLeads(l: Layout, states: seq<State>, steps: seq<Step>, k: nat)
    requires Run(l, states, steps) && k < |steps|
    ensures k + 1 < |states| && Leads(l, states[k], steps[k], states[k + 1])
  {
    hide Leads, Initial;
  }

  ghost predicate Spared(l: Layout, states: seq<State>, steps: seq<Step>, i: nat, j: nat, t: Tuple) {
    Run(l, states, steps) && i <= j < |states| && forall k :: i <= k < j ==> !Removes(steps[k], t)
  }

  lemma {:induction false} SparedLast(l: Layout, states: seq<State>, steps: seq<Step>, i: nat, j: nat, t: Tuple)
    requires Spared(l, states, steps, i, j, t) && i < j
    ensures Spared(l, states, steps, i, j - 1, t) && Run(l, states, steps) && |states| == |steps| + 1
    ensures !Removes(steps[j - 1], t)
  {
    hide Removes, Leads, Initial;
  }

  lemma {:induction false} TupleStays(l: Layout, states: seq<State>, steps: seq<Step>, i: nat, j: nat, blk: nat,
                                      t: Tuple)
    requires i <= j < |states| && Spared(l, states, steps, i, j, t) && OnPage(states[i], blk, t)
    ensures OnPage(states[j], blk, t)
  {
    hide *;
    if i < j {
      SparedLast(l, states, steps, i, j, t);
      TupleStays(l, states, steps, i, j - 1, blk, t);
      TupleStaysOnce(l, states, steps, j - 1, blk, t);
    }
  }

  lemma {:induction false} TupleStaysOnce(l: Layout, states: seq<State>, steps: seq<Step>, k: nat, blk: nat, t: Tuple)
    requires Run(l, states, steps) && |states| == |steps| + 1 && k < |steps|
    requires OnPage(states[k], blk, t) && !Removes(steps[k], t)
    ensures OnPage(states[k + 1], blk, t)
  {
    hide *;
    RunInv(l, states, steps, k);
    RunLeads(l, states, steps, k);
    LeadKeepsTuple(l, states[k], steps[k], states[k + 1], blk, t);
  }

  /** A tuple among the live ones is on some page. */
  lemma {:induction false} LiveOnPage(pages: seq<Page>, t: Tuple) returns (blk: nat)
    requires t in Live(pages)
    ensures blk < |pages| && t in ItemsOf(pages[blk])
  {
    var n := |pages| - 1;
    if t in ItemsOf(pages[n]) {
      blk := n;
    } else {
      assert t !in multiset(ItemsOf(pages[n]));
      blk := LiveOnPage(pages[..n], t);
    }
  }

  /** The scan of blgetbitmap over one page: the rows of the tuples whose
      signature has all bits of the scan's. */
  method ScanPage(p: Page, sign: Sign) returns (tids: seq<nat>)
    requires forall i :: 0 <= i < |ItemsOf(p)| ==> |ItemsOf(p)[i].sign| == |sign|
    ensures forall x :: x in tids <==> exists t :: t in ItemsOf(p) && Covers(t.sign, sign) && t.tid == x
  {
    tids := [];
    if p.Data? && !p.deleted {
      assert ItemsOf(p) == p.items;
      hide Covers;
      for offset := 0 to |p.items|
        invariant forall x :: x in tids <==>
                  exists k :: 0 <= k < offset && Covers(p.items[k].sign, sign) && p.items[k].tid == x
      {
        var res := Test(p.items[offset].sign, sign);
        if res {
          tids := tids + [p.items[offset].tid];
        }
      }
    }
  }

  /** What a scan returns that reads each page `b` at time `when[b]`, while other
      steps go on; the metapage is block 0. */
  ghost predicate ScanReturns(states: seq<State>, when: seq<nat>, sign: Sign, tid: nat) {
    exists b, t :: 1 <= b < |when| && when[b] < |states| && OnPage(states[when[b]], b, t)
                   && Covers(t.sign, sign) && t.tid == tid
  }

  /** A concurrent scan returns every row that was in the index when it began,
      is not vacuumed before it ends, and agrees with the scan keys. */
  lemma {:induction false} ScanComplete(l: Layout, states: seq<State>, steps: seq<Step>, start: nat, end: nat,
                                        when: seq<nat>, o: Opts, row: Row, keys: seq<ScanKey>, odd: bv16, tid: nat)
    requires Run(l, states, steps) && start <= end < |states|
    requires |when| == |states[start].pages|
    requires forall b :: 1 <= b < |when| ==> start <= when[b] <= end
    requires GoodOpts(o) && |row| <= INDEX_MAX_KEYS && Agrees(row, keys)
    requires Tuple(tid, RowSign(o, row, odd)) in states[start].inserted - states[start].removed
    requires forall k :: start <= k < end ==> !Removes(steps[k], Tuple(tid, RowSign(o, row, odd)))
    ensures ScanReturns(states, when, KeysSign(o, keys, odd), tid)
  {
    var t, sign := Tuple(tid, RowSign(o, row, odd)), KeysSign(o, keys, odd);
    hide *;
    RunConserves(l, states, steps, start);
    RunMeta(l, states, steps, start);
    AgreeingRowPasses(o, row, keys, odd);
    var b := LiveOnPage(states[start].pages, t);
    NotMeta(states[start], b, t);
    MakeSpared(l, states, steps, start, when[b], t);
    TupleStays(l, states, steps, start, when[b], b, t);
    MakeReturns(states, when, sign, b, t);
  }

  lemma {:induction false} NotMeta(s: State, b: nat, t: Tuple)
    requires MetaFirst(s) && b < |s.pages| && t in ItemsOf(s.pages[b])
    ensures b >= 1 && OnPage(s, b, t)
  {
  }

  lemma {:induction false} MakeSpared(l: Layout, states: seq<State>, steps: seq<Step>, i: nat, j: nat, t: Tuple)
    requires Run(l, states, steps) && i <= j < |states|
    requires forall k :: i <= k < j ==> !Removes(steps[k], t)
    ensures Spared(l, states, steps, i, j, t)
  {
    hide Removes, Run;
  }

  lemma {:induction false} MakeReturns(states: seq<State>, when: seq<nat>, sign: Sign, b: nat, t: Tuple)
    requires 1 <= b < |when| && when[b] < |states| && OnPage(states[when[b]], b, t) && Covers(t.sign, sign)
    ensures ScanReturns(states, when, sign, t.tid)
  {
    hide OnPage, Covers;
  }
}
