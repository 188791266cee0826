/** What an insert or a vacuum does when nothing else runs: the steps of the
    transition system, put together, find the place the source describes. */
module BloomSolo {
  import opened Prelude
  import opened BloomSign
  import opened BloomPage
  import opened BloomSystem

  /** Steps that lead from one state to another. */
  ghost predicate Path(l: Layout, s: State, steps: seq<Step>, s': State)
    decreases |steps|
  {
    if steps == [] then s' == s
    else Enabled(s, steps[0]) && Path(l, Apply(l, s, steps[0]), steps[1..], s')
  }

  lemma {:induction false} PathFront(l: Layout, s: State, step: Step, steps: seq<Step>, s': State)
    requires Enabled(s, step) && Path(l, Apply(l, s, step), steps, s')
    ensures Path(l, s, [step] + steps, s')
  {
    assert ([step] + steps)[1..] == steps;
    hide Apply, Enabled;
  }

  predicate StepOf(step: Step, p: nat) {
    match step
    case StartInsert(q, _) => q == p
    case FirstTry(q) => q == p
    case LockMeta(q) => q == p
    case RetryPage(q) => q == p
    case Recycle(q, _, _) => q == p
    case Extend(q) => q == p
    case FillNew(q) => q == p
    case _ => false
  }

  ghost predicate Alone(steps: seq<Step>, p: nat) {
    forall i :: 0 <= i < |steps| ==> StepOf(steps[i], p)
  }

  // ----- insert -----

  /** The page at place `k` of the list has room. */
  predicate Room(l: Layout, s: State, k: nat) {
    k < s.nEnd && Fits(l, |ItemsOf(PageAt(s, Listed(s, k)))|)
  }

  predicate NoRoom(l: Layout, s: State, from: nat, to: nat) {
    forall k :: from <= k < to ==> !Room(l, s, k)
  }

  /** The tuple goes to the page at place `k`, which becomes the first of the list. */
  function InsertedAt(s: State, p: nat, k: nat, t: Tuple): State {
    var blk := Listed(s, k);
    s.(pages := SetPage(s.pages, blk, Data(false, ItemsOf(PageAt(s, blk)) + [t])), nStart := k, lock := None,
       procs := s.procs[p := Idle], inserted := s.inserted + multiset{t})
  }

  /** The tuple goes to a new page at the end, which becomes the whole list. */
  function InsertedNew(s: State, p: nat, t: Tuple): State {
    s.(pages := s.pages + [Data(false, [t])], nStart := 0, nEnd := 1, notFull := Overlay([|s.pages|], s.notFull),
       lock := None, procs := s.procs[p := Idle], inserted := s.inserted + multiset{t})
  }

  /** The first listed page with room takes the tuple; if there is none, and no free
      page is reused, a new page does. */
  ghost predicate TakesFirst(l: Layout, s: State, p: nat, from: nat, t: Tuple, s': State) {
    || (exists k: nat :: from <= k && Room(l, s, k) && NoRoom(l, s, from, k) && s' == InsertedAt(s, p, k, t))
    || (NoRoom(l, s, from, s.nEnd) && s' == InsertedNew(s, p, t))
  }

  lemma {:induction false} RetryRun(l: Layout, s: State, p: nat, t: Tuple, at: nat)
    returns (steps: seq<Step>, s': State)
    requires ProcOf(s, p) == Holding(t, at)
    ensures Path(l, s, steps, s') && Alone(steps, p) && TakesFirst(l, s, p, at, t, s')
    decreases s.nEnd - at
  {
    if at >= s.nEnd {
      steps, s' := NewRun(l, s, p, t, at);
    } else if Room(l, s, at) {
      s' := InsertedAt(s, p, at, t);
      steps := [RetryPage(p)];
      RetryTakes(l, s, p, t, at);
    } else {
      var s1 := s.(procs := s.procs[p := Holding(t, at + 1)]);
      var more;
      more, s' := RetryRun(l, s1, p, t, at + 1);
      steps := [RetryPage(p)] + more;
      RetryMisses(l, s, p, t, at);
      PathFront(l, s, RetryPage(p), more, s');
      LockKeeps(l, s, s1, p, at + 1, t, s');
      OneMore(l, s, p, at, t, s');
    }
  }

  lemma {:induction false} RetryTakes(l: Layout, s: State, p: nat, t: Tuple, at: nat)
    requires ProcOf(s, p) == Holding(t, at) && Room(l, s, at)
    ensures Path(l, s, [RetryPage(p)], InsertedAt(s, p, at, t))
  {
    assert Apply(l, s, RetryPage(p)) == InsertedAt(s, p, at, t);
    hide Apply;
    assert [RetryPage(p)][1..] == [];
  }

  lemma {:induction false} RetryMisses(l: Layout, s: State, p: nat, t: Tuple, at: nat)
    requires ProcOf(s, p) == Holding(t, at) && at < s.nEnd && !Room(l, s, at)
    ensures Enabled(s, RetryPage(p)) && Apply(l, s, RetryPage(p)) == s.(procs := s.procs[p := Holding(t, at + 1)])
  {
  }

  lemma {:induction false} NewRun(l: Layout, s: State, p: nat, t: Tuple, at: nat)
    returns (steps: seq<Step>, s': State)
    requires ProcOf(s, p) == Holding(t, at) && at >= s.nEnd
    ensures Path(l, s, steps, s') && Alone(steps, p) && TakesFirst(l, s, p, at, t, s')
  {
    steps, s' := [Extend(p), FillNew(p)], InsertedNew(s, p, t);
    var s1 := Apply(l, s, Extend(p));
    assert s1.pages == s.pages + [New] && ProcOf(s1, p) == Extended(t, |s.pages|);
    assert SetPage(s1.pages, |s.pages|, Data(false, [t])) == s.pages + [Data(false, [t])];
    assert s1.procs[p := Idle] == s.procs[p := Idle];
    assert Apply(l, s1, FillNew(p)) == s';
    assert Enabled(s, Extend(p)) && Enabled(s1, FillNew(p));
    hide Apply, Enabled;
    assert Path(l, s', [], s');
    PathFront(l, s1, FillNew(p), [], s');
    PathFront(l, s, Extend(p), [FillNew(p)] + [], s');
    assert steps == [Extend(p)] + ([FillNew(p)] + []);
    assert NoRoom(l, s, at, s.nEnd);
  }

  /** An insert that runs alone puts the tuple on the first listed page with room, or
      on a new page when none has. */
  lemma {:induction false} InsertAlone(l: Layout, s: State, p: nat, t: Tuple)
    returns (steps: seq<Step>, s': State)
    requires ProcOf(s, p).Idle? && s.lock.None? && s.nStart <= s.nEnd
    ensures Path(l, s, steps, s') && Alone(steps, p) && TakesFirst(l, s, p, s.nStart, t, s')
  {
    var s1 := Apply(l, s, StartInsert(p, t));
    if s.nStart < s.nEnd {
      var more;
      more, s' := FirstRun(l, s, s1, p, t);
      steps := [StartInsert(p, t)] + more;
      hide Apply, TakesFirst, Path;
      PathFront(l, s, StartInsert(p, t), more, s');
    } else {
      var s2 := Apply(l, s1, LockMeta(p));
      assert ProcOf(s2, p) == Holding(t, s.nStart) && s2 == s.(procs := s2.procs, lock := Some(p));
      assert s2.procs[p := Idle] == s.procs[p := Idle];
      assert Enabled(s1, LockMeta(p));
      hide Apply;
      var more;
      more, s' := RetryRun(l, s2, p, t, s.nStart);
      PathFront(l, s1, LockMeta(p), more, s');
      PathFront(l, s, StartInsert(p, t), [LockMeta(p)] + more, s');
      steps := [StartInsert(p, t)] + ([LockMeta(p)] + more);
      LockKeeps(l, s, s2, p, s.nStart, t, s');
    }
  }

  lemma {:induction false} LockKeeps(l: Layout, s: State, s2: State, p: nat, from: nat, t: Tuple, s': State)
    requires s2 == s.(procs := s2.procs, lock := s2.lock) && s2.procs[p := Idle] == s.procs[p := Idle]
    requires TakesFirst(l, s2, p, from, t, s')
    ensures TakesFirst(l, s, p, from, t, s')
  {
    forall k: nat
      ensures Room(l, s2, k) == Room(l, s, k) && InsertedAt(s2, p, k, t) == InsertedAt(s, p, k, t)
    {
    }
    assert InsertedNew(s2, p, t) == InsertedNew(s, p, t);
    hide Room, InsertedAt, InsertedNew;
    if k: nat :| from <= k && Room(l, s2, k) && NoRoom(l, s2, from, k) && s' == InsertedAt(s2, p, k, t) {
      assert NoRoom(l, s, from, k);
    } else {
      assert NoRoom(l, s, from, s.nEnd);
    }
  }

  /** The first page of the list is tried without the metapage, and not again. */
  lemma {:induction false} FirstRun(l: Layout, s: State, s1: State, p: nat, t: Tuple)
    returns (steps: seq<Step>, s': State)
    requires ProcOf(s, p).Idle? && s.lock.None? && s.nStart < s.nEnd && s1 == Apply(l, s, StartInsert(p, t))
    ensures Path(l, s1, steps, s') && Alone(steps, p) && TakesFirst(l, s, p, s.nStart, t, s')
  {
    var blk := Listed(s, s.nStart);
    assert ProcOf(s1, p) == Chosen(t, blk) && s1 == s.(procs := s1.procs);
    assert s1.procs[p := Idle] == s.procs[p := Idle];
    if Room(l, s, s.nStart) {
      steps, s' := [FirstTry(p)], InsertedAt(s, p, s.nStart, t);
      assert Apply(l, s1, FirstTry(p)) == s';
      hide Apply;
      assert [FirstTry(p)][1..] == [];
      assert NoRoom(l, s, s.nStart, s.nStart);
    } else {
      var s2 := Apply(l, s1, FirstTry(p));
      assert ProcOf(s2, p) == Missed(t, Some(blk)) && s2 == s.(procs := s2.procs);
      var s3 := Apply(l, s2, LockMeta(p));
      assert ProcOf(s3, p) == Holding(t, s.nStart + 1) && s3 == s.(procs := s3.procs, lock := Some(p));
      assert s3.procs[p := Idle] == s.procs[p := Idle];
      assert Enabled(s1, FirstTry(p)) && Enabled(s2, LockMeta(p));
      hide Apply, Enabled;
      var more;
      more, s' := RetryRun(l, s3, p, t, s.nStart + 1);
      PathFront(l, s2, LockMeta(p), more, s');
      PathFront(l, s1, FirstTry(p), [LockMeta(p)] + more, s');
      steps := [FirstTry(p)] + ([LockMeta(p)] + more);
      LockKeeps(l, s, s3, p, s.nStart + 1, t, s');
      OneMore(l, s, p, s.nStart, t, s');
    }
  }

  lemma {:induction false} OneMore(l: Layout, s: State, p: nat, from: nat, t: Tuple, s': State)
    requires TakesFirst(l, s, p, from + 1, t, s') && !Room(l, s, from)
    ensures TakesFirst(l, s, p, from, t, s')
  {
    hide Room, InsertedAt, InsertedNew;
    if k: nat :| from + 1 <= k && Room(l, s, k) && NoRoom(l, s, from + 1, k) && s' == InsertedAt(s, p, k, t) {
      assert NoRoom(l, s, from, k);
    } else {
      assert NoRoom(l, s, from, s.nEnd);
    }
  }

  /** When no listed page has room, a free page that is handed out and can be reused
      takes the tuple and becomes the whole list. */
  lemma {:induction false} FreePageTakes(l: Layout, s: State, p: nat, t: Tuple, at: nat, blk: nat)
    requires ProcOf(s, p) == Holding(t, at) && at >= s.nEnd && blk in s.fsm && Reusable(s, blk)
    ensures var s' := Apply(l, s, Recycle(p, blk, false));
            && s'.pages == s.pages[blk := Data(false, [t])] && s'.fsm == s.fsm - {blk} && s'.lock.None?
            && s'.nStart == 0 && s'.nEnd == 1 && s'.notFull[..1] == [blk] && ProcOf(s', p).Idle?
            && s'.inserted == s.inserted + multiset{t} && s'.removed == s.removed
  {
  }

  // ----- vacuum -----

  predicate Roomy(l: Layout, p: Page) {
    p.Data? && !p.deleted && p.items != [] && Fits(l, |p.items|)
  }

  /** The blocks below `n` whose pages keep tuples and have room, in order. */
  function RoomyBlocks(l: Layout, pages: seq<Page>, n: nat): seq<nat>
    requires n <= |pages|
  {
    if n == 0 then [] else RoomyBlocks(l, pages, n - 1) + if Roomy(l, pages[n - 1]) then [n - 1] else []
  }

  function AtMost(s: seq<nat>, n: nat): seq<nat> {
    if |s| <= n then s else s[..n]
  }

  /** A page without its dead tuples; one that loses all of them is marked deleted. */
  function Clean(p: Page, dead: Dead): Page {
    if p.Data? && !p.deleted then Vacuumed(p, dead) else p
  }

  lemma {:induction false} SameBlocks(l: Layout, pages: seq<Page>, qs: seq<Page>, n: nat)
    requires n <= |pages| && n <= |qs| && pages[..n] == qs[..n]
    ensures RoomyBlocks(l, pages, n) == RoomyBlocks(l, qs, n)
  {
    hide Roomy;
    if n > 0 {
      assert pages[n - 1] == pages[..n][n - 1] == qs[..n][n - 1] == qs[n - 1];
      assert pages[..n - 1] == pages[..n][..n - 1] && qs[..n - 1] == qs[..n][..n - 1];
      SameBlocks(l, pages, qs, n - 1);
    }
  }

  /** What is noted so far. */
  ghost predicate NotedSoFar(l: Layout, s: State, b: nat) {
    b <= |s.pages| && s.vac == AtMost(RoomyBlocks(l, s.pages, b), l.metaBlocks)
  }

  /** One page of the pass. */
  lemma {:induction false} VacuumOne(l: Layout, s: State, b: nat, dead: Dead)
    requires NotedSoFar(l, s, b) && b < |s.pages| && IsData(s, b) && !s.pages[b].deleted
    ensures Enabled(s, VacuumPage(b, dead))
    ensures var s' := Apply(l, s, VacuumPage(b, dead));
            && NotedSoFar(l, s', b + 1) && s'.pages == s.pages[b := Clean(s.pages[b], dead)]
            && s'.lock == s.lock && s'.procs == s.procs && s'.notFull == s.notFull
  {
    var s' := Apply(l, s, VacuumPage(b, dead));
    var page := Vacuumed(s.pages[b], dead);
    assert s'.pages == s.pages[b := page] && s'.vac == Noted(l, s.vac, b, page);
    hide Apply;
    assert s'.pages[..b] == s.pages[..b];
    SameBlocks(l, s.pages, s'.pages, b);
    NotedNext(l, RoomyBlocks(l, s.pages, b), b, page);
    assert page.deleted ==> page.items == [];
  }

  lemma {:induction false} NotedNext(l: Layout, blocks: seq<nat>, b: nat, page: Page)
    requires page.Data? && (page.deleted ==> page.items == [])
    ensures Noted(l, AtMost(blocks, l.metaBlocks), b, page) ==
            AtMost(blocks + if Roomy(l, page) then [b] else [], l.metaBlocks)
  {
    hide Fits;
  }

  lemma {:induction false} SkipOne(l: Layout, s: State, b: nat)
    requires NotedSoFar(l, s, b) && b < |s.pages| && !Roomy(l, s.pages[b])
    ensures NotedSoFar(l, s, b + 1)
  {
    hide Roomy;
    assert RoomyBlocks(l, s.pages, b) + [] == RoomyBlocks(l, s.pages, b);
  }

  lemma {:induction false} VacuumFrom(l: Layout, s: State, b: nat, dead: Dead) returns (steps: seq<Step>, s': State)
    requires NotedSoFar(l, s, b) && s.lock.None?
    ensures Path(l, s, steps, s') && |s'.pages| == |s.pages| && s'.pages[..b] == s.pages[..b]
    ensures forall i :: b <= i < |s.pages| ==> s'.pages[i] == Clean(s.pages[i], dead)
    ensures s'.nStart == 0 && s'.nEnd <= |s'.notFull|
    ensures s'.notFull[..s'.nEnd] == AtMost(RoomyBlocks(l, s'.pages, |s'.pages|), l.metaBlocks)
    decreases |s.pages| - b
  {
    if b == |s.pages| {
      steps, s' := [VacuumMeta], Apply(l, s, VacuumMeta);
      assert s'.notFull == Overlay(s.vac, s.notFull) && s'.nEnd == |s.vac| && s'.pages == s.pages;
      hide Apply, RoomyBlocks, AtMost;
      assert [VacuumMeta][1..] == [];
    } else if IsData(s, b) && !s.pages[b].deleted {
      VacuumOne(l, s, b, dead);
      var s1 := Apply(l, s, VacuumPage(b, dead));
      hide Apply, Enabled, RoomyBlocks, AtMost, Clean, NotedSoFar;
      var more;
      more, s' := VacuumFrom(l, s1, b + 1, dead);
      steps := [VacuumPage(b, dead)] + more;
      PathFront(l, s, VacuumPage(b, dead), more, s');
      Joined(s.pages, s1.pages, s'.pages, b, dead);
    } else {
      SkipOne(l, s, b);
      hide RoomyBlocks, AtMost, NotedSoFar;
      steps, s' := VacuumFrom(l, s, b + 1, dead);
      assert s.pages[b := Clean(s.pages[b], dead)] == s.pages;
      Joined(s.pages, s.pages, s'.pages, b, dead);
    }
  }

  lemma {:induction false} Joined(ps: seq<Page>, qs: seq<Page>, rs: seq<Page>, b: nat, dead: Dead)
    requires b < |ps| == |qs| == |rs| && qs == ps[b := Clean(ps[b], dead)] && rs[..b + 1] == qs[..b + 1]
    requires forall i :: b + 1 <= i < |ps| ==> rs[i] == Clean(qs[i], dead)
    ensures rs[..b] == ps[..b] && forall i :: b <= i < |ps| ==> rs[i] == Clean(ps[i], dead)
  {
    hide Clean;
    assert rs[b] == rs[..b + 1][b] == qs[..b + 1][b] == qs[b];
    assert rs[..b] == rs[..b + 1][..b] && qs[..b] == qs[..b + 1][..b];
  }

  /** A vacuum that runs alone removes the dead tuples from every page, and then the
      list names the first pages, as many as the metapage holds, that keep tuples
      and have room. */
  lemma {:induction false} VacuumAlone(l: Layout, s: State, dead: Dead) returns (steps: seq<Step>, s': State)
    requires s.lock.None?
    ensures Path(l, s, steps, s') && |s'.pages| == |s.pages|
    ensures forall i :: 0 <= i < |s.pages| ==> s'.pages[i] == Clean(s.pages[i], dead)
    ensures s'.nStart == 0 && s'.nEnd <= |s'.notFull|
    ensures s'.notFull[..s'.nEnd] == AtMost(RoomyBlocks(l, s'.pages, |s'.pages|), l.metaBlocks)
  {
    var s1 := Apply(l, s, VacuumStart);
    assert s1 == s.(vac := []) && NotedSoFar(l, s1, 0) && Enabled(s, VacuumStart);
    hide *;
    var more;
    more, s' := VacuumFrom(l, s1, 0, dead);
    PathFront(l, s, VacuumStart, more, s');
    steps := [VacuumStart] + more;
  }
}
