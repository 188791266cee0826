/** amcheck's walk over the levels of a B-tree in readonly mode: what follows
    when it raises no error. */
module BtreeCheck {
  import opened Prelude
  import opened BtreeOrder

  /** Block 0 is the metapage; as a link it means that there is no page. */
  const P_NONE := 0
  const INVALID_BLOCK := 0xFFFF_FFFF

  /** A page: sibling links, level, flags, the high key (unless rightmost), the
      data items, and the downlinks of the items of an internal page. */
  datatype Page = Page(prev: nat, next: nat, level: nat, isLeaf: bool, isRoot: bool, deleted: bool, halfDead: bool,
                       highKey: Option<Item>, items: seq<Item>, downs: seq<nat>)

  type Index = map<nat, Page>

  function Down(p: Page, i: nat): nat {
    if i < |p.downs| then p.downs[i] else P_NONE
  }

  /** What palloc_btree_page accepts. */
  predicate CanRead(ix: Index, b: nat) {
    b in ix &&
    (ix[b].deleted ||
     (&& (ix[b].isLeaf <==> ix[b].level == 0)
      && (!ix[b].isLeaf ==> ix[b].items != [] && !ix[b].halfDead)
      && (ix[b].next != P_NONE ==> ix[b].highKey.Some?)))
  }

  // ----- checking one page -----

  /** The first item of an internal page is minus infinity. */
  predicate NegativeInfinity(p: Page, i: nat) {
    !p.isLeaf && i == 0
  }

  predicate PivotAtts(it: Item, n: nat) {
    Proper(it, n) && it.atts != []
  }

  /** _bt_check_natts for the data items of a heapkeyspace index. */
  predicate ItemAtts(p: Page, i: nat, n: nat)
    requires i < |p.items|
  {
    if p.isLeaf then |p.items[i].atts| == n && p.items[i].tid.Some?
    else if i == 0 then p.items[i] == Item([], None)
    else PivotAtts(p.items[i], n)
  }

  /** The items that can be compared: all but minus infinity. */
  function Comparable(p: Page): seq<Item> {
    if p.isLeaf || p.items == [] then p.items else p.items[1..]
  }

  // ----- the loop over ignorable pages to the right -----

  predicate Ignorable(p: Page) {
    p.deleted || p.halfDead
  }

  /** bt_right_page_check_scankey passes over such a page. */
  predicate Skips(ix: Index, b: nat) {
    CanRead(ix, b) && Ignorable(ix[b]) && ix[b].next != P_NONE
  }

  /** Where its loop stands after `k` turns. */
  function SkipAfter(ix: Index, b: nat, k: nat): nat {
    if k == 0 then b
    else
      var c := SkipAfter(ix, b, k - 1);
      if Skips(ix, c) then ix[c].next else c
  }

  /** Right links followed from `b` over pages that are passed over. */
  ghost predicate SkipRun(ix: Index, b: nat, path: seq<nat>) {
    && path != [] && path[0] == b
    && forall i :: 0 <= i < |path| - 1 ==> Skips(ix, path[i]) && ix[path[i]].next == path[i + 1]
  }

  /** The run of ignorable pages that starts at `b` comes back to one of them. */
  ghost predicate Circles(ix: Index, b: nat) {
    exists path :: SkipRun(ix, b, path) && path[|path| - 1] in path[..|path| - 1]
  }

  lemma {:induction false} RunIs(ix: Index, b: nat, path: seq<nat>, k: nat)
    requires path != [] && SkipRun(ix, b, path) && k < |path|
    ensures SkipAfter(ix, b, k) == path[k]
  {
    if k > 0 {
      RunIs(ix, b, path, k - 1);
    }
    hide Skips;
  }

  /** On a circle every turn is followed by another. */
  lemma {:induction false} CircleGoesOn(ix: Index, b: nat, path: seq<nat>, k: nat) returns (t: nat)
    requires path != [] && SkipRun(ix, b, path) && path[|path| - 1] in path[..|path| - 1]
    ensures t < |path| - 1 && SkipAfter(ix, b, k) == path[t] && Skips(ix, path[t])
  {
    hide Skips;
    if k == 0 {
      t := 0;
    } else {
      t := CircleGoesOn(ix, b, path, k - 1);
      t := t + 1;
      if t == |path| - 1 {
        t :| 0 <= t < |path| - 1 && path[t] == path[|path| - 1];
      }
    }
  }

  /** A run either stops or comes back, since there are finitely many pages. */
  lemma {:induction false} StopOrCircle(ix: Index, b: nat, path: seq<nat>, seen: set<nat>) returns (k: nat)
    requires path != [] && SkipRun(ix, b, path) && forall x :: x in seen <==> x in path[..|path| - 1]
    requires !Circles(ix, b)
    ensures !Skips(ix, SkipAfter(ix, b, k))
    decreases ix.Keys - seen
  {
    hide *;
    var last := path[|path| - 1];
    RunIs(ix, b, path, |path| - 1);
    if Skips(ix, last) {
      RunOn(ix, b, path);
      if last in seen {
        MakeCircle(ix, b, path);
      }
      assert last in ix.Keys - seen;
      k := StopOrCircle(ix, b, path + [ix[last].next], seen + {last});
    } else {
      k := |path| - 1;
    }
  }

  /** The loop ends exactly when the run has no circle. */
  lemma {:induction false} SkipEndsExactly(ix: Index, b: nat)
    ensures (exists k: nat :: !Skips(ix, SkipAfter(ix, b, k))) <==> !Circles(ix, b)
  {
    hide Skips;
    if Circles(ix, b) {
      var path :| SkipRun(ix, b, path) && path[|path| - 1] in path[..|path| - 1];
      forall k: nat
        ensures Skips(ix, SkipAfter(ix, b, k))
      {
        var t := CircleGoesOn(ix, b, path, k);
      }
    } else {
      var k := StopOrCircle(ix, b, [b], {});
    }
  }

  /** It stops at one page only. */
  lemma {:induction false} StopUnique(ix: Index, b: nat, i: nat, j: nat)
    requires !Skips(ix, SkipAfter(ix, b, i)) && i <= j
    ensures SkipAfter(ix, b, j) == SkipAfter(ix, b, i)
  {
    hide Skips;
    if i < j {
      StopUnique(ix, b, i, j - 1);
    }
  }

  /** At the page where the loop stops: it can be read, and its first comparable
      item, if any, is above the given one. */
  predicate RightAt(ix: Index, s: nat, last: Item) {
    && !Skips(ix, s) && CanRead(ix, s)
    && (Comparable(ix[s]) != [] ==> InvariantG(Comparable(ix[s])[0], last))
  }

  /** The last item check succeeds. */
  ghost predicate RightOk(ix: Index, next: nat, last: Item) {
    exists k: nat :: RightAt(ix, SkipAfter(ix, next, k), last)
  }

  datatype Verdict = Fine | Wrong | Endless

  /** The last item check with the loop of bt_right_page_check_scankey. Where that
      loop comes back to a page it goes on for ever, which is the third outcome. */
  method RightCheck(ix: Index, next: nat, last: Item) returns (v: Verdict)
    ensures v.Fine? <==> RightOk(ix, next, last)
    ensures v.Endless? <==> Circles(ix, next)
  {
    var targetnext, seen := next, {};
    ghost var path := [next];
    SkipEndsExactly(ix, next);
    hide *;
    RunStart(ix, next);
    while Skips(ix, targetnext)
      invariant path != [] && SkipRun(ix, next, path) && path[|path| - 1] == targetnext
      invariant forall x :: x in seen <==> x in path[..|path| - 1]
      decreases ix.Keys - seen
    {
      SkipsIn(ix, targetnext);
      if targetnext in seen {
        MakeCircle(ix, next, path);
        NotFine(ix, next, last);
        return Endless;
      }
      assert targetnext in ix.Keys - seen;
      RunOn(ix, next, path);
      seen := seen + {targetnext};
      targetnext := ix[targetnext].next;
      path := path + [targetnext];
    }
    RunIs(ix, next, path, |path| - 1);
    RightStops(ix, next, last, |path| - 1);
    v := if RightAt(ix, targetnext, last) then Fine else Wrong;
  }

  lemma {:induction false} RunStart(ix: Index, b: nat)
    ensures SkipRun(ix, b, [b])
  {
  }

  lemma {:induction false} SkipsIn(ix: Index, b: nat)
    requires Skips(ix, b)
    ensures b in ix
  {
  }

  lemma {:induction false} RunOn(ix: Index, b: nat, path: seq<nat>)
    requires path != [] && SkipRun(ix, b, path) && Skips(ix, path[|path| - 1])
    ensures path[|path| - 1] in ix && SkipRun(ix, b, path + [ix[path[|path| - 1]].next])
    ensures (path + [ix[path[|path| - 1]].next])[..|path|] == path[..|path| - 1] + [path[|path| - 1]]
  {
  }

  lemma {:induction false} MakeCircle(ix: Index, b: nat, path: seq<nat>)
    requires path != [] && SkipRun(ix, b, path) && path[|path| - 1] in path[..|path| - 1]
    ensures Circles(ix, b)
  {
  }

  lemma {:induction false} NotFine(ix: Index, b: nat, last: Item)
    requires Circles(ix, b)
    ensures !RightOk(ix, b, last)
  {
    hide Skips, SkipAfter, Circles;
    SkipEndsExactly(ix, b);
    assert forall k: nat :: !RightAt(ix, SkipAfter(ix, b, k), last);
  }

  lemma {:induction false} RightStops(ix: Index, b: nat, last: Item, k: nat)
    requires !Skips(ix, SkipAfter(ix, b, k))
    ensures RightOk(ix, b, last) <==> RightAt(ix, SkipAfter(ix, b, k), last)
    ensures !Circles(ix, b)
  {
    SkipEndsExactly(ix, b);
    if RightOk(ix, b, last) {
      var j: nat :| RightAt(ix, SkipAfter(ix, b, j), last);
      if j <= k {
        StopUnique(ix, b, j, k);
      } else {
        StopUnique(ix, b, k, j);
      }
    }
    hide *;
  }

  // ----- all checks of a page -----

  /** The high key and item order checks of bt_target_page_check. */
  predicate InOrder(p: Page, i: nat)
    requires i < |p.items| && (p.next != P_NONE ==> p.highKey.Some?)
  {
    && (p.next != P_NONE ==>
          if p.isLeaf then InvariantLeq(p.items[i], p.highKey.value) else InvariantL(p.items[i], p.highKey.value))
    && (i + 1 < |p.items| ==> InvariantL(p.items[i], p.items[i + 1]))
  }

  /** The last item check is made for this item. */
  predicate LooksRight(p: Page, i: nat) {
    i + 1 == |p.items| && p.next != P_NONE
  }

  /** What bt_downlink_check accepts: the key is below every comparable item of
      the child. */
  ghost predicate ChildAbove(ix: Index, key: Item, child: nat) {
    && CanRead(ix, child) && !ix[child].deleted
    && forall k :: 0 <= k < |Comparable(ix[child])| ==> InvariantL(key, Comparable(ix[child])[k])
  }

  /** All checks of one data item. */
  ghost predicate ItemOk(ix: Index, p: Page, i: nat, n: nat)
    requires i < |p.items| && (p.next != P_NONE ==> p.highKey.Some?)
  {
    && ItemAtts(p, i, n)
    && (NegativeInfinity(p, i) ||
        (&& InOrder(p, i) && (LooksRight(p, i) ==> RightOk(ix, p.next, p.items[i]))
         && (!p.isLeaf ==> ChildAbove(ix, p.items[i], Down(p, i)))))
  }

  /** The check of an item does not end. */
  ghost predicate ItemEndless(ix: Index, p: Page, i: nat, n: nat)
    requires i < |p.items| && (p.next != P_NONE ==> p.highKey.Some?)
  {
    ItemAtts(p, i, n) && !NegativeInfinity(p, i) && InOrder(p, i) && LooksRight(p, i) && Circles(ix, p.next)
  }

  ghost predicate PageOk(ix: Index, p: Page, n: nat)
    requires p.next != P_NONE ==> p.highKey.Some?
  {
    (p.next != P_NONE ==> PivotAtts(p.highKey.value, n)) && forall i :: 0 <= i < |p.items| ==> ItemOk(ix, p, i, n)
  }

  /** The check of a page reaches its last item, looks to the right and does not
      end there. */
  ghost predicate PageEndless(ix: Index, p: Page, n: nat)
    requires p.next != P_NONE ==> p.highKey.Some?
  {
    && (p.next != P_NONE ==> PivotAtts(p.highKey.value, n)) && p.items != []
    && (forall i :: 0 <= i < |p.items| - 1 ==> ItemOk(ix, p, i, n)) && ItemEndless(ix, p, |p.items| - 1, n)
  }

  /** bt_downlink_check */
  method DownlinkCheck(ix: Index, key: Item, child: nat) returns (ok: bool)
    ensures ok <==> ChildAbove(ix, key, child)
  {
    if !CanRead(ix, child) || ix[child].deleted {
      return false;
    }
    var items := Comparable(ix[child]);
    hide InvariantL;
    for offset := 0 to |items|
      invariant forall k :: 0 <= k < offset ==> InvariantL(key, items[k])
    {
      if !InvariantL(key, items[offset]) {
        return false;
      }
    }
    return true;
  }

  /** bt_target_page_check */
  method TargetPageCheck(ix: Index, b: nat, n: nat) returns (v: Verdict)
    requires CanRead(ix, b) && !ix[b].deleted
    ensures v.Fine? <==> PageOk(ix, ix[b], n)
    ensures v.Endless? <==> PageEndless(ix, ix[b], n)
  {
    var p := ix[b];
    if p.next != P_NONE && !PivotAtts(p.highKey.value, n) {
      return Wrong;
    }
    hide ItemOk, ItemEndless;
    for offset := 0 to |p.items|
      invariant forall i :: 0 <= i < offset ==> ItemOk(ix, p, i, n)
    {
      v := CheckItem(ix, p, offset, n);
      ItemEnds(ix, p, |p.items| - 1, n);
      EndlessIsLast(ix, p, offset, n);
      if !v.Fine? {
        return;
      }
    }
    if p.items != [] {
      ItemEnds(ix, p, |p.items| - 1, n);
    }
    v := Fine;
  }

  lemma {:induction false} ItemEnds(ix: Index, p: Page, i: nat, n: nat)
    requires i < |p.items| && (p.next != P_NONE ==> p.highKey.Some?)
    ensures ItemOk(ix, p, i, n) ==> !ItemEndless(ix, p, i, n)
  {
    if Circles(ix, p.next) {
      NotFine(ix, p.next, p.items[i]);
    }
  }

  lemma {:induction false} EndlessIsLast(ix: Index, p: Page, i: nat, n: nat)
    requires i < |p.items| && (p.next != P_NONE ==> p.highKey.Some?)
    ensures ItemEndless(ix, p, i, n) ==> i == |p.items| - 1
  {
  }

  method CheckItem(ix: Index, p: Page, i: nat, n: nat) returns (v: Verdict)
    requires i < |p.items| && (p.next != P_NONE ==> p.highKey.Some?)
    ensures v.Fine? <==> ItemOk(ix, p, i, n)
    ensures v.Endless? <==> ItemEndless(ix, p, i, n)
  {
    hide ItemAtts, InOrder, ChildAbove, RightOk, Circles;
    if !ItemAtts(p, i, n) {
      return Wrong;
    }
    if NegativeInfinity(p, i) {
      return Fine;
    }
    if !InOrder(p, i) {
      return Wrong;
    }
    if LooksRight(p, i) {
      v := RightCheck(ix, p.next, p.items[i]);
      if !v.Fine? {
        return;
      }
    }
    if p.isLeaf {
      return Fine;
    }
    var ok := DownlinkCheck(ix, p.items[i], Down(p, i));
    v := if ok then Fine else Wrong;
  }

  // ----- walking a level -----

  datatype Error = Unreadable | DeletedLinked | FellOff | NotLeftmost | NotTrueRoot | LinksDisagree | WrongLevel
                 | BadItem | Circular | NoValidPages

  /** What became of a page, and of a level. Where the code goes on for ever, in
      the check of a page or from page to page, that is an outcome of its own. */
  datatype Visit = GoOn | Stop(error: Error) | PageStuck

  datatype LevelOutcome = LevelErr(error: Error) | LevelOk(leftmost: nat, level: int) | EndlessPage(b: nat)
                        | EndlessWalk

  /** A page passes: it can be read, is live, agrees with the page it was reached
      from, is on the expected level, and its items are in order. The first page
      is leftmost, and the root on the root's level. */
  ghost predicate Passes(ix: Index, b: nat, from: nat, level: nat, first: bool, isRootLevel: bool, n: nat) {
    Linked(ix, b, from, level, first, isRootLevel) && PageOk(ix, ix[b], n) && b != from
  }

  /** The part of this that is looked at before the items. */
  predicate Linked(ix: Index, b: nat, from: nat, level: nat, first: bool, isRootLevel: bool) {
    && CanRead(ix, b) && !Ignorable(ix[b])
    && (first ==> ix[b].prev == P_NONE && (isRootLevel ==> ix[b].isRoot))
    && ix[b].prev == from && ix[b].level == level
  }

  /** A half-dead page is passed over: its links are not compared, except that a
      page next to itself is reported. */
  predicate PassedOver(ix: Index, b: nat, from: nat) {
    CanRead(ix, b) && ix[b].halfDead && !ix[b].deleted && ix[b].next != P_NONE && b != from && b != ix[b].prev
  }

  /** The walk goes on after a page. */
  ghost predicate GoesOn(ix: Index, b: nat, from: nat, level: nat, first: bool, isRootLevel: bool, n: nat) {
    PassedOver(ix, b, from) || Passes(ix, b, from, level, first, isRootLevel, n)
  }

  /** The body of the walk for one page. */
  method CheckOne(ix: Index, b: nat, from: nat, level: nat, first: bool, isRootLevel: bool, n: nat) returns (v: Visit)
    ensures v.GoOn? <==> GoesOn(ix, b, from, level, first, isRootLevel, n)
    ensures v.PageStuck? <==> Linked(ix, b, from, level, first, isRootLevel) && PageEndless(ix, ix[b], n)
  {
    hide PageOk, PageEndless;
    if !CanRead(ix, b) {
      return Stop(Unreadable);
    }
    if Ignorable(ix[b]) {
      if ix[b].deleted {
        return Stop(DeletedLinked);
      }
      if ix[b].next == P_NONE {
        return Stop(FellOff);
      }
    } else {
      if first {
        if ix[b].prev != P_NONE {
          return Stop(NotLeftmost);
        }
        if isRootLevel && !ix[b].isRoot {
          return Stop(NotTrueRoot);
        }
      }
      if ix[b].prev != from {
        return Stop(LinksDisagree);
      }
      if ix[b].level != level {
        return Stop(WrongLevel);
      }
      var ok := TargetPageCheck(ix, b, n);
      if ok.Endless? {
        return PageStuck;
      }
      if ok.Wrong? {
        return Stop(BadItem);
      }
    }
    if b == from || b == ix[b].prev {
      return Stop(Circular);
    }
    return GoOn;
  }

  function From(chain: seq<nat>, i: nat): nat
    requires i <= |chain|
  {
    if i == 0 then P_NONE else chain[i - 1]
  }

  /** A page of the walk: the first passes, and later ones pass or are passed
      over. */
  ghost predicate Visited(ix: Index, chain: seq<nat>, i: nat, level: nat, isRootLevel: bool, n: nat)
    requires i < |chain|
  {
    Passes(ix, chain[i], From(chain, i), level, i == 0, isRootLevel, n)
      || (i > 0 && PassedOver(ix, chain[i], chain[i - 1]))
  }

  /** Pages each reached over the right link of the one before. */
  ghost predicate Walked(ix: Index, chain: seq<nat>, leftmost: nat, level: nat, isRootLevel: bool, n: nat) {
    && (chain != [] ==> chain[0] == leftmost)
    && (forall i :: 0 <= i < |chain| ==> Visited(ix, chain, i, level, isRootLevel, n))
    && (forall i :: 0 <= i < |chain| - 1 ==> chain[i] in ix && ix[chain[i]].next == chain[i + 1])
  }

  /** Where the walk goes on. */
  function After(ix: Index, chain: seq<nat>, leftmost: nat): nat {
    if chain == [] then leftmost
    else
      var last := chain[|chain| - 1];
      if last in ix then ix[last].next else P_NONE
  }

  ghost predicate NoRepeat(chain: seq<nat>) {
    forall i, j :: 0 <= i < j < |chain| ==> chain[i] != chain[j]
  }

  lemma {:induction false} VisitedIn(ix: Index, chain: seq<nat>, leftmost: nat, level: nat, isRootLevel: bool, n: nat,
                                     i: nat)
    requires Walked(ix, chain, leftmost, level, isRootLevel, n) && i < |chain|
    ensures Visited(ix, chain, i, level, isRootLevel, n) && chain[i] in ix
    ensures ix[chain[i]].halfDead || ix[chain[i]].prev == From(chain, i)
    ensures chain[0] in ix && !ix[chain[0]].halfDead
  {
    assert Visited(ix, chain, i, level, isRootLevel, n);
    assert Visited(ix, chain, 0, level, isRootLevel, n);
    hide PageOk;
  }

  /** A live page that agrees with its left neighbour was not visited before. */
  lemma {:induction false} NotVisited(ix: Index, chain: seq<nat>, leftmost: nat, level: nat, isRootLevel: bool,
                                      n: nat, b: nat)
    requires Walked(ix, chain, leftmost, level, isRootLevel, n) && NoRepeat(chain) && P_NONE !in ix
    requires b in ix && !ix[b].halfDead && ix[b].prev == From(chain, |chain|)
    ensures b !in chain
  {
    hide Walked;
    forall j | 0 <= j < |chain|
      ensures chain[j] != b
    {
      VisitedIn(ix, chain, leftmost, level, isRootLevel, n, j);
      VisitedIn(ix, chain, leftmost, level, isRootLevel, n, |chain| - 1);
      assert From(chain, j) != From(chain, |chain|);
    }
  }

  lemma {:induction false} WalkOn(ix: Index, chain: seq<nat>, leftmost: nat, level: nat, isRootLevel: bool, n: nat,
                                  b: nat)
    requires Walked(ix, chain, leftmost, level, isRootLevel, n) && NoRepeat(chain) && b !in chain
    requires b == After(ix, chain, leftmost) && b in ix && Visited(ix, chain + [b], |chain|, level, isRootLevel, n)
    ensures Walked(ix, chain + [b], leftmost, level, isRootLevel, n) && NoRepeat(chain + [b])
    ensures After(ix, chain + [b], leftmost) == ix[b].next && From(chain + [b], |chain| + 1) == b
  {
    var c := chain + [b];
    forall i | 0 <= i < |c|
      ensures Visited(ix, c, i, level, isRootLevel, n)
    {
      if i < |chain| {
        assert Visited(ix, chain, i, level, isRootLevel, n);
        assert From(c, i) == From(chain, i);
      }
    }
    if chain != [] {
      VisitedIn(ix, chain, leftmost, level, isRootLevel, n, |chain| - 1);
    }
    hide Visited;
  }

  /** A whole level: a chain of pages from the leftmost to the rightmost; the live
      ones pass, and each names its left neighbour. */
  ghost predicate GoodLevel(ix: Index, chain: seq<nat>, leftmost: nat, level: nat, isRootLevel: bool, n: nat) {
    && chain != [] && Walked(ix, chain, leftmost, level, isRootLevel, n) && NoRepeat(chain)
    && After(ix, chain, leftmost) == P_NONE
  }

  /** The leftmost page of the level below, or none below a leaf. */
  function DownFrom(ix: Index, b: nat): (nat, int)
    requires b in ix
  {
    if ix[b].isLeaf then (P_NONE, -1) else (Down(ix[b], 0), ix[b].level - 1)
  }

  // ----- the walk as a machine -----

  /** Between two turns: the block to look at, the one before, and what is known
      about the level below. */
  datatype Walk = Walk(current: nat, left: nat, down: (nat, int))

  function WalkStart(leftmost: nat): Walk {
    Walk(leftmost, P_NONE, (INVALID_BLOCK, -1))
  }

  ghost predicate Proceeds(ix: Index, w: Walk, level: nat, isRootLevel: bool, n: nat) {
    w.current != P_NONE && GoesOn(ix, w.current, w.left, level, w.down.0 == INVALID_BLOCK, isRootLevel, n)
  }

  function Moved(ix: Index, w: Walk): Walk
    requires w.current in ix
  {
    Walk(ix[w.current].next, w.current,
         if ix[w.current].halfDead || w.down.0 != INVALID_BLOCK then w.down else DownFrom(ix, w.current))
  }

  function WalkAfter(ix: Index, w: Walk, k: nat): Walk {
    if k == 0 then w
    else
      var v := WalkAfter(ix, w, k - 1);
      if v.current in ix then Moved(ix, v) else v
  }

  /** The walk never ends. */
  ghost predicate NeverEnds(ix: Index, leftmost: nat, level: nat, isRootLevel: bool, n: nat) {
    forall k: nat :: Proceeds(ix, WalkAfter(ix, WalkStart(leftmost), k), level, isRootLevel, n)
  }

  /** A walk that is back in an earlier state never ends. */
  lemma {:induction false} BackAgain(ix: Index, leftmost: nat, level: nat, isRootLevel: bool, n: nat, i: nat, m: nat,
                                     k: nat)
    requires i < m && WalkAfter(ix, WalkStart(leftmost), m) == WalkAfter(ix, WalkStart(leftmost), i)
    requires forall j: nat :: j < m ==> Proceeds(ix, WalkAfter(ix, WalkStart(leftmost), j), level, isRootLevel, n)
    ensures Proceeds(ix, WalkAfter(ix, WalkStart(leftmost), k), level, isRootLevel, n)
    decreases k
  {
    if k >= m {
      hide Proceeds;
      SameFromThere(ix, WalkStart(leftmost), i, m, k - m);
      BackAgain(ix, leftmost, level, isRootLevel, n, i, m, k - m + i);
    }
  }

  lemma {:induction false} SameFromThere(ix: Index, w: Walk, i: nat, m: nat, t: nat)
    requires WalkAfter(ix, w, m) == WalkAfter(ix, w, i)
    ensures WalkAfter(ix, w, m + t) == WalkAfter(ix, w, i + t)
  {
    hide Moved;
    if t > 0 {
      SameFromThere(ix, w, i, m, t - 1);
    }
  }

  /** What is so before each turn: `w` is the state after |chain| turns, all of
      which went on, and no page was met twice. Either every page so far was
      half-dead, or the pages form a walk from a live page. */
  ghost predicate Walking(ix: Index, chain: seq<nat>, w: Walk, leftmost: nat, level: nat, isRootLevel: bool, n: nat) {
    && NoRepeat(chain) && (forall i :: 0 <= i < |chain| ==> chain[i] in ix)
    && w == WalkAfter(ix, WalkStart(leftmost), |chain|)
    && (forall j: nat :: j < |chain| ==>
          Proceeds(ix, WalkAfter(ix, WalkStart(leftmost), j), level, isRootLevel, n)
          && WalkAfter(ix, WalkStart(leftmost), j).current == chain[j])
    && w.left == From(chain, |chain|) && w.current == After(ix, chain, leftmost)
    && (chain != [] ==> chain[0] == leftmost)
    && (forall j: nat :: j <= |chain| && (j > 0 || Dead(ix, chain)) ==>
          WalkAfter(ix, WalkStart(leftmost), j).down == w.down)
    && if Dead(ix, chain)
       then w.down == (INVALID_BLOCK, -1) && forall i :: 0 <= i < |chain| ==> ix[chain[i]].halfDead
       else w.down == DownFrom(ix, chain[0]) && Walked(ix, chain, leftmost, level, isRootLevel, n)
  }

  /** No live page so far. */
  ghost predicate Dead(ix: Index, chain: seq<nat>)
    requires forall i :: 0 <= i < |chain| ==> chain[i] in ix
  {
    chain == [] || ix[chain[0]].halfDead
  }

  // ----- when the walk never ends, on the pages alone -----

  /** Whether a page is checked as the first of its level: no live page that names
      a valid page below came before it. */
  predicate CountsAsFirst(ix: Index, chain: seq<nat>, i: nat)
    requires i <= |chain| && (i > 0 ==> chain[0] in ix)
  {
    i == 0 || ix[chain[0]].halfDead || DownFrom(ix, chain[0]).0 == INVALID_BLOCK
  }

  /** Distinct pages from the leftmost one along right links, each of them passed
      or passed over. */
  ghost predicate Trail(ix: Index, chain: seq<nat>, leftmost: nat, level: nat, isRootLevel: bool, n: nat) {
    && NoRepeat(chain) && (forall i :: 0 <= i < |chain| ==> chain[i] in ix)
    && (chain != [] ==> chain[0] == leftmost)
    && (forall i :: 0 <= i < |chain| - 1 ==> ix[chain[i]].next == chain[i + 1])
    && forall i :: 0 <= i < |chain| ==>
         GoesOn(ix, chain[i], From(chain, i), level, CountsAsFirst(ix, chain, i), isRootLevel, n)
  }

  /** The trail leads back to a half-dead page on it, which is passed over again. */
  ghost predicate LeadsBack(ix: Index, chain: seq<nat>, leftmost: nat, level: nat, isRootLevel: bool, n: nat) {
    && chain != [] && Trail(ix, chain, leftmost, level, isRootLevel, n)
    && After(ix, chain, leftmost) in chain && PassedOver(ix, After(ix, chain, leftmost), chain[|chain| - 1])
  }

  ghost predicate Loops(ix: Index, leftmost: nat, level: nat, isRootLevel: bool, n: nat) {
    exists chain :: LeadsBack(ix, chain, leftmost, level, isRootLevel, n)
  }

  /** The trail leads to a page that is well linked and whose check never ends. */
  ghost predicate LeadsToStuck(ix: Index, chain: seq<nat>, leftmost: nat, level: nat, isRootLevel: bool, n: nat) {
    && Trail(ix, chain, leftmost, level, isRootLevel, n)
    && var b := After(ix, chain, leftmost);
       && b != P_NONE && Linked(ix, b, From(chain, |chain|), level, CountsAsFirst(ix, chain, |chain|), isRootLevel)
       && PageEndless(ix, ix[b], n)
  }

  ghost predicate Sticks(ix: Index, leftmost: nat, level: nat, isRootLevel: bool, n: nat) {
    exists chain :: LeadsToStuck(ix, chain, leftmost, level, isRootLevel, n)
  }

  /** The pages of the walk form a trail ... */
  lemma {:induction false} WalkingTrail(ix: Index, chain: seq<nat>, w: Walk, leftmost: nat, level: nat,
                                        isRootLevel: bool, n: nat)
    requires Walking(ix, chain, w, leftmost, level, isRootLevel, n)
    ensures Trail(ix, chain, leftmost, level, isRootLevel, n)
    ensures w.current == After(ix, chain, leftmost) && w.left == From(chain, |chain|)
    ensures w.down.0 == INVALID_BLOCK <==> CountsAsFirst(ix, chain, |chain|)
  {
    hide *;
    WalkingIs(ix, chain, w, leftmost, level, isRootLevel, n);
    forall i | 0 <= i < |chain|
      ensures i < |chain| - 1 ==> ix[chain[i]].next == chain[i + 1]
      ensures GoesOn(ix, chain[i], From(chain, i), level, CountsAsFirst(ix, chain, i), isRootLevel, n)
    {
      ChainLink(ix, chain, w, leftmost, level, isRootLevel, n, i);
      TurnAt(ix, chain, w, leftmost, level, isRootLevel, n, i);
    }
    MakeTrail(ix, chain, leftmost, level, isRootLevel, n);
  }

  lemma {:induction false} WalkingIs(ix: Index, chain: seq<nat>, w: Walk, leftmost: nat, level: nat,
                                     isRootLevel: bool, n: nat)
    requires Walking(ix, chain, w, leftmost, level, isRootLevel, n)
    ensures NoRepeat(chain) && (forall i :: 0 <= i < |chain| ==> chain[i] in ix)
    ensures chain != [] ==> chain[0] == leftmost
    ensures w == WalkAfter(ix, WalkStart(leftmost), |chain|)
    ensures w.current == After(ix, chain, leftmost) && w.left == From(chain, |chain|)
    ensures w.down.0 == INVALID_BLOCK <==> CountsAsFirst(ix, chain, |chain|)
  {
    hide NoRepeat, Walked, Proceeds, WalkAfter;
  }

  lemma {:induction false} TurnAt(ix: Index, chain: seq<nat>, w: Walk, leftmost: nat, level: nat, isRootLevel: bool,
                                  n: nat, i: nat)
    requires Walking(ix, chain, w, leftmost, level, isRootLevel, n) && i < |chain|
    ensures chain[i] in ix && chain[0] in ix
    ensures GoesOn(ix, chain[i], From(chain, i), level, CountsAsFirst(ix, chain, i), isRootLevel, n)
  {
    var v := WalkAfter(ix, WalkStart(leftmost), i);
    assert Proceeds(ix, v, level, isRootLevel, n) && v.current == chain[i];
    if i > 0 {
      var u := WalkAfter(ix, WalkStart(leftmost), i - 1);
      assert u.current == chain[i - 1] && v == Moved(ix, u);
      assert v.down == w.down;
    }
    hide GoesOn, Walked, NoRepeat, WalkAfter;
  }

  lemma {:induction false} MakeTrail(ix: Index, chain: seq<nat>, leftmost: nat, level: nat, isRootLevel: bool, n: nat)
    requires NoRepeat(chain) && (forall i :: 0 <= i < |chain| ==> chain[i] in ix)
    requires chain != [] ==> chain[0] == leftmost
    requires forall i :: 0 <= i < |chain| - 1 ==> ix[chain[i]].next == chain[i + 1]
    requires forall i :: 0 <= i < |chain| ==>
               GoesOn(ix, chain[i], From(chain, i), level, CountsAsFirst(ix, chain, i), isRootLevel, n)
    ensures Trail(ix, chain, leftmost, level, isRootLevel, n)
  {
    hide NoRepeat, GoesOn;
  }

  /** ... and every trail is walked. */
  lemma {:induction false} TrailWalking(ix: Index, chain: seq<nat>, leftmost: nat, level: nat, isRootLevel: bool,
                                        n: nat)
    requires Trail(ix, chain, leftmost, level, isRootLevel, n) && P_NONE !in ix
    ensures Walking(ix, chain, WalkAfter(ix, WalkStart(leftmost), |chain|), leftmost, level, isRootLevel, n)
    decreases |chain|
  {
    hide *;
    if chain == [] {
      WalkingStart(ix, leftmost, level, isRootLevel, n);
      AfterZero(ix, leftmost);
    } else {
      var k := |chain| - 1;
      var init := chain[..k];
      TrailInit(ix, chain, leftmost, level, isRootLevel, n);
      TrailWalking(ix, init, leftmost, level, isRootLevel, n);
      var w := WalkAfter(ix, WalkStart(leftmost), k);
      WalkingIs(ix, init, w, leftmost, level, isRootLevel, n);
      assert init + [w.current] == chain;
      NextTurn(ix, init, w, leftmost, level, isRootLevel, n);
      WalkingIs(ix, chain, Moved(ix, w), leftmost, level, isRootLevel, n);
    }
  }

  lemma {:induction false} AfterZero(ix: Index, leftmost: nat)
    ensures WalkAfter(ix, WalkStart(leftmost), 0) == WalkStart(leftmost)
  {
  }

  lemma {:induction false} TrailInit(ix: Index, chain: seq<nat>, leftmost: nat, level: nat, isRootLevel: bool, n: nat)
    requires Trail(ix, chain, leftmost, level, isRootLevel, n) && chain != [] && P_NONE !in ix
    ensures var k := |chain| - 1;
            var init := chain[..k];
            && Trail(ix, init, leftmost, level, isRootLevel, n) && (k > 0 ==> init[0] in ix)
            && After(ix, init, leftmost) == chain[k] != P_NONE && chain[k] !in init
            && GoesOn(ix, chain[k], From(init, k), level, CountsAsFirst(ix, init, k), isRootLevel, n)
  {
    var k := |chain| - 1;
    var init := chain[..k];
    hide GoesOn;
    forall i | 0 <= i < k
      ensures GoesOn(ix, init[i], From(init, i), level, CountsAsFirst(ix, init, i), isRootLevel, n)
    {
      assert From(init, i) == From(chain, i) && CountsAsFirst(ix, init, i) == CountsAsFirst(ix, chain, i);
    }
    assert From(init, k) == From(chain, k) && CountsAsFirst(ix, init, k) == CountsAsFirst(ix, chain, k);
  }

  /** The walk never ends exactly when its trail leads back. */
  lemma {:induction false} EndlessExactly(ix: Index, leftmost: nat, level: nat, isRootLevel: bool, n: nat)
    requires P_NONE !in ix && leftmost != P_NONE
    ensures NeverEnds(ix, leftmost, level, isRootLevel, n) <==> Loops(ix, leftmost, level, isRootLevel, n)
  {
    hide NeverEnds, LeadsBack, Walking;
    if NeverEnds(ix, leftmost, level, isRootLevel, n) {
      WalkingStart(ix, leftmost, level, isRootLevel, n);
      var chain := FindLoop(ix, [], WalkStart(leftmost), {}, leftmost, level, isRootLevel, n);
    }
    if Loops(ix, leftmost, level, isRootLevel, n) {
      var chain :| LeadsBack(ix, chain, leftmost, level, isRootLevel, n);
      LoopNeverEnds(ix, chain, leftmost, level, isRootLevel, n);
    }
  }

  /** There are finitely many pages, so an endless walk comes back to one. */
  lemma {:induction false} FindLoop(ix: Index, chain: seq<nat>, w: Walk, seen: set<nat>, leftmost: nat, level: nat,
                                    isRootLevel: bool, n: nat)
    returns (c: seq<nat>)
    requires Walking(ix, chain, w, leftmost, level, isRootLevel, n) && P_NONE !in ix
    requires NeverEnds(ix, leftmost, level, isRootLevel, n) && forall x :: x in seen <==> x in chain
    ensures LeadsBack(ix, c, leftmost, level, isRootLevel, n)
    decreases ix.Keys - seen
  {
    hide *;
    WalkingIs(ix, chain, w, leftmost, level, isRootLevel, n);
    EndlessProceeds(ix, leftmost, level, isRootLevel, n, |chain|);
    ProceedsIs(ix, w, level, isRootLevel, n);
    if w.current in chain {
      c := chain;
      LoopFound(ix, chain, w, leftmost, level, isRootLevel, n);
    } else {
      NextTurn(ix, chain, w, leftmost, level, isRootLevel, n);
      c := FindLoop(ix, chain + [w.current], Moved(ix, w), seen + {w.current}, leftmost, level, isRootLevel, n);
    }
  }

  lemma {:induction false} EndlessProceeds(ix: Index, leftmost: nat, level: nat, isRootLevel: bool, n: nat, k: nat)
    requires NeverEnds(ix, leftmost, level, isRootLevel, n)
    ensures Proceeds(ix, WalkAfter(ix, WalkStart(leftmost), k), level, isRootLevel, n)
  {
    hide Proceeds, WalkAfter;
  }

  lemma {:induction false} LoopFound(ix: Index, chain: seq<nat>, w: Walk, leftmost: nat, level: nat,
                                     isRootLevel: bool, n: nat)
    requires Walking(ix, chain, w, leftmost, level, isRootLevel, n) && P_NONE !in ix && w.current in chain
    requires w.current != P_NONE && GoesOn(ix, w.current, w.left, level, w.down.0 == INVALID_BLOCK, isRootLevel, n)
    ensures LeadsBack(ix, chain, leftmost, level, isRootLevel, n)
  {
    hide Walking, Trail, After, NeverEnds, PageOk;
    WalkingTrail(ix, chain, w, leftmost, level, isRootLevel, n);
    MetAgain(ix, chain, w, leftmost, level, isRootLevel, n);
  }

  lemma {:induction false} LoopNeverEnds(ix: Index, chain: seq<nat>, leftmost: nat, level: nat, isRootLevel: bool,
                                         n: nat)
    requires LeadsBack(ix, chain, leftmost, level, isRootLevel, n) && P_NONE !in ix
    ensures NeverEnds(ix, leftmost, level, isRootLevel, n)
  {
    hide Walking, Trail, NeverEnds, WalkAfter, After, Passes;
    TrailWalking(ix, chain, leftmost, level, isRootLevel, n);
    var w := WalkAfter(ix, WalkStart(leftmost), |chain|);
    WalkingIs(ix, chain, w, leftmost, level, isRootLevel, n);
    MetAgain(ix, chain, w, leftmost, level, isRootLevel, n);
  }

  /** It comes to a page whose check never ends exactly when its trail leads there. */
  lemma {:induction false} StuckExactly(ix: Index, leftmost: nat, level: nat, isRootLevel: bool, n: nat)
    requires P_NONE !in ix && leftmost != P_NONE
    ensures (exists k: nat :: StuckAfter(ix, k, leftmost, level, isRootLevel, n)) <==>
            Sticks(ix, leftmost, level, isRootLevel, n)
  {
    hide StuckAfter, LeadsToStuck;
    if exists k: nat :: StuckAfter(ix, k, leftmost, level, isRootLevel, n) {
      var k: nat :| StuckAfter(ix, k, leftmost, level, isRootLevel, n);
      var chain := StuckTrail(ix, k, leftmost, level, isRootLevel, n);
    }
    if Sticks(ix, leftmost, level, isRootLevel, n) {
      var chain :| LeadsToStuck(ix, chain, leftmost, level, isRootLevel, n);
      TrailStuck(ix, chain, leftmost, level, isRootLevel, n);
    }
  }

  lemma {:induction false} TrailStuck(ix: Index, chain: seq<nat>, leftmost: nat, level: nat, isRootLevel: bool, n: nat)
    requires LeadsToStuck(ix, chain, leftmost, level, isRootLevel, n) && P_NONE !in ix
    ensures StuckAfter(ix, |chain|, leftmost, level, isRootLevel, n)
  {
    hide Trail, PageEndless, After, Walked, WalkAfter, NoRepeat, Proceeds;
    TrailWalking(ix, chain, leftmost, level, isRootLevel, n);
    var w := WalkAfter(ix, WalkStart(leftmost), |chain|);
    WalkingIs(ix, chain, w, leftmost, level, isRootLevel, n);
  }

  lemma {:induction false} StuckTrail(ix: Index, k: nat, leftmost: nat, level: nat, isRootLevel: bool, n: nat)
    returns (chain: seq<nat>)
    requires StuckAfter(ix, k, leftmost, level, isRootLevel, n) && P_NONE !in ix
    ensures LeadsToStuck(ix, chain, leftmost, level, isRootLevel, n)
  {
    hide Trail, PageEndless, After, Walking, WalkAfter, NeverEnds, Proceeds;
    chain := Reached(ix, k, k, leftmost, level, isRootLevel, n);
    var w := WalkAfter(ix, WalkStart(leftmost), k);
    WalkingTrail(ix, chain, w, leftmost, level, isRootLevel, n);
  }

  /** The pages of the turns before the walk comes to such a page. */
  lemma {:induction false} Reached(ix: Index, i: nat, k: nat, leftmost: nat, level: nat, isRootLevel: bool, n: nat)
    returns (chain: seq<nat>)
    requires StuckAfter(ix, k, leftmost, level, isRootLevel, n) && i <= k && P_NONE !in ix
    ensures |chain| == i
    ensures Walking(ix, chain, WalkAfter(ix, WalkStart(leftmost), i), leftmost, level, isRootLevel, n)
    decreases i
  {
    hide *;
    if i == 0 {
      chain := [];
      WalkingStart(ix, leftmost, level, isRootLevel, n);
      AfterZero(ix, leftmost);
    } else {
      var c := Reached(ix, i - 1, k, leftmost, level, isRootLevel, n);
      var w := WalkAfter(ix, WalkStart(leftmost), i - 1);
      BeforeStuck(ix, i - 1, k, leftmost, level, isRootLevel, n);
      ProceedsIs(ix, w, level, isRootLevel, n);
      if w.current in c {
        MetAgain(ix, c, w, leftmost, level, isRootLevel, n);
        NeverStuck(ix, leftmost, level, isRootLevel, n);
      }
      NextTurn(ix, c, w, leftmost, level, isRootLevel, n);
      chain := c + [w.current];
      WalkingIs(ix, chain, Moved(ix, w), leftmost, level, isRootLevel, n);
    }
  }

  lemma {:induction false} BeforeStuck(ix: Index, j: nat, k: nat, leftmost: nat, level: nat, isRootLevel: bool, n: nat)
    requires StuckAfter(ix, k, leftmost, level, isRootLevel, n) && j < k
    ensures Proceeds(ix, WalkAfter(ix, WalkStart(leftmost), j), level, isRootLevel, n)
  {
    hide Proceeds, WalkAfter, PageStuckIn;
  }

  /** bt_check_level_from_leftmost in readonly mode. It succeeds exactly when the
      level is good, and then the second result is the chain of its pages. It never
      ends exactly when the trail of the walk leads back to a half-dead page on it,
      or to a page from which the look to the right circles. */
  method CheckLevel(ix: Index, leftmost: nat, level: nat, isRootLevel: bool, n: nat)
    returns (o: LevelOutcome, ghost chain: seq<nat>)
    requires P_NONE !in ix && leftmost != P_NONE
    ensures o.LevelOk? ==> GoodLevel(ix, chain, leftmost, level, isRootLevel, n) && leftmost in ix
                           && (o.leftmost, o.level) == DownFrom(ix, leftmost)
    ensures !o.LevelOk? ==> forall c :: GoodLevel(ix, c, leftmost, level, isRootLevel, n) ==>
                              leftmost in ix && !ix[leftmost].isLeaf && Down(ix[leftmost], 0) == INVALID_BLOCK
    ensures o.EndlessWalk? <==> Loops(ix, leftmost, level, isRootLevel, n)
    ensures o.EndlessWalk? ==> HalfDeadCircle(ix)
    ensures o.EndlessPage? <==> Sticks(ix, leftmost, level, isRootLevel, n)
    ensures o.EndlessPage? ==> o.b in ix && Circles(ix, ix[o.b].next)
  {
    var w := WalkStart(leftmost);
    var seen := {};
    chain := [];
    hide *;
    EndlessExactly(ix, leftmost, level, isRootLevel, n);
    StuckExactly(ix, leftmost, level, isRootLevel, n);
    WalkingStart(ix, leftmost, level, isRootLevel, n);
    while w.current != P_NONE
      invariant Walking(ix, chain, w, leftmost, level, isRootLevel, n)
      invariant forall x :: x in seen <==> x in chain
      decreases ix.Keys - seen
    {
      var v := CheckOne(ix, w.current, w.left, level, w.down.0 == INVALID_BLOCK, isRootLevel, n);
      ProceedsIs(ix, w, level, isRootLevel, n);
      if !v.GoOn? {
        Halted(ix, chain, w, leftmost, level, isRootLevel, n);
        StuckOnce(ix, chain, w, leftmost, level, isRootLevel, n);
        if v.PageStuck? {
          StuckOnCircle(ix, w, level, isRootLevel, n);
          return EndlessPage(w.current), chain;
        }
        return LevelErr(v.error), chain;
      }
      if w.current in seen {
        MetAgain(ix, chain, w, leftmost, level, isRootLevel, n);
        NeverStuck(ix, leftmost, level, isRootLevel, n);
        CircleMet(ix, chain, w, leftmost, level, isRootLevel, n);
        return EndlessWalk, chain;
      }
      NextTurn(ix, chain, w, leftmost, level, isRootLevel, n);
      chain, seen := chain + [w.current], seen + {w.current};
      w := Moved(ix, w);
    }
    WalkDone(ix, chain, w, leftmost, level, isRootLevel, n);
    ProceedsIs(ix, w, level, isRootLevel, n);
    StuckOnce(ix, chain, w, leftmost, level, isRootLevel, n);
    return LevelOk(w.down.0, w.down.1), chain;
  }

  /** Right links lead from a half-dead page back to it. */
  ghost predicate HalfDeadCircle(ix: Index) {
    exists path :: LinkPath(ix, path) && |path| > 1 && path[0] == path[|path| - 1] && path[0] in ix
      && ix[path[0]].halfDead
  }

  ghost predicate LinkPath(ix: Index, path: seq<nat>) {
    forall i :: 0 <= i < |path| - 1 ==> path[i] in ix && ix[path[i]].next == path[i + 1]
  }

  lemma {:induction false} CircleMet(ix: Index, chain: seq<nat>, w: Walk, leftmost: nat, level: nat,
                                     isRootLevel: bool, n: nat)
    requires Walking(ix, chain, w, leftmost, level, isRootLevel, n)
    requires w.current in chain && w.current in ix && ix[w.current].halfDead
    ensures HalfDeadCircle(ix)
  {
    var i: nat :| i < |chain| && chain[i] == w.current;
    var path := chain[i..] + [w.current];
    hide *;
    forall j | 0 <= j < |path| - 1
      ensures path[j] in ix && ix[path[j]].next == path[j + 1]
    {
      ChainLink(ix, chain, w, leftmost, level, isRootLevel, n, i + j);
    }
    MakeHalfDeadCircle(ix, path);
  }

  lemma {:induction false} MakeHalfDeadCircle(ix: Index, path: seq<nat>)
    requires forall j :: 0 <= j < |path| - 1 ==> path[j] in ix && ix[path[j]].next == path[j + 1]
    requires |path| > 1 && path[0] == path[|path| - 1] && path[0] in ix && ix[path[0]].halfDead
    ensures HalfDeadCircle(ix)
  {
    assert LinkPath(ix, path);
  }

  lemma {:induction false} ChainLink(ix: Index, chain: seq<nat>, w: Walk, leftmost: nat, level: nat,
                                     isRootLevel: bool, n: nat, j: nat)
    requires Walking(ix, chain, w, leftmost, level, isRootLevel, n) && j < |chain|
    ensures chain[j] in ix && ix[chain[j]].next == if j + 1 < |chain| then chain[j + 1] else w.current
  {
    assert WalkAfter(ix, WalkStart(leftmost), j + 1) == Moved(ix, WalkAfter(ix, WalkStart(leftmost), j));
    assert j + 1 < |chain| ==> WalkAfter(ix, WalkStart(leftmost), j + 1).current == chain[j + 1];
    hide Proceeds, Walked, NoRepeat, WalkAfter;
  }

  /** After `k` turns the walk comes to a page whose check does not end. */
  ghost predicate StuckAfter(ix: Index, k: nat, leftmost: nat, level: nat, isRootLevel: bool, n: nat) {
    var w := WalkAfter(ix, WalkStart(leftmost), k);
    && (forall j: nat :: j < k ==> Proceeds(ix, WalkAfter(ix, WalkStart(leftmost), j), level, isRootLevel, n))
    && w.current != P_NONE && PageStuckIn(ix, w, level, isRootLevel, n)
  }

  ghost predicate PageStuckIn(ix: Index, w: Walk, level: nat, isRootLevel: bool, n: nat) {
    Linked(ix, w.current, w.left, level, w.down.0 == INVALID_BLOCK, isRootLevel) && PageEndless(ix, ix[w.current], n)
  }

  /** Such a page is not one after which the walk goes on. */
  lemma {:induction false} StuckOrOn(ix: Index, w: Walk, level: nat, isRootLevel: bool, n: nat)
    ensures PageStuckIn(ix, w, level, isRootLevel, n) ==> !Proceeds(ix, w, level, isRootLevel, n)
  {
    if PageStuckIn(ix, w, level, isRootLevel, n) {
      var p := ix[w.current];
      ItemEnds(ix, p, |p.items| - 1, n);
      hide ItemEndless, ItemOk;
    }
  }

  /** The walk stops at one place only. */
  lemma {:induction false} StuckOnce(ix: Index, chain: seq<nat>, w: Walk, leftmost: nat, level: nat,
                                     isRootLevel: bool, n: nat)
    requires Walking(ix, chain, w, leftmost, level, isRootLevel, n) && !Proceeds(ix, w, level, isRootLevel, n)
    ensures (exists k: nat :: StuckAfter(ix, k, leftmost, level, isRootLevel, n)) <==>
            w.current != P_NONE && PageStuckIn(ix, w, level, isRootLevel, n)
  {
    hide Proceeds, PageStuckIn, WalkAfter, Walked;
    if w.current != P_NONE && PageStuckIn(ix, w, level, isRootLevel, n) {
      assert StuckAfter(ix, |chain|, leftmost, level, isRootLevel, n);
    }
    if exists k: nat :: StuckAfter(ix, k, leftmost, level, isRootLevel, n) {
      var k: nat :| StuckAfter(ix, k, leftmost, level, isRootLevel, n);
      StuckOrOn(ix, WalkAfter(ix, WalkStart(leftmost), k), level, isRootLevel, n);
    }
  }

  lemma {:induction false} NeverStuck(ix: Index, leftmost: nat, level: nat, isRootLevel: bool, n: nat)
    requires NeverEnds(ix, leftmost, level, isRootLevel, n)
    ensures forall k: nat :: !StuckAfter(ix, k, leftmost, level, isRootLevel, n)
  {
    hide Proceeds, PageStuckIn, WalkAfter;
    forall k: nat
      ensures !StuckAfter(ix, k, leftmost, level, isRootLevel, n)
    {
      StuckOrOn(ix, WalkAfter(ix, WalkStart(leftmost), k), level, isRootLevel, n);
    }
  }

  /** A walk that starts outside the index goes nowhere. */
  lemma {:induction false} StopsOutside(ix: Index, leftmost: nat, level: nat, isRootLevel: bool, n: nat)
    requires leftmost !in ix
    ensures !Loops(ix, leftmost, level, isRootLevel, n) && !Sticks(ix, leftmost, level, isRootLevel, n)
  {
    hide PageEndless, GoesOn;
    forall chain
      ensures !LeadsBack(ix, chain, leftmost, level, isRootLevel, n)
      ensures !LeadsToStuck(ix, chain, leftmost, level, isRootLevel, n)
    {
    }
  }

  lemma {:induction false} StuckOnCircle(ix: Index, w: Walk, level: nat, isRootLevel: bool, n: nat)
    requires PageStuckIn(ix, w, level, isRootLevel, n)
    ensures w.current in ix && Circles(ix, ix[w.current].next)
  {
  }

  lemma {:induction false} ProceedsIs(ix: Index, w: Walk, level: nat, isRootLevel: bool, n: nat)
    ensures Proceeds(ix, w, level, isRootLevel, n) <==>
            w.current != P_NONE && GoesOn(ix, w.current, w.left, level, w.down.0 == INVALID_BLOCK, isRootLevel, n)
    ensures PageStuckIn(ix, w, level, isRootLevel, n) <==>
            Linked(ix, w.current, w.left, level, w.down.0 == INVALID_BLOCK, isRootLevel)
              && PageEndless(ix, ix[w.current], n)
  {
  }

  lemma {:induction false} WalkingStart(ix: Index, leftmost: nat, level: nat, isRootLevel: bool, n: nat)
    ensures Walking(ix, [], WalkStart(leftmost), leftmost, level, isRootLevel, n)
  {
  }

  /** The walk ended here, and no good level starts at its first page unless that
      page names no valid page below. */
  lemma {:induction false} Halted(ix: Index, chain: seq<nat>, w: Walk, leftmost: nat, level: nat, isRootLevel: bool,
                                  n: nat)
    requires Walking(ix, chain, w, leftmost, level, isRootLevel, n) && P_NONE !in ix && w.current != P_NONE
    requires !GoesOn(ix, w.current, w.left, level, w.down.0 == INVALID_BLOCK, isRootLevel, n)
    ensures !NeverEnds(ix, leftmost, level, isRootLevel, n)
    ensures forall c :: GoodLevel(ix, c, leftmost, level, isRootLevel, n) ==>
              leftmost in ix && !ix[leftmost].isLeaf && Down(ix[leftmost], 0) == INVALID_BLOCK
  {
    assert !Proceeds(ix, WalkAfter(ix, WalkStart(leftmost), |chain|), level, isRootLevel, n);
    forall c | GoodLevel(ix, c, leftmost, level, isRootLevel, n)
      ensures leftmost in ix && !ix[leftmost].isLeaf && Down(ix[leftmost], 0) == INVALID_BLOCK
    {
      NoFalseAlarm(ix, c, chain, w, leftmost, level, isRootLevel, n);
    }
  }

  /** The walk follows a good level page by page. */
  lemma {:induction false} Follows(ix: Index, c: seq<nat>, chain: seq<nat>, leftmost: nat, level: nat,
                                   isRootLevel: bool, n: nat)
    requires GoodLevel(ix, c, leftmost, level, isRootLevel, n) && Walked(ix, chain, leftmost, level, isRootLevel, n)
    requires P_NONE !in ix && After(ix, chain, leftmost) != P_NONE
    ensures |chain| < |c| && chain == c[..|chain|] && After(ix, chain, leftmost) == c[|chain|]
    decreases |chain|
  {
    hide *;
    if chain == [] {
      LevelLinks(ix, c, leftmost, level, isRootLevel, n, 0);
      AfterIs(ix, chain, leftmost);
    } else {
      var k := |chain| - 1;
      var init := chain[..k];
      WalkedInit(ix, chain, leftmost, level, isRootLevel, n);
      Follows(ix, c, init, leftmost, level, isRootLevel, n);
      LevelLinks(ix, c, leftmost, level, isRootLevel, n, k);
      AfterIs(ix, chain, leftmost);
      assert chain == init + [chain[k]];
      assert c[..k + 1] == c[..k] + [c[k]];
    }
  }

  lemma {:induction false} AfterIs(ix: Index, chain: seq<nat>, leftmost: nat)
    ensures chain == [] ==> After(ix, chain, leftmost) == leftmost
    ensures chain != [] && chain[|chain| - 1] in ix ==> After(ix, chain, leftmost) == ix[chain[|chain| - 1]].next
  {
  }

  lemma {:induction false} LevelLinks(ix: Index, c: seq<nat>, leftmost: nat, level: nat, isRootLevel: bool, n: nat,
                                      k: nat)
    requires GoodLevel(ix, c, leftmost, level, isRootLevel, n)
    ensures c != [] && c[0] == leftmost && leftmost in ix && !ix[leftmost].halfDead && NoRepeat(c)
    ensures k < |c| ==> c[k] in ix && ix[c[k]].next == if k + 1 < |c| then c[k + 1] else P_NONE
    ensures k < |c| ==> Visited(ix, c, k, level, isRootLevel, n)
  {
    var i := if k < |c| then k else 0;
    VisitedIn(ix, c, leftmost, level, isRootLevel, n, i);
    AfterIs(ix, c, leftmost);
    hide Visited, NoRepeat;
  }

  lemma {:induction false} WalkedInit(ix: Index, chain: seq<nat>, leftmost: nat, level: nat, isRootLevel: bool, n: nat)
    requires Walked(ix, chain, leftmost, level, isRootLevel, n) && P_NONE !in ix && chain != []
    ensures var k := |chain| - 1;
            && Walked(ix, chain[..k], leftmost, level, isRootLevel, n)
            && After(ix, chain[..k], leftmost) == chain[k] != P_NONE
  {
    var k := |chain| - 1;
    var init := chain[..k];
    VisitedIn(ix, chain, leftmost, level, isRootLevel, n, k);
    if k > 0 {
      VisitedIn(ix, chain, leftmost, level, isRootLevel, n, k - 1);
    }
    forall i | 0 <= i < k
      ensures Visited(ix, init, i, level, isRootLevel, n)
    {
      assert Visited(ix, chain, i, level, isRootLevel, n);
      assert From(init, i) == From(chain, i);
    }
    hide Visited;
  }

  lemma {:induction false} NoFalseAlarm(ix: Index, c: seq<nat>, chain: seq<nat>, w: Walk, leftmost: nat, level: nat,
                                        isRootLevel: bool, n: nat)
    requires Walking(ix, chain, w, leftmost, level, isRootLevel, n) && P_NONE !in ix && w.current != P_NONE
    requires !GoesOn(ix, w.current, w.left, level, w.down.0 == INVALID_BLOCK, isRootLevel, n)
    requires GoodLevel(ix, c, leftmost, level, isRootLevel, n)
    ensures leftmost in ix && !ix[leftmost].isLeaf && Down(ix[leftmost], 0) == INVALID_BLOCK
  {
    hide GoodLevel, Walked, Passes, PassedOver, WalkAfter;
    var k := |chain|;
    LevelLinks(ix, c, leftmost, level, isRootLevel, n, k);
    if chain != [] {
      Follows(ix, c, chain, leftmost, level, isRootLevel, n);
      assert c[k - 1] == chain[k - 1];
    }
  }

  /** The last turn left the level. */
  lemma {:induction false} WalkDone(ix: Index, chain: seq<nat>, w: Walk, leftmost: nat, level: nat, isRootLevel: bool,
                                    n: nat)
    requires Walking(ix, chain, w, leftmost, level, isRootLevel, n) && w.current == P_NONE && leftmost != P_NONE
    ensures GoodLevel(ix, chain, leftmost, level, isRootLevel, n) && leftmost in ix && w.down == DownFrom(ix, leftmost)
    ensures !NeverEnds(ix, leftmost, level, isRootLevel, n)
  {
    assert !Proceeds(ix, WalkAfter(ix, WalkStart(leftmost), |chain|), level, isRootLevel, n);
    var k := |chain| - 1;
    assert Proceeds(ix, WalkAfter(ix, WalkStart(leftmost), k), level, isRootLevel, n);
    hide Walked, PageOk, WalkAfter;
  }

  /** One more turn. */
  lemma {:induction false} NextTurn(ix: Index, chain: seq<nat>, w: Walk, leftmost: nat, level: nat, isRootLevel: bool,
                                    n: nat)
    requires Walking(ix, chain, w, leftmost, level, isRootLevel, n) && P_NONE !in ix && w.current !in chain
    requires w.current != P_NONE && GoesOn(ix, w.current, w.left, level, w.down.0 == INVALID_BLOCK, isRootLevel, n)
    ensures w.current in ix && Walking(ix, chain + [w.current], Moved(ix, w), leftmost, level, isRootLevel, n)
  {
    var b, c := w.current, chain + [w.current];
    assert b in ix;
    TurnKeeps(ix, chain, w, leftmost, level, isRootLevel, n);
    assert WalkAfter(ix, WalkStart(leftmost), |c|) == Moved(ix, w);
    assert Proceeds(ix, w, level, isRootLevel, n);
    hide GoesOn, Walked, WalkAfter, Proceeds;
  }

  lemma {:induction false} TurnKeeps(ix: Index, chain: seq<nat>, w: Walk, leftmost: nat, level: nat,
                                     isRootLevel: bool, n: nat)
    requires Walking(ix, chain, w, leftmost, level, isRootLevel, n) && P_NONE !in ix && w.current !in chain
             && w.current in ix
    requires GoesOn(ix, w.current, w.left, level, w.down.0 == INVALID_BLOCK, isRootLevel, n)
    ensures var c, down := chain + [w.current], Moved(ix, w).down;
            && (chain != [] ==> down == w.down)
            && if Dead(ix, c)
               then down == (INVALID_BLOCK, -1) && forall i :: 0 <= i < |c| ==> ix[c[i]].halfDead
               else down == DownFrom(ix, c[0]) && Walked(ix, c, leftmost, level, isRootLevel, n)
    ensures NoRepeat(chain + [w.current]) && After(ix, chain + [w.current], leftmost) == ix[w.current].next
  {
    hide WalkAfter, PageOk;
    var b, c := w.current, chain + [w.current];
    if !Dead(ix, c) {
      assert chain == [] || !Dead(ix, chain);
      EmptyWalk(ix, leftmost, level, isRootLevel, n);
      assert Visited(ix, c, |chain|, level, isRootLevel, n);
      hide Visited, Walked, GoesOn;
      WalkOn(ix, chain, leftmost, level, isRootLevel, n, b);
    }
  }

  lemma {:induction false} EmptyWalk(ix: Index, leftmost: nat, level: nat, isRootLevel: bool, n: nat)
    ensures Walked(ix, [], leftmost, level, isRootLevel, n)
  {
  }

  /** A page met again: the walk never ends. */
  lemma {:induction false} MetAgain(ix: Index, chain: seq<nat>, w: Walk, leftmost: nat, level: nat, isRootLevel: bool,
                                    n: nat)
    requires Walking(ix, chain, w, leftmost, level, isRootLevel, n) && P_NONE !in ix && w.current in chain
    requires w.current != P_NONE && GoesOn(ix, w.current, w.left, level, w.down.0 == INVALID_BLOCK, isRootLevel, n)
    ensures NeverEnds(ix, leftmost, level, isRootLevel, n) && w.current in ix && ix[w.current].halfDead
    ensures forall c :: !GoodLevel(ix, c, leftmost, level, isRootLevel, n)
  {
    var i: nat :| i < |chain| && chain[i] == w.current;
    HalfDeadAgain(ix, chain, w, leftmost, level, isRootLevel, n, i);
    var start := WalkStart(leftmost);
    assert WalkAfter(ix, start, |chain| + 1) == Moved(ix, w);
    assert WalkAfter(ix, start, i + 1) == Moved(ix, WalkAfter(ix, start, i));
    assert Proceeds(ix, w, level, isRootLevel, n);
    hide GoesOn, Walked, WalkAfter, Proceeds;
    forall k: nat
      ensures Proceeds(ix, WalkAfter(ix, start, k), level, isRootLevel, n)
    {
      BackAgain(ix, leftmost, level, isRootLevel, n, i + 1, |chain| + 1, k);
    }
    forall c
      ensures !GoodLevel(ix, c, leftmost, level, isRootLevel, n)
    {
      NoLevel(ix, c, chain, w, leftmost, level, isRootLevel, n, i);
    }
  }

  lemma {:induction false} HalfDeadAgain(ix: Index, chain: seq<nat>, w: Walk, leftmost: nat, level: nat,
                                         isRootLevel: bool, n: nat, i: nat)
    requires Walking(ix, chain, w, leftmost, level, isRootLevel, n) && P_NONE !in ix && i < |chain|
             && chain[i] == w.current
    requires GoesOn(ix, w.current, w.left, level, w.down.0 == INVALID_BLOCK, isRootLevel, n)
    ensures w.current in ix && ix[w.current].halfDead
    ensures WalkAfter(ix, WalkStart(leftmost), i).down == w.down
            && WalkAfter(ix, WalkStart(leftmost), i).current == w.current
  {
    hide WalkAfter, PageOk;
    if !Dead(ix, chain) {
      VisitedIn(ix, chain, leftmost, level, isRootLevel, n, 0);
      if !ix[w.current].halfDead {
        NotVisited(ix, chain, leftmost, level, isRootLevel, n, w.current);
      }
    }
  }

  lemma {:induction false} NoLevel(ix: Index, c: seq<nat>, chain: seq<nat>, w: Walk, leftmost: nat, level: nat,
                                   isRootLevel: bool, n: nat, i: nat)
    requires Walking(ix, chain, w, leftmost, level, isRootLevel, n) && P_NONE !in ix && w.current != P_NONE
    requires i < |chain| && chain[i] == w.current
    ensures !GoodLevel(ix, c, leftmost, level, isRootLevel, n)
  {
    hide GoodLevel, Walked, WalkAfter;
    if GoodLevel(ix, c, leftmost, level, isRootLevel, n) {
      LevelLinks(ix, c, leftmost, level, isRootLevel, n, |chain|);
      Follows(ix, c, chain, leftmost, level, isRootLevel, n);
    }
  }
}
