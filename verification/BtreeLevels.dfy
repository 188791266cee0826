/** What a walk without errors proves about the items of a level and about the
    levels of the tree. */
module BtreeLevels {
  import opened Prelude
  import opened BtreeOrder
  import opened BtreeCheck

  // ----- all levels -----

  /** Levels from the root down, each a good chain one level below the last. */
  ghost predicate GoodLevels(ix: Index, levels: seq<seq<nat>>, root: nat, rootLevel: nat, n: nat) {
    && |levels| <= rootLevel + 1
    && forall i :: 0 <= i < |levels| ==>
         GoodLevel(ix, levels[i], LeftmostOf(ix, levels, root, i), rootLevel - i, i == 0, n)
  }

  /** The leftmost page of a level: the root, or the first downlink above. */
  function LeftmostOf(ix: Index, levels: seq<seq<nat>>, root: nat, i: nat): nat
    requires i <= |levels|
  {
    if i == 0 then root
    else if levels[i - 1] != [] && levels[i - 1][0] in ix && !ix[levels[i - 1][0]].isLeaf then
      Down(ix[levels[i - 1][0]], 0)
    else P_NONE
  }

  /** Levels from the root down to where nothing is below. */
  ghost predicate Complete(ix: Index, levels: seq<seq<nat>>, root: nat, rootLevel: nat, n: nat) {
    GoodLevels(ix, levels, root, rootLevel, n) && LeftmostOf(ix, levels, root, |levels|) == P_NONE
  }

  /** Every level was checked, an error was reported, or some level never ends. */
  datatype TreeOutcome = TreeOk | TreeErr(error: Error) | TreeEndless

  /** The trail of the walk over a level leads back to a page on it, or to a page
      whose check never ends. */
  ghost predicate EndlessLevel(ix: Index, leftmost: nat, level: nat, isRootLevel: bool, n: nat) {
    Loops(ix, leftmost, level, isRootLevel, n) || Sticks(ix, leftmost, level, isRootLevel, n)
  }

  /** Good levels from the root down, and below them one that never ends. */
  ghost predicate EndlessBelow(ix: Index, levels: seq<seq<nat>>, root: nat, rootLevel: nat, n: nat) {
    && GoodLevels(ix, levels, root, rootLevel, n) && |levels| <= rootLevel
    && LeftmostOf(ix, levels, root, |levels|) != P_NONE
    && EndlessLevel(ix, LeftmostOf(ix, levels, root, |levels|), rootLevel - |levels|, levels == [], n)
  }

  /** bt_check_every_level: there is no error exactly when every level is a good
      chain, one level below another. They reach down to the leaves unless the
      leftmost page of an internal level has block 0 as its first downlink: there
      the check stops without a word. It ends unless it comes to a level that never
      ends, and then right links lead a half-dead page back to itself or a run of
      ignorable pages circles. */
  method CheckEveryLevel(ix: Index, root: nat, rootLevel: nat, n: nat)
    returns (o: TreeOutcome, ghost levels: seq<seq<nat>>)
    requires P_NONE !in ix && INVALID_BLOCK !in ix
    ensures o.TreeOk? ==> Complete(ix, levels, root, rootLevel, n)
    ensures !o.TreeOk? ==> forall ls :: !Complete(ix, ls, root, rootLevel, n)
    ensures o.TreeEndless? <==> exists ls :: EndlessBelow(ix, ls, root, rootLevel, n)
    ensures o.TreeEndless? ==> HalfDeadCircle(ix) || exists b :: b in ix && Circles(ix, ix[b].next)
  {
    levels := [];
    var leftmost, level := root, rootLevel as int;
    hide *;
    LevelsStart(ix, root, rootLevel, n);
    while leftmost != P_NONE
      invariant level == rootLevel - |levels| && level >= -1 && (level < 0 ==> leftmost == P_NONE)
      invariant leftmost == LeftmostOf(ix, levels, root, |levels|) && GoodLevels(ix, levels, root, rootLevel, n)
      invariant forall ls :: Complete(ix, ls, root, rootLevel, n) ==> Reaches(ix, ls, root, |levels|, leftmost)
      invariant forall ls :: EndlessBelow(ix, ls, root, rootLevel, n) ==> Reaches(ix, ls, root, |levels|, leftmost)
      decreases level
    {
      NextLevel(ix, root, rootLevel, n, |levels|, leftmost);
      EndlessNext(ix, root, rootLevel, n, |levels|, leftmost);
      EndlessIs(ix, leftmost, level, level == rootLevel, n);
      var l, chain := CheckLevel(ix, leftmost, level, level == rootLevel, n);
      if l.EndlessPage? || l.EndlessWalk? {
        MakeEndless(ix, levels, root, rootLevel, n);
        return TreeEndless, levels;
      }
      if l.LevelErr? {
        return TreeErr(l.error), levels;
      }
      if l.leftmost == INVALID_BLOCK {
        return TreeErr(NoValidPages), levels;
      }
      AddLevel(ix, levels, chain, root, rootLevel, n);
      levels := levels + [chain];
      leftmost, level := l.leftmost, level - 1;
    }
    MakeComplete(ix, levels, root, rootLevel, n);
    NoneEndless(ix, root, rootLevel, n, |levels|);
    return TreeOk, levels;
  }

  lemma {:induction false} MakeComplete(ix: Index, levels: seq<seq<nat>>, root: nat, rootLevel: nat, n: nat)
    requires GoodLevels(ix, levels, root, rootLevel, n) && LeftmostOf(ix, levels, root, |levels|) == P_NONE
    ensures Complete(ix, levels, root, rootLevel, n)
  {
  }

  ghost predicate Reaches(ix: Index, ls: seq<seq<nat>>, root: nat, k: nat, leftmost: nat) {
    k <= |ls| && LeftmostOf(ix, ls, root, k) == leftmost
  }

  /** Any complete levels continue below the page the walk has reached. */
  lemma {:induction false} NextLevel(ix: Index, root: nat, rootLevel: nat, n: nat, k: nat, leftmost: nat)
    requires INVALID_BLOCK !in ix && leftmost != P_NONE && k <= rootLevel
    requires forall ls :: Complete(ix, ls, root, rootLevel, n) ==> Reaches(ix, ls, root, k, leftmost)
    ensures forall ls :: Complete(ix, ls, root, rootLevel, n) ==>
              && k < |ls| && GoodLevel(ix, ls[k], leftmost, rootLevel - k, k == 0, n) && leftmost in ix
              && DownFrom(ix, leftmost).0 != INVALID_BLOCK
              && (!ix[leftmost].isLeaf ==> Down(ix[leftmost], 0) != INVALID_BLOCK)
              && Reaches(ix, ls, root, k + 1, DownFrom(ix, leftmost).0)
  {
    forall ls | Complete(ix, ls, root, rootLevel, n)
      ensures k < |ls| && GoodLevel(ix, ls[k], leftmost, rootLevel - k, k == 0, n) && leftmost in ix
      ensures DownFrom(ix, leftmost).0 != INVALID_BLOCK && Reaches(ix, ls, root, k + 1, DownFrom(ix, leftmost).0)
    {
      LevelBelow(ix, ls, root, rootLevel, n, k, leftmost);
    }
  }

  lemma {:induction false} EndlessIs(ix: Index, leftmost: nat, level: nat, isRootLevel: bool, n: nat)
    ensures EndlessLevel(ix, leftmost, level, isRootLevel, n) <==>
            Loops(ix, leftmost, level, isRootLevel, n) || Sticks(ix, leftmost, level, isRootLevel, n)
  {
    hide Loops, Sticks;
  }

  lemma {:induction false} MakeEndless(ix: Index, levels: seq<seq<nat>>, root: nat, rootLevel: nat, n: nat)
    requires GoodLevels(ix, levels, root, rootLevel, n) && |levels| <= rootLevel
    requires var b := LeftmostOf(ix, levels, root, |levels|);
             b != P_NONE && EndlessLevel(ix, b, rootLevel - |levels|, levels == [], n)
    ensures EndlessBelow(ix, levels, root, rootLevel, n)
  {
    hide EndlessLevel, GoodLevels;
  }

  /** A level that is not in the index ends at once. */
  lemma {:induction false} EndsOutside(ix: Index, leftmost: nat, level: nat, isRootLevel: bool, n: nat)
    requires leftmost !in ix
    ensures !EndlessLevel(ix, leftmost, level, isRootLevel, n)
  {
    EndlessIs(ix, leftmost, level, isRootLevel, n);
    StopsOutside(ix, leftmost, level, isRootLevel, n);
  }

  /** Levels above an endless one go on below the page the walk has reached. */
  lemma {:induction false} EndlessOne(ix: Index, ls: seq<seq<nat>>, root: nat, rootLevel: nat, n: nat, k: nat,
                                      leftmost: nat)
    requires INVALID_BLOCK !in ix && k <= rootLevel
    requires EndlessBelow(ix, ls, root, rootLevel, n) && Reaches(ix, ls, root, k, leftmost)
    ensures leftmost in ix && (EndlessLevel(ix, leftmost, rootLevel - k, k == 0, n) || k < |ls|)
    ensures k < |ls| ==>
              && GoodLevel(ix, ls[k], leftmost, rootLevel - k, k == 0, n) && DownFrom(ix, leftmost).0 != INVALID_BLOCK
              && (!ix[leftmost].isLeaf ==> Down(ix[leftmost], 0) != INVALID_BLOCK)
              && Reaches(ix, ls, root, k + 1, DownFrom(ix, leftmost).0)
  {
    hide GoodLevel, GoodLevels, EndlessLevel;
    if k == |ls| {
      if leftmost !in ix {
        EndsOutside(ix, leftmost, rootLevel - k, k == 0, n);
      }
    } else {
      LevelAt(ix, ls, root, rootLevel, n, k);
      FirstPage(ix, ls[k], leftmost, rootLevel - k, k == 0, n);
      var below := LeftmostOf(ix, ls, root, k + 1);
      if k + 1 < |ls| {
        LevelAt(ix, ls, root, rootLevel, n, k + 1);
        FirstPage(ix, ls[k + 1], below, rootLevel - k - 1, false, n);
      } else if below !in ix {
        EndsOutside(ix, below, rootLevel - k - 1, false, n);
      }
    }
  }

  lemma {:induction false} EndlessNext(ix: Index, root: nat, rootLevel: nat, n: nat, k: nat, leftmost: nat)
    requires INVALID_BLOCK !in ix && k <= rootLevel
    requires forall ls :: EndlessBelow(ix, ls, root, rootLevel, n) ==> Reaches(ix, ls, root, k, leftmost)
    ensures forall ls :: EndlessBelow(ix, ls, root, rootLevel, n) ==>
              && leftmost in ix && (EndlessLevel(ix, leftmost, rootLevel - k, k == 0, n) || k < |ls|)
              && (k < |ls| ==>
                    && GoodLevel(ix, ls[k], leftmost, rootLevel - k, k == 0, n)
                    && (!ix[leftmost].isLeaf ==> Down(ix[leftmost], 0) != INVALID_BLOCK)
                    && DownFrom(ix, leftmost).0 != INVALID_BLOCK
                    && Reaches(ix, ls, root, k + 1, DownFrom(ix, leftmost).0))
  {
    hide *;
    forall ls | EndlessBelow(ix, ls, root, rootLevel, n)
      ensures leftmost in ix && (EndlessLevel(ix, leftmost, rootLevel - k, k == 0, n) || k < |ls|)
      ensures k < |ls| ==>
                && GoodLevel(ix, ls[k], leftmost, rootLevel - k, k == 0, n)
                && (!ix[leftmost].isLeaf ==> Down(ix[leftmost], 0) != INVALID_BLOCK)
                && DownFrom(ix, leftmost).0 != INVALID_BLOCK
                && Reaches(ix, ls, root, k + 1, DownFrom(ix, leftmost).0)
    {
      EndlessOne(ix, ls, root, rootLevel, n, k, leftmost);
    }
  }

  /** Nothing endless lies below the last level. */
  lemma {:induction false} NoneEndless(ix: Index, root: nat, rootLevel: nat, n: nat, k: nat)
    requires P_NONE !in ix && INVALID_BLOCK !in ix
    requires forall ls :: EndlessBelow(ix, ls, root, rootLevel, n) ==> Reaches(ix, ls, root, k, P_NONE)
    ensures forall ls :: !EndlessBelow(ix, ls, root, rootLevel, n)
  {
    forall ls | EndlessBelow(ix, ls, root, rootLevel, n)
      ensures false
    {
      assert k <= rootLevel;
      hide *;
      EndlessOne(ix, ls, root, rootLevel, n, k, P_NONE);
    }
  }

  lemma {:induction false} LevelBelow(ix: Index, ls: seq<seq<nat>>, root: nat, rootLevel: nat, n: nat, k: nat,
                                      leftmost: nat)
    requires INVALID_BLOCK !in ix && leftmost != P_NONE && k <= rootLevel
    requires Complete(ix, ls, root, rootLevel, n) && Reaches(ix, ls, root, k, leftmost)
    ensures k < |ls| && GoodLevel(ix, ls[k], leftmost, rootLevel - k, k == 0, n) && leftmost in ix
    ensures DownFrom(ix, leftmost).0 != INVALID_BLOCK && Reaches(ix, ls, root, k + 1, DownFrom(ix, leftmost).0)
  {
    hide GoodLevel, GoodLevels;
    LevelAt(ix, ls, root, rootLevel, n, k);
    FirstPage(ix, ls[k], leftmost, rootLevel - k, k == 0, n);
    if k + 1 < |ls| {
      LevelAt(ix, ls, root, rootLevel, n, k + 1);
      FirstPage(ix, ls[k + 1], LeftmostOf(ix, ls, root, k + 1), rootLevel - k - 1, false, n);
    }
  }

  lemma {:induction false} LevelAt(ix: Index, ls: seq<seq<nat>>, root: nat, rootLevel: nat, n: nat, i: nat)
    requires GoodLevels(ix, ls, root, rootLevel, n) && i < |ls|
    ensures i <= rootLevel && GoodLevel(ix, ls[i], LeftmostOf(ix, ls, root, i), rootLevel - i, i == 0, n)
  {
    hide GoodLevel, LeftmostOf;
  }

  lemma {:induction false} LevelsStart(ix: Index, root: nat, rootLevel: nat, n: nat)
    ensures GoodLevels(ix, [], root, rootLevel, n) && LeftmostOf(ix, [], root, 0) == root
    ensures forall ls :: Reaches(ix, ls, root, 0, root)
  {
  }

  lemma {:induction false} AddLevel(ix: Index, levels: seq<seq<nat>>, chain: seq<nat>, root: nat, rootLevel: nat,
                                    n: nat)
    requires GoodLevels(ix, levels, root, rootLevel, n) && |levels| <= rootLevel
    requires GoodLevel(ix, chain, LeftmostOf(ix, levels, root, |levels|), rootLevel - |levels|, levels == [], n)
    ensures GoodLevels(ix, levels + [chain], root, rootLevel, n)
    ensures var b := LeftmostOf(ix, levels, root, |levels|);
            && b in ix && DownFrom(ix, b).0 == LeftmostOf(ix, levels + [chain], root, |levels| + 1)
            && (|levels| == rootLevel ==> DownFrom(ix, b).0 == P_NONE)
  {
    hide GoodLevel;
    var more, b := levels + [chain], LeftmostOf(ix, levels, root, |levels|);
    FirstPage(ix, chain, b, rootLevel - |levels|, levels == [], n);
    assert DownFrom(ix, b).0 == LeftmostOf(ix, more, root, |levels| + 1);
    hide LeftmostOf;
    forall i | 0 <= i < |more|
      ensures GoodLevel(ix, more[i], LeftmostOf(ix, more, root, i), rootLevel - i, i == 0, n)
    {
      SameLeftmost(ix, levels, chain, root, i);
    }
  }

  lemma {:induction false} SameLeftmost(ix: Index, levels: seq<seq<nat>>, chain: seq<nat>, root: nat, i: nat)
    requires i <= |levels|
    ensures LeftmostOf(ix, levels + [chain], root, i) == LeftmostOf(ix, levels, root, i)
  {
  }

  /** The first page of a good level is on that level, so it is a leaf exactly on
      level 0. */
  lemma {:induction false} FirstPage(ix: Index, chain: seq<nat>, leftmost: nat, level: nat, isRootLevel: bool, n: nat)
    requires GoodLevel(ix, chain, leftmost, level, isRootLevel, n)
    ensures chain != [] && chain[0] == leftmost && leftmost in ix && ix[leftmost].level == level
    ensures ix[leftmost].isLeaf <==> level == 0
  {
    VisitedIn(ix, chain, leftmost, level, isRootLevel, n, 0);
    hide PageOk;
  }

  /** The levels reach down to the leaves exactly when no leftmost internal page
      has block 0 as its first downlink. */
  lemma {:induction false} ReachesLeaves(ix: Index, levels: seq<seq<nat>>, root: nat, rootLevel: nat, n: nat)
    requires Complete(ix, levels, root, rootLevel, n) && levels != []
    ensures var b := levels[|levels| - 1][0];
            levels[|levels| - 1] != [] && b in ix
              && (|levels| == rootLevel + 1 <==> !(!ix[b].isLeaf && Down(ix[b], 0) == P_NONE))
  {
    var k := |levels| - 1;
    FirstPage(ix, levels[k], LeftmostOf(ix, levels, root, k), rootLevel - k, k == 0, n);
    hide GoodLevel;
  }

  // ----- the order of a level -----

  /** The comparable items of a page, unless it is half-dead. */
  function LiveItems(p: Page): seq<Item> {
    if p.halfDead then [] else Comparable(p)
  }

  /** The comparable items of the live pages of a chain, page after page. */
  ghost function ItemsAlong(ix: Index, chain: seq<nat>): seq<Item>
    requires forall i :: 0 <= i < |chain| ==> chain[i] in ix
  {
    if chain == [] then []
    else ItemsAlong(ix, chain[..|chain| - 1]) + LiveItems(ix[chain[|chain| - 1]])
  }

  ghost predicate Increasing(s: seq<Item>, n: nat) {
    && (forall i :: 0 <= i < |s| ==> Proper(s[i], n))
    && forall i, j :: 0 <= i < j < |s| ==> Less(s[i], s[j], n)
  }

  lemma {:induction false} IncreasingPush(s: seq<Item>, it: Item, n: nat)
    requires Increasing(s, n) && Proper(it, n) && (s != [] ==> Less(s[|s| - 1], it, n))
    ensures Increasing(s + [it], n)
  {
    var t := s + [it];
    forall i, j | 0 <= i < j < |t|
      ensures Less(t[i], t[j], n)
    {
      if j == |s| && i < |s| - 1 {
        LessTrans(s[i], s[|s| - 1], it, n);
      }
    }
  }

  lemma {:induction false} IncreasingConcat(s: seq<Item>, t: seq<Item>, n: nat)
    requires Increasing(s, n) && Increasing(t, n) && (s != [] && t != [] ==> Less(s[|s| - 1], t[0], n))
    ensures Increasing(s + t, n)
    decreases |t|
  {
    if t == [] {
      assert s + t == s;
    } else {
      var k := |t| - 1;
      var init := t[..k];
      assert Increasing(init, n);
      IncreasingConcat(s, init, n);
      assert s + t == (s + init) + [t[k]];
      hide Less, Proper;
      IncreasingPush(s + init, t[k], n);
    }
  }

  /** Adjacent items in order make an increasing list. */
  lemma {:induction false} AdjacentIncreasing(s: seq<Item>, n: nat)
    requires forall i :: 0 <= i < |s| ==> Proper(s[i], n)
    requires forall i :: 0 <= i < |s| - 1 ==> InvariantL(s[i], s[i + 1])
    ensures Increasing(s, n)
  {
    if s != [] {
      var k := |s| - 1;
      var init := s[..k];
      assert forall i :: 0 <= i < k ==> init[i] == s[i];
      AdjacentIncreasing(init, n);
      if k > 0 {
        assert InvariantL(s[k - 1], s[k - 1 + 1]);
        InvariantsDecide(s[k - 1], s[k], n);
      }
      assert s == init + [s[k]];
      hide Less, Proper, InvariantL;
      IncreasingPush(init, s[k], n);
    }
  }

  /** The items of a page that passed are increasing. */
  lemma {:induction false} PageIncreasing(ix: Index, p: Page, n: nat)
    requires (p.next != P_NONE ==> p.highKey.Some?) && PageOk(ix, p, n)
    ensures Increasing(Comparable(p), n)
  {
    var s, d := Comparable(p), if p.isLeaf then 0 else 1;
    hide InvariantL, InvariantLeq, InvariantG;
    forall i | 0 <= i < |s|
      ensures s[i] == p.items[i + d] && Proper(s[i], n) && (i + 1 < |s| ==> InvariantL(s[i], s[i + 1]))
    {
      assert ItemOk(ix, p, i + d, n);
    }
    AdjacentIncreasing(s, n);
  }

  /** The last comparable item of a page is less than the first of the page where
      the look to the right stops. */
  lemma {:induction false} AcrossPages(ix: Index, p: Page, s: nat, k: nat, n: nat)
    requires (p.next != P_NONE ==> p.highKey.Some?) && PageOk(ix, p, n) && Comparable(p) != [] && p.next != P_NONE
    requires SkipAfter(ix, p.next, k) == s && !Skips(ix, s) && s in ix && Comparable(ix[s]) != []
    requires Proper(Comparable(ix[s])[0], n)
    ensures Less(Comparable(p)[|Comparable(p)| - 1], Comparable(ix[s])[0], n)
  {
    var last := |p.items| - 1;
    assert ItemOk(ix, p, last, n) && RightOk(ix, p.next, p.items[last]) && Proper(p.items[last], n);
    hide PageOk, SkipAfter;
    RightStops(ix, p.next, p.items[last], k);
    InvariantsDecide(Comparable(ix[s])[0], p.items[last], n);
  }

  /** The high key of a page that passed bounds its items: no item of a leaf is
      above it, and every separator of an internal page is below it. */
  lemma {:induction false} HighKeyBounds(ix: Index, p: Page, n: nat, i: nat)
    requires p.next != P_NONE && p.highKey.Some? && PageOk(ix, p, n) && i < |Comparable(p)|
    ensures if p.isLeaf then !Less(p.highKey.value, Comparable(p)[i], n) else Less(Comparable(p)[i], p.highKey.value, n)
  {
    var d := if p.isLeaf then 0 else 1;
    assert ItemOk(ix, p, i + d, n);
    InvariantsDecide(p.items[i + d], p.highKey.value, n);
  }

  /** Every live page has something to compare. */
  ghost predicate NoEmptyPage(ix: Index, chain: seq<nat>)
    requires forall i :: 0 <= i < |chain| ==> chain[i] in ix
  {
    forall i :: 0 <= i < |chain| && !ix[chain[i]].halfDead ==> LiveItems(ix[chain[i]]) != []
  }

  lemma {:induction false} LivePage(ix: Index, chain: seq<nat>, leftmost: nat, level: nat, isRootLevel: bool, n: nat,
                                    i: nat)
    requires Walked(ix, chain, leftmost, level, isRootLevel, n) && i < |chain|
    ensures chain[i] in ix && !ix[chain[i]].deleted && (ix[chain[i]].next != P_NONE ==> ix[chain[i]].highKey.Some?)
    ensures !ix[chain[i]].halfDead ==> PageOk(ix, ix[chain[i]], n)
    ensures Skips(ix, chain[i]) <==> ix[chain[i]].halfDead
  {
    assert Visited(ix, chain, i, level, isRootLevel, n);
    hide PageOk;
  }

  lemma {:induction false} LiveIncreasing(ix: Index, chain: seq<nat>, leftmost: nat, level: nat, isRootLevel: bool,
                                          n: nat, i: nat)
    requires Walked(ix, chain, leftmost, level, isRootLevel, n) && i < |chain|
    ensures chain[i] in ix && Increasing(LiveItems(ix[chain[i]]), n)
  {
    LivePage(ix, chain, leftmost, level, isRootLevel, n, i);
    hide Walked, PageOk;
    if !ix[chain[i]].halfDead {
      PageIncreasing(ix, ix[chain[i]], n);
    }
  }

  /** The pages at `i` and `j` follow each other as far as items go. */
  ghost predicate NextFull(ix: Index, chain: seq<nat>, i: int, j: int)
    requires forall i :: 0 <= i < |chain| ==> chain[i] in ix
  {
    && 0 <= i < j < |chain| && LiveItems(ix[chain[i]]) != [] && LiveItems(ix[chain[j]]) != []
    && forall m :: i < m < j ==> LiveItems(ix[chain[m]]) == []
  }

  /** A live page lies between. */
  ghost predicate Gap(ix: Index, chain: seq<nat>, i: int, j: int)
    requires forall i :: 0 <= i < |chain| ==> chain[i] in ix
  {
    0 <= i < j < |chain| && exists m :: i < m < j && !ix[chain[m]].halfDead
  }

  ghost predicate Ascends(p: Page, q: Page, n: nat) {
    LiveItems(p) != [] && LiveItems(q) != [] && Less(LiveItems(p)[|LiveItems(p)| - 1], LiveItems(q)[0], n)
  }

  /** Across live pages with nothing to compare, the items on either side are in
      order. */
  ghost predicate GapsInOrder(ix: Index, chain: seq<nat>, n: nat)
    requires forall i :: 0 <= i < |chain| ==> chain[i] in ix
  {
    forall i, j :: NextFull(ix, chain, i, j) && Gap(ix, chain, i, j) ==> Ascends(ix[chain[i]], ix[chain[j]], n)
  }

  /** What a walk without errors says about the order of a level: all comparable
      items, read across the pages, are strictly increasing exactly when the items
      on either side of empty pages are in order. */
  lemma {:induction false} LevelExact(ix: Index, chain: seq<nat>, leftmost: nat, level: nat, isRootLevel: bool, n: nat)
    requires Walked(ix, chain, leftmost, level, isRootLevel, n)
    requires (forall i :: 0 <= i < |chain| ==> chain[i] in ix) && P_NONE !in ix
    ensures Increasing(ItemsAlong(ix, chain), n) <==> GapsInOrder(ix, chain, n)
    decreases |chain|
  {
    hide *;
    if chain == [] {
      NoPages(ix, n);
    } else {
      var k := |chain| - 1;
      var init, p := chain[..k], ix[chain[k]];
      WalkedInit(ix, chain, leftmost, level, isRootLevel, n);
      LevelExact(ix, init, leftmost, level, isRootLevel, n);
      LiveIncreasing(ix, chain, leftmost, level, isRootLevel, n, k);
      LastAlong(ix, chain);
      IncreasingParts(ItemsAlong(ix, init), LiveItems(p), n);
      if ItemsAlong(ix, init) == [] || LiveItems(p) == [] {
        NoGap(ix, chain, n);
      } else {
        var i := LastFull(ix, init);
        NewGap(ix, chain, n, i);
        AscendsIs(ix[chain[i]], p, n);
        if !Gap(ix, chain, i, k) {
          NextAscends(ix, chain, leftmost, level, isRootLevel, n, i, k);
        }
      }
    }
  }

  lemma {:induction false} NoPages(ix: Index, n: nat)
    ensures Increasing(ItemsAlong(ix, []), n) && GapsInOrder(ix, [], n)
  {
  }

  lemma {:induction false} LastAlong(ix: Index, chain: seq<nat>)
    requires (forall i :: 0 <= i < |chain| ==> chain[i] in ix) && chain != []
    ensures ItemsAlong(ix, chain) == ItemsAlong(ix, chain[..|chain| - 1]) + LiveItems(ix[chain[|chain| - 1]])
  {
  }

  lemma {:induction false} AscendsIs(p: Page, q: Page, n: nat)
    requires LiveItems(p) != [] && LiveItems(q) != []
    ensures Ascends(p, q, n) <==> Less(LiveItems(p)[|LiveItems(p)| - 1], LiveItems(q)[0], n)
  {
  }

  /** Half-dead pages are passed over by the look to the right as well. */
  lemma {:induction false} OverDead(ix: Index, chain: seq<nat>, leftmost: nat, level: nat, isRootLevel: bool, n: nat,
                                    i: nat, j: nat)
    requires Walked(ix, chain, leftmost, level, isRootLevel, n) && (forall i :: 0 <= i < |chain| ==> chain[i] in ix)
    requires i < j < |chain| && !Gap(ix, chain, i, j)
    ensures SkipAfter(ix, ix[chain[i]].next, j - i - 1) == chain[j]
  {
    var path := chain[i + 1..j + 1];
    forall m | 0 <= m < |path| - 1
      ensures Skips(ix, path[m]) && ix[path[m]].next == path[m + 1]
    {
      LivePage(ix, chain, leftmost, level, isRootLevel, n, i + 1 + m);
    }
    hide Walked, Skips;
    RunIs(ix, path[0], path, j - i - 1);
  }

  lemma {:induction false} NextAscends(ix: Index, chain: seq<nat>, leftmost: nat, level: nat, isRootLevel: bool, n: nat,
                                       i: nat, j: nat)
    requires Walked(ix, chain, leftmost, level, isRootLevel, n) && (forall i :: 0 <= i < |chain| ==> chain[i] in ix)
    requires P_NONE !in ix && i < j < |chain| && !Gap(ix, chain, i, j)
    requires LiveItems(ix[chain[i]]) != [] && LiveItems(ix[chain[j]]) != []
    ensures Ascends(ix[chain[i]], ix[chain[j]], n)
  {
    LivePage(ix, chain, leftmost, level, isRootLevel, n, i);
    LivePage(ix, chain, leftmost, level, isRootLevel, n, j);
    LiveIncreasing(ix, chain, leftmost, level, isRootLevel, n, j);
    OverDead(ix, chain, leftmost, level, isRootLevel, n, i, j);
    assert ix[chain[i]].next == chain[i + 1] != P_NONE;
    hide Walked, PageOk, Skips, SkipAfter, Gap, Less;
    AcrossPages(ix, ix[chain[i]], chain[j], j - i - 1, n);
  }

  lemma {:induction false} IncreasingParts(s: seq<Item>, t: seq<Item>, n: nat)
    requires Increasing(t, n)
    ensures Increasing(s + t, n) <==> Increasing(s, n) && (s != [] && t != [] ==> Less(s[|s| - 1], t[0], n))
  {
    hide Less, Proper;
    if Increasing(s + t, n) {
      var st := s + t;
      assert forall i :: 0 <= i < |s| ==> s[i] == st[i];
      if s != [] && t != [] {
        assert st[|s| - 1] == s[|s| - 1] && st[|s|] == t[0];
      }
    }
    if Increasing(s, n) && (s != [] && t != [] ==> Less(s[|s| - 1], t[0], n)) {
      IncreasingConcat(s, t, n);
    }
  }

  /** The last page that has items: its last item is the last of all. */
  lemma {:induction false} LastFull(ix: Index, chain: seq<nat>) returns (i: nat)
    requires (forall i :: 0 <= i < |chain| ==> chain[i] in ix) && ItemsAlong(ix, chain) != []
    ensures i < |chain| && LiveItems(ix[chain[i]]) != []
    ensures forall m :: i < m < |chain| ==> LiveItems(ix[chain[m]]) == []
    ensures var s, t := ItemsAlong(ix, chain), LiveItems(ix[chain[i]]); s[|s| - 1] == t[|t| - 1]
    decreases |chain|
  {
    var k := |chain| - 1;
    hide LiveItems;
    if LiveItems(ix[chain[k]]) != [] {
      i := k;
    } else {
      i := LastFull(ix, chain[..k]);
    }
  }

  lemma {:induction false} AllEmpty(ix: Index, chain: seq<nat>)
    requires (forall i :: 0 <= i < |chain| ==> chain[i] in ix) && ItemsAlong(ix, chain) == []
    ensures forall i :: 0 <= i < |chain| ==> LiveItems(ix[chain[i]]) == []
    decreases |chain|
  {
    hide LiveItems;
    if chain != [] {
      AllEmpty(ix, chain[..|chain| - 1]);
    }
  }

  /** Pages before the last. */
  lemma {:induction false} SameGaps(ix: Index, chain: seq<nat>, n: nat)
    requires (forall i :: 0 <= i < |chain| ==> chain[i] in ix) && chain != []
    ensures forall i, j :: j < |chain| - 1 ==> (NextFull(ix, chain, i, j) <==> NextFull(ix, chain[..|chain| - 1], i, j))
    ensures forall i, j :: j < |chain| - 1 ==> (Gap(ix, chain, i, j) <==> Gap(ix, chain[..|chain| - 1], i, j))
  {
    hide LiveItems;
    var init := chain[..|chain| - 1];
    assert forall m :: 0 <= m < |init| ==> init[m] == chain[m];
    forall i, j | j < |init|
      ensures Gap(ix, chain, i, j) <==> Gap(ix, init, i, j)
    {
      if Gap(ix, chain, i, j) {
        var m :| i < m < j && !ix[chain[m]].halfDead;
        assert init[m] == chain[m];
      }
    }
  }

  lemma {:induction false} NoGap(ix: Index, chain: seq<nat>, n: nat)
    requires (forall i :: 0 <= i < |chain| ==> chain[i] in ix) && chain != []
    requires ItemsAlong(ix, chain[..|chain| - 1]) == [] || LiveItems(ix[chain[|chain| - 1]]) == []
    ensures GapsInOrder(ix, chain, n) <==> GapsInOrder(ix, chain[..|chain| - 1], n)
  {
    var k := |chain| - 1;
    var init := chain[..k];
    if ItemsAlong(ix, init) == [] {
      AllEmpty(ix, init);
      assert forall i :: 0 <= i < k ==> chain[i] == init[i];
    }
    assert forall i :: !NextFull(ix, chain, i, k);
    SameGaps(ix, chain, n);
    GapsBelow(ix, chain, n);
  }

  /** The gaps of a chain are those before its last page and those that end there. */
  lemma {:induction false} GapsBelow(ix: Index, chain: seq<nat>, n: nat)
    requires (forall i :: 0 <= i < |chain| ==> chain[i] in ix) && chain != []
    ensures var k := |chain| - 1;
            GapsInOrder(ix, chain, n) <==>
            GapsInOrder(ix, chain[..k], n) &&
            forall i :: NextFull(ix, chain, i, k) && Gap(ix, chain, i, k) ==> Ascends(ix[chain[i]], ix[chain[k]], n)
  {
    var k := |chain| - 1;
    var init := chain[..k];
    SameGaps(ix, chain, n);
    hide Ascends, LiveItems;
    forall i, j | NextFull(ix, chain, i, j)
      ensures 0 <= i < j <= k && (j < k ==> NextFull(ix, init, i, j) && chain[i] == init[i] && chain[j] == init[j])
    {
    }
    forall i, j | NextFull(ix, init, i, j)
      ensures NextFull(ix, chain, i, j) && 0 <= i < j < k && chain[i] == init[i] && chain[j] == init[j]
    {
    }
    hide NextFull, Gap;
  }

  lemma {:induction false} NewGap(ix: Index, chain: seq<nat>, n: nat, i: nat)
    requires (forall i :: 0 <= i < |chain| ==> chain[i] in ix) && chain != []
    requires i < |chain| - 1 && LiveItems(ix[chain[i]]) != [] && LiveItems(ix[chain[|chain| - 1]]) != []
    requires forall m :: i < m < |chain| - 1 ==> LiveItems(ix[chain[m]]) == []
    ensures var k := |chain| - 1;
            GapsInOrder(ix, chain, n) <==>
            GapsInOrder(ix, chain[..k], n) && (Gap(ix, chain, i, k) ==> Ascends(ix[chain[i]], ix[chain[k]], n))
  {
    var k := |chain| - 1;
    hide LiveItems, Ascends;
    assert forall h :: NextFull(ix, chain, h, k) <==> h == i;
    GapsBelow(ix, chain, n);
    hide *;
  }

  /** In particular they are increasing when every live page has a comparable item. */
  lemma {:induction false} LevelIncreasing(ix: Index, chain: seq<nat>, leftmost: nat, level: nat, isRootLevel: bool,
                                           n: nat)
    requires Walked(ix, chain, leftmost, level, isRootLevel, n)
    requires (forall i :: 0 <= i < |chain| ==> chain[i] in ix) && NoEmptyPage(ix, chain) && P_NONE !in ix
    ensures Increasing(ItemsAlong(ix, chain), n)
  {
    hide Walked, NoEmptyPage, NextFull, Gap, Increasing, Ascends;
    LevelExact(ix, chain, leftmost, level, isRootLevel, n);
    forall i, j | NextFull(ix, chain, i, j)
      ensures !Gap(ix, chain, i, j)
    {
      Neighbours(ix, chain, i, j);
    }
  }

  lemma {:induction false} Neighbours(ix: Index, chain: seq<nat>, i: int, j: int)
    requires (forall i :: 0 <= i < |chain| ==> chain[i] in ix) && NoEmptyPage(ix, chain) && NextFull(ix, chain, i, j)
    ensures !Gap(ix, chain, i, j)
  {
    hide LiveItems;
  }
}
