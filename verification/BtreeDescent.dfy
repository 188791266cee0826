/** What the downlink check says about a descent from the root: separators bound
    the items below them, as long as the descent does not pass through the first
    item of a page. */
module BtreeDescent {
  import opened Prelude
  import opened BtreeOrder
  import opened BtreeCheck
  import opened BtreeLevels

  /** A live page whose items passed all checks. */
  ghost predicate Checked(ix: Index, b: nat, n: nat) {
    b in ix && (ix[b].next != P_NONE ==> ix[b].highKey.Some?) && PageOk(ix, ix[b], n)
  }

  /** Every live page on the levels of a tree that was checked without error. */
  lemma {:induction false} LevelsChecked(ix: Index, levels: seq<seq<nat>>, root: nat, rootLevel: nat, n: nat, i: nat,
                                         k: nat)
    requires Complete(ix, levels, root, rootLevel, n) && i < |levels| && k < |levels[i]|
    ensures levels[i][k] in ix && (!ix[levels[i][k]].halfDead ==> Checked(ix, levels[i][k], n))
  {
    hide GoodLevel, PageOk;
    LevelAt(ix, levels, root, rootLevel, n, i);
    PageOfLevel(ix, levels[i], LeftmostOf(ix, levels, root, i), rootLevel - i, i == 0, n, k);
  }

  lemma {:induction false} PageOfLevel(ix: Index, chain: seq<nat>, leftmost: nat, level: nat, isRootLevel: bool,
                                       n: nat, k: nat)
    requires GoodLevel(ix, chain, leftmost, level, isRootLevel, n) && k < |chain|
    ensures chain[k] in ix && (!ix[chain[k]].halfDead ==> Checked(ix, chain[k], n))
  {
    LivePage(ix, chain, leftmost, level, isRootLevel, n, k);
  }

  /** A descent: pages, and the item whose downlink leads to the next page. */
  ghost predicate Descent(ix: Index, pages: seq<nat>, items: seq<nat>, n: nat) {
    && |pages| == |items| + 1
    && (forall j :: 0 <= j < |pages| ==> Checked(ix, pages[j], n))
    && forall j :: 0 <= j < |items| ==> Step(ix, pages[j], items[j], pages[j + 1])
  }

  ghost predicate Step(ix: Index, b: nat, i: nat, child: nat) {
    b in ix && !ix[b].isLeaf && i < |ix[b].items| && Down(ix[b], i) == child
  }

  /** One step that does not use the first item. */
  lemma {:induction false} StepBounds(ix: Index, b: nat, i: nat, child: nat, n: nat, k: nat)
    requires Checked(ix, b, n) && Step(ix, b, i, child) && i > 0 && Checked(ix, child, n) && k < |Comparable(ix[child])|
    ensures Less(ix[b].items[i], Comparable(ix[child])[k], n)
  {
    var p := ix[b];
    assert ItemOk(ix, p, i, n) && Proper(p.items[i], n);
    assert InvariantL(p.items[i], Comparable(ix[child])[k]);
    PageIncreasing(ix, ix[child], n);
    hide PageOk, Less, Comparable;
    InvariantsDecide(p.items[i], Comparable(ix[child])[k], n);
  }

  /** A separator that was followed bounds every item at the end of the descent
      from below, if no later step uses a first item. */
  lemma {:induction false} SeparatorBounds(ix: Index, pages: seq<nat>, items: seq<nat>, n: nat, from: nat, k: nat)
    requires Descent(ix, pages, items, n) && from < |items|
    requires forall j :: from <= j < |items| ==> items[j] > 0
    requires k < |Comparable(ix[pages[|items|]])|
    ensures Step(ix, pages[from], items[from], pages[from + 1])
    ensures Less(ix[pages[from]].items[items[from]], Comparable(ix[pages[|items|]])[k], n)
    decreases |items| - from
  {
    var b, child := pages[from], pages[from + 1];
    assert Step(ix, b, items[from], child) && Checked(ix, b, n) && Checked(ix, child, n);
    hide Checked, Less, Comparable;
    if from + 1 == |items| {
      StepBounds(ix, b, items[from], child, n, k);
    } else {
      var i := items[from + 1];
      assert Step(ix, child, i, pages[from + 2]);
      SeparatorBounds(ix, pages, items, n, from + 1, k);
      Separator(ix, child, i, n);
      StepBounds(ix, b, items[from], child, n, i - 1);
      ProperItems(ix, b, items[from], child, pages[|items|], n, i - 1, k);
      hide Proper;
      LessTrans(ix[b].items[items[from]], ix[child].items[i], Comparable(ix[pages[|items|]])[k], n);
    }
  }

  lemma {:induction false} Separator(ix: Index, b: nat, i: nat, n: nat)
    requires b in ix && !ix[b].isLeaf && 0 < i < |ix[b].items|
    ensures |Comparable(ix[b])| == |ix[b].items| - 1 && Comparable(ix[b])[i - 1] == ix[b].items[i]
  {
  }

  lemma {:induction false} ProperItems(ix: Index, b: nat, i: nat, child: nat, last: nat, n: nat, m: nat, k: nat)
    requires Checked(ix, b, n) && !ix[b].isLeaf && 0 < i < |ix[b].items|
    requires Checked(ix, child, n) && m < |Comparable(ix[child])| && Checked(ix, last, n) && k < |Comparable(ix[last])|
    ensures Proper(ix[b].items[i], n) && Proper(Comparable(ix[child])[m], n) && Proper(Comparable(ix[last])[k], n)
  {
    PageIncreasing(ix, ix[b], n);
    PageIncreasing(ix, ix[child], n);
    PageIncreasing(ix, ix[last], n);
    Separator(ix, b, i, n);
    hide PageOk, Proper, Less, Comparable;
  }

  // ----- through a first item the bound is lost -----

  /** Three levels. The root's separator 5 leads to page 3, whose first item leads
      to page 5, which holds 3. */
  function Cousins(): Index {
    map[1 := Page(0, 0, 2, false, true, false, false, None, [Item([], None), Item([5], None)], [2, 3]),
        2 := Page(0, 3, 1, false, false, false, false, Some(Item([5], None)), [Item([], None)], [4]),
        3 := Page(2, 0, 1, false, false, false, false, None, [Item([], None), Item([9], None)], [5, 6]),
        4 := Page(0, 5, 0, true, false, false, false, Some(Item([2], None)), [Item([1], Some(1))], []),
        5 := Page(4, 6, 0, true, false, false, false, Some(Item([9], None)), [Item([3], Some(1))], []),
        6 := Page(5, 0, 0, true, false, false, false, None, [Item([10], Some(1))], [])]
  }

  /** The levels are checked without error, and yet page 5, below the separator 5
      of the root, holds an item that is less. */
  lemma {:induction false} CousinsPass()
    ensures var ix := Cousins();
            && Complete(ix, [[1], [2, 3], [4, 5, 6]], 1, 2, 1)
            && Step(ix, 1, 1, 3) && Step(ix, 3, 0, 5)
            && Less(Comparable(ix[5])[0], ix[1].items[1], 1)
  {
    var ix := Cousins();
    var levels := [[1], [2, 3], [4, 5, 6]];
    assert DecidedAt(Comparable(ix[5])[0], ix[1].items[1], 1, 0);
    OnePage(ix);
    TwoPages(ix);
    ThreePages(ix);
    assert forall i :: 0 <= i < 3 ==> LeftmostOf(ix, levels, 1, i) == levels[i][0];
    hide GoodLevel;
  }

  lemma {:induction false} OnePage(ix: Index)
    requires ix == Cousins()
    ensures GoodLevel(ix, [1], 1, 2, true, 1)
  {
    RootPasses();
    assert Visited(ix, [1], 0, 2, true, 1);
    hide Visited;
  }

  lemma {:induction false} TwoPages(ix: Index)
    requires ix == Cousins()
    ensures GoodLevel(ix, [2, 3], 2, 1, false, 1)
  {
    InnerPasses(2);
    InnerPasses(3);
    assert Visited(ix, [2, 3], 0, 1, false, 1) && Visited(ix, [2, 3], 1, 1, false, 1);
    hide Visited;
  }

  lemma {:induction false} ThreePages(ix: Index)
    requires ix == Cousins()
    ensures GoodLevel(ix, [4, 5, 6], 4, 0, false, 1)
  {
    LeafPasses(4);
    LeafPasses(5);
    LeafPasses(6);
    var c := [4, 5, 6];
    assert Visited(ix, c, 0, 0, false, 1) && Visited(ix, c, 1, 0, false, 1) && Visited(ix, c, 2, 0, false, 1);
    hide Visited;
  }

  lemma {:induction false} RootPasses()
    ensures Passes(Cousins(), 1, 0, 2, true, true, 1)
  {
    var ix, p := Cousins(), Cousins()[1];
    assert CmpAtts([5], [9]) == -1;
    assert ChildAbove(ix, p.items[1], 3);
    forall i | 0 <= i < |p.items|
      ensures ItemOk(ix, p, i, 1)
    {
    }
  }

  lemma {:induction false} InnerPasses(b: nat)
    requires b == 2 || b == 3
    ensures Passes(Cousins(), b, if b == 2 then 0 else 2, 1, b == 2, false, 1)
  {
    var ix, p := Cousins(), Cousins()[b];
    assert CmpAtts([9], [10]) == -1;
    assert b == 3 ==> ChildAbove(ix, p.items[1], 6);
    forall i | 0 <= i < |p.items|
      ensures ItemOk(ix, p, i, 1)
    {
    }
  }

  lemma {:induction false} LeafPasses(b: nat)
    requires 4 <= b <= 6
    ensures Passes(Cousins(), b, if b == 4 then 0 else b - 1, 0, b == 4, false, 1)
  {
    var ix, p := Cousins(), Cousins()[b];
    assert CmpAtts([1], [2]) == -1 && CmpAtts([3], [9]) == -1 && CmpAtts([3], [1]) == 1 && CmpAtts([10], [3]) == 1;
    if p.next != P_NONE {
      assert RightAt(ix, SkipAfter(ix, p.next, 0), p.items[0]);
    }
    forall i | 0 <= i < |p.items|
      ensures ItemOk(ix, p, i, 1)
    {
    }
  }
}
