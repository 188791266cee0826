/** Indexes at which the checks prove nothing, or do not end. */
module BtreeLimits {
  import opened Prelude
  import opened BtreeOrder
  import opened BtreeCheck
  import opened BtreeLevels

  function LeafPage(prev: nat, next: nat, items: seq<Item>): Page {
    Page(prev, next, 0, true, false, false, false, Some(Item([9], None)), items, [])
  }

  // ----- a page without items between two others -----

  /** Three leaf pages: 5 on the first, nothing on the second, 3 on the third. */
  function GapIndex(): Index {
    map[1 := LeafPage(0, 2, [Item([5], Some(1))]), 2 := LeafPage(1, 3, []), 3 := LeafPage(2, 0, [Item([3], Some(1))])]
  }

  lemma {:induction false} GapPage(b: nat)
    requires 1 <= b <= 3
    ensures b in GapIndex() && Passes(GapIndex(), b, b - 1, 0, b == 1, false, 1)
  {
    var ix, p := GapIndex(), GapIndex()[b];
    assert CmpAtts([5], [9]) == -1;
    if p.items != [] && p.next != P_NONE {
      assert RightAt(ix, SkipAfter(ix, p.next, 0), p.items[0]);
    }
    forall i | 0 <= i < |p.items|
      ensures ItemOk(ix, p, i, 1)
    {
    }
  }

  /** A leaf page between two others without any item of its own hides that the
      items on either side of it are out of order. */
  lemma {:induction false} EmptyPageHidesDisorder()
    ensures GoodLevel(GapIndex(), [1, 2, 3], 1, 0, false, 1)
    ensures Less(Comparable(GapIndex()[3])[0], Comparable(GapIndex()[1])[0], 1)
  {
    var ix, c := GapIndex(), [1, 2, 3];
    assert DecidedAt(Comparable(ix[3])[0], Comparable(ix[1])[0], 1, 0);
    forall i | 0 <= i < |c|
      ensures Visited(ix, c, i, 0, false, 1)
    {
      GapPage(i + 1);
    }
    hide Visited;
  }

  // ----- block 0 as the first downlink -----

  /** A root on level 1 whose only downlink is block 0. */
  function RootOnly(): Index {
    map[1 := Page(0, 0, 1, false, true, false, false, None, [Item([], None)], [0])]
  }

  /** The check ends without an error, and without a level of leaves. */
  lemma {:induction false} LeavesMissing()
    ensures Complete(RootOnly(), [[1]], 1, 1, 1)
    ensures forall b :: b in RootOnly() ==> !RootOnly()[b].isLeaf
  {
    var ix, p := RootOnly(), RootOnly()[1];
    forall i | 0 <= i < |p.items|
      ensures ItemOk(ix, p, i, 1)
    {
    }
    assert Visited(ix, [1], 0, 1, true, 1);
    hide Visited;
  }

  // ----- walks and checks that do not end -----

  /** Three half-dead leaf pages linked in a ring. */
  function Ring(): Index {
    var dead := (prev: nat, next: nat) => Page(prev, next, 0, true, false, false, true, Some(Item([1], None)), [], []);
    map[1 := dead(3, 2), 2 := dead(1, 3), 3 := dead(2, 1)]
  }

  lemma {:induction false} RingTurn(k: nat)
    ensures var w := WalkAfter(Ring(), WalkStart(1), k); 1 <= w.current <= 3 && w.left != w.current
  {
    if k > 0 {
      RingTurn(k - 1);
    }
  }

  /** They keep the walk going for ever. */
  lemma {:induction false} RingNeverEnds()
    ensures NeverEnds(Ring(), 1, 0, false, 1)
  {
    forall k: nat
      ensures Proceeds(Ring(), WalkAfter(Ring(), WalkStart(1), k), 0, false, 1)
    {
      RingTurn(k);
      var w := WalkAfter(Ring(), WalkStart(1), k);
      hide WalkAfter, Passes;
      assert PassedOver(Ring(), w.current, w.left);
    }
  }

  /** A leaf page with one item; to its right a deleted page that is its own right
      neighbour. */
  function SelfLinked(): Index {
    map[1 := LeafPage(0, 2, [Item([5], Some(1))]),
        2 := Page(0, 2, 0, true, false, true, false, None, [], [])]
  }

  /** The check of the first page never ends: it looks for an item to the right and
      passes over the deleted page again and again. The walk does not come to
      report that page. */
  lemma {:induction false} SelfLinkedNeverEnds()
    ensures forall k: nat :: Skips(SelfLinked(), SkipAfter(SelfLinked(), 2, k))
    ensures StuckAfter(SelfLinked(), 0, 1, 0, false, 1)
  {
    var ix := SelfLinked();
    assert SkipRun(ix, 2, [2, 2]) && [2, 2][1] in [2, 2][..1];
    SkipEndsExactly(ix, 2);
    assert CmpAtts([5], [9]) == -1;
    assert ItemEndless(ix, ix[1], 0, 1);
    assert WalkAfter(ix, WalkStart(1), 0) == WalkStart(1);
  }
}
