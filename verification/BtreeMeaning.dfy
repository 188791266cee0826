/** What the checks accept, said without them: in terms of the reference order
    of items and of the fields of pages. */
module BtreeMeaning {
  import opened Prelude
  import opened BtreeOrder
  import opened BtreeCheck
  import opened BtreeLevels

  /** The items of all pages have at most `n` attributes, and a heap TID only after
      all of them. */
  ghost predicate AllProper(ix: Index, n: nat) {
    forall b, k :: b in ix && 0 <= k < |Comparable(ix[b])| ==> Proper(Comparable(ix[b])[k], n)
  }

  // ----- a page -----

  /** Leaf items are complete; the first item of an internal page is empty and the
      others, like high keys, have some attributes. */
  ghost predicate RightAtts(p: Page, n: nat)
    requires p.next != P_NONE ==> p.highKey.Some?
  {
    && (p.next != P_NONE ==> Proper(p.highKey.value, n) && p.highKey.value.atts != [])
    && forall i :: 0 <= i < |p.items| ==> AttsAt(p, i, n)
  }

  predicate AttsAt(p: Page, i: nat, n: nat)
    requires i < |p.items|
  {
    if p.isLeaf then |p.items[i].atts| == n && p.items[i].tid.Some?
    else if i == 0 then p.items[i].atts == [] && p.items[i].tid.None?
    else Proper(p.items[i], n) && p.items[i].atts != []
  }

  /** No item of a leaf is above its high key, which may be equal to the last one;
      on an internal page every item is below it. */
  ghost predicate UnderHighKey(p: Page, n: nat)
    requires p.next != P_NONE ==> p.highKey.Some?
  {
    p.next != P_NONE ==>
      forall k :: 0 <= k < |Comparable(p)| ==>
        if p.isLeaf then !Less(p.highKey.value, Comparable(p)[k], n) else Less(Comparable(p)[k], p.highKey.value, n)
  }

  /** The item is below the first comparable item where the look to the right stops. */
  ghost predicate BelowRight(ix: Index, next: nat, it: Item, n: nat) {
    exists k: nat :: BelowAt(ix, SkipAfter(ix, next, k), it, n)
  }

  ghost predicate BelowAt(ix: Index, s: nat, it: Item, n: nat) {
    !Skips(ix, s) && CanRead(ix, s) && (Comparable(ix[s]) != [] ==> Less(it, Comparable(ix[s])[0], n))
  }

  /** The item is below all comparable items of a child that is not deleted. */
  ghost predicate BelowChild(ix: Index, it: Item, child: nat, n: nat) {
    && CanRead(ix, child) && !ix[child].deleted
    && forall k :: 0 <= k < |Comparable(ix[child])| ==> Less(it, Comparable(ix[child])[k], n)
  }

  ghost predicate SoundPage(ix: Index, p: Page, n: nat)
    requires p.next != P_NONE ==> p.highKey.Some?
  {
    && RightAtts(p, n) && Increasing(Comparable(p), n) && UnderHighKey(p, n)
    && (p.next != P_NONE && Comparable(p) != [] ==> BelowRight(ix, p.next, p.items[|p.items| - 1], n))
    && (!p.isLeaf ==> forall i :: 0 < i < |p.items| ==> BelowChild(ix, p.items[i], Down(p, i), n))
  }

  /** The high key and order checks of an item, in terms of the order. */
  lemma {:induction false} InOrderMeans(p: Page, i: nat, n: nat)
    requires i < |p.items| && (p.next != P_NONE ==> p.highKey.Some?) && RightAtts(p, n) && !NegativeInfinity(p, i)
    ensures InOrder(p, i) <==>
            && (p.next != P_NONE ==>
                  if p.isLeaf then !Less(p.highKey.value, p.items[i], n) else Less(p.items[i], p.highKey.value, n))
            && (i + 1 < |p.items| ==> Less(p.items[i], p.items[i + 1], n))
  {
    assert AttsAt(p, i, n);
    if p.next != P_NONE {
      InvariantsDecide(p.items[i], p.highKey.value, n);
    }
    if i + 1 < |p.items| {
      assert AttsAt(p, i + 1, n);
      InvariantsDecide(p.items[i], p.items[i + 1], n);
    }
    hide InvariantL, InvariantLeq, Less;
  }

  lemma {:induction false} RightMeans(ix: Index, next: nat, it: Item, n: nat)
    requires AllProper(ix, n) && Proper(it, n)
    ensures RightOk(ix, next, it) <==> BelowRight(ix, next, it, n)
  {
    hide SkipAfter, Skips, CanRead, Less, InvariantG, Comparable, Proper;
    forall k: nat
      ensures RightAt(ix, SkipAfter(ix, next, k), it) <==> BelowAt(ix, SkipAfter(ix, next, k), it, n)
    {
      RightAtMeans(ix, SkipAfter(ix, next, k), it, n);
    }
  }

  lemma {:induction false} RightAtMeans(ix: Index, s: nat, it: Item, n: nat)
    requires AllProper(ix, n) && Proper(it, n)
    ensures RightAt(ix, s, it) <==> BelowAt(ix, s, it, n)
  {
    hide Skips, Less, InvariantG, Comparable, Proper;
    if CanRead(ix, s) && Comparable(ix[s]) != [] {
      InvariantsDecide(Comparable(ix[s])[0], it, n);
    }
  }

  lemma {:induction false} ChildMeans(ix: Index, it: Item, child: nat, n: nat)
    requires AllProper(ix, n) && Proper(it, n)
    ensures ChildAbove(ix, it, child) <==> BelowChild(ix, it, child, n)
  {
    hide Less, InvariantL, Comparable, Proper;
    if CanRead(ix, child) {
      forall k | 0 <= k < |Comparable(ix[child])|
        ensures InvariantL(it, Comparable(ix[child])[k]) <==> Less(it, Comparable(ix[child])[k], n)
      {
        InvariantsDecide(it, Comparable(ix[child])[k], n);
      }
    }
  }

  /** All checks of an item, in terms of the order. */
  ghost predicate SoundItem(ix: Index, p: Page, i: nat, n: nat)
    requires i < |p.items| && (p.next != P_NONE ==> p.highKey.Some?)
  {
    && (p.next != P_NONE ==>
          if p.isLeaf then !Less(p.highKey.value, p.items[i], n) else Less(p.items[i], p.highKey.value, n))
    && (i + 1 < |p.items| ==> Less(p.items[i], p.items[i + 1], n))
    && (i + 1 == |p.items| && p.next != P_NONE ==> BelowRight(ix, p.next, p.items[i], n))
    && (!p.isLeaf ==> BelowChild(ix, p.items[i], Down(p, i), n))
  }

  lemma {:induction false} ItemMeans(ix: Index, p: Page, i: nat, n: nat)
    requires i < |p.items| && (p.next != P_NONE ==> p.highKey.Some?) && RightAtts(p, n) && AllProper(ix, n)
    ensures ItemOk(ix, p, i, n) <==> NegativeInfinity(p, i) || SoundItem(ix, p, i, n)
  {
    assert AttsAt(p, i, n) && ItemAtts(p, i, n);
    if !NegativeInfinity(p, i) {
      assert Proper(p.items[i], n);
      InOrderMeans(p, i, n);
      RightMeans(ix, p.next, p.items[i], n);
      ChildMeans(ix, p.items[i], Down(p, i), n);
    }
    hide RightAtts, InOrder, RightOk, BelowRight, ChildAbove, BelowChild, Less, AllProper, Proper;
  }

  /** Right attribute counts are part of the page check. */
  lemma {:induction false} AttsMeans(ix: Index, p: Page, n: nat)
    requires p.next != P_NONE ==> p.highKey.Some?
    ensures RightAtts(p, n) <==>
            (p.next != P_NONE ==> PivotAtts(p.highKey.value, n)) && forall i :: 0 <= i < |p.items| ==> ItemAtts(p, i, n)
  {
    hide Proper;
    forall i | 0 <= i < |p.items|
      ensures AttsAt(p, i, n) <==> ItemAtts(p, i, n)
    {
    }
    hide AttsAt, ItemAtts;
  }

  /** A page passes all checks exactly when it is sound. */
  lemma {:induction false} PageMeans(ix: Index, p: Page, n: nat)
    requires (p.next != P_NONE ==> p.highKey.Some?) && AllProper(ix, n)
    ensures PageOk(ix, p, n) <==> SoundPage(ix, p, n)
  {
    hide Proper, Less, AllProper, BelowRight, BelowChild;
    if PageOk(ix, p, n) {
      PageSound(ix, p, n);
    }
    if SoundPage(ix, p, n) {
      SoundPasses(ix, p, n);
    }
  }

  lemma {:induction false} PageSound(ix: Index, p: Page, n: nat)
    requires (p.next != P_NONE ==> p.highKey.Some?) && AllProper(ix, n) && PageOk(ix, p, n)
    ensures SoundPage(ix, p, n)
  {
    AttsMeans(ix, p, n);
    forall i | 0 <= i < |p.items|
      ensures ItemAtts(p, i, n)
    {
      assert ItemOk(ix, p, i, n);
    }
    PageIncreasing(ix, p, n);
    hide RightAtts, Less, AllProper, BelowRight, BelowChild, ItemOk, Increasing, ItemAtts, PivotAtts;
    forall i | 0 <= i < |p.items| && !NegativeInfinity(p, i)
      ensures SoundItem(ix, p, i, n)
    {
      ItemMeans(ix, p, i, n);
    }
    ItemsSound(ix, p, n);
  }

  lemma {:induction false} ItemsSound(ix: Index, p: Page, n: nat)
    requires p.next != P_NONE ==> p.highKey.Some?
    requires RightAtts(p, n) && Increasing(Comparable(p), n)
    requires forall i :: 0 <= i < |p.items| && !NegativeInfinity(p, i) ==> SoundItem(ix, p, i, n)
    ensures SoundPage(ix, p, n)
  {
    hide RightAtts, Less, BelowRight, BelowChild, Increasing;
    var d := if p.isLeaf then 0 else 1;
    forall k | 0 <= k < |Comparable(p)|
      ensures Comparable(p)[k] == p.items[k + d] && SoundItem(ix, p, k + d, n)
    {
    }
  }

  lemma {:induction false} SoundPasses(ix: Index, p: Page, n: nat)
    requires (p.next != P_NONE ==> p.highKey.Some?) && AllProper(ix, n) && SoundPage(ix, p, n)
    ensures PageOk(ix, p, n)
  {
    AttsMeans(ix, p, n);
    hide RightAtts, Less, AllProper, BelowRight, BelowChild, ItemOk, ItemAtts;
    forall i | 0 <= i < |p.items|
      ensures ItemOk(ix, p, i, n)
    {
      if !NegativeInfinity(p, i) {
        SoundAt(ix, p, i, n);
      }
      ItemMeans(ix, p, i, n);
    }
  }

  lemma {:induction false} SoundAt(ix: Index, p: Page, i: nat, n: nat)
    requires (p.next != P_NONE ==> p.highKey.Some?) && SoundPage(ix, p, n)
    requires i < |p.items| && !NegativeInfinity(p, i)
    ensures SoundItem(ix, p, i, n)
  {
    hide RightAtts, Less, BelowRight, BelowChild, Proper;
    var k := if p.isLeaf then i else i - 1;
    assert Comparable(p)[k] == p.items[i];
    if i + 1 < |p.items| {
      assert Comparable(p)[k + 1] == p.items[i + 1];
    }
  }

  // ----- a level -----

  /** What the code reads from disk without complaint. */
  predicate Readable(p: Page) {
    && (p.isLeaf <==> p.level == 0) && (!p.isLeaf ==> p.items != [] && !p.halfDead)
    && (p.next != P_NONE ==> p.highKey.Some?)
  }

  /** A page of a level: half-dead in its inside, or live, on that level, linked
      back to its left neighbour, and sound. */
  ghost predicate SoundMember(ix: Index, chain: seq<nat>, i: nat, level: nat, isRootLevel: bool, n: nat)
    requires i < |chain|
  {
    && chain[i] in ix && !ix[chain[i]].deleted && Readable(ix[chain[i]])
    && ix[chain[i]].next == (if i + 1 < |chain| then chain[i + 1] else P_NONE)
    && if ix[chain[i]].halfDead then 0 < i < |chain| - 1 && ix[chain[i]].prev != chain[i]
       else
         && ix[chain[i]].level == level && ix[chain[i]].prev == (if i == 0 then P_NONE else chain[i - 1])
         && (i == 0 && isRootLevel ==> ix[chain[i]].isRoot) && SoundPage(ix, ix[chain[i]], n)
  }

  ghost predicate SoundLevel(ix: Index, chain: seq<nat>, leftmost: nat, level: nat, isRootLevel: bool, n: nat) {
    && chain != [] && chain[0] == leftmost && (forall i, j :: 0 <= i < j < |chain| ==> chain[i] != chain[j])
    && forall i :: 0 <= i < |chain| ==> SoundMember(ix, chain, i, level, isRootLevel, n)
  }

  /** The levels that are checked without error are the sound ones. */
  lemma {:induction false} LevelMeans(ix: Index, chain: seq<nat>, leftmost: nat, level: nat, isRootLevel: bool, n: nat)
    requires P_NONE !in ix && AllProper(ix, n)
    ensures GoodLevel(ix, chain, leftmost, level, isRootLevel, n) <==>
            SoundLevel(ix, chain, leftmost, level, isRootLevel, n)
  {
    if GoodLevel(ix, chain, leftmost, level, isRootLevel, n) {
      GoodIsSound(ix, chain, leftmost, level, isRootLevel, n);
    }
    if SoundLevel(ix, chain, leftmost, level, isRootLevel, n) {
      SoundIsGood(ix, chain, leftmost, level, isRootLevel, n);
    }
  }

  lemma {:induction false} GoodIsSound(ix: Index, chain: seq<nat>, leftmost: nat, level: nat, isRootLevel: bool,
                                       n: nat)
    requires P_NONE !in ix && AllProper(ix, n) && GoodLevel(ix, chain, leftmost, level, isRootLevel, n)
    ensures SoundLevel(ix, chain, leftmost, level, isRootLevel, n)
  {
    LevelLinks(ix, chain, leftmost, level, isRootLevel, n, 0);
    hide GoodLevel, AllProper, SoundMember;
    forall i | 0 <= i < |chain|
      ensures SoundMember(ix, chain, i, level, isRootLevel, n)
    {
      LevelLinks(ix, chain, leftmost, level, isRootLevel, n, i);
      MemberSound(ix, chain, i, level, isRootLevel, n);
    }
  }

  lemma {:induction false} MemberSound(ix: Index, chain: seq<nat>, i: nat, level: nat, isRootLevel: bool, n: nat)
    requires P_NONE !in ix && AllProper(ix, n) && i < |chain| && Visited(ix, chain, i, level, isRootLevel, n)
    requires chain[i] in ix && ix[chain[i]].next == (if i + 1 < |chain| then chain[i + 1] else P_NONE)
    ensures SoundMember(ix, chain, i, level, isRootLevel, n)
  {
    hide AllProper, PageOk, SoundPage;
    var p := ix[chain[i]];
    if !p.halfDead {
      PageMeans(ix, p, n);
    }
  }

  lemma {:induction false} SoundIsGood(ix: Index, chain: seq<nat>, leftmost: nat, level: nat, isRootLevel: bool,
                                       n: nat)
    requires P_NONE !in ix && AllProper(ix, n) && SoundLevel(ix, chain, leftmost, level, isRootLevel, n)
    ensures GoodLevel(ix, chain, leftmost, level, isRootLevel, n)
  {
    hide AllProper, SoundMember, Visited;
    forall i | 0 <= i < |chain|
      ensures chain[i] in ix
    {
      assert SoundMember(ix, chain, i, level, isRootLevel, n);
      MemberIn(ix, chain, i, level, isRootLevel, n);
    }
    forall i | 0 <= i < |chain|
      ensures Visited(ix, chain, i, level, isRootLevel, n)
      ensures if i + 1 < |chain| then ix[chain[i]].next == chain[i + 1] else ix[chain[i]].next == P_NONE
    {
      MemberVisited(ix, chain, i, level, isRootLevel, n);
    }
    forall i | 0 <= i < |chain| - 1
      ensures chain[i] in ix && ix[chain[i]].next == chain[i + 1]
    {
      MemberVisited(ix, chain, i, level, isRootLevel, n);
    }
    MemberVisited(ix, chain, |chain| - 1, level, isRootLevel, n);
    assert Walked(ix, chain, leftmost, level, isRootLevel, n) && NoRepeat(chain);
  }

  lemma {:induction false} MemberIn(ix: Index, chain: seq<nat>, i: nat, level: nat, isRootLevel: bool, n: nat)
    requires i < |chain| && SoundMember(ix, chain, i, level, isRootLevel, n)
    ensures chain[i] in ix
  {
  }

  lemma {:induction false} MemberVisited(ix: Index, chain: seq<nat>, i: nat, level: nat, isRootLevel: bool, n: nat)
    requires P_NONE !in ix && AllProper(ix, n) && i < |chain| && SoundMember(ix, chain, i, level, isRootLevel, n)
    requires (forall i, j :: 0 <= i < j < |chain| ==> chain[i] != chain[j])
             && (forall i :: 0 <= i < |chain| ==> chain[i] in ix)
    ensures Visited(ix, chain, i, level, isRootLevel, n)
    ensures ix[chain[i]].next == (if i + 1 < |chain| then chain[i + 1] else P_NONE)
  {
    hide AllProper, PageOk, SoundPage;
    var p := ix[chain[i]];
    assert CanRead(ix, chain[i]);
    if i > 0 {
      assert chain[i] != chain[i - 1];
    }
    if p.halfDead {
      assert chain[i + 1] in ix;
      assert PassedOver(ix, chain[i], chain[i - 1]);
    } else {
      PageMeans(ix, p, n);
    }
  }
}
