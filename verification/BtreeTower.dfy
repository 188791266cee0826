/** For which descents the downlink check bounds the items below a separator:
    exactly those with no first item after it. The counterexamples are towers,
    with one page to a level. */
module BtreeTower {
  import opened Prelude
  import opened BtreeOrder
  import opened BtreeCheck
  import opened BtreeLevels
  import opened BtreeDescent

  // ----- a tower for a descent -----

  function Sum(items: seq<nat>, t: nat): nat
    requires t <= |items|
  {
    if t == 0 then 0 else Sum(items, t - 1) + items[t - 1]
  }

  /** The separators of step `t`. They rise from step to step, and start again
      below all others after step `z`. */
  function Val(items: seq<nat>, z: nat, t: nat, i: nat): int
    requires t <= |items|
  {
    Sum(items, t) + i + if t <= z then Sum(items, |items|) + 2 else 0
  }

  function PivotAt(items: seq<nat>, z: nat, t: nat, i: nat): Item
    requires t <= |items|
  {
    if i == 0 then Item([], None) else Item([Val(items, z, t, i)], None)
  }

  /** The page of step `t`, with as many items as the step needs, all leading to the
      page of the next step; at the end a leaf with one item. */
  function PageAt(items: seq<nat>, z: nat, t: nat): Page
    requires t <= |items|
  {
    if t == |items| then Page(0, 0, 0, true, t == 0, false, false, None, [LeafItem(items, z)], [])
    else Page(0, 0, |items| - t, false, t == 0, false, false, None,
              seq(items[t] + 1, i requires 0 <= i => PivotAt(items, z, t, i)), seq(items[t] + 1, _ => t + 2))
  }

  function LeafItem(items: seq<nat>, z: nat): Item {
    Item([Val(items, z, |items|, 1)], Some(1))
  }

  function Pages(items: seq<nat>): (ps: seq<nat>)
    ensures |ps| == |items| + 1 && forall t :: 0 <= t < |ps| ==> ps[t] == t + 1
  {
    seq(|items| + 1, t requires 0 <= t => t + 1)
  }

  function Tower(items: seq<nat>, z: nat): Index {
    map b | b in Pages(items) :: PageAt(items, z, b - 1)
  }

  lemma {:induction false} TowerAt(items: seq<nat>, z: nat, t: nat)
    requires t <= |items|
    ensures t + 1 in Tower(items, z) && Tower(items, z)[t + 1] == PageAt(items, z, t)
  {
    assert Pages(items)[t] == t + 1;
  }

  function Levels(items: seq<nat>): (ls: seq<seq<nat>>)
    ensures |ls| == |items| + 1 && forall t :: 0 <= t < |ls| ==> ls[t] == [t + 1]
  {
    seq(|items| + 1, t requires 0 <= t => [t + 1])
  }

  // ----- the tower passes the check -----

  lemma {:induction false} Below(a: Item, b: Item)
    requires |a.atts| == 1 == |b.atts| && a.atts[0] < b.atts[0]
    ensures InvariantL(a, b) && Less(a, b, 1)
  {
    assert DecidedAt(a, b, 1, 0);
  }

  /** What can be compared on a page is one of these. */
  lemma {:induction false} ComparableAt(items: seq<nat>, z: nat, t: nat, k: nat)
    requires t <= |items| && k < |Comparable(PageAt(items, z, t))|
    ensures Comparable(PageAt(items, z, t))[k].atts == [Val(items, z, t, k + 1)]
  {
    hide Val;
  }

  /** A separator is below everything on the next page. */
  lemma {:induction false} Rises(items: seq<nat>, z: nat, t: nat, i: nat, k: nat)
    requires t < |items| && z < |items| && items[z] == 0 && 0 < i <= items[t]
    ensures Val(items, z, t, i) < Val(items, z, t + 1, k + 1)
  {
  }

  lemma {:induction false} TowerPage(items: seq<nat>, z: nat, t: nat)
    requires t <= |items| && z < |items| && items[z] == 0
    ensures CanRead(Tower(items, z), t + 1) && PageOk(Tower(items, z), PageAt(items, z, t), 1)
  {
    var ix, p := Tower(items, z), PageAt(items, z, t);
    TowerAt(items, z, t);
    hide Val, Tower;
    if t < |items| {
      TowerAt(items, z, t + 1);
      assert CanRead(ix, t + 2);
      forall i | 0 <= i < |p.items|
        ensures ItemOk(ix, p, i, 1)
      {
        if i > 0 {
          PivotOk(items, z, t, i, ix[t + 2]);
        }
      }
    }
  }

  lemma {:induction false} PivotOk(items: seq<nat>, z: nat, t: nat, i: nat, q: Page)
    requires t < |items| && z < |items| && items[z] == 0 && 0 < i <= items[t] && q == PageAt(items, z, t + 1)
    ensures i + 1 <= items[t] ==> InvariantL(PivotAt(items, z, t, i), PivotAt(items, z, t, i + 1))
    ensures forall k :: 0 <= k < |Comparable(q)| ==> InvariantL(PivotAt(items, z, t, i), Comparable(q)[k])
  {
    Below(PivotAt(items, z, t, i), PivotAt(items, z, t, i + 1));
    var key := PivotAt(items, z, t, i);
    forall k | 0 <= k < |Comparable(q)|
      ensures InvariantL(key, Comparable(q)[k])
    {
      ComparableAt(items, z, t + 1, k);
      Rises(items, z, t, i, k);
      hide *;
      PivotIs(items, z, t, i);
      Below(key, Comparable(q)[k]);
    }
  }

  lemma {:induction false} PivotIs(items: seq<nat>, z: nat, t: nat, i: nat)
    requires t <= |items| && i > 0
    ensures PivotAt(items, z, t, i).atts == [Val(items, z, t, i)]
  {
  }

  lemma {:induction false} TowerLevel(items: seq<nat>, z: nat, t: nat)
    requires t <= |items| && z < |items| && items[z] == 0
    ensures GoodLevel(Tower(items, z), [t + 1], t + 1, |items| - t, t == 0, 1)
  {
    TowerPage(items, z, t);
    TowerAt(items, z, t);
    hide PageOk, Tower, Val;
    assert Visited(Tower(items, z), [t + 1], 0, |items| - t, t == 0, 1);
  }

  lemma {:induction false} TowerComplete(items: seq<nat>, z: nat)
    requires z < |items| && items[z] == 0
    ensures Complete(Tower(items, z), Levels(items), 1, |items|, 1)
  {
    var ix, ls := Tower(items, z), Levels(items);
    forall t | 0 <= t < |ls|
      ensures GoodLevel(ix, ls[t], LeftmostOf(ix, ls, 1, t), |items| - t, t == 0, 1)
    {
      TowerLevel(items, z, t);
      LeftmostAt(items, z, t);
      hide *;
    }
    LeftmostAt(items, z, |items| + 1);
    hide GoodLevel, LeftmostOf;
  }

  lemma {:induction false} LeftmostAt(items: seq<nat>, z: nat, t: nat)
    requires t <= |items| + 1
    ensures LeftmostOf(Tower(items, z), Levels(items), 1, t) == if t <= |items| then t + 1 else P_NONE
  {
    if t > 0 {
      TowerAt(items, z, t - 1);
    }
    hide Val, Tower;
  }

  lemma {:induction false} TowerDescent(items: seq<nat>, z: nat)
    requires z < |items| && items[z] == 0
    ensures Descent(Tower(items, z), Pages(items), items, 1)
  {
    var ix, ps := Tower(items, z), Pages(items);
    hide Checked, Step, Tower, Pages;
    forall t | 0 <= t <= |items|
      ensures Checked(ix, ps[t], 1)
    {
      TowerChecked(items, z, t);
    }
    forall t | 0 <= t < |items|
      ensures Step(ix, ps[t], items[t], ps[t + 1])
    {
      TowerStep(items, z, t);
    }
  }

  lemma {:induction false} TowerChecked(items: seq<nat>, z: nat, t: nat)
    requires t <= |items| && z < |items| && items[z] == 0
    ensures Checked(Tower(items, z), t + 1, 1)
  {
    TowerPage(items, z, t);
    TowerAt(items, z, t);
    hide PageOk, Tower, Val;
  }

  lemma {:induction false} TowerStep(items: seq<nat>, z: nat, t: nat)
    requires t < |items|
    ensures Step(Tower(items, z), t + 1, items[t], t + 2)
    ensures t + 1 in Tower(items, z) && items[t] < |Tower(items, z)[t + 1].items|
    ensures Tower(items, z)[t + 1].items[items[t]] == PivotAt(items, z, t, items[t])
  {
    TowerAt(items, z, t);
    hide Tower, Val, PivotAt;
  }

  // ----- the bound, exactly -----

  /** A tree that passes the check, and a descent in it along these items at whose
      end an item is not above the separator of step `from`. */
  ghost predicate Breaks(ix: Index, levels: seq<seq<nat>>, root: nat, rootLevel: nat, pages: seq<nat>,
                         items: seq<nat>, from: nat, n: nat, k: nat)
    requires from < |items|
  {
    && Complete(ix, levels, root, rootLevel, n) && Descent(ix, pages, items, n)
    && Step(ix, pages[from], items[from], pages[from + 1]) && pages[|items|] in ix
    && k < |Comparable(ix[pages[|items|]])|
    && !Less(ix[pages[from]].items[items[from]], Comparable(ix[pages[|items|]])[k], n)
  }

  /** A later first item can lose the bound, wherever it comes. */
  lemma {:induction false} TowerBreaks(items: seq<nat>, from: nat, z: nat)
    requires from < z < |items| && items[from] > 0 && items[z] == 0
    ensures Breaks(Tower(items, z), Levels(items), 1, |items|, Pages(items), items, from, 1, 0)
  {
    hide *;
    TowerComplete(items, z);
    TowerDescent(items, z);
    TowerStep(items, z, from);
    TowerAt(items, z, |items|);
    LeafBelow(items, from, z);
    MakeBreaks(Tower(items, z), Levels(items), 1, |items|, Pages(items), items, from, 1, 0);
  }

  lemma {:induction false} LeafBelow(items: seq<nat>, from: nat, z: nat)
    requires from < z < |items| && items[from] > 0
    ensures Comparable(PageAt(items, z, |items|)) == [LeafItem(items, z)]
    ensures !Less(PivotAt(items, z, from, items[from]), LeafItem(items, z), 1)
  {
    hide Less;
    NotBoth(LeafItem(items, z), PivotAt(items, z, from, items[from]));
  }

  lemma {:induction false} MakeBreaks(ix: Index, levels: seq<seq<nat>>, root: nat, rootLevel: nat, pages: seq<nat>,
                                      items: seq<nat>, from: nat, n: nat, k: nat)
    requires from < |items| == |pages| - 1
    requires Complete(ix, levels, root, rootLevel, n) && Descent(ix, pages, items, n)
    requires Step(ix, pages[from], items[from], pages[from + 1]) && pages[|items|] in ix
    requires k < |Comparable(ix[pages[|items|]])|
    requires pages[from] in ix && items[from] < |ix[pages[from]].items|
    requires !Less(ix[pages[from]].items[items[from]], Comparable(ix[pages[|items|]])[k], n)
    ensures Breaks(ix, levels, root, rootLevel, pages, items, from, n, k)
  {
    hide Complete, Descent, Less, Comparable;
  }

  lemma {:induction false} NotBoth(a: Item, b: Item)
    requires |a.atts| == 1 == |b.atts| && a.atts[0] < b.atts[0]
    ensures !Less(b, a, 1)
  {
    assert !DecidedAt(b, a, 1, 0) && !DecidedAt(b, a, 1, 1);
  }

  /** Along which descents a separator bounds the items at the end, in every tree
      that passes the check: exactly those with no first item after it. */
  lemma {:induction false} BoundExactly(items: seq<nat>, from: nat)
    requires from < |items| && items[from] > 0
    ensures (exists ix, levels, root, rootLevel, pages, n, k ::
               Breaks(ix, levels, root, rootLevel, pages, items, from, n, k))
            <==> exists z :: from < z < |items| && items[z] == 0
  {
    hide Breaks;
    if exists ix, levels, root, rootLevel, pages, n, k ::
         Breaks(ix, levels, root, rootLevel, pages, items, from, n, k) {
      var ix, levels, root, rootLevel, pages, n, k :|
        Breaks(ix, levels, root, rootLevel, pages, items, from, n, k);
      BrokenLater(ix, levels, root, rootLevel, pages, items, from, n, k);
    }
    if exists z :: from < z < |items| && items[z] == 0 {
      var z :| from < z < |items| && items[z] == 0;
      TowerBreaks(items, from, z);
    }
  }

  lemma {:induction false} BrokenLater(ix: Index, levels: seq<seq<nat>>, root: nat, rootLevel: nat, pages: seq<nat>,
                                       items: seq<nat>, from: nat, n: nat, k: nat)
    requires from < |items| && items[from] > 0 && Breaks(ix, levels, root, rootLevel, pages, items, from, n, k)
    ensures exists z :: from < z < |items| && items[z] == 0
  {
    hide Complete, Descent, Less;
    if forall z :: from < z < |items| ==> items[z] > 0 {
      SeparatorBounds(ix, pages, items, n, from, k);
    }
  }
}
