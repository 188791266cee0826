/** One page of a bloom index: adding a tuple, removing dead tuples in place,
    and filling pages while an index is built. */
module BloomPage {
  import opened Prelude
  import opened BloomSign

  /** An index tuple: the heap row it points to and its signature. */
  datatype Tuple = Tuple(tid: nat, sign: Sign)

  /** The bytes a page has for tuples, the bytes of a tuple, and the number of
      block numbers that fit on the metapage. */
  datatype Layout = Layout(space: nat, tupleSize: nat, metaBlocks: nat)

  predicate GoodLayout(l: Layout) {
    0 < l.tupleSize <= l.space
  }

  /** BloomPageGetFreeSpace */
  function FreeSpace(l: Layout, maxoff: nat): int {
    l.space - maxoff * l.tupleSize
  }

  predicate Fits(l: Layout, maxoff: nat) {
    FreeSpace(l, maxoff) >= l.tupleSize
  }

  function Capacity(l: Layout): nat
    requires GoodLayout(l)
  {
    l.space / l.tupleSize
  }

  lemma {:induction false} FitsWithin(l: Layout, maxoff: nat)
    requires GoodLayout(l)
    ensures Fits(l, maxoff) <==> maxoff < Capacity(l)
  {
    var q := l.space / l.tupleSize;
    assert q * l.tupleSize <= l.space < (q + 1) * l.tupleSize;
    if maxoff < q {
      assert (maxoff + 1) * l.tupleSize <= q * l.tupleSize;
    } else {
      assert (q + 1) * l.tupleSize <= (maxoff + 1) * l.tupleSize;
    }
  }

  /** A page as the steps of the index see it. */
  datatype Page = Meta | New | Data(deleted: bool, items: seq<Tuple>)

  /** The tuples that count: none on a deleted page. */
  function ItemsOf(p: Page): seq<Tuple> {
    if p.Data? && !p.deleted then p.items else []
  }

  /** What inserting into a page gives, or nothing when it is full: a new or
      deleted page is initialized first. */
  function Added(l: Layout, p: Page, t: Tuple): Option<Page> {
    if Fits(l, |ItemsOf(p)|) then Some(Data(false, ItemsOf(p) + [t])) else None
  }

  type Dead = nat -> bool

  /** The tuples vacuum keeps, in order ... */
  function Kept(items: seq<Tuple>, dead: Dead): seq<Tuple> {
    if items == [] then []
    else
      var n := |items| - 1;
      Kept(items[..n], dead) + if dead(items[n].tid) then [] else [items[n]]
  }

  /** ... and those it removes. */
  function Removed(items: seq<Tuple>, dead: Dead): seq<Tuple> {
    if items == [] then []
    else
      var n := |items| - 1;
      Removed(items[..n], dead) + if dead(items[n].tid) then [items[n]] else []
  }

  lemma {:induction false} KeptTake(items: seq<Tuple>, i: nat, dead: Dead)
    requires i < |items|
    ensures Kept(items[..i + 1], dead) == Kept(items[..i], dead) + if dead(items[i].tid) then [] else [items[i]]
  {
    assert items[..i + 1][..i] == items[..i];
  }

  /** Nothing is lost between the two. */
  lemma {:induction false} KeptAndRemoved(items: seq<Tuple>, dead: Dead)
    ensures multiset(Kept(items, dead)) + multiset(Removed(items, dead)) == multiset(items)
  {
    hide *;
    if items == [] {
      KeptNone(items, dead);
    } else {
      var n := |items| - 1;
      var init, x := items[..n], items[n];
      KeptAndRemoved(init, dead);
      KeptLast(items, init, x, dead);
      SumPush(multiset(Kept(init, dead)), multiset(Removed(init, dead)), multiset(init), x);
    }
  }

  lemma {:induction false} KeptNone(items: seq<Tuple>, dead: Dead)
    requires items == []
    ensures Kept(items, dead) == [] && Removed(items, dead) == []
  {
  }

  /** The last tuple goes to one of the two. */
  lemma {:induction false} KeptLast(items: seq<Tuple>, init: seq<Tuple>, x: Tuple, dead: Dead)
    requires items == init + [x]
    ensures multiset(items) == multiset(init) + multiset{x}
    ensures var k, r := multiset(Kept(init, dead)), multiset(Removed(init, dead));
            if dead(x.tid) then multiset(Kept(items, dead)) == k && multiset(Removed(items, dead)) == r + multiset{x}
            else multiset(Kept(items, dead)) == k + multiset{x} && multiset(Removed(items, dead)) == r
  {
    var k, r := Kept(init, dead), Removed(init, dead);
    assert items[..|init|] == init;
    assert if dead(x.tid) then Kept(items, dead) == k && Removed(items, dead) == r + [x]
           else Kept(items, dead) == k + [x] && Removed(items, dead) == r;
    hide *;
    ManyPush(k, x);
    ManyPush(r, x);
    ManyPush(init, x);
  }

  lemma {:induction false} SumPush(a: multiset<Tuple>, b: multiset<Tuple>, c: multiset<Tuple>, x: Tuple)
    requires a + b == c
    ensures (a + multiset{x}) + b == c + multiset{x} == a + (b + multiset{x})
  {
  }

  lemma {:induction false} ManyPush(s: seq<Tuple>, x: Tuple)
    ensures multiset(s + [x]) == multiset(s) + multiset{x}
  {
  }

  /** Vacuum keeps the order. */
  lemma {:induction false} KeptJoin(a: seq<Tuple>, b: seq<Tuple>, dead: Dead)
    ensures Kept(a + b, dead) == Kept(a, dead) + Kept(b, dead)
    decreases |b|
  {
    if b == [] {
      assert a + b == a;
    } else {
      var n := |b| - 1;
      assert (a + b)[..|a| + n] == a + b[..n] && (a + b)[|a| + n] == b[n];
      KeptJoin(a, b[..n], dead);
    }
  }

  lemma {:induction false} KeptLen(items: seq<Tuple>, dead: Dead)
    ensures |Kept(items, dead)| + |Removed(items, dead)| == |items|
  {
    if items != [] {
      KeptLen(items[..|items| - 1], dead);
    }
  }

  lemma {:induction false} KeptIs(items: seq<Tuple>, dead: Dead, t: Tuple)
    ensures t in Kept(items, dead) <==> t in items && !dead(t.tid)
  {
    if items != [] {
      var n := |items| - 1;
      KeptIs(items[..n], dead, t);
      assert items == items[..n] + [items[n]];
    }
  }

  /** A page after vacuum: it is deleted when the last tuple goes. */
  function Vacuumed(p: Page, dead: Dead): Page
    requires p.Data? && !p.deleted
  {
    var kept := Kept(p.items, dead);
    Data(kept == [] && p.items != [], kept)
  }

  /** Vacuum part way: the survivors of the tuples before `itup` are in front,
      the tuples from there on are untouched. */
  ghost predicate Sweeping(av: seq<Tuple>, items: seq<Tuple>, itup: int, itupPtr: int, dead: Dead) {
    && 0 <= itupPtr <= itup <= |items| <= |av|
    && av[..itupPtr] == Kept(items[..itup], dead) && av[itup..|items|] == items[itup..]
  }

  lemma {:induction false} SweepNext(av: seq<Tuple>, items: seq<Tuple>, itup: int, itupPtr: int, dead: Dead)
    requires Sweeping(av, items, itup, itupPtr, dead) && itup < |items|
    ensures av[itup] == items[itup]
    ensures dead(av[itup].tid) ==> Sweeping(av, items, itup + 1, itupPtr, dead)
    ensures !dead(av[itup].tid) ==> Sweeping(av[itupPtr := av[itup]], items, itup + 1, itupPtr + 1, dead)
  {
    KeptTake(items, itup, dead);
    assert av[itup] == av[itup..|items|][0] == items[itup];
    assert items[itup + 1..] == items[itup..][1..] && av[itup + 1..|items|] == av[itup..|items|][1..];
    hide Kept;
    if dead(av[itup].tid) {
      assert Kept(items[..itup], dead) + [] == Kept(items[..itup], dead);
    } else {
      var bv := av[itupPtr := av[itup]];
      assert bv[..itupPtr + 1] == av[..itupPtr] + [av[itup]];
      assert bv[itup + 1..|items|] == av[itup + 1..|items|];
    }
  }

  lemma {:induction false} SweepStart(av: seq<Tuple>, n: nat, dead: Dead)
    requires n <= |av|
    ensures Sweeping(av, av[..n], 0, 0, dead)
  {
    assert av[..n][..0] == [];
  }

  lemma {:induction false} SweepEnd(av: seq<Tuple>, items: seq<Tuple>, itupPtr: int, dead: Dead)
    requires Sweeping(av, items, |items|, itupPtr, dead)
    ensures av[..itupPtr] == Kept(items, dead)
  {
    assert items[..|items|] == items;
  }

  class PageBuf {
    var isNew: bool
    var deleted: bool
    var maxoff: nat
    const tuples: array<Tuple>
    const l: Layout

    constructor (l: Layout)
      requires GoodLayout(l)
      ensures Valid() && this.l == l && isNew && fresh(tuples)
    {
      this.l := l;
      isNew, deleted, maxoff := true, false, 0;
      tuples := new Tuple[Capacity(l)](_ => Tuple(0, []));
    }

    ghost predicate Valid()
      reads this
    {
      GoodLayout(l) && tuples.Length == Capacity(l) && maxoff <= tuples.Length
    }

    ghost function Contents(): Page
      requires Valid()
      reads this, tuples
    {
      if isNew then New else Data(deleted, tuples[..maxoff])
    }

    /** BloomInitPage */
    method InitPage()
      requires Valid()
      modifies this
      ensures Valid() && Contents() == Data(false, [])
    {
      isNew, deleted, maxoff := false, false, 0;
    }

    /** BloomPageAddItem */
    method AddItem(t: Tuple) returns (ok: bool)
      requires Valid() && !isNew && !deleted
      modifies this, tuples
      ensures Valid() && ok == old(Fits(l, maxoff))
      ensures Contents() == if ok then Data(false, old(Contents()).items + [t]) else old(Contents())
    {
      FitsWithin(l, maxoff);
      if FreeSpace(l, maxoff) < l.tupleSize {
        return false;
      }
      tuples[maxoff] := t;
      maxoff := maxoff + 1;
      return true;
    }

    /** The attempt blinsert makes on a page it has locked. */
    method TryInsert(t: Tuple) returns (ok: bool)
      requires Valid()
      modifies this, tuples
      ensures Valid() && ok == Added(l, old(Contents()), t).Some?
      ensures ok ==> Contents() == Added(l, old(Contents()), t).value
    {
      if isNew || deleted {
        InitPage();
      }
      ok := AddItem(t);
    }

    /** The part of blbulkdelete that works on one page. */
    method Vacuum(dead: Dead) returns (removed: nat)
      requires Valid() && !isNew && !deleted
      modifies this, tuples
      ensures Valid() && Contents() == Vacuumed(old(Contents()), dead)
      ensures removed == |Removed(old(Contents()).items, dead)|
    {
      ghost var items := tuples[..maxoff];
      KeptLen(items, dead);
      hide Kept, Removed, Fits, Capacity;
      removed := Sweep(dead);
      if removed != 0 {
        if maxoff == 0 {
          deleted := true;
        }
      }
    }

    /** Two pointers move the surviving tuples down. */
    method Sweep(dead: Dead) returns (removed: nat)
      requires Valid()
      modifies this`maxoff, tuples
      ensures Valid() && tuples[..maxoff] == Kept(old(tuples[..maxoff]), dead) && removed == old(maxoff) - maxoff
    {
      ghost var items := tuples[..maxoff];
      var end, itup, itupPtr := maxoff, 0, 0;
      removed := 0;
      SweepStart(tuples[..], maxoff, dead);
      assert tuples[..][..maxoff] == items;
      hide Sweeping, Kept, Capacity;
      while itup < end
        invariant 0 <= itupPtr <= itup <= end == |items| <= tuples.Length
        invariant maxoff == end - removed && itup == itupPtr + removed
        invariant Sweeping(tuples[..], items, itup, itupPtr, dead)
      {
        ghost var av := tuples[..];
        SweepNext(av, items, itup, itupPtr, dead);
        if dead(tuples[itup].tid) {
          maxoff := maxoff - 1;
          removed := removed + 1;
        } else {
          if itupPtr != itup {
            tuples[itupPtr] := tuples[itup];
          }
          assert tuples[..] == av[itupPtr := av[itup]];
          itupPtr := itupPtr + 1;
        }
        itup := itup + 1;
      }
      SweepEnd(tuples[..], items, itupPtr, dead);
      assert tuples[..][..itupPtr] == tuples[..itupPtr];
    }
  }

  // ----- building -----

  function Flatten(pages: seq<seq<Tuple>>): seq<Tuple> {
    if pages == [] then [] else Flatten(pages[..|pages| - 1]) + pages[|pages| - 1]
  }

  /** Every page but the last is full, and none is empty. */
  ghost predicate FilledPages(l: Layout, pages: seq<seq<Tuple>>)
    requires GoodLayout(l)
  {
    forall k :: 0 <= k < |pages| ==>
      0 < |pages[k]| <= Capacity(l) && (k < |pages| - 1 ==> |pages[k]| == Capacity(l))
  }

  ghost predicate FullPages(l: Layout, pages: seq<seq<Tuple>>)
    requires GoodLayout(l)
  {
    forall k :: 0 <= k < |pages| ==> |pages[k]| == Capacity(l)
  }

  /** The build part way: flushed pages and the cached one hold the first rows. */
  ghost predicate Building(l: Layout, pages: seq<seq<Tuple>>, cached: seq<Tuple>, rows: seq<Tuple>, i: int)
    requires GoodLayout(l)
  {
    0 <= i <= |rows| && Flatten(pages) + cached == rows[..i] && |cached| <= Capacity(l) && FullPages(l, pages)
  }

  /** blbuild: tuples fill a cached page that is flushed when the next one does
      not fit; no tuple is lost and the order is kept. */
  method Build(l: Layout, rows: seq<Tuple>) returns (pages: seq<seq<Tuple>>)
    requires GoodLayout(l)
    ensures Flatten(pages) == rows && FilledPages(l, pages)
  {
    pages := [];
    var cached: seq<Tuple> := [];
    assert Building(l, pages, cached, rows, 0);
    hide *;
    for i := 0 to |rows|
      invariant Building(l, pages, cached, rows, i)
    {
      if !Fits(l, |cached|) {
        Flush(l, pages, cached, rows, i);
        pages, cached := pages + [cached], [];
      }
      AddRow(l, pages, cached, rows, i);
      cached := cached + [rows[i]];
    }
    BuildDone(l, pages, cached, rows);
    if |cached| > 0 {
      pages := pages + [cached];
    }
  }

  lemma {:induction false} Flush(l: Layout, pages: seq<seq<Tuple>>, cached: seq<Tuple>, rows: seq<Tuple>, i: int)
    requires GoodLayout(l) && Building(l, pages, cached, rows, i) && !Fits(l, |cached|)
    ensures Building(l, pages + [cached], [], rows, i) && Fits(l, 0)
  {
    FlattenPush(pages, cached);
    FitsWithin(l, 0);
    FitsWithin(l, |cached|);
    hide Flatten;
    assert Flatten(pages + [cached]) + [] == Flatten(pages + [cached]);
    assert l.space / l.tupleSize >= 1;
  }

  lemma {:induction false} AddRow(l: Layout, pages: seq<seq<Tuple>>, cached: seq<Tuple>, rows: seq<Tuple>, i: int)
    requires GoodLayout(l) && Building(l, pages, cached, rows, i) && i < |rows| && Fits(l, |cached|)
    ensures Building(l, pages, cached + [rows[i]], rows, i + 1)
  {
    FitsWithin(l, |cached|);
    hide Flatten, Capacity;
    assert rows[..i + 1] == rows[..i] + [rows[i]];
    assert Flatten(pages) + (cached + [rows[i]]) == (Flatten(pages) + cached) + [rows[i]];
  }

  lemma {:induction false} BuildDone(l: Layout, pages: seq<seq<Tuple>>, cached: seq<Tuple>, rows: seq<Tuple>)
    requires GoodLayout(l) && Building(l, pages, cached, rows, |rows|)
    ensures if cached != [] then Flatten(pages + [cached]) == rows && FilledPages(l, pages + [cached])
            else Flatten(pages) == rows && FilledPages(l, pages)
  {
    FlattenPush(pages, cached);
    FitsWithin(l, 0);
    assert rows[..|rows|] == rows;
    assert Capacity(l) > 0;
    hide Flatten, Capacity;
    assert Flatten(pages) + [] == Flatten(pages);
  }

  lemma {:induction false} FlattenPush(pages: seq<seq<Tuple>>, p: seq<Tuple>)
    ensures Flatten(pages + [p]) == Flatten(pages) + p
  {
    assert (pages + [p])[..|pages|] == pages;
  }
}
