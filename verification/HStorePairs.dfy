/** From a list of pairs to a datum: sorting, dropping duplicate keys in place,
    and packing (hstoreUniquePairs, hstorePairs). */
module HStorePairs {
  import opened Prelude
  import opened HStoreCore
  import opened HStoreBuild
  import opened Sorting

  /** A pair before packing. `val` has no meaning when `isnull` holds. */
  datatype Pairs = Pairs(key: string, val: string, isnull: bool, needfree: bool)

  function PairOf(p: Pairs): Pair {
    Pair(p.key, if p.isnull then None else Some(p.val))
  }

  function Abs(ps: seq<Pairs>): (r: seq<Pair>)
    ensures |r| == |ps| && forall i :: 0 <= i < |ps| ==> r[i] == PairOf(ps[i])
  {
    seq(|ps|, i requires 0 <= i < |ps| => PairOf(ps[i]))
  }

  /** comparePairs: by key, and among equal keys those that need freeing last. */
  function ComparePairs(a: Pairs, b: Pairs): int {
    var c := KeyCmp(a.key, b.key);
    if c != 0 then c else if a.needfree == b.needfree then 0 else if a.needfree then 1 else -1
  }

  predicate PairLe(a: Pairs, b: Pairs) {
    ComparePairs(a, b) <= 0
  }

  ghost predicate Sorted(s: seq<Pairs>) {
    SortedBy(PairLe, s)
  }

  lemma {:induction false} PairOrder()
    ensures TotalPreorder(PairLe)
  {
    forall a: Pairs, b: Pairs
      ensures PairLe(a, b) || PairLe(b, a)
    {
      KeyCmpFlip(a.key, b.key);
    }
    forall a: Pairs, b: Pairs, c: Pairs | PairLe(a, b) && PairLe(b, c)
      ensures PairLe(a, c)
    {
      CompareTrans(a, b, c);
    }
  }

  lemma {:induction false} CompareTrans(a: Pairs, b: Pairs, c: Pairs)
    requires ComparePairs(a, b) <= 0 && ComparePairs(b, c) <= 0
    ensures ComparePairs(a, c) <= 0
  {
    if a.key != b.key && b.key != c.key {
      KeyLessTrans(a.key, b.key, c.key);
    }
  }

  // ----- hstoreUniquePairs -----

  /** Equal lengths and equal bytes. */
  predicate SameKeys(a: Pairs, b: Pairs) {
    a.key == b.key
  }

  ghost function Elems(s: seq<Pairs>): set<Pairs> {
    set p | p in s
  }

  ghost function Keys(s: seq<Pairs>): set<string> {
    set p | p in s :: p.key
  }

  /** `u` keeps one of the pairs of `s` for every key of `s`, in key order. */
  ghost predicate Deduplicates(s: seq<Pairs>, u: seq<Pairs>) {
    Canonical(Abs(u)) && Elems(u) <= Elems(s) && Keys(u) == Keys(s)
  }

  /** Of pairs with one key, one that need not be freed survives if there is one. */
  ghost predicate Prefers(s: seq<Pairs>, u: seq<Pairs>) {
    forall p, q :: p in u && q in s && p.key == q.key && p.needfree ==> q.needfree
  }

  lemma {:induction false} PrefersDrop(s: seq<Pairs>, ptr: nat, u: seq<Pairs>)
    requires ptr < |s| && Sorted(s) && Deduplicates(s[..ptr], u) && Prefers(s[..ptr], u)
    ensures Prefers(s[..ptr + 1], u)
  {
    assert s[..ptr + 1] == s[..ptr] + [s[ptr]];
    forall p | p in u && p.key == s[ptr].key && p.needfree
      ensures s[ptr].needfree
    {
      assert p in Elems(s[..ptr]);
      var i :| 0 <= i < ptr && s[i] == p;
      assert PairLe(s[i], s[ptr]);
    }
  }

  lemma {:induction false} PrefersKeep(s: seq<Pairs>, ptr: nat, u: seq<Pairs>)
    requires ptr < |s| && Sorted(s) && Deduplicates(s[..ptr], u) && Prefers(s[..ptr], u)
    requires Deduplicates(s[..ptr + 1], u + [s[ptr]])
    ensures Prefers(s[..ptr + 1], u + [s[ptr]])
  {
    PrefersDrop(s, ptr, u);
    var t := u + [s[ptr]];
    forall q | q in s[..ptr]
      ensures q.key != s[ptr].key
    {
      assert q.key in Keys(u);
      var j :| 0 <= j < |u| && u[j].key == q.key;
      assert KeyLess(Abs(t)[j].key, Abs(t)[|u|].key);
    }
    assert forall p :: p in t <==> p in u || p == s[ptr];
    assert forall q :: q in s[..ptr + 1] <==> q in s[..ptr] || q == s[ptr];
  }

  lemma {:induction false} KeysPush(s: seq<Pairs>, p: Pairs)
    ensures Keys(s + [p]) == Keys(s) + {p.key} && Elems(s + [p]) == Elems(s) + {p}
  {
    var t := s + [p];
    assert forall q :: q in t <==> q in s || q == p;
    assert forall k :: k in Keys(s) ==> k in Keys(t);
    assert p in t;
  }

  /** hstoreUniquePairs: the survivors are at the front of the array; the
      second result is the number of bytes they need. */
  method UniquePairs(a: array<Pairs>) returns (n: nat, buflen: nat)
    modifies a
    ensures n <= a.Length && Deduplicates(old(a[..]), a[..n]) && Prefers(old(a[..]), a[..n])
    ensures buflen == |Str(Abs(a[..n]))|
  {
    if a.Length < 2 {
      buflen := 0;
      assert a[..a.Length] == a[..];
      assert Abs([]) == [];
      if a.Length == 1 {
        BytesPush([], a[0]);
        buflen := PairLen(a[0]);
        assert a[..1] == [] + [a[0]];
      }
      return a.Length, buflen;
    }
    PairOrder();
    var sorted := QSort(a[..], PairLe);
    SameElements(sorted, a[..]);
    forall i | 0 <= i < a.Length {
      a[i] := sorted[i];
    }
    assert a[..] == sorted;
    n, buflen := Compact(a, sorted);
    SamePairs(old(a[..]), sorted, a[..n]);
  }

  /** The state of the compaction loop: the survivors of s[..ptr] are at the
      front, the pairs from `ptr` on are untouched. */
  ghost predicate Compacting(av: seq<Pairs>, s: seq<Pairs>, ptr: int, res: int, buflen: int) {
    && 0 <= res < ptr <= |s| == |av| && av[ptr..] == s[ptr..]
    && SameKeys(av[res], s[ptr - 1])
    && Deduplicates(s[..ptr], av[..res + 1])
    && buflen == |Str(Abs(av[..res]))|
  }

  function PairLen(p: Pairs): nat {
    |p.key| + if p.isnull then 0 else |p.val|
  }

  lemma {:induction false} CompactDrop(av: seq<Pairs>, s: seq<Pairs>, ptr: int, res: int, buflen: int)
    requires Compacting(av, s, ptr, res, buflen) && ptr < |s| && SameKeys(av[ptr], av[res])
    ensures Compacting(av, s, ptr + 1, res, buflen)
  {
    assert av[ptr] == s[ptr] by { assert av[ptr..][0] == s[ptr..][0]; }
    assert av[ptr + 1..] == av[ptr..][1..] && s[ptr + 1..] == s[ptr..][1..];
    DropNext(s, ptr, av[..res + 1]);
  }

  lemma {:induction false} CompactKeep(av: seq<Pairs>, s: seq<Pairs>, ptr: int, res: int, buflen: int)
    requires Compacting(av, s, ptr, res, buflen) && Sorted(s) && ptr < |s| && !SameKeys(av[ptr], av[res])
    ensures Compacting(av[res + 1 := av[ptr]], s, ptr + 1, res + 1, buflen + PairLen(av[res]))
  {
    assert av[ptr] == s[ptr] by { assert av[ptr..][0] == s[ptr..][0]; }
    assert av[ptr + 1..] == av[ptr..][1..] && s[ptr + 1..] == s[ptr..][1..];
    var u, bv := av[..res + 1], av[res + 1 := av[ptr]];
    assert bv[..res + 1] == u && bv[..res + 2] == u + [s[ptr]];
    assert bv[ptr + 1..] == av[ptr + 1..];
    TakeNext(s, ptr, u);
    assert u == av[..res] + [av[res]];
    BytesPush(av[..res], av[res]);
  }

  lemma {:induction false} DropPrefers(av: seq<Pairs>, s: seq<Pairs>, ptr: int, res: int, buflen: int)
    requires Compacting(av, s, ptr, res, buflen) && Sorted(s) && ptr < |s| && Prefers(s[..ptr], av[..res + 1])
    ensures Prefers(s[..ptr + 1], av[..res + 1])
  {
    hide Deduplicates, Prefers, Sorted;
    PrefersDrop(s, ptr, av[..res + 1]);
  }

  lemma {:induction false} KeepPrefers(av: seq<Pairs>, s: seq<Pairs>, ptr: int, res: int, buflen: int)
    requires Compacting(av, s, ptr, res, buflen) && Sorted(s) && ptr < |s| && !SameKeys(av[ptr], av[res])
    requires Prefers(s[..ptr], av[..res + 1])
    ensures Prefers(s[..ptr + 1], av[res + 1 := av[ptr]][..res + 2])
  {
    assert av[ptr] == s[ptr] by { assert av[ptr..][0] == s[ptr..][0]; }
    assert av[res + 1 := av[ptr]][..res + 2] == av[..res + 1] + [s[ptr]];
    hide Deduplicates, Prefers, Sorted, Str, Abs;
    TakeNext(s, ptr, av[..res + 1]);
    PrefersKeep(s, ptr, av[..res + 1]);
  }

  lemma {:induction false} BytesPush(u: seq<Pairs>, p: Pairs)
    ensures |Str(Abs(u + [p]))| == |Str(Abs(u))| + PairLen(p)
  {
    AbsPush(u, p);
    StrPush(Abs(u), PairOf(p));
  }

  /** The compaction loop of hstoreUniquePairs. */
  method Compact(a: array<Pairs>, ghost s: seq<Pairs>) returns (n: nat, buflen: nat)
    requires a.Length >= 2 && a[..] == s && Sorted(s)
    modifies a
    ensures n <= a.Length && Deduplicates(s, a[..n]) && Prefers(s, a[..n])
    ensures buflen == |Str(Abs(a[..n]))|
  {
    buflen := 0;
    var ptr, res := 1, 0;
    CompactStart(s);
    assert s[..1] == [s[0]] == a[..1];
    hide Compacting, Deduplicates, Prefers, Str, Abs, Sorted, SameKeys, PairLen;
    while ptr < a.Length
      invariant 0 <= res < ptr <= a.Length && Compacting(a[..], s, ptr, res, buflen)
      invariant Prefers(s[..ptr], a[..res + 1])
    {
      ghost var av := a[..];
      if SameKeys(a[ptr], a[res]) {
        CompactDrop(av, s, ptr, res, buflen);
        DropPrefers(av, s, ptr, res, buflen);
      } else {
        CompactKeep(av, s, ptr, res, buflen);
        KeepPrefers(av, s, ptr, res, buflen);
        buflen := buflen + PairLen(a[res]);
        res := res + 1;
        a[res] := a[ptr];
        assert a[..] == av[res := av[ptr]];
      }
      ptr := ptr + 1;
    }
    CompactEnd(a[..], s, res, buflen);
    assert s[..|s|] == s;
    buflen := buflen + PairLen(a[res]);
    n := res + 1;
  }

  lemma {:induction false} CompactStart(s: seq<Pairs>)
    requires s != []
    ensures Compacting(s, s, 1, 0, 0)
  {
    assert s[..1] == [s[0]];
    DeduplicatesOne(s[0]);
    assert Abs(s[..0]) == [] && Str([]) == "";
  }

  lemma {:induction false} CompactEnd(av: seq<Pairs>, s: seq<Pairs>, res: int, buflen: int)
    requires Compacting(av, s, |s|, res, buflen)
    ensures Deduplicates(s, av[..res + 1]) && buflen + PairLen(av[res]) == |Str(Abs(av[..res + 1]))|
  {
    assert s[..|s|] == s;
    assert av[..res + 1] == av[..res] + [av[res]];
    BytesPush(av[..res], av[res]);
  }

  lemma {:induction false} SortedStep(s: seq<Pairs>, ptr: nat)
    requires Sorted(s) && 1 <= ptr < |s|
    ensures s[ptr - 1].key == s[ptr].key || KeyLess(s[ptr - 1].key, s[ptr].key)
  {
    assert PairLe(s[ptr - 1], s[ptr]);
  }

  lemma {:induction false} DropNext(s: seq<Pairs>, ptr: nat, u: seq<Pairs>)
    requires 1 <= ptr < |s| && Deduplicates(s[..ptr], u) && u != [] && SameKeys(s[ptr], u[|u| - 1])
    ensures Deduplicates(s[..ptr + 1], u) && SameKeys(u[|u| - 1], s[ptr])
  {
    assert s[..ptr + 1] == s[..ptr] + [s[ptr]];
    DropDuplicate(s[..ptr], s[ptr], u);
  }

  lemma {:induction false} TakeNext(s: seq<Pairs>, ptr: nat, u: seq<Pairs>)
    requires 1 <= ptr < |s| && Sorted(s) && Deduplicates(s[..ptr], u) && u != []
    requires SameKeys(u[|u| - 1], s[ptr - 1]) && !SameKeys(s[ptr], u[|u| - 1])
    ensures Deduplicates(s[..ptr + 1], u + [s[ptr]]) && SameKeys(s[ptr], s[ptr])
    ensures (u + [s[ptr]])[..|u|] == u == u[..|u| - 1] + [u[|u| - 1]]
  {
    SortedStep(s, ptr);
    assert s[..ptr + 1] == s[..ptr] + [s[ptr]];
    KeepNext(s[..ptr], s[ptr], u);
  }

  lemma {:induction false} DeduplicatesOne(p: Pairs)
    ensures Deduplicates([p], [p])
  {
  }

  lemma {:induction false} AbsPush(u: seq<Pairs>, p: Pairs)
    ensures Abs(u + [p]) == Abs(u) + [PairOf(p)]
  {
  }

  lemma {:induction false} LastKeyIn(u: seq<Pairs>)
    requires u != []
    ensures u[|u| - 1].key in Keys(u)
  {
    assert u[|u| - 1] in u;
  }

  lemma {:induction false} DropDuplicate(s: seq<Pairs>, p: Pairs, u: seq<Pairs>)
    requires Deduplicates(s, u) && u != [] && p.key == u[|u| - 1].key
    ensures Deduplicates(s + [p], u)
  {
    KeysPush(s, p);
    LastKeyIn(u);
    hide Canonical, Keys, Elems, Abs;
  }

  lemma {:induction false} KeepNext(s: seq<Pairs>, p: Pairs, u: seq<Pairs>)
    requires Deduplicates(s, u) && u != [] && KeyLess(u[|u| - 1].key, p.key)
    ensures Deduplicates(s + [p], u + [p])
  {
    KeysPush(s, p);
    KeysPush(u, p);
    AbsPush(u, p);
    BelowNext(Abs(u), p.key);
    CanonicalPush(Abs(u), PairOf(p));
    hide Canonical, Keys, Elems, Abs;
  }

  lemma {:induction false} BelowNext(ps: seq<Pair>, key: string)
    requires Canonical(ps) && ps != [] && KeyLess(ps[|ps| - 1].key, key)
    ensures AllBelow(ps, key)
  {
    var n := |ps| - 1;
    forall i | 0 <= i < |ps|
      ensures KeyLess(ps[i].key, key)
    {
      if i < n {
        KeyLessTrans(ps[i].key, ps[n].key, key);
      }
    }
  }

  /** Deduplicating a rearrangement is deduplicating the original. */
  lemma {:induction false} SamePairs(s: seq<Pairs>, t: seq<Pairs>, u: seq<Pairs>)
    requires multiset(s) == multiset(t) && Deduplicates(t, u)
    ensures Deduplicates(s, u) && (Prefers(t, u) ==> Prefers(s, u))
  {
    SameElements(s, t);
    assert Elems(s) == Elems(t) && Keys(s) == Keys(t);
  }

  // ----- hstorePairs -----

  /** hstorePairs: the datum of the pairs, or nothing when it would exceed what
      can be allocated. `buflen` was computed by the caller. */
  method HstorePairs(pairs: seq<Pairs>, buflen: nat) returns (r: Option<HStore>)
    requires buflen == |Str(Abs(pairs))|
    ensures r.Some? <==> CalcDataSize(|pairs|, buflen) <= MAX_ALLOC
    ensures r.Some? ==> r.value == Pack(Abs(pairs)) && VarSize(r.value) == CalcDataSize(|pairs|, buflen)
  {
    if CalcDataSize(|pairs|, buflen) > MAX_ALLOC {
      return None;
    }
    var b := new Builder(|pairs|, buflen);
    ghost var ps := Abs(pairs);
    assert ps[..0] == [];
    for i := 0 to |pairs|
      invariant b.Valid() && fresh(b) && fresh(b.mem) && b.count == |pairs| && b.mem.Length == |pairs| + buflen
      invariant b.out == ps[..i]
    {
      RoomForNext(ps, i);
      hide Str, Abs, Ends, PairBytes, Image;
      b.AddItem(pairs[i].key, pairs[i].val, pairs[i].isnull, ps[i]);
    }
    assert ps[..|pairs|] == ps;
    var hs := b.Finalize();
    r := Some(hs);
  }

  lemma {:induction false} RoomForNext(ps: seq<Pair>, i: nat)
    requires i < |ps|
    ensures |Str(ps[..i])| + |PairBytes(ps[i])| <= |Str(ps)| && ps[..i + 1] == ps[..i] + [ps[i]]
  {
    assert ps[..i + 1] == ps[..i] + [ps[i]];
    StrPush(ps[..i], ps[i]);
    StrPrefix(ps, i + 1);
  }
}
