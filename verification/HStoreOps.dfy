/** Operators that build a new datum from old ones by walking entry arrays in
    step: delete, delete by array, delete by hstore, concatenation and slicing.
    Each is shown to be the corresponding operation on mappings, with a result
    that is again canonical and exactly sized. */
module HStoreOps {
  import opened Prelude
  import opened HStoreCore
  import opened HStoreBuild
  import opened HStorePairs
  import opened HStoreSearch

  type Mapping = map<string, Option<string>>

  // ----- keeping some of the pairs -----

  ghost function Filter(ps: seq<Pair>, keep: Pair -> bool): seq<Pair> {
    if ps == [] then []
    else
      var n := |ps| - 1;
      Filter(ps[..n], keep) + if keep(ps[n]) then [ps[n]] else []
  }

  lemma {:induction false} FilterTake(ps: seq<Pair>, i: nat, keep: Pair -> bool)
    requires i < |ps|
    ensures Filter(ps[..i + 1], keep) == Filter(ps[..i], keep) + if keep(ps[i]) then [ps[i]] else []
  {
    assert ps[..i + 1][..i] == ps[..i];
  }

  lemma {:induction false} FilterFrom(ps: seq<Pair>, keep: Pair -> bool, i: nat)
    requires i < |Filter(ps, keep)|
    ensures exists j :: 0 <= j < |ps| && ps[j] == Filter(ps, keep)[i] && keep(ps[j])
  {
    var n := |ps| - 1;
    if i < |Filter(ps[..n], keep)| {
      FilterFrom(ps[..n], keep, i);
      var j :| 0 <= j < n && ps[..n][j] == Filter(ps[..n], keep)[i] && keep(ps[j]);
      assert ps[j] == Filter(ps, keep)[i];
    } else {
      assert ps[n] == Filter(ps, keep)[i];
    }
  }

  lemma {:induction false} FilterCanonical(ps: seq<Pair>, keep: Pair -> bool)
    requires Canonical(ps)
    ensures Canonical(Filter(ps, keep))
  {
    if ps != [] {
      var n := |ps| - 1;
      var init := Filter(ps[..n], keep);
      FilterCanonical(ps[..n], keep);
      forall i | 0 <= i < |init|
        ensures KeyLess(init[i].key, ps[n].key)
      {
        FilterFrom(ps[..n], keep, i);
      }
      CanonicalPush(init, ps[n]);
    }
  }

  lemma {:induction false} FilterSize(ps: seq<Pair>, keep: Pair -> bool)
    ensures |Filter(ps, keep)| <= |ps| && |Str(Filter(ps, keep))| <= |Str(ps)|
  {
    if ps != [] {
      var n := |ps| - 1;
      FilterSize(ps[..n], keep);
      var init := Filter(ps[..n], keep);
      StrPush(init, ps[n]);
      assert init + [] == init;
    }
  }

  /** The mapping restricted to what is kept. */
  ghost function Restrict(m: Mapping, keep: Pair -> bool): Mapping {
    map k | k in m && keep(Pair(k, m[k])) :: m[k]
  }

  lemma {:induction false} FilterMap(ps: seq<Pair>, keep: Pair -> bool)
    requires Canonical(ps)
    ensures ToMap(Filter(ps, keep)) == Restrict(ToMap(ps), keep)
  {
    var qs := Filter(ps, keep);
    FilterCanonical(ps, keep);
    hide Canonical, KeyLess, ToMap;
    forall k | k in ToMap(qs)
      ensures k in Restrict(ToMap(ps), keep) && ToMap(qs)[k] == ToMap(ps)[k]
    {
      var i := KeyIndex(qs, k);
      FilterFrom(ps, keep, i);
      var j :| 0 <= j < |ps| && ps[j] == qs[i] && keep(ps[j]);
      CanonicalLookup(ps, j);
    }
    forall k | k in Restrict(ToMap(ps), keep)
      ensures k in ToMap(qs)
    {
      var j := KeyIndex(ps, k);
      var i := FilterKeeps(ps, keep, j);
      HasKey(qs, i);
    }
  }

  lemma {:induction false} FilterKeeps(ps: seq<Pair>, keep: Pair -> bool, j: nat) returns (i: nat)
    requires j < |ps| && keep(ps[j])
    ensures i < |Filter(ps, keep)| && Filter(ps, keep)[i] == ps[j]
  {
    var n := |ps| - 1;
    if j == n {
      i := |Filter(ps[..n], keep)|;
    } else {
      i := FilterKeeps(ps[..n], keep, j);
    }
  }

  /** What an operation that keeps some pairs of a datum has built. */
  lemma {:induction false} FilterDone(hs: HStore, keep: Pair -> bool)
    requires WellFormed(hs)
    ensures var out := Pack(Filter(View(hs), keep));
            WellFormed(out) && Exact(out) && MapOf(out) == Restrict(MapOf(hs), keep)
  {
    var ps := View(hs);
    StoredSize(hs, ps);
    assert Canonical(ps) && VarSize(hs) <= MAX_ALLOC && MapOf(hs) == ToMap(ps);
    FilterCanonical(ps, keep);
    FilterSize(ps, keep);
    FilterMap(ps, keep);
    PackSize(Filter(ps, keep));
    assert VarSize(Pack(Filter(ps, keep))) <= VarSize(hs);
    hide *;
    PackStores(Filter(ps, keep));
  }

  lemma {:induction false} PackSize(ps: seq<Pair>)
    ensures |Pack(ps).ents| == |ps| && |Pack(ps).bytes| == |Str(ps)|
  {
  }

  // ----- copying entries -----

  /** HS_COPYITEM of an entry of a datum: its key and value lie side by side. */
  method CopyEntry(b: Builder, hs: HStore, i: nat, ghost ps: seq<Pair>)
    requires Stores(hs, ps) && i < |ps|
    requires b.Valid() && b.dent < b.count && b.count + b.dptr + |PairBytes(ps[i])| <= b.mem.Length
    modifies b, b.mem
    ensures b.Valid() && b.mem == old(b.mem) && b.count == old(b.count) && b.out == old(b.out) + [ps[i]]
  {
    ReadStored(hs, ps, i);
    var off, klen, vlen := EntryBytes(hs, i);
    assert PairBytes(ps[i]) == hs.bytes[off..off + klen + vlen];
    hide Stores, PairBytes;
    b.CopyItem(hs.bytes[off..off + klen + vlen], klen, vlen, ValIsNull(hs, i), ps[i]);
  }

  method EntryBytes(hs: HStore, i: nat) returns (off: nat, klen: nat, vlen: nat)
    requires i < |hs.ents| && GoodEntry(hs, i)
    ensures off + klen + vlen <= |hs.bytes| && klen == |KeyAt(hs, i)| && vlen == |ValAt(hs, i)|
    ensures hs.bytes[off..off + klen + vlen] == KeyAt(hs, i) + ValAt(hs, i)
  {
    hide EndPos, IsFirst;
    off, klen, vlen := KeyOff(hs.ents, i), KeyLen(hs.ents, i), ValLen(hs.ents, i);
  }

  /** Room for one more pair of `ps` after some pairs of ps[..i]. */
  lemma {:induction false} FilterRoom(ps: seq<Pair>, i: nat, keep: Pair -> bool)
    requires i < |ps|
    ensures |Filter(ps[..i], keep)| < |ps|
    ensures |Str(Filter(ps[..i], keep))| + |PairBytes(ps[i])| <= |Str(ps)|
  {
    FilterSize(ps[..i], keep);
    RoomForNext(ps, i);
  }

  /** One turn of a loop that keeps some pairs. */
  method KeepOrSkip(b: Builder, hs: HStore, i: nat, kept: bool, ghost ps: seq<Pair>, ghost keep: Pair -> bool)
    requires Stores(hs, ps) && i < |ps| && kept == keep(ps[i])
    requires b.Valid() && b.out == Filter(ps[..i], keep) && b.count == |ps| && |ps| + |Str(ps)| <= b.mem.Length
    modifies b, b.mem
    ensures b.Valid() && b.mem == old(b.mem) && b.count == old(b.count) && b.out == Filter(ps[..i + 1], keep)
  {
    FilterRoom(ps, i, keep);
    FilterTake(ps, i, keep);
    hide Filter, Stores, Str, PairBytes, Ends, Image;
    if kept {
      CopyEntry(b, hs, i, ps);
    }
  }

  // ----- delete by key -----

  /** hstore_delete */
  method Delete(hs: HStore, key: string) returns (out: HStore)
    requires WellFormed(hs)
    ensures WellFormed(out) && Exact(out) && MapOf(out) == MapOf(hs) - {key}
  {
    ghost var ps, keep := View(hs), (p: Pair) => p.key != key;
    StoredSize(hs, ps);
    var b := new Builder(|hs.ents|, |hs.bytes|);
    assert ps[..0] == [] && Filter([], keep) == [];
    hide *;
    for i := 0 to |hs.ents|
      invariant b.Valid() && fresh(b) && fresh(b.mem) && b.count == |ps| && |ps| + |Str(ps)| <= b.mem.Length
      invariant b.out == Filter(ps[..i], keep)
    {
      ReadStored(hs, ps, i);
      KeepOrSkip(b, hs, i, KeyAt(hs, i) != key, ps, keep);
    }
    assert ps[..|ps|] == ps;
    out := b.Finalize();
    FilterDone(hs, keep);
    assert Restrict(MapOf(hs), keep) == MapOf(hs) - {key} by { RestrictKey(MapOf(hs), key, keep); }
  }

  lemma {:induction false} RestrictKey(m: Mapping, key: string, keep: Pair -> bool)
    requires forall p :: keep(p) <==> p.key != key
    ensures Restrict(m, keep) == m - {key}
  {
  }

  // ----- merges that keep some pairs -----

  /** The second list has been read up to where key `i` of the first belongs. */
  ghost predicate InStep(ps: seq<Pair>, i: int, qs: seq<Pair>, j: int) {
    0 <= i <= |ps| && 0 <= j <= |qs| && (i < |ps| ==> Below(qs, j, ps[i].key))
  }

  lemma {:induction false} StepSecond(ps: seq<Pair>, i: int, qs: seq<Pair>, j: int)
    requires Canonical(qs) && InStep(ps, i, qs, j) && i < |ps| && j < |qs|
    requires KeyCmp(ps[i].key, qs[j].key) > 0
    ensures InStep(ps, i, qs, j + 1)
  {
    KeyCmpFlip(qs[j].key, ps[i].key);
    BelowThrough(qs, j, ps[i].key);
  }

  lemma {:induction false} StepBoth(ps: seq<Pair>, i: int, qs: seq<Pair>, j: int)
    requires Canonical(ps) && Canonical(qs) && InStep(ps, i, qs, j) && i < |ps| && j < |qs|
    requires ps[i].key == qs[j].key
    ensures InStep(ps, i + 1, qs, j + 1)
    ensures ps[i].key in ToMap(qs) && ToMap(qs)[ps[i].key] == qs[j].val
  {
    CanonicalLookup(qs, j);
    FoundAt(qs, j);
    if i + 1 < |ps| {
      NextBelow(qs, j + 1, ps[i].key, ps[i + 1].key);
    }
  }

  lemma {:induction false} StepFirst(ps: seq<Pair>, i: int, qs: seq<Pair>, j: int)
    requires Canonical(ps) && Canonical(qs) && InStep(ps, i, qs, j) && i < |ps|
    requires j < |qs| ==> KeyCmp(ps[i].key, qs[j].key) < 0
    ensures InStep(ps, i + 1, qs, j) && ps[i].key !in ToMap(qs)
  {
    if j < |qs| {
      AboveFrom(qs, j, ps[i].key);
    }
    Missing(qs, j, ps[i].key);
    if i + 1 < |ps| {
      NextBelow(qs, j, ps[i].key, ps[i + 1].key);
    }
  }

  /** HS_FIXSIZE on a copy of the datum. */
  method FixSize(hs: HStore) returns (out: HStore)
    requires WellFormed(hs)
    ensures WellFormed(out) && Exact(out) && MapOf(out) == MapOf(hs)
  {
    ghost var ps := View(hs);
    LastEnd(hs, ps);
    var n := |hs.ents|;
    var bl := if n > 0 then EndPos(hs.ents[n - 1].vw) else 0;
    out := HStore(true, hs.ents, hs.bytes[..bl]);
    assert out.bytes == Str(ps);
    Trimmed(hs, out, ps);
  }

  lemma {:induction false} Trimmed(hs: HStore, out: HStore, ps: seq<Pair>)
    requires WellFormed(hs) && ps == View(hs) && out == HStore(true, hs.ents, Str(ps))
    ensures WellFormed(out) && Exact(out) && MapOf(out) == MapOf(hs)
  {
    StoredSize(hs, ps);
    assert out == Pack(ps);
    PackStores(ps);
  }

  // ----- delete by array -----

  /** hstore_delete_array */
  method DeleteArray(hs: HStore, a: seq<Option<string>>) returns (r: Option<HStore>)
    requires WellFormed(hs)
    ensures r.Some? <==> |a| <= MAX_ALLOC / SIZEOF_PAIRS
    ensures r.Some? ==> WellFormed(r.value) && Exact(r.value) && MapOf(r.value) == MapOf(hs) - KeySet(a)
  {
    var kps := ArrayToPairs(a);
    if kps.None? {
      return None;
    }
    var kp := kps.value;
    if kp == [] {
      var copy := FixSize(hs);
      assert KeySet(a) == {};
      return Some(copy);
    }
    var out := DeleteKeys(hs, kp);
    return Some(out);
  }

  lemma {:induction false} KeysOf(kp: seq<Pairs>)
    ensures ToMap(Abs(kp)).Keys == Keys(kp)
  {
    forall k | k in ToMap(Abs(kp))
      ensures k in Keys(kp)
    {
      var i := KeyIndex(Abs(kp), k);
      KeyIn(kp, i);
    }
    forall k | k in Keys(kp)
      ensures k in ToMap(Abs(kp))
    {
      var i := InKeys(kp, k);
      HasKey(Abs(kp), i);
    }
  }

  ghost predicate Building(b: Builder, ps: seq<Pair>, i: int, keep: Pair -> bool)
    reads b, b.mem
  {
    && b.Valid() && b.count == |ps| && |ps| + |Str(ps)| <= b.mem.Length
    && 0 <= i <= |ps| && b.out == Filter(ps[..i], keep)
  }

  method Start(hs: HStore, ghost keep: Pair -> bool) returns (b: Builder)
    requires WellFormed(hs)
    ensures fresh(b) && fresh(b.mem) && Building(b, View(hs), 0, keep)
  {
    ghost var ps := View(hs);
    StoredSize(hs, ps);
    b := new Builder(|hs.ents|, |hs.bytes|);
    assert ps[..0] == [];
  }

  method Turn(b: Builder, hs: HStore, i: nat, kept: bool, ghost ps: seq<Pair>, ghost keep: Pair -> bool)
    requires Stores(hs, ps) && i < |ps| && kept == keep(ps[i]) && Building(b, ps, i, keep)
    modifies b, b.mem
    ensures b.mem == old(b.mem) && Building(b, ps, i + 1, keep)
  {
    KeepOrSkip(b, hs, i, kept, ps, keep);
  }

  method Finish(b: Builder, hs: HStore, ghost keep: Pair -> bool) returns (out: HStore)
    requires WellFormed(hs) && Building(b, View(hs), |View(hs)|, keep)
    modifies b, b.mem
    ensures WellFormed(out) && Exact(out) && MapOf(out) == Restrict(MapOf(hs), keep)
  {
    ghost var ps := View(hs);
    assert ps[..|ps|] == ps;
    FilterDone(hs, keep);
    hide Restrict, MapOf, Filter;
    out := b.Finalize();
  }

  /** One turn of a deleting merge. `difference` compares the current keys; pairs
      whose key the second list lacks are kept, and of equal keys the pair goes
      when `drop` holds. */
  method Advance(b: Builder, hs: HStore, i: nat, j: nat, difference: int, drop: bool,
                 ghost ps: seq<Pair>, ghost qs: seq<Pair>, ghost keep: Pair -> bool)
    returns (i': nat, j': nat)
    requires Stores(hs, ps) && Canonical(qs) && i < |ps| && InStep(ps, i, qs, j) && Building(b, ps, i, keep)
    requires if j < |qs| then difference == KeyCmp(ps[i].key, qs[j].key) else difference < 0
    requires ps[i].key !in ToMap(qs) ==> keep(ps[i])
    requires difference == 0 ==> drop == !keep(ps[i])
    modifies b, b.mem
    ensures b.mem == old(b.mem) && Building(b, ps, i', keep) && InStep(ps, i', qs, j') && i' <= |ps| && j' <= |qs|
    ensures i' > i || (i' == i && j' > j)
  {
    assert Canonical(ps);
    hide Building, Canonical, Stores, ToMap, KeyCmp;
    if difference > 0 {
      StepSecond(ps, i, qs, j);
      return i, j + 1;
    } else if difference == 0 {
      StepBoth(ps, i, qs, j);
      Turn(b, hs, i, !drop, ps, keep);
      return i + 1, j + 1;
    } else {
      StepFirst(ps, i, qs, j);
      Turn(b, hs, i, true, ps, keep);
      return i + 1, j;
    }
  }

  ghost predicate KeepsKeys(keep: Pair -> bool, m: Mapping) {
    forall p :: keep(p) <==> p.key !in m
  }

  ghost predicate KeepsPairs(keep: Pair -> bool, m: Mapping) {
    forall p :: keep(p) <==> !(p.key in m && m[p.key] == p.val)
  }

  /** hstore_delete_array once the keys are sorted. */
  method DeleteKeys(hs: HStore, kp: seq<Pairs>) returns (out: HStore)
    requires WellFormed(hs) && Canonical(Abs(kp))
    ensures WellFormed(out) && Exact(out) && MapOf(out) == MapOf(hs) - Keys(kp)
  {
    ghost var m := ToMap(Abs(kp));
    ghost var keep := (p: Pair) => p.key !in m;
    KeysOf(kp);
    RestrictKeys(MapOf(hs), m, keep);
    assert KeepsKeys(keep, m);
    hide *;
    out := KeysMerge(hs, kp, keep);
  }

  /** The merge of hstore_delete_array. */
  method KeysMerge(hs: HStore, kp: seq<Pairs>, ghost keep: Pair -> bool) returns (out: HStore)
    requires WellFormed(hs) && Canonical(Abs(kp)) && KeepsKeys(keep, ToMap(Abs(kp)))
    ensures WellFormed(out) && Exact(out) && MapOf(out) == Restrict(MapOf(hs), keep)
  {
    hide *;
    ghost var ps, qs := View(hs), Abs(kp);
    MergeStart(hs, ps, qs);
    AbsKeys(kp);
    var b := Start(hs, keep);
    var i, j := 0, 0;
    while i < |hs.ents|
      invariant fresh(b) && fresh(b.mem) && 0 <= i <= |ps| && 0 <= j <= |qs|
      invariant Building(b, ps, i, keep) && InStep(ps, i, qs, j)
      decreases |ps| - i, |qs| - j
    {
      ReadStored(hs, ps, i);
      var difference := if j >= |kp| then -1 else KeyCmp(KeyAt(hs, i), kp[j].key);
      KeysTurn(ps, i, qs, j, difference, keep);
      i, j := Advance(b, hs, i, j, difference, true, ps, qs, keep);
    }
    out := Finish(b, hs, keep);
  }

  lemma {:induction false} AbsKeys(kp: seq<Pairs>)
    ensures forall j :: 0 <= j < |kp| ==> Abs(kp)[j].key == kp[j].key
  {
  }

  lemma {:induction false} KeysTurn(ps: seq<Pair>, i: int, qs: seq<Pair>, j: int, difference: int, keep: Pair -> bool)
    requires Canonical(ps) && Canonical(qs) && InStep(ps, i, qs, j) && i < |ps|
    requires if j < |qs| then difference == KeyCmp(ps[i].key, qs[j].key) else difference < 0
    requires KeepsKeys(keep, ToMap(qs))
    ensures ps[i].key !in ToMap(qs) ==> keep(ps[i])
    ensures difference == 0 ==> !keep(ps[i])
  {
    if difference == 0 {
      StepBoth(ps, i, qs, j);
    }
  }

  lemma {:induction false} RestrictKeys(m: Mapping, m2: Mapping, keep: Pair -> bool)
    requires KeepsKeys(keep, m2)
    ensures Restrict(m, keep) == m - m2.Keys
  {
  }

  lemma {:induction false} MergeStart(hs: HStore, ps: seq<Pair>, qs: seq<Pair>)
    requires Stores(hs, ps)
    ensures Canonical(ps) && |hs.ents| == |ps| && InStep(ps, 0, qs, 0)
  {
    StoredSize(hs, ps);
  }

  // ----- delete by hstore -----

  /** The pairs of `m` that are not also in `m2`. */
  ghost function PairsRemoved(m: Mapping, m2: Mapping): Mapping {
    map k | k in m && !(k in m2 && m2[k] == m[k]) :: m[k]
  }

  /** hstore_delete_hstore */
  method DeleteHstore(hs: HStore, hs2: HStore) returns (out: HStore)
    requires WellFormed(hs) && WellFormed(hs2)
    ensures WellFormed(out) && Exact(out) && MapOf(out) == PairsRemoved(MapOf(hs), MapOf(hs2))
  {
    if |hs2.ents| == 0 {
      StoredSize(hs2, View(hs2));
      assert MapOf(hs2) == map[];
      assert PairsRemoved(MapOf(hs), map[]) == MapOf(hs);
      out := FixSize(hs);
    } else {
      out := DeletePairs(hs, hs2);
    }
  }

  lemma {:induction false} RestrictPairs(m: Mapping, m2: Mapping, keep: Pair -> bool)
    requires KeepsPairs(keep, m2)
    ensures Restrict(m, keep) == PairsRemoved(m, m2)
  {
  }

  method DeletePairs(hs: HStore, hs2: HStore) returns (out: HStore)
    requires WellFormed(hs) && WellFormed(hs2)
    ensures WellFormed(out) && Exact(out) && MapOf(out) == PairsRemoved(MapOf(hs), MapOf(hs2))
  {
    ghost var m := MapOf(hs2);
    ghost var keep := (p: Pair) => !(p.key in m && m[p.key] == p.val);
    assert KeepsPairs(keep, m);
    RestrictPairs(MapOf(hs), m, keep);
    hide *;
    out := PairsMerge(hs, hs2, keep);
  }

  /** The merge of hstore_delete_hstore. */
  method PairsMerge(hs: HStore, hs2: HStore, ghost keep: Pair -> bool) returns (out: HStore)
    requires WellFormed(hs) && WellFormed(hs2) && KeepsPairs(keep, MapOf(hs2))
    ensures WellFormed(out) && Exact(out) && MapOf(out) == Restrict(MapOf(hs), keep)
  {
    MapIs(hs2);
    hide *;
    ghost var ps, qs := View(hs), View(hs2);
    MergeStart(hs, ps, qs);
    MergeStart(hs2, qs, ps);
    var b := Start(hs, keep);
    var i, j := 0, 0;
    while i < |hs.ents|
      invariant fresh(b) && fresh(b.mem) && 0 <= i <= |ps| && 0 <= j <= |qs|
      invariant Building(b, ps, i, keep) && InStep(ps, i, qs, j)
      decreases |ps| - i, |qs| - j
    {
      i, j := AdvancePair(b, hs, i, hs2, j, ps, qs, keep);
    }
    out := Finish(b, hs, keep);
  }

  method AdvancePair(b: Builder, hs: HStore, i: nat, hs2: HStore, j: nat,
                     ghost ps: seq<Pair>, ghost qs: seq<Pair>, ghost keep: Pair -> bool)
    returns (i': nat, j': nat)
    requires Stores(hs, ps) && Stores(hs2, qs) && Canonical(ps) && Canonical(qs)
    requires i < |ps| && j <= |qs| && InStep(ps, i, qs, j) && Building(b, ps, i, keep) && KeepsPairs(keep, ToMap(qs))
    modifies b, b.mem
    ensures b.mem == old(b.mem) && Building(b, ps, i', keep) && InStep(ps, i', qs, j') && i' <= |ps| && j' <= |qs|
    ensures i' > i || (i' == i && j' > j)
  {
    hide *;
    var difference, drop := Compare(hs, i, hs2, j, ps, qs);
    PairsTurn(ps, i, qs, j, difference, drop, keep);
    i', j' := Advance(b, hs, i, j, difference, drop, ps, qs, keep);
  }

  /** How the current keys compare, and whether the values are equal. */
  method Compare(hs: HStore, i: nat, hs2: HStore, j: nat, ghost ps: seq<Pair>, ghost qs: seq<Pair>)
    returns (difference: int, same: bool)
    requires Stores(hs, ps) && i < |ps| && Stores(hs2, qs) && j <= |qs|
    ensures if j < |qs| then difference == KeyCmp(ps[i].key, qs[j].key) else difference < 0
    ensures j < |qs| ==> same == (ps[i].val == qs[j].val)
  {
    StoredSize(hs2, qs);
    hide *;
    if j >= |hs2.ents| {
      return -1, false;
    }
    ReadStored(hs, ps, i);
    ReadStored(hs2, qs, j);
    SameValIs(hs, ps, i, hs2, qs, j);
    return KeyCmp(KeyAt(hs, i), KeyAt(hs2, j)), SameVal(hs, i, hs2, j);
  }

  lemma {:induction false} PairsTurn(ps: seq<Pair>, i: int, qs: seq<Pair>, j: int, difference: int, drop: bool,
                                     keep: Pair -> bool)
    requires Canonical(ps) && Canonical(qs) && InStep(ps, i, qs, j) && i < |ps|
    requires if j < |qs| then difference == KeyCmp(ps[i].key, qs[j].key) else difference < 0
    requires j < |qs| ==> drop == (ps[i].val == qs[j].val)
    requires KeepsPairs(keep, ToMap(qs))
    ensures ps[i].key !in ToMap(qs) ==> keep(ps[i])
    ensures difference == 0 ==> drop == !keep(ps[i])
  {
    if difference == 0 {
      StepBoth(ps, i, qs, j);
    }
  }

  // ----- concatenation -----

  /** The merge so far: `out` is the override of the pairs read from both. */
  ghost predicate Merging(p: seq<Pair>, i: int, q: seq<Pair>, j: int, out: seq<Pair>) {
    && 0 <= i <= |p| && 0 <= j <= |q| && Canonical(out)
    && ToMap(out) == ToMap(p[..i]) + ToMap(q[..j])
    && (i < |p| ==> AllBelow(out, p[i].key)) && (j < |q| ==> AllBelow(out, q[j].key))
    && |out| <= i + j && |Str(out)| <= |Str(p[..i])| + |Str(q[..j])|
  }

  /** Adding the smallest remaining pair `x` keeps the remaining keys above. */
  lemma {:induction false} StillBelow(out: seq<Pair>, x: Pair, p: seq<Pair>, i: int)
    requires AllBelow(out, x.key) && 0 <= i <= |p| && (i < |p| ==> KeyLess(x.key, p[i].key))
    ensures i < |p| ==> AllBelow(out + [x], p[i].key)
  {
    if i < |p| {
      AllBelowNext(out, x, p[i].key);
    }
  }

  lemma {:induction false} StillBelowNext(out: seq<Pair>, x: Pair, p: seq<Pair>, i: int)
    requires Canonical(p) && 0 <= i < |p| && x.key == p[i].key && AllBelow(out, x.key)
    ensures i + 1 < |p| ==> AllBelow(out + [x], p[i + 1].key)
  {
    StillBelow(out, x, p, i + 1);
  }

  /** A key above all keys of `out` is in none of the parts. */
  lemma {:induction false} NotYet(out: seq<Pair>, key: string)
    requires AllBelow(out, key)
    ensures key !in ToMap(out)
  {
    if key in ToMap(out) {
      var i := KeyIndex(out, key);
      KeyCmpFlip(key, key);
    }
  }

  lemma {:induction false} StrTake(p: seq<Pair>, i: int)
    requires 0 <= i < |p|
    ensures |Str(p[..i + 1])| == |Str(p[..i])| + |PairBytes(p[i])|
  {
    RoomForNext(p, i);
    StrPush(p[..i], p[i]);
  }

  lemma {:induction false} TakeFirst(p: seq<Pair>, i: int, q: seq<Pair>, j: int, out: seq<Pair>)
    requires Merging(p, i, q, j, out) && Canonical(p) && i < |p|
    requires j < |q| ==> KeyCmp(p[i].key, q[j].key) < 0
    ensures Merging(p, i + 1, q, j, out + [p[i]])
  {
    var x := p[i];
    hide Canonical, AllBelow, ToMap, Str, PairBytes, KeyCmp;
    CanonicalPush(out, x);
    StillBelowNext(out, x, p, i);
    StillBelow(out, x, q, j);
    ToMapPush(out, x);
    ToMapTake(p, i);
    StrTake(p, i);
    StrPush(out, x);
    NotYet(out, x.key);
    OverrideFirst(ToMap(p[..i]), ToMap(q[..j]), x);
  }

  lemma {:induction false} OverrideFirst(m: Mapping, m2: Mapping, x: Pair)
    requires x.key !in m + m2
    ensures m[x.key := x.val] + m2 == (m + m2)[x.key := x.val]
  {
  }

  lemma {:induction false} OverrideSecond(m: Mapping, m2: Mapping, x: Pair)
    ensures m + m2[x.key := x.val] == (m + m2)[x.key := x.val]
  {
  }

  lemma {:induction false} OverrideBoth(m: Mapping, m2: Mapping, x: Pair, v: Option<string>)
    ensures m[x.key := v] + m2[x.key := x.val] == (m + m2)[x.key := x.val]
  {
  }

  lemma {:induction false} TakeSecond(p: seq<Pair>, i: int, q: seq<Pair>, j: int, out: seq<Pair>)
    requires Merging(p, i, q, j, out) && Canonical(q) && j < |q|
    requires i < |p| ==> KeyCmp(p[i].key, q[j].key) > 0
    ensures Merging(p, i, q, j + 1, out + [q[j]])
  {
    var x := q[j];
    hide Canonical, AllBelow, ToMap, Str, PairBytes, KeyCmp;
    CanonicalPush(out, x);
    if i < |p| {
      KeyCmpFlip(x.key, p[i].key);
    }
    StillBelow(out, x, p, i);
    StillBelowNext(out, x, q, j);
    ToMapPush(out, x);
    ToMapTake(q, j);
    StrTake(q, j);
    StrPush(out, x);
    OverrideSecond(ToMap(p[..i]), ToMap(q[..j]), x);
  }

  lemma {:induction false} TakeEqual(p: seq<Pair>, i: int, q: seq<Pair>, j: int, out: seq<Pair>)
    requires Merging(p, i, q, j, out) && Canonical(p) && Canonical(q) && i < |p| && j < |q|
    requires p[i].key == q[j].key
    ensures Merging(p, i + 1, q, j + 1, out + [q[j]])
  {
    var x := q[j];
    hide Canonical, AllBelow, ToMap, Str, PairBytes, KeyCmp;
    CanonicalPush(out, x);
    StillBelowNext(out, x, p, i);
    StillBelowNext(out, x, q, j);
    ToMapPush(out, x);
    ToMapTake(p, i);
    ToMapTake(q, j);
    StrTake(p, i);
    StrTake(q, j);
    StrPush(out, x);
    OverrideBoth(ToMap(p[..i]), ToMap(q[..j]), x, p[i].val);
  }

  /** Room for the next pair from either side. */
  lemma {:induction false} MergeRoom(p: seq<Pair>, i: int, q: seq<Pair>, j: int, out: seq<Pair>)
    requires Merging(p, i, q, j, out) && (i < |p| || j < |q|)
    ensures |out| < |p| + |q|
    ensures i < |p| ==> |Str(out)| + |PairBytes(p[i])| <= |Str(p)| + |Str(q)|
    ensures j < |q| ==> |Str(out)| + |PairBytes(q[j])| <= |Str(p)| + |Str(q)|
  {
    StrPrefix(p, i);
    StrPrefix(q, j);
    hide Str, PairBytes, Canonical, ToMap;
    if i < |p| {
      RoomForNext(p, i);
    }
    if j < |q| {
      RoomForNext(q, j);
    }
  }

  /** hstore_concat: nothing when the two data are too large to be allocated
      together, otherwise the first mapping overridden by the second. */
  method Concat(s1: HStore, s2: HStore) returns (r: Option<HStore>)
    requires WellFormed(s1) && WellFormed(s2)
    ensures r.Some? <==> VarSize(s1) + VarSize(s2) <= MAX_ALLOC
    ensures r.Some? ==> WellFormed(r.value) && Exact(r.value) && MapOf(r.value) == MapOf(s1) + MapOf(s2)
  {
    if VarSize(s1) + VarSize(s2) > MAX_ALLOC {
      return None;
    }
    StoredSize(s1, View(s1));
    StoredSize(s2, View(s2));
    var out;
    if |s1.ents| == 0 {
      assert MapOf(s1) == map[] && map[] + MapOf(s2) == MapOf(s2);
      out := FixSize(s2);
    } else if |s2.ents| == 0 {
      assert MapOf(s2) == map[] && MapOf(s1) + map[] == MapOf(s1);
      out := FixSize(s1);
    } else {
      out := ConcatMerge(s1, s2);
    }
    return Some(out);
  }

  ghost predicate Joining(b: Builder, p: seq<Pair>, i: int, q: seq<Pair>, j: int)
    reads b, b.mem
  {
    && b.Valid() && b.count == |p| + |q| && |p| + |q| + |Str(p)| + |Str(q)| <= b.mem.Length
    && Merging(p, i, q, j, b.out)
  }

  method JoinStart(s1: HStore, s2: HStore) returns (b: Builder)
    requires WellFormed(s1) && WellFormed(s2)
    ensures fresh(b) && fresh(b.mem) && Joining(b, View(s1), 0, View(s2), 0)
  {
    ghost var p, q := View(s1), View(s2);
    StoredSize(s1, p);
    StoredSize(s2, q);
    b := new Builder(|s1.ents| + |s2.ents|, |s1.bytes| + |s2.bytes|);
    MergingStart(p, q);
    hide Merging, View, Stores;
  }

  lemma {:induction false} MergingStart(p: seq<Pair>, q: seq<Pair>)
    ensures Merging(p, 0, q, 0, [])
  {
    assert p[..0] == [] == q[..0];
  }

  /** The merge of hstore_concat. */
  method ConcatMerge(s1: HStore, s2: HStore) returns (out: HStore)
    requires WellFormed(s1) && WellFormed(s2) && VarSize(s1) + VarSize(s2) <= MAX_ALLOC
    ensures WellFormed(out) && Exact(out) && MapOf(out) == MapOf(s1) + MapOf(s2)
  {
    hide *;
    ghost var p, q := View(s1), View(s2);
    StoredSize(s1, p);
    StoredSize(s2, q);
    var b := JoinStart(s1, s2);
    var i, j := 0, 0;
    while i < |s1.ents| || j < |s2.ents|
      invariant fresh(b) && fresh(b.mem) && 0 <= i <= |p| && 0 <= j <= |q|
      invariant Joining(b, p, i, q, j)
      decreases |p| - i + |q| - j
    {
      var difference := 1;
      if i < |s1.ents| {
        var same;
        difference, same := Compare(s1, i, s2, j, p, q);
      }
      i, j := JoinTurn(b, s1, i, s2, j, difference, p, q);
    }
    out := JoinDone(b, s1, s2);
  }

  method JoinTurn(b: Builder, s1: HStore, i: nat, s2: HStore, j: nat, difference: int,
                  ghost p: seq<Pair>, ghost q: seq<Pair>)
    returns (i': nat, j': nat)
    requires Stores(s1, p) && Stores(s2, q) && Joining(b, p, i, q, j) && (i < |p| || j < |q|)
    requires if i >= |p| then difference > 0 else if j >= |q| then difference < 0
             else difference == KeyCmp(p[i].key, q[j].key)
    modifies b, b.mem
    ensures b.mem == old(b.mem) && Joining(b, p, i', q, j')
    ensures i <= i' <= |p| && j <= j' <= |q| && i' + j' > i + j
  {
    assert Canonical(p) && Canonical(q) && Merging(p, i, q, j, b.out);
    MergeRoom(p, i, q, j, b.out);
    hide *;
    if difference >= 0 {
      if difference == 0 {
        TakeEqual(p, i, q, j, b.out);
        i', j' := i + 1, j + 1;
      } else {
        TakeSecond(p, i, q, j, b.out);
        i', j' := i, j + 1;
      }
      JoinCopy(b, s2, j, q, p, i, i', q, j, j');
    } else {
      TakeFirst(p, i, q, j, b.out);
      i', j' := i + 1, j;
      JoinCopy(b, s1, i, p, p, i, i', q, j, j');
    }
  }

  method JoinCopy(b: Builder, hs: HStore, k: nat, ghost ps: seq<Pair>,
                  ghost p: seq<Pair>, ghost i: int, ghost i': int, ghost q: seq<Pair>, ghost j: int, ghost j': int)
    requires Stores(hs, ps) && k < |ps| && Joining(b, p, i, q, j)
    requires |b.out| < |p| + |q| && |Str(b.out)| + |PairBytes(ps[k])| <= |Str(p)| + |Str(q)|
    requires Merging(p, i', q, j', b.out + [ps[k]])
    modifies b, b.mem
    ensures b.mem == old(b.mem) && Joining(b, p, i', q, j')
  {
    hide Stores, Str, PairBytes, Merging, Ends, Image;
    CopyEntry(b, hs, k, ps);
  }

  method JoinDone(b: Builder, s1: HStore, s2: HStore) returns (out: HStore)
    requires WellFormed(s1) && WellFormed(s2) && VarSize(s1) + VarSize(s2) <= MAX_ALLOC
    requires Joining(b, View(s1), |View(s1)|, View(s2), |View(s2)|)
    modifies b, b.mem
    ensures WellFormed(out) && Exact(out) && MapOf(out) == MapOf(s1) + MapOf(s2)
  {
    MergeDone(s1, s2, b.out);
    out := b.Finalize();
  }

  lemma {:induction false} MergeDone(s1: HStore, s2: HStore, os: seq<Pair>)
    requires WellFormed(s1) && WellFormed(s2) && VarSize(s1) + VarSize(s2) <= MAX_ALLOC
    requires Merging(View(s1), |View(s1)|, View(s2), |View(s2)|, os)
    ensures WellFormed(Pack(os)) && Exact(Pack(os)) && MapOf(Pack(os)) == MapOf(s1) + MapOf(s2)
  {
    var p, q := View(s1), View(s2);
    assert p[..|p|] == p && q[..|q|] == q;
    StoredSize(s1, p);
    StoredSize(s2, q);
    PackSize(os);
    assert Canonical(os) && VarSize(Pack(os)) <= MAX_ALLOC && ToMap(os) == MapOf(s1) + MapOf(s2);
    hide *;
    PackStores(os);
  }

  // ----- slicing -----

  /** The pairs found for the first `i` search keys. */
  ghost predicate Slicing(hs: HStore, kp: seq<Pairs>, i: int, outp: seq<Pairs>)
    requires WellFormed(hs)
  {
    && 0 <= i <= |kp| && Canonical(Abs(outp)) && (i < |kp| ==> AllBelow(Abs(outp), kp[i].key))
    && ToMap(Abs(outp)) == Slice(MapOf(hs), Keys(kp[..i]))
  }

  /** The mapping restricted to some keys. */
  ghost function Slice(m: Mapping, ks: set<string>): Mapping {
    map k | k in m && k in ks :: m[k]
  }

  lemma {:induction false} SliceMiss(m: Mapping, ks: set<string>, key: string)
    requires key !in m
    ensures Slice(m, ks + {key}) == Slice(m, ks)
  {
  }

  lemma {:induction false} SliceHit(m: Mapping, ks: set<string>, key: string)
    requires key in m
    ensures Slice(m, ks + {key}) == Slice(m, ks)[key := m[key]]
  {
  }

  lemma {:induction false} KeysTake(kp: seq<Pairs>, i: int)
    requires 0 <= i < |kp|
    ensures Keys(kp[..i + 1]) == Keys(kp[..i]) + {kp[i].key}
  {
    assert kp[..i + 1] == kp[..i] + [kp[i]];
    KeysPush(kp[..i], kp[i]);
  }

  lemma {:induction false} KeyOrder(kp: seq<Pairs>, i: int)
    requires Canonical(Abs(kp)) && 0 <= i && i + 1 < |kp|
    ensures KeyLess(kp[i].key, kp[i + 1].key)
  {
    assert KeyLess(Abs(kp)[i].key, Abs(kp)[i + 1].key);
  }

  lemma {:induction false} SliceSkip(hs: HStore, kp: seq<Pairs>, i: int, outp: seq<Pairs>)
    requires WellFormed(hs) && Canonical(Abs(kp)) && Slicing(hs, kp, i, outp) && i < |kp|
    requires kp[i].key !in MapOf(hs)
    ensures Slicing(hs, kp, i + 1, outp)
  {
    hide MapOf, ToMap, Abs, Keys, Slice, KeyLess;
    SliceMiss(MapOf(hs), Keys(kp[..i]), kp[i].key);
    KeysTake(kp, i);
    if i + 1 < |kp| {
      KeyOrder(kp, i);
      AllBelowMore(Abs(outp), kp[i].key, kp[i + 1].key);
    }
  }

  lemma {:induction false} AllBelowMore(ps: seq<Pair>, key: string, next: string)
    requires AllBelow(ps, key) && KeyLess(key, next)
    ensures AllBelow(ps, next)
  {
    forall i | 0 <= i < |ps|
      ensures KeyLess(ps[i].key, next)
    {
      KeyLessTrans(ps[i].key, key, next);
    }
  }

  lemma {:induction false} SliceTake(hs: HStore, kp: seq<Pairs>, i: int, outp: seq<Pairs>, x: Pairs)
    requires WellFormed(hs) && Canonical(Abs(kp)) && Slicing(hs, kp, i, outp) && i < |kp|
    requires kp[i].key in MapOf(hs) && PairOf(x) == Pair(kp[i].key, MapOf(hs)[kp[i].key])
    ensures Slicing(hs, kp, i + 1, outp + [x])
  {
    hide MapOf, ToMap, Abs, Keys, Slice, KeyLess, Canonical;
    var p := PairOf(x);
    SliceHit(MapOf(hs), Keys(kp[..i]), p.key);
    KeysTake(kp, i);
    AbsPush(outp, x);
    ToMapPush(Abs(outp), p);
    CanonicalPush(Abs(outp), p);
    if i + 1 < |kp| {
      KeyOrder(kp, i);
      AllBelowNext(Abs(outp), p, kp[i + 1].key);
    }
  }

  /** hstore_slice_to_hstore */
  method SliceToHstore(hs: HStore, a: seq<Option<string>>) returns (r: Option<HStore>)
    requires WellFormed(hs)
    ensures r.Some? <==> |a| <= MAX_ALLOC / SIZEOF_PAIRS
    ensures r.Some? ==> WellFormed(r.value) && Exact(r.value) && MapOf(r.value) == Slice(MapOf(hs), KeySet(a))
  {
    hide *;
    var kps := ArrayToPairs(a);
    if kps.None? {
      return None;
    }
    var outp, bufsiz := SlicePairs(hs, kps.value);
    SliceFits(hs, kps.value, outp);
    r := HstorePairs(outp, bufsiz);
    SliceDone(hs, kps.value, outp);
  }

  /** The search loop of hstore_slice_to_hstore. */
  method SlicePairs(hs: HStore, kp: seq<Pairs>) returns (outp: seq<Pairs>, bufsiz: nat)
    requires WellFormed(hs) && Canonical(Abs(kp))
    ensures Slicing(hs, kp, |kp|, outp) && bufsiz == |Str(Abs(outp))|
  {
    outp, bufsiz := [], 0;
    SliceStart(hs, kp);
    var low := 0;
    assert Walking(hs, kp, 0, 0);
    hide *;
    for i := 0 to |kp|
      invariant Walking(hs, kp, i, low) && Slicing(hs, kp, i, outp) && bufsiz == |Str(Abs(outp))|
    {
      WalkingAt(hs, kp, i, low);
      var idx;
      idx, low := FindKey(hs, low, kp[i].key);
      Walk(hs, kp, i, low);
      if idx >= 0 {
        ReadStored(hs, View(hs), idx);
        var x := Pairs(kp[i].key, ValAt(hs, idx), ValIsNull(hs, idx), false);
        ReadPair(hs, idx, x);
        SliceTake(hs, kp, i, outp, x);
        BytesPush(outp, x);
        outp, bufsiz := outp + [x], bufsiz + |x.key| + |x.val|;
      } else {
        SliceSkip(hs, kp, i, outp);
      }
    }
  }

  lemma {:induction false} SliceStart(hs: HStore, kp: seq<Pairs>)
    requires WellFormed(hs)
    ensures Slicing(hs, kp, 0, []) && |Str(Abs([]))| == 0
  {
    assert kp[..0] == [] && Abs([]) == [];
    assert Slice(MapOf(hs), {}) == map[];
  }

  lemma {:induction false} WalkingAt(hs: HStore, kp: seq<Pairs>, i: int, low: int)
    requires WellFormed(hs) && Walking(hs, kp, i, low) && i < |kp|
    ensures low >= 0 && Below(View(hs), low, kp[i].key)
  {
  }

  lemma {:induction false} ReadPair(hs: HStore, idx: int, x: Pairs)
    requires WellFormed(hs) && 0 <= idx < |View(hs)| && x.key == View(hs)[idx].key
    requires x.isnull == View(hs)[idx].val.None? && x.val == ValBytes(View(hs)[idx].val)
    ensures x.key in MapOf(hs) && PairOf(x) == Pair(x.key, MapOf(hs)[x.key]) && PairLen(x) == |x.key| + |x.val|
  {
    Lookup(hs, idx);
    hide MapOf, Stores;
  }

  /** A slice is no larger than what it is taken from. */
  lemma {:induction false} SliceFits(hs: HStore, kp: seq<Pairs>, outp: seq<Pairs>)
    requires WellFormed(hs) && Slicing(hs, kp, |kp|, outp)
    ensures CalcDataSize(|outp|, |Str(Abs(outp))|) <= MAX_ALLOC
  {
    var ps, ks := View(hs), Keys(kp);
    var keep := (p: Pair) => p.key in ks;
    assert kp[..|kp|] == kp;
    StoredSize(hs, ps);
    FilterCanonical(ps, keep);
    FilterMap(ps, keep);
    FilterSize(ps, keep);
    assert Restrict(MapOf(hs), keep) == Slice(MapOf(hs), ks);
    hide Canonical, ToMap, Filter, Restrict, Slice, Keys, Str;
    CanonicalUnique(Abs(outp), Filter(ps, keep));
  }

  lemma {:induction false} SliceDone(hs: HStore, kp: seq<Pairs>, outp: seq<Pairs>)
    requires WellFormed(hs) && Slicing(hs, kp, |kp|, outp) && CalcDataSize(|outp|, |Str(Abs(outp))|) <= MAX_ALLOC
    ensures var out := Pack(Abs(outp));
            WellFormed(out) && Exact(out) && MapOf(out) == Slice(MapOf(hs), Keys(kp))
  {
    assert kp[..|kp|] == kp;
    PackSize(Abs(outp));
    PackStores(Abs(outp));
  }
}
