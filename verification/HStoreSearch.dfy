/** Looking keys up in a datum: the binary search whose lower bound is carried
    from one key to the next, and the operators built on it. */
module HStoreSearch {
  import opened Prelude
  import opened HStoreCore
  import opened HStorePairs

  /** The first `n` keys of the list are less than `key`. */
  ghost predicate Below(ps: seq<Pair>, n: int, key: string) {
    0 <= n <= |ps| && forall i :: 0 <= i < n ==> KeyLess(ps[i].key, key)
  }

  /** The keys of the list from `n` on are greater than `key`. */
  ghost predicate Above(ps: seq<Pair>, n: int, key: string) {
    0 <= n <= |ps| && forall i :: n <= i < |ps| ==> KeyLess(key, ps[i].key)
  }

  /** Nothing before `n` is greater than `key`: where the next search starts. */
  ghost predicate NotAbove(ps: seq<Pair>, n: int, key: string) {
    0 <= n <= |ps| && forall i :: 0 <= i < n ==> ps[i].key == key || KeyLess(ps[i].key, key)
  }

  lemma {:induction false} BelowThrough(ps: seq<Pair>, mid: int, key: string)
    requires Canonical(ps) && 0 <= mid < |ps| && KeyLess(ps[mid].key, key)
    ensures Below(ps, mid + 1, key)
  {
    forall i | 0 <= i < mid
      ensures KeyLess(ps[i].key, key)
    {
      KeyLessTrans(ps[i].key, ps[mid].key, key);
    }
  }

  lemma {:induction false} AboveFrom(ps: seq<Pair>, mid: int, key: string)
    requires Canonical(ps) && 0 <= mid < |ps| && KeyLess(key, ps[mid].key)
    ensures Above(ps, mid, key)
  {
    forall i | mid < i < |ps|
      ensures KeyLess(key, ps[i].key)
    {
      KeyLessTrans(key, ps[mid].key, ps[i].key);
    }
  }

  /** Between the keys on either side there is no other. */
  lemma {:induction false} Missing(ps: seq<Pair>, n: int, key: string)
    requires Below(ps, n, key) && Above(ps, n, key)
    ensures key !in ToMap(ps) && NotAbove(ps, n, key)
  {
    if key in ToMap(ps) {
      var i := KeyIndex(ps, key);
      if i < n {
        KeyCmpFlip(key, key);
      }
    }
  }

  lemma {:induction false} FoundAt(ps: seq<Pair>, i: int)
    requires Canonical(ps) && 0 <= i < |ps|
    ensures ps[i].key in ToMap(ps) && NotAbove(ps, i + 1, ps[i].key)
  {
    CanonicalLookup(ps, i);
  }

  /** The next, greater key may be searched from where the last search ended. */
  lemma {:induction false} NextBelow(ps: seq<Pair>, n: int, key: string, next: string)
    requires NotAbove(ps, n, key) && KeyLess(key, next)
    ensures Below(ps, n, next)
  {
    forall i | 0 <= i < n
      ensures KeyLess(ps[i].key, next)
    {
      if ps[i].key != key {
        KeyLessTrans(ps[i].key, key, next);
      }
    }
  }

  /** hstoreFindKey: the index of the key, or -1 when the datum has no such key,
      and the bound to start the search for a greater key from. A search that
      starts at 0 meets the requirement for every key, so carrying the bound
      changes no answer. */
  method FindKey(hs: HStore, lowbound: nat, key: string) returns (idx: int, newLow: nat)
    requires WellFormed(hs) && Below(View(hs), lowbound, key)
    ensures idx >= 0 <==> key in MapOf(hs)
    ensures -1 <= idx < |View(hs)| && (idx >= 0 ==> View(hs)[idx].key == key)
    ensures NotAbove(View(hs), newLow, key)
  {
    ghost var ps := View(hs);
    StoredSize(hs, ps);
    var low, high := lowbound, |hs.ents|;
    hide MapOf, ToMap, Stores, KeyLess, View;
    while low < high
      invariant low <= high <= |ps| && Below(ps, low, key) && Above(ps, high, key)
    {
      var mid := low + (high - low) / 2;
      ReadStored(hs, ps, mid);
      var difference := KeyCmp(KeyAt(hs, mid), key);
      if difference == 0 {
        Found(hs, ps, mid);
        return mid, mid + 1;
      } else if difference < 0 {
        LowerHalf(hs, ps, mid, key);
        low := mid + 1;
      } else {
        UpperHalf(hs, ps, mid, key);
        high := mid;
      }
    }
    Missing(ps, low, key);
    assert key !in MapOf(hs) by { MapIs(hs); }
    return -1, low;
  }

  lemma {:induction false} MapIs(hs: HStore)
    requires WellFormed(hs)
    ensures MapOf(hs) == ToMap(View(hs)) && Canonical(View(hs))
  {
  }

  lemma {:induction false} Found(hs: HStore, ps: seq<Pair>, mid: int)
    requires WellFormed(hs) && ps == View(hs) && 0 <= mid < |ps|
    ensures ps[mid].key in MapOf(hs) && NotAbove(ps, mid + 1, ps[mid].key)
  {
    FoundAt(ps, mid);
  }

  lemma {:induction false} LowerHalf(hs: HStore, ps: seq<Pair>, mid: int, key: string)
    requires Stores(hs, ps) && 0 <= mid < |ps| && KeyCmp(ps[mid].key, key) < 0
    ensures Below(ps, mid + 1, key)
  {
    BelowThrough(ps, mid, key);
  }

  lemma {:induction false} UpperHalf(hs: HStore, ps: seq<Pair>, mid: int, key: string)
    requires Stores(hs, ps) && 0 <= mid < |ps| && KeyCmp(ps[mid].key, key) > 0
    ensures Above(ps, mid, key)
  {
    KeyCmpFlip(key, ps[mid].key);
    AboveFrom(ps, mid, key);
  }

  // ----- key arrays -----

  /** The non-null elements of a text array. */
  ghost function KeySet(a: seq<Option<string>>): set<string> {
    set k | k in a && k.Some? :: k.value
  }

  const SIZEOF_PAIRS := 40

  function KeyPair(k: string): Pairs {
    Pairs(k, "", true, false)
  }

  /** hstoreArrayToPairs: the distinct non-null keys in increasing order, or
      nothing when the array is too long. */
  method ArrayToPairs(a: seq<Option<string>>) returns (r: Option<seq<Pairs>>)
    ensures r.Some? <==> |a| <= MAX_ALLOC / SIZEOF_PAIRS
    ensures r.Some? ==> Canonical(Abs(r.value)) && Keys(r.value) == KeySet(a)
  {
    if a == [] {
      return Some([]);
    }
    if |a| > MAX_ALLOC / SIZEOF_PAIRS {
      return None;
    }
    var ks := [];
    assert a[..0] == [];
    for i := 0 to |a|
      invariant Keys(ks) == KeySet(a[..i])
    {
      KeySetPush(a, i);
      if a[i].Some? {
        KeysPush(ks, KeyPair(a[i].value));
        ks := ks + [KeyPair(a[i].value)];
      }
    }
    assert a[..|a|] == a;
    var arr := new Pairs[|ks|](i requires 0 <= i < |ks| => ks[i]);
    assert arr[..] == ks;
    var n, bufsiz := UniquePairs(arr);
    return Some(arr[..n]);
  }

  lemma {:induction false} KeySetPush(a: seq<Option<string>>, i: nat)
    requires i < |a|
    ensures KeySet(a[..i + 1]) == KeySet(a[..i]) + if a[i].Some? then {a[i].value} else {}
  {
    var s, t := a[..i], a[..i + 1];
    assert t == s + [a[i]];
    assert forall k :: k in t <==> k in s || k == a[i];
    forall x | x in KeySet(s)
      ensures x in KeySet(t)
    {
      assert Some(x) in t;
    }
  }

  // ----- exists, exists_any, exists_all -----

  /** hstore_exists */
  method Exists(hs: HStore, key: string) returns (r: bool)
    requires WellFormed(hs)
    ensures r <==> key in MapOf(hs)
  {
    var idx, _ := FindKey(hs, 0, key);
    r := idx >= 0;
  }

  /** hstore_fetchval: the value under the key; null when it is null or absent. */
  method FetchVal(hs: HStore, key: string) returns (r: Option<string>)
    requires WellFormed(hs)
    ensures r == if key in MapOf(hs) then MapOf(hs)[key] else None
  {
    var idx, _ := FindKey(hs, 0, key);
    if idx < 0 {
      return None;
    }
    ghost var ps := View(hs);
    ReadStored(hs, ps, idx);
    Lookup(hs, idx);
    hide MapOf, Stores;
    r := if ValIsNull(hs, idx) then None else Some(ValAt(hs, idx));
  }

  lemma {:induction false} Lookup(hs: HStore, i: int)
    requires WellFormed(hs) && 0 <= i < |View(hs)|
    ensures View(hs)[i].key in MapOf(hs) && MapOf(hs)[View(hs)[i].key] == View(hs)[i].val
  {
    CanonicalLookup(View(hs), i);
  }

  /** A search for each key of an increasing list in turn. */
  ghost predicate Walking(hs: HStore, kp: seq<Pairs>, i: int, low: int)
    requires WellFormed(hs)
  {
    0 <= i <= |kp| && (i < |kp| ==> Below(View(hs), low, kp[i].key))
  }

  lemma {:induction false} Walk(hs: HStore, kp: seq<Pairs>, i: int, low: int)
    requires WellFormed(hs) && Canonical(Abs(kp)) && 0 <= i < |kp| && NotAbove(View(hs), low, kp[i].key)
    ensures Walking(hs, kp, i + 1, low)
  {
    if i + 1 < |kp| {
      assert KeyLess(Abs(kp)[i].key, Abs(kp)[i + 1].key);
      NextBelow(View(hs), low, kp[i].key, kp[i + 1].key);
    }
  }

  lemma {:induction false} InKeys(kp: seq<Pairs>, k: string) returns (i: nat)
    requires k in Keys(kp)
    ensures i < |kp| && kp[i].key == k
  {
    var p :| p in kp && p.key == k;
    i :| i < |kp| && kp[i] == p;
  }

  lemma {:induction false} KeyIn(kp: seq<Pairs>, i: nat)
    requires i < |kp|
    ensures kp[i].key in Keys(kp)
  {
    assert kp[i] in kp;
  }

  /** hstore_exists_any: some key of the array is present. */
  method ExistsAny(hs: HStore, a: seq<Option<string>>) returns (r: Option<bool>)
    requires WellFormed(hs)
    ensures r.Some? <==> |a| <= MAX_ALLOC / SIZEOF_PAIRS
    ensures r.Some? ==> (r.value <==> exists k :: k in KeySet(a) && k in MapOf(hs))
  {
    var kps := ArrayToPairs(a);
    if kps.None? {
      return None;
    }
    var kp, low := kps.value, 0;
    hide MapOf, View, KeySet;
    for i := 0 to |kp|
      invariant Walking(hs, kp, i, low)
      invariant forall j :: 0 <= j < i ==> kp[j].key !in MapOf(hs)
    {
      var idx;
      idx, low := FindKey(hs, low, kp[i].key);
      if idx >= 0 {
        KeyIn(kp, i);
        return Some(true);
      }
      Walk(hs, kp, i, low);
    }
    forall k | k in KeySet(a)
      ensures k !in MapOf(hs)
    {
      var i := InKeys(kp, k);
    }
    return Some(false);
  }

  /** hstore_exists_all: every key of the array is present. */
  method ExistsAll(hs: HStore, a: seq<Option<string>>) returns (r: Option<bool>)
    requires WellFormed(hs)
    ensures r.Some? <==> |a| <= MAX_ALLOC / SIZEOF_PAIRS
    ensures r.Some? ==> (r.value <==> KeySet(a) <= MapOf(hs).Keys)
  {
    var kps := ArrayToPairs(a);
    if kps.None? {
      return None;
    }
    var kp, low := kps.value, 0;
    hide MapOf, View, KeySet;
    for i := 0 to |kp|
      invariant Walking(hs, kp, i, low)
      invariant forall j :: 0 <= j < i ==> kp[j].key in MapOf(hs)
    {
      var idx;
      idx, low := FindKey(hs, low, kp[i].key);
      if idx < 0 {
        KeyIn(kp, i);
        return Some(false);
      }
      Walk(hs, kp, i, low);
    }
    forall k | k in KeySet(a)
      ensures k in MapOf(hs)
    {
      var i := InKeys(kp, k);
    }
    return Some(true);
  }

  // ----- contains -----

  /** Equal values, as the operators compare them: both null, or neither and the
      same bytes. */
  predicate SameVal(a: HStore, i: nat, b: HStore, j: nat)
    requires i < |a.ents| && GoodEntry(a, i) && j < |b.ents| && GoodEntry(b, j)
  {
    ValIsNull(a, i) == ValIsNull(b, j) && (ValIsNull(a, i) || ValAt(a, i) == ValAt(b, j))
  }

  lemma {:induction false} SameValIs(a: HStore, ps: seq<Pair>, i: nat, b: HStore, qs: seq<Pair>, j: nat)
    requires Stores(a, ps) && i < |ps| && Stores(b, qs) && j < |qs|
    ensures i < |a.ents| && GoodEntry(a, i) && j < |b.ents| && GoodEntry(b, j)
    ensures SameVal(a, i, b, j) <==> ps[i].val == qs[j].val
  {
    ReadStored(a, ps, i);
    ReadStored(b, qs, j);
    hide Stores, ValIsNull, ValAt, GoodEntry;
  }

  /** hstore_contains: the template's mapping is part of the value's. */
  method Contains(val: HStore, tmpl: HStore) returns (res: bool)
    requires WellFormed(val) && WellFormed(tmpl)
    ensures res <==> forall k :: k in MapOf(tmpl) ==> k in MapOf(val) && MapOf(val)[k] == MapOf(tmpl)[k]
  {
    ghost var vs, ts := View(val), View(tmpl);
    StoredSize(tmpl, ts);
    var low, i := 0, 0;
    res := true;
    hide *;
    while res && i < |tmpl.ents|
      invariant 0 <= i <= |ts| && Trailing(vs, ts, i, low)
      invariant res ==> forall j :: 0 <= j < i ==> HasPair(val, ts[j])
      invariant !res ==> exists j :: 0 <= j < |ts| && !HasPair(val, ts[j])
    {
      ReadStored(tmpl, ts, i);
      Step(vs, ts, i, low);
      var idx;
      idx, low := FindKey(val, low, KeyAt(tmpl, i));
      if idx >= 0 {
        SameValIs(tmpl, ts, i, val, vs, idx);
        PairFound(val, idx, ts[i]);
        res := SameVal(tmpl, i, val, idx);
      } else {
        PairMissing(val, ts[i]);
        res := false;
      }
      StepOn(tmpl, vs, ts, i, low);
      i := i + 1;
    }
    SubMap(val, tmpl);
  }

  ghost predicate HasPair(val: HStore, p: Pair)
    requires WellFormed(val)
  {
    p.key in MapOf(val) && MapOf(val)[p.key] == p.val
  }

  ghost predicate Trailing(vs: seq<Pair>, ts: seq<Pair>, i: int, low: int) {
    0 <= low <= |vs| && (0 <= i < |ts| ==> Below(vs, low, ts[i].key))
  }

  lemma {:induction false} PairFound(val: HStore, idx: int, p: Pair)
    requires WellFormed(val) && 0 <= idx < |View(val)| && View(val)[idx].key == p.key
    ensures HasPair(val, p) <==> View(val)[idx].val == p.val
  {
    Lookup(val, idx);
  }

  lemma {:induction false} PairMissing(val: HStore, p: Pair)
    requires WellFormed(val) && p.key !in MapOf(val)
    ensures !HasPair(val, p)
  {
  }

  lemma {:induction false} Step(vs: seq<Pair>, ts: seq<Pair>, i: int, low: int)
    requires Trailing(vs, ts, i, low) && 0 <= i < |ts|
    ensures low >= 0 && Below(vs, low, ts[i].key)
  {
  }

  lemma {:induction false} StepOn(tmpl: HStore, vs: seq<Pair>, ts: seq<Pair>, i: int, low: int)
    requires Stores(tmpl, ts) && 0 <= i < |ts| && NotAbove(vs, low, ts[i].key)
    ensures Trailing(vs, ts, i + 1, low)
  {
    if i + 1 < |ts| {
      NextBelow(vs, low, ts[i].key, ts[i + 1].key);
    }
  }

  lemma {:induction false} SubMap(val: HStore, tmpl: HStore)
    requires WellFormed(val) && WellFormed(tmpl)
    ensures (forall j :: 0 <= j < |View(tmpl)| ==> HasPair(val, View(tmpl)[j]))
            <==> (forall k :: k in MapOf(tmpl) ==> k in MapOf(val) && MapOf(val)[k] == MapOf(tmpl)[k])
  {
    var ts := View(tmpl);
    if forall j :: 0 <= j < |ts| ==> HasPair(val, ts[j]) {
      forall k | k in MapOf(tmpl)
        ensures k in MapOf(val) && MapOf(val)[k] == MapOf(tmpl)[k]
      {
        var j := KeyIndex(ts, k);
        assert HasPair(val, ts[j]);
      }
    }
    if forall k :: k in MapOf(tmpl) ==> k in MapOf(val) && MapOf(val)[k] == MapOf(tmpl)[k] {
      forall j | 0 <= j < |ts|
        ensures HasPair(val, ts[j])
      {
        Lookup(tmpl, j);
      }
    }
  }
}
