/** The queries of hstore's index operator classes, and the GIN class: which rows
    an index search may skip, compared with what the operators mean. */
module HStoreIndex {
  import opened Prelude
  import opened HStoreCore
  import opened HStoreSearch

  datatype Query = ContainsQ(tmpl: HStore) | ExistsQ(key: string)
                 | AnyQ(keys: seq<Option<string>>) | AllQ(keys: seq<Option<string>>)

  ghost predicate GoodQuery(q: Query) {
    q.ContainsQ? ==> WellFormed(q.tmpl)
  }

  /** What the operators @>, ?, ?| and ?& mean. */
  ghost predicate Matches(hs: HStore, q: Query)
    requires WellFormed(hs) && GoodQuery(q)
  {
    match q
    case ContainsQ(tmpl) => forall k :: k in MapOf(tmpl) ==> k in MapOf(hs) && MapOf(hs)[k] == MapOf(tmpl)[k]
    case ExistsQ(key) => key in MapOf(hs)
    case AnyQ(keys) => exists k :: k in KeySet(keys) && k in MapOf(hs)
    case AllQ(keys) => forall k :: k in KeySet(keys) ==> k in MapOf(hs)
  }

  // ----- GIN -----

  function KeyItem(k: string): string {
    ['K'] + k
  }

  function ValItem(v: Option<string>): string {
    match v
    case None => ['N']
    case Some(s) => ['V'] + s
  }

  /** The items of a list of pairs, a key and a value in turn. */
  function Items(ps: seq<Pair>): seq<string> {
    if ps == [] then []
    else Items(ps[..|ps| - 1]) + [KeyItem(ps[|ps| - 1].key), ValItem(ps[|ps| - 1].val)]
  }

  /** makeitem */
  function MakeItem(str: string, flag: char): string {
    [flag] + str
  }

  /** gin_extract_hstore */
  method Extract(hs: HStore) returns (entries: seq<string>)
    requires WellFormed(hs)
    ensures entries == Items(View(hs))
  {
    ghost var ps := View(hs);
    StoredSize(hs, ps);
    entries := [];
    assert ps[..0] == [];
    hide View, Stores, GoodEntry;
    for i := 0 to |hs.ents|
      invariant entries == Items(ps[..i])
    {
      ReadStored(hs, ps, i);
      ItemsTake(ps, i);
      hide *;
      var key := MakeItem(KeyAt(hs, i), 'K');
      var val := if ValIsNull(hs, i) then MakeItem("", 'N') else MakeItem(ValAt(hs, i), 'V');
      entries := entries + [key, val];
    }
    assert ps[..|ps|] == ps;
  }

  lemma {:induction false} ItemsTake(ps: seq<Pair>, i: nat)
    requires i < |ps|
    ensures Items(ps[..i + 1]) == Items(ps[..i]) +
            [MakeItem(ps[i].key, 'K'),
             if ps[i].val.None? then MakeItem("", 'N') else MakeItem(ValBytes(ps[i].val), 'V')]
  {
    assert ps[..i + 1][..i] == ps[..i];
    assert ['N'] + "" == ['N'];
  }

  lemma {:induction false} ItemIn(ps: seq<Pair>, i: nat)
    requires i < |ps|
    ensures KeyItem(ps[i].key) in Items(ps) && ValItem(ps[i].val) in Items(ps)
  {
    if i < |ps| - 1 {
      ItemIn(ps[..|ps| - 1], i);
    }
  }

  lemma {:induction false} ItemFrom(ps: seq<Pair>, x: string) returns (i: nat)
    requires x in Items(ps)
    ensures i < |ps| && (x == KeyItem(ps[i].key) || x == ValItem(ps[i].val))
  {
    var n := |ps| - 1;
    if x in Items(ps[..n]) {
      i := ItemFrom(ps[..n], x);
    } else {
      i := n;
    }
  }

  /** Key items stand exactly for the keys. */
  lemma {:induction false} KeyItemIn(hs: HStore, k: string)
    requires WellFormed(hs)
    ensures KeyItem(k) in Items(View(hs)) <==> k in MapOf(hs)
  {
    var ps := View(hs);
    if KeyItem(k) in Items(ps) {
      var i := ItemFrom(ps, KeyItem(k));
      assert KeyItem(k)[0] == 'K' && KeyItem(k)[1..] == k && KeyItem(ps[i].key)[1..] == ps[i].key;
      Lookup(hs, i);
    }
    if k in MapOf(hs) {
      var i := KeyIndex(ps, k);
      ItemIn(ps, i);
    }
  }

  datatype GinQuery = GinQuery(entries: seq<string>, all: bool)

  /** The key items of the non-null elements. */
  function KeyItems(keys: seq<Option<string>>): seq<string> {
    if keys == [] then []
    else
      var last := keys[|keys| - 1];
      KeyItems(keys[..|keys| - 1]) + if last.Some? then [KeyItem(last.value)] else []
  }

  /** gin_extract_hstore_query: the items to look for, and whether every row has
      to be visited. */
  method ExtractQuery(q: Query) returns (g: GinQuery)
    requires GoodQuery(q)
    ensures g == GinOf(q)
  {
    match q
    case ContainsQ(tmpl) =>
      var es := Extract(tmpl);
      g := GinQuery(es, es == []);
    case ExistsQ(key) => g := GinQuery([MakeItem(key, 'K')], false);
    case AnyQ(keys) =>
      var es := ExtractKeys(keys);
      g := GinQuery(es, false);
    case AllQ(keys) =>
      var es := ExtractKeys(keys);
      g := GinQuery(es, es == []);
  }

  ghost function GinOf(q: Query): GinQuery
    requires GoodQuery(q)
  {
    match q
    case ContainsQ(tmpl) => GinQuery(Items(View(tmpl)), Items(View(tmpl)) == [])
    case ExistsQ(key) => GinQuery([KeyItem(key)], false)
    case AnyQ(keys) => GinQuery(KeyItems(keys), false)
    case AllQ(keys) => GinQuery(KeyItems(keys), KeyItems(keys) == [])
  }

  method ExtractKeys(keys: seq<Option<string>>) returns (es: seq<string>)
    ensures es == KeyItems(keys)
  {
    es := [];
    assert keys[..0] == [];
    for i := 0 to |keys|
      invariant es == KeyItems(keys[..i])
    {
      assert keys[..i + 1][..i] == keys[..i];
      if keys[i].Some? {
        es := es + [MakeItem(keys[i].value, 'K')];
      }
    }
    assert keys[..|keys|] == keys;
  }

  lemma {:induction false} KeyItemsAre(keys: seq<Option<string>>, x: string)
    ensures x in KeyItems(keys) <==> exists k :: k in KeySet(keys) && x == KeyItem(k)
  {
    if keys != [] {
      var n := |keys| - 1;
      KeyItemsAre(keys[..n], x);
      KeySetPush(keys, n);
      assert keys[..n + 1] == keys;
      hide KeySet, KeyItem;
    }
  }

  /** gin_consistent_hstore: `check` says which items the row has. */
  method GinConsistent(q: Query, check: seq<bool>) returns (res: bool, recheck: bool)
    ensures recheck <==> q.ContainsQ?
    ensures res <==> ((q.ContainsQ? || q.AllQ?) ==> forall i :: 0 <= i < |check| ==> check[i])
  {
    res, recheck := true, q.ContainsQ?;
    if q.ContainsQ? || q.AllQ? {
      for i := 0 to |check|
        invariant forall j :: 0 <= j < i ==> check[j]
      {
        if !check[i] {
          return false, recheck;
        }
      }
    }
  }

  /** A row is returned when the search visits it, which without the full mode
      takes at least one item in common, and the check accepts it. */
  ghost predicate GinReturns(hs: HStore, q: Query)
    requires WellFormed(hs) && GoodQuery(q)
  {
    var g, items := GinOf(q), Items(View(hs));
    (g.all || Shares(g.entries, items)) && (q.ContainsQ? || q.AllQ? ==> HasAll(g.entries, items))
  }

  ghost predicate Shares(es: seq<string>, items: seq<string>) {
    exists i :: 0 <= i < |es| && es[i] in items
  }

  ghost predicate HasAll(es: seq<string>, items: seq<string>) {
    forall i :: 0 <= i < |es| ==> es[i] in items
  }

  lemma {:induction false} AllShares(es: seq<string>, items: seq<string>)
    requires HasAll(es, items) && es != []
    ensures Shares(es, items)
  {
    assert es[0] in items;
  }

  /** GIN is exact for the three kinds of key search, which are not rechecked. */
  lemma {:induction false} GinExact(hs: HStore, q: Query)
    requires WellFormed(hs) && GoodQuery(q) && !q.ContainsQ?
    ensures GinReturns(hs, q) <==> Matches(hs, q)
  {
    var items := Items(View(hs));
    hide Items, View, MapOf, Shares, HasAll, KeySet, KeyItem, KeyItems;
    match q
    case ExistsQ(key) => OneKey(hs, key);
    case AnyQ(keys) => SomeKey(hs, keys);
    case AllQ(keys) =>
      AllKeys(hs, keys);
      if HasAll(KeyItems(keys), items) && KeyItems(keys) != [] {
        AllShares(KeyItems(keys), items);
      }
  }

  lemma {:induction false} OneKey(hs: HStore, key: string)
    requires WellFormed(hs)
    ensures Shares([KeyItem(key)], Items(View(hs))) <==> key in MapOf(hs)
  {
    KeyItemIn(hs, key);
    assert [KeyItem(key)][0] == KeyItem(key);
  }

  lemma {:induction false} SomeKey(hs: HStore, keys: seq<Option<string>>)
    requires WellFormed(hs)
    ensures Shares(KeyItems(keys), Items(View(hs))) <==> exists k :: k in KeySet(keys) && k in MapOf(hs)
  {
    var es, items := KeyItems(keys), Items(View(hs));
    hide MapOf, KeySet, KeyItem, Items, View, KeyItems;
    if i :| 0 <= i < |es| && es[i] in items {
      KeyItemsAre(keys, es[i]);
      var k :| k in KeySet(keys) && es[i] == KeyItem(k);
      KeyItemIn(hs, k);
    }
    if k :| k in KeySet(keys) && k in MapOf(hs) {
      KeyItemIn(hs, k);
      KeyItemsAre(keys, KeyItem(k));
    }
  }

  lemma {:induction false} AllKeys(hs: HStore, keys: seq<Option<string>>)
    requires WellFormed(hs)
    ensures HasAll(KeyItems(keys), Items(View(hs))) <==> forall k :: k in KeySet(keys) ==> k in MapOf(hs)
  {
    var es, items := KeyItems(keys), Items(View(hs));
    hide MapOf, KeySet, KeyItem, Items, View, KeyItems;
    if forall i :: 0 <= i < |es| ==> es[i] in items {
      forall k | k in KeySet(keys)
        ensures k in MapOf(hs)
      {
        KeyItemsAre(keys, KeyItem(k));
        KeyItemIn(hs, k);
      }
    }
    if forall k :: k in KeySet(keys) ==> k in MapOf(hs) {
      forall i | 0 <= i < |es|
        ensures es[i] in items
      {
        KeyItemsAre(keys, es[i]);
        var k :| k in KeySet(keys) && es[i] == KeyItem(k);
        KeyItemIn(hs, k);
      }
    }
  }

  /** GIN loses no row for contains, which is rechecked. */
  lemma {:induction false} GinLosesNothing(hs: HStore, q: Query)
    requires WellFormed(hs) && GoodQuery(q) && q.ContainsQ? && Matches(hs, q)
    ensures GinReturns(hs, q)
  {
    var es, items := Items(View(q.tmpl)), Items(View(hs));
    forall i | 0 <= i < |es|
      ensures es[i] in items
    {
      SharedItem(hs, q.tmpl, es[i]);
    }
    if es != [] {
      AllShares(es, items);
    }
    hide Matches, Items;
    assert GinOf(q) == GinQuery(es, es == []);
  }

  lemma {:induction false} SharedItem(hs: HStore, tmpl: HStore, x: string)
    requires WellFormed(hs) && WellFormed(tmpl) && Matches(hs, ContainsQ(tmpl)) && x in Items(View(tmpl))
    ensures x in Items(View(hs))
  {
    var ps, ts := View(hs), View(tmpl);
    var j := ItemFrom(ts, x);
    Lookup(tmpl, j);
    var k := ts[j].key;
    assert k in MapOf(hs) && MapOf(hs)[k] == ts[j].val;
    MapIs(hs);
    hide *;
    var i := KeyIndex(ps, k);
    ItemIn(ps, i);
  }

  /** Value items stand exactly for the values, the null included. */
  lemma {:induction false} ValItemIn(hs: HStore, v: Option<string>)
    requires WellFormed(hs)
    ensures ValItem(v) in Items(View(hs)) <==> exists k :: k in MapOf(hs) && MapOf(hs)[k] == v
  {
    var ps := View(hs);
    hide MapOf, View, Items;
    if ValItem(v) in Items(ps) {
      var i := ItemFrom(ps, ValItem(v));
      SameItem(v, ps[i]);
      Lookup(hs, i);
    }
    if k :| k in MapOf(hs) && MapOf(hs)[k] == v {
      MapIs(hs);
      var i := KeyIndex(ps, k);
      ItemIn(ps, i);
    }
  }

  lemma {:induction false} SameItem(v: Option<string>, p: Pair)
    requires ValItem(v) == KeyItem(p.key) || ValItem(v) == ValItem(p.val)
    ensures v == p.val
  {
    assert ValItem(v)[0] != 'K' && KeyItem(p.key)[0] == 'K';
    assert ValItem(v)[0] == ValItem(p.val)[0] && ValItem(v)[1..] == ValItem(p.val)[1..];
  }

  /** What GIN returns for contains before the recheck: rows that have every key of
      the template, and every value of it under some key. */
  lemma {:induction false} GinContains(hs: HStore, tmpl: HStore)
    requires WellFormed(hs) && WellFormed(tmpl)
    ensures GinReturns(hs, ContainsQ(tmpl)) <==>
            forall k :: k in MapOf(tmpl) ==>
              k in MapOf(hs) && exists j :: j in MapOf(hs) && MapOf(hs)[j] == MapOf(tmpl)[k]
  {
    var es, items := Items(View(tmpl)), Items(View(hs));
    if es != [] && HasAll(es, items) {
      AllShares(es, items);
    }
    hide Items, View, MapOf, Shares, ValItem, KeyItem;
    if HasAll(es, items) {
      forall k | k in MapOf(tmpl)
        ensures k in MapOf(hs) && exists j :: j in MapOf(hs) && MapOf(hs)[j] == MapOf(tmpl)[k]
      {
        KeyItemIn(tmpl, k);
        KeyItemIn(hs, k);
        ValItemIn(tmpl, MapOf(tmpl)[k]);
        ValItemIn(hs, MapOf(tmpl)[k]);
      }
    }
    if forall k :: k in MapOf(tmpl) ==>
         k in MapOf(hs) && exists j :: j in MapOf(hs) && MapOf(hs)[j] == MapOf(tmpl)[k] {
      forall x | x in es
        ensures x in items
      {
        TemplateItem(hs, tmpl, x);
      }
    }
  }

  lemma {:induction false} TemplateItem(hs: HStore, tmpl: HStore, x: string)
    requires WellFormed(hs) && WellFormed(tmpl) && x in Items(View(tmpl))
    requires forall k :: k in MapOf(tmpl) ==>
               k in MapOf(hs) && exists j :: j in MapOf(hs) && MapOf(hs)[j] == MapOf(tmpl)[k]
    ensures x in Items(View(hs))
  {
    hide Items, View, MapOf, ValItem, KeyItem;
    var i := ItemFrom(View(tmpl), x);
    var p := View(tmpl)[i];
    Lookup(tmpl, i);
    KeyItemIn(hs, p.key);
    ValItemIn(hs, p.val);
  }
}
