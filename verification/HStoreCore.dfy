/** The hstore value: key/value pairs ordered by key length and then by bytes,
    packed as an array of end-position words followed by the bytes of all keys
    and values. A byte is modelled as a character; memcmp compares codes. */
module HStoreCore {
  import opened Prelude

  // ----- key order -----

  /** memcmp on two blocks of the same length, as -1, 0 or 1. */
  function MemCmp(a: string, b: string): (r: int)
    requires |a| == |b|
    ensures r == -1 || r == 0 || r == 1
    ensures r == 0 <==> a == b
  {
    if a == [] then 0
    else if a[0] < b[0] then -1
    else if a[0] > b[0] then 1
    else
      assert a == [a[0]] + a[1..] && b == [b[0]] + b[1..];
      MemCmp(a[1..], b[1..])
  }

  /** The order of keys: shorter first, then by bytes. */
  function KeyCmp(a: string, b: string): (r: int)
    ensures r == 0 <==> a == b
  {
    if |a| == |b| then MemCmp(a, b) else if |a| > |b| then 1 else -1
  }

  predicate KeyLess(a: string, b: string) {
    KeyCmp(a, b) < 0
  }

  lemma {:induction false} MemCmpFlip(a: string, b: string)
    requires |a| == |b|
    ensures MemCmp(a, b) == -MemCmp(b, a)
  {
    if a != [] && a[0] == b[0] {
      MemCmpFlip(a[1..], b[1..]);
    }
  }

  lemma {:induction false} MemCmpTrans(a: string, b: string, c: string)
    requires |a| == |b| == |c| && MemCmp(a, b) <= 0 && MemCmp(b, c) <= 0
    ensures MemCmp(a, c) <= 0
    ensures MemCmp(a, b) < 0 || MemCmp(b, c) < 0 ==> MemCmp(a, c) < 0
  {
    if a != [] && a[0] == b[0] == c[0] {
      MemCmpTrans(a[1..], b[1..], c[1..]);
    }
  }

  lemma {:induction false} KeyCmpFlip(a: string, b: string)
    ensures (KeyCmp(a, b) < 0 <==> KeyCmp(b, a) > 0)
  {
    if |a| == |b| {
      MemCmpFlip(a, b);
    }
  }

  lemma {:induction false} KeyLessTrans(a: string, b: string, c: string)
    requires KeyLess(a, b) && KeyLess(b, c)
    ensures KeyLess(a, c)
  {
    if |a| == |b| == |c| {
      MemCmpTrans(a, b, c);
    }
  }

  /** The first difference of two strings. */
  lemma {:induction false} FirstDifference(a: string, b: string) returns (k: nat)
    ensures k <= |a| && k <= |b| && a[..k] == b[..k]
    ensures k < |a| && k < |b| ==> a[k] != b[k]
  {
    if a == [] || b == [] || a[0] != b[0] {
      k := 0;
    } else {
      var m := FirstDifference(a[1..], b[1..]);
      k := m + 1;
      assert a[..k] == [a[0]] + a[1..][..m] && b[..k] == [b[0]] + b[1..][..m];
    }
  }

  lemma {:induction false} MemCmpAt(a: string, b: string, k: nat)
    requires |a| == |b| && k < |a| && a[..k] == b[..k] && a[k] < b[k]
    ensures MemCmp(a, b) == -1 && MemCmp(b, a) == 1
  {
    if k > 0 {
      assert a[0] == a[..k][0] == b[..k][0] == b[0];
      assert a[1..][..k - 1] == a[..k][1..] && b[1..][..k - 1] == b[..k][1..];
      MemCmpAt(a[1..], b[1..], k - 1);
    }
  }

  /** Which key comes first: the shorter one, or of two equally long ones the one
      with the smaller byte where they first differ. */
  lemma {:induction false} KeyLessIs(a: string, b: string)
    ensures KeyLess(a, b) <==>
            || |a| < |b|
            || (|a| == |b| && exists k :: 0 <= k < |a| && a[..k] == b[..k] && a[k] < b[k])
  {
    if |a| == |b| {
      if exists k :: 0 <= k < |a| && a[..k] == b[..k] && a[k] < b[k] {
        var k :| 0 <= k < |a| && a[..k] == b[..k] && a[k] < b[k];
        MemCmpAt(a, b, k);
      } else if KeyLess(a, b) {
        var k := FirstDifference(a, b);
        if k < |a| {
          MemCmpAt(b, a, k);
        }
      }
    }
  }

  // ----- pairs -----

  datatype Pair = Pair(key: string, val: Option<string>)

  /** Keys strictly increasing: sorted and without duplicates. */
  ghost predicate Canonical(ps: seq<Pair>) {
    forall i, j :: 0 <= i < j < |ps| ==> KeyLess(ps[i].key, ps[j].key)
  }

  /** Every key of `ps` is less than `key`. */
  ghost predicate AllBelow(ps: seq<Pair>, key: string) {
    forall i :: 0 <= i < |ps| ==> KeyLess(ps[i].key, key)
  }

  /** The mapping a list of pairs denotes. */
  function ToMap(ps: seq<Pair>): map<string, Option<string>> {
    if ps == [] then map[]
    else ToMap(ps[..|ps| - 1])[ps[|ps| - 1].key := ps[|ps| - 1].val]
  }

  /** Every key in the mapping comes from some pair ... */
  lemma {:induction false} KeyIndex(ps: seq<Pair>, k: string) returns (i: nat)
    requires k in ToMap(ps)
    ensures i < |ps| && ps[i].key == k && ToMap(ps)[k] == ps[i].val
  {
    var n := |ps| - 1;
    if ps[n].key == k {
      i := n;
    } else {
      i := KeyIndex(ps[..n], k);
    }
  }

  /** ... and every pair's key is in the mapping. */
  lemma {:induction false} HasKey(ps: seq<Pair>, i: nat)
    requires i < |ps|
    ensures ps[i].key in ToMap(ps)
  {
    var n := |ps| - 1;
    if i < n {
      HasKey(ps[..n], i);
    }
  }

  lemma {:induction false} ToMapPush(ps: seq<Pair>, p: Pair)
    ensures ToMap(ps + [p]) == ToMap(ps)[p.key := p.val]
  {
    assert (ps + [p])[..|ps|] == ps;
  }

  lemma {:induction false} ToMapTake(ps: seq<Pair>, i: nat)
    requires i < |ps|
    ensures ToMap(ps[..i + 1]) == ToMap(ps[..i])[ps[i].key := ps[i].val]
  {
    assert ps[..i + 1] == ps[..i] + [ps[i]];
    ToMapPush(ps[..i], ps[i]);
  }

  lemma {:induction false} CanonicalPush(ps: seq<Pair>, p: Pair)
    requires Canonical(ps) && AllBelow(ps, p.key)
    ensures Canonical(ps + [p])
  {
  }

  /** Appending a key above all others. */
  lemma {:induction false} AllBelowNext(ps: seq<Pair>, p: Pair, key: string)
    requires AllBelow(ps, p.key) && KeyLess(p.key, key)
    ensures AllBelow(ps + [p], key)
  {
    forall i | 0 <= i < |ps|
      ensures KeyLess(ps[i].key, key)
    {
      KeyLessTrans(ps[i].key, p.key, key);
    }
  }

  lemma {:induction false} SameKey(ps: seq<Pair>, i: nat, j: nat)
    requires Canonical(ps) && i < |ps| && j < |ps| && ps[i].key == ps[j].key
    ensures i == j
  {
  }

  /** In a canonical list the mapping gives back each pair's value. */
  lemma {:induction false} CanonicalLookup(ps: seq<Pair>, i: nat)
    requires Canonical(ps) && i < |ps|
    ensures ps[i].key in ToMap(ps) && ToMap(ps)[ps[i].key] == ps[i].val
  {
    HasKey(ps, i);
    var j := KeyIndex(ps, ps[i].key);
    SameKey(ps, i, j);
  }

  /** A mapping has one canonical list, so what an operation does to the
      mapping, together with canonicity, determines its result. */
  lemma {:induction false} CanonicalUnique(ps: seq<Pair>, qs: seq<Pair>)
    requires Canonical(ps) && Canonical(qs) && ToMap(ps) == ToMap(qs)
    ensures ps == qs
    decreases |ps|
  {
    if ps == [] || qs == [] {
      NotEmpty(ps);
      NotEmpty(qs);
    } else {
      var n, m := |ps| - 1, |qs| - 1;
      LastKey(ps, qs);
      LastKey(qs, ps);
      KeyCmpFlip(ps[n].key, qs[m].key);
      CanonicalLookup(ps, n);
      CanonicalLookup(qs, m);
      DropLast(ps);
      DropLast(qs);
      hide Canonical, ToMap, KeyCmp;
      CanonicalUnique(ps[..n], qs[..m]);
      assert ps == ps[..n] + [ps[n]] && qs == qs[..m] + [qs[m]];
    }
  }

  lemma {:induction false} NotEmpty(ps: seq<Pair>)
    ensures ps != [] ==> ToMap(ps) != map[]
  {
    if ps != [] {
      HasKey(ps, 0);
    }
  }

  /** The largest key of one list occurs in the other. */
  lemma {:induction false} LastKey(ps: seq<Pair>, qs: seq<Pair>)
    requires Canonical(ps) && Canonical(qs) && ToMap(ps) == ToMap(qs) && ps != [] && qs != []
    ensures KeyCmp(ps[|ps| - 1].key, qs[|qs| - 1].key) <= 0
  {
    HasKey(ps, |ps| - 1);
    hide ToMap;
    var j := KeyIndex(qs, ps[|ps| - 1].key);
  }

  lemma {:induction false} DropLast(ps: seq<Pair>)
    requires Canonical(ps) && ps != []
    ensures Canonical(ps[..|ps| - 1])
    ensures ToMap(ps[..|ps| - 1]) == ToMap(ps) - {ps[|ps| - 1].key}
  {
    var n := |ps| - 1;
    var init := ps[..n];
    assert forall i :: 0 <= i < n ==> init[i] == ps[i];
    assert ps[n].key !in ToMap(init) by {
      if ps[n].key in ToMap(init) {
        var i := KeyIndex(init, ps[n].key);
        SameKey(ps, i, n);
      }
    }
    MapDrop(ToMap(init), ps[n].key, ps[n].val);
  }

  lemma {:induction false} MapDrop<K, V>(m: map<K, V>, k: K, v: V)
    requires k !in m
    ensures m[k := v] - {k} == m
  {
  }

  // ----- packed form -----

  type Word = w: int | 0 <= w < 0x1_0000_0000

  const ISFIRST := 0x8000_0000
  const ISNULL := 0x4000_0000
  /** End positions take the low 30 bits. */
  const POS_LIMIT := 0x4000_0000
  /** MaxAllocSize: the largest palloc request. */
  const MAX_ALLOC := 0x3fff_ffff
  const HEADER := 8

  predicate IsFirst(w: Word) {
    w >= ISFIRST
  }

  predicate IsNull(w: Word) {
    (w / ISNULL) % 2 == 1
  }

  function EndPos(w: Word): nat {
    w % POS_LIMIT
  }

  function MakeEntry(pos: nat, isnull: bool): (w: Word)
    ensures !IsFirst(w) && (IsNull(w) <==> isnull) && (pos < POS_LIMIT ==> EndPos(w) == pos)
  {
    pos % POS_LIMIT + if isnull then ISNULL else 0
  }

  function SetFirst(w: Word): (w': Word)
    ensures IsFirst(w') && IsNull(w') == IsNull(w) && EndPos(w') == EndPos(w)
  {
    if IsFirst(w) then w else w + ISFIRST
  }

  function ValBytes(v: Option<string>): string {
    match v
    case None => ""
    case Some(s) => s
  }

  /** All bytes of the pairs, keys and values in turn. */
  function Str(ps: seq<Pair>): string {
    if ps == [] then ""
    else
      var n := |ps| - 1;
      Str(ps[..n]) + (ps[n].key + ValBytes(ps[n].val))
  }

  /** The two words of a pair: the end of its key, and the end and null flag
      of its value. */
  datatype Entry = Entry(kw: Word, vw: Word)

  function EntryOf(ps: seq<Pair>, i: nat): Entry
    requires i < |ps|
  {
    Entry(MakeEntry(|Str(ps[..i])| + |ps[i].key|, false), MakeEntry(|Str(ps[..i + 1])|, ps[i].val.None?))
  }

  /** The entry array, before its first word is marked. */
  function Ends(ps: seq<Pair>): (es: seq<Entry>)
    ensures |es| == |ps|
    ensures forall i :: 0 <= i < |ps| ==> es[i] == EntryOf(ps, i)
  {
    seq(|ps|, i requires 0 <= i < |ps| => EntryOf(ps, i))
  }

  function MarkFirst(es: seq<Entry>): seq<Entry> {
    if es == [] then [] else es[0 := es[0].(kw := SetFirst(es[0].kw))]
  }

  /** An hstore datum: the new-format flag of its size word, the entry array,
      and the bytes up to the end of the varlena. */
  datatype HStore = HStore(newFormat: bool, ents: seq<Entry>, bytes: string)

  function CalcDataSize(count: nat, lenstr: nat): nat {
    count * 2 * 4 + HEADER + lenstr
  }

  function VarSize(hs: HStore): nat {
    CalcDataSize(|hs.ents|, |hs.bytes|)
  }

  /** The canonical datum of a list of pairs. */
  function Pack(ps: seq<Pair>): HStore {
    HStore(true, MarkFirst(Ends(ps)), Str(ps))
  }

  /** `hs` stores the canonical list `ps`. Unused bytes may follow: only hashing
      and comparison by size would see them. */
  ghost predicate Stores(hs: HStore, ps: seq<Pair>) {
    && Canonical(ps) && hs.newFormat && hs.ents == Pack(ps).ents && Str(ps) <= hs.bytes
    && VarSize(hs) <= MAX_ALLOC
  }

  ghost predicate WellFormed(hs: HStore) {
    exists ps :: Stores(hs, ps)
  }

  /** The pairs of a datum; by `ViewUnique` there is only one such list. */
  ghost function View(hs: HStore): (ps: seq<Pair>)
    requires WellFormed(hs)
    ensures Stores(hs, ps)
  {
    var ps :| Stores(hs, ps);
    ps
  }

  /** The key-to-value mapping a datum denotes. */
  ghost function MapOf(hs: HStore): map<string, Option<string>>
    requires WellFormed(hs)
  {
    ToMap(View(hs))
  }

  /** The size is exact: the datum is the packed form of its pairs. */
  ghost predicate Exact(hs: HStore)
    requires WellFormed(hs)
  {
    hs == Pack(View(hs))
  }

  /** The bytes and the entry that one more pair adds. */
  function PairBytes(p: Pair): string {
    p.key + ValBytes(p.val)
  }

  function LastEntry(ps: seq<Pair>, p: Pair): Entry {
    Entry(MakeEntry(|Str(ps)| + |p.key|, false), MakeEntry(|Str(ps)| + |PairBytes(p)|, p.val.None?))
  }

  lemma {:induction false} StrPush(ps: seq<Pair>, p: Pair)
    ensures Str(ps + [p]) == Str(ps) + PairBytes(p)
  {
    assert (ps + [p])[..|ps|] == ps;
  }

  lemma {:induction false} EndsPush(ps: seq<Pair>, p: Pair)
    ensures Ends(ps + [p]) == Ends(ps) + [LastEntry(ps, p)]
  {
    var qs, n := ps + [p], |ps|;
    assert qs[..n] == ps && qs[..n + 1] == qs;
    StrPush(ps, p);
    hide MakeEntry, Str, PairBytes;
    forall i | 0 <= i < n
      ensures EntryOf(qs, i) == EntryOf(ps, i)
    {
      assert qs[..i] == ps[..i] && qs[..i + 1] == ps[..i + 1];
    }
  }

  // ----- reading a datum -----

  /** HSE_OFF of a key */
  function KeyOff(es: seq<Entry>, i: nat): nat
    requires i < |es| && (i == 0 ==> IsFirst(es[i].kw))
  {
    if IsFirst(es[i].kw) then 0 else EndPos(es[i - 1].vw)
  }

  /** HSE_OFF of a value */
  function ValOff(es: seq<Entry>, i: nat): nat
    requires i < |es|
  {
    if IsFirst(es[i].vw) then 0 else EndPos(es[i].kw)
  }

  /** HSTORE_KEYLEN */
  function KeyLen(es: seq<Entry>, i: nat): int
    requires i < |es| && (i == 0 ==> IsFirst(es[i].kw))
  {
    if IsFirst(es[i].kw) then EndPos(es[i].kw) else EndPos(es[i].kw) - EndPos(es[i - 1].vw)
  }

  /** HSTORE_VALLEN */
  function ValLen(es: seq<Entry>, i: nat): int
    requires i < |es|
  {
    if IsFirst(es[i].vw) then EndPos(es[i].vw) else EndPos(es[i].vw) - EndPos(es[i].kw)
  }

  /** An entry can be read: only the first word is marked, positions never
      decrease and stay inside the bytes. */
  predicate GoodEntry(hs: HStore, i: nat)
    requires i < |hs.ents|
  {
    var e := hs.ents[i];
    && (IsFirst(e.kw) <==> i == 0) && !IsFirst(e.vw)
    && EndPos(e.kw) <= EndPos(e.vw) <= |hs.bytes|
    && (i > 0 ==> EndPos(hs.ents[i - 1].vw) <= EndPos(e.kw))
  }

  /** HSTORE_KEY, HSTORE_KEYLEN */
  function KeyAt(hs: HStore, i: nat): string
    requires i < |hs.ents| && GoodEntry(hs, i)
  {
    hs.bytes[KeyOff(hs.ents, i)..KeyOff(hs.ents, i) + KeyLen(hs.ents, i)]
  }

  /** HSTORE_VAL, HSTORE_VALLEN */
  function ValAt(hs: HStore, i: nat): string
    requires i < |hs.ents| && GoodEntry(hs, i)
  {
    hs.bytes[ValOff(hs.ents, i)..ValOff(hs.ents, i) + ValLen(hs.ents, i)]
  }

  /** HSTORE_VALISNULL */
  predicate ValIsNull(hs: HStore, i: nat)
    requires i < |hs.ents|
  {
    IsNull(hs.ents[i].vw)
  }

  lemma {:induction false} StrPrefix(ps: seq<Pair>, i: nat)
    requires i <= |ps|
    ensures Str(ps[..i]) <= Str(ps)
    decreases |ps|
  {
    if i < |ps| {
      var init := ps[..|ps| - 1];
      StrPrefix(init, i);
      assert init[..i] == ps[..i];
    } else {
      assert ps[..i] == ps;
    }
  }

  lemma {:induction false} PairBytesAre(p: Pair)
    ensures PairBytes(p) == p.key + ValBytes(p.val)
  {
  }

  /** Where pair `i` lies among the bytes ... */
  lemma {:induction false} BytesAt(ps: seq<Pair>, i: nat)
    requires i < |ps|
    ensures var lo, mid, hi := |Str(ps[..i])|, |Str(ps[..i])| + |ps[i].key|, |Str(ps[..i + 1])|;
            && mid + |ValBytes(ps[i].val)| == hi <= |Str(ps)|
            && Str(ps)[lo..mid] == ps[i].key && Str(ps)[mid..hi] == ValBytes(ps[i].val)
  {
    hide *;
    PairBytesAre(ps[i]);
    assert ps[..i + 1] == ps[..i] + [ps[i]];
    StrPush(ps[..i], ps[i]);
    StrPrefix(ps, i + 1);
    Slices(Str(ps[..i]), ps[i].key, ValBytes(ps[i].val), Str(ps));
  }

  lemma {:induction false} Slices(a: string, k: string, v: string, s: string)
    requires a + (k + v) <= s
    ensures |a| + |k| + |v| <= |s| && s[|a|..|a| + |k|] == k && s[|a| + |k|..|a| + |k| + |v|] == v
  {
    assert s == (a + (k + v)) + s[|a| + |k| + |v|..];
  }

  /** ... and what its entry says. */
  lemma {:induction false} EntryAt(ps: seq<Pair>, i: nat)
    requires i < |ps| && |Str(ps)| < POS_LIMIT
    ensures var e := Pack(ps).ents[i];
            && EndPos(e.kw) == |Str(ps[..i])| + |ps[i].key| && EndPos(e.vw) == |Str(ps[..i + 1])|
            && (IsNull(e.vw) <==> ps[i].val.None?) && (IsFirst(e.kw) <==> i == 0) && !IsFirst(e.vw)
  {
    BytesAt(ps, i);
    hide Str, IsFirst, IsNull, EndPos, MakeEntry, SetFirst;
    assert Ends(ps)[i] == EntryOf(ps, i);
  }

  /** Reading back: every key, value and null of the list is found through the
      end positions. */
  lemma {:induction false} ReadBack(ps: seq<Pair>, i: nat)
    requires i < |ps| && |Str(ps)| < POS_LIMIT
    ensures GoodEntry(Pack(ps), i)
    ensures KeyAt(Pack(ps), i) == ps[i].key
    ensures ValIsNull(Pack(ps), i) <==> ps[i].val.None?
    ensures ValAt(Pack(ps), i) == ValBytes(ps[i].val)
  {
    EntryAt(ps, i);
    BytesAt(ps, i);
    if i > 0 {
      EntryAt(ps, i - 1);
    }
    assert Str(ps[..0]) == "";
    hide Str, Ends, IsFirst, IsNull, MarkFirst, ValBytes, EndPos, GoodEntry;
    ReadAt(Pack(ps), i, |Str(ps[..i])|, |Str(ps[..i])| + |ps[i].key|, |Str(ps[..i + 1])|);
  }

  /** Reading one entry whose end positions are known. */
  lemma {:induction false} ReadAt(hs: HStore, i: nat, lo: nat, mid: nat, hi: nat)
    requires i < |hs.ents| && lo <= mid <= hi <= |hs.bytes|
    requires (IsFirst(hs.ents[i].kw) <==> i == 0) && !IsFirst(hs.ents[i].vw)
    requires EndPos(hs.ents[i].kw) == mid && EndPos(hs.ents[i].vw) == hi
    requires lo == if i == 0 then 0 else EndPos(hs.ents[i - 1].vw)
    ensures GoodEntry(hs, i) && KeyAt(hs, i) == hs.bytes[lo..mid] && ValAt(hs, i) == hs.bytes[mid..hi]
  {
    hide EndPos;
  }

  /** Reading a stored datum gives the stored pairs. */
  lemma {:induction false} ReadStored(hs: HStore, ps: seq<Pair>, i: nat)
    requires Stores(hs, ps) && i < |ps|
    ensures |hs.ents| == |ps| && GoodEntry(hs, i)
    ensures KeyAt(hs, i) == ps[i].key
    ensures ValIsNull(hs, i) <==> ps[i].val.None?
    ensures ValAt(hs, i) == ValBytes(ps[i].val)
  {
    StoredSize(hs, ps);
    ReadBack(ps, i);
    var exact := Pack(ps);
    assert exact.bytes == Str(ps);
    hide *;
    SameRead(hs, exact, i);
    assert ValIsNull(hs, i) == ValIsNull(exact, i) by { ValIsNullSame(hs, exact, i); }
  }

  lemma {:induction false} StoredSize(hs: HStore, ps: seq<Pair>)
    requires Stores(hs, ps)
    ensures |hs.ents| == |ps| && |Str(ps)| <= |hs.bytes| < POS_LIMIT && |Pack(ps).ents| == |ps|
  {
    hide Str;
  }

  lemma {:induction false} ValIsNullSame(hs: HStore, ex: HStore, i: nat)
    requires hs.ents == ex.ents && i < |hs.ents|
    ensures ValIsNull(hs, i) == ValIsNull(ex, i)
  {
  }

  /** Bytes past the end do not matter. */
  lemma {:induction false} SameRead(hs: HStore, ex: HStore, i: nat)
    requires hs.ents == ex.ents && ex.bytes <= hs.bytes && i < |hs.ents| && GoodEntry(ex, i)
    ensures GoodEntry(hs, i) && KeyAt(hs, i) == KeyAt(ex, i) && ValAt(hs, i) == ValAt(ex, i)
  {
    hide EndPos, IsFirst, IsNull;
    assert hs.bytes == ex.bytes + hs.bytes[|ex.bytes|..];
  }

  /** The last end position is the number of bytes in use. */
  lemma {:induction false} LastEnd(hs: HStore, ps: seq<Pair>)
    requires Stores(hs, ps)
    ensures ps == [] ==> Str(ps) == ""
    ensures |hs.ents| == |ps| && (ps != [] ==> EndPos(hs.ents[|ps| - 1].vw) == |Str(ps)|)
    ensures Str(ps) <= hs.bytes
  {
    StoredSize(hs, ps);
    if ps != [] {
      EntryAt(ps, |ps| - 1);
      assert ps[..|ps|] == ps;
    }
  }

  lemma {:induction false} ViewUnique(hs: HStore, ps: seq<Pair>, qs: seq<Pair>)
    requires Stores(hs, ps) && Stores(hs, qs)
    ensures ps == qs
  {
    StoredSize(hs, ps);
    StoredSize(hs, qs);
    hide *;
    forall i | 0 <= i < |ps|
      ensures ps[i] == qs[i]
    {
      ReadStored(hs, ps, i);
      ReadStored(hs, qs, i);
      SamePair(ps[i], qs[i]);
    }
  }

  lemma {:induction false} SamePair(p: Pair, q: Pair)
    requires p.key == q.key && (p.val.None? <==> q.val.None?) && ValBytes(p.val) == ValBytes(q.val)
    ensures p == q
  {
  }

  /** What packing a canonical list gives. */
  lemma {:induction false} PackStores(ps: seq<Pair>)
    requires Canonical(ps) && VarSize(Pack(ps)) <= MAX_ALLOC
    ensures WellFormed(Pack(ps)) && View(Pack(ps)) == ps && MapOf(Pack(ps)) == ToMap(ps) && Exact(Pack(ps))
  {
    assert Stores(Pack(ps), ps);
    hide *;
    ViewUnique(Pack(ps), ps, View(Pack(ps)));
  }
}
