/** The GiST signature tree of hstore: signatures are bit sets that cover the
    hashes of all keys and values below them. */
module HStoreGist {
  import opened Prelude
  import opened HStoreCore
  import opened HStoreSearch
  import opened HStoreIndex
  import opened Sorting

  const SIGLENBIT := 128

  type Bits = s: seq<bool> | |s| == 128 witness seq(128, _ => false)

  /** A stored key: the mark for all bits set, or the bits. */
  datatype Key = AllTrue | Sign(bits: Bits)

  predicate GetBit(k: Key, b: nat)
    requires b < SIGLENBIT
  {
    k.AllTrue? || k.bits[b]
  }

  /** The checksum is a library function; it is a parameter here. */
  type Crc = string -> nat

  function HashVal(crc: Crc, s: string): (b: nat)
    ensures b < SIGLENBIT
  {
    crc(s) % SIGLENBIT
  }

  /** The bit is the remainder of the checksum. */
  lemma {:induction false} HashRemainder(crc: Crc, s: string)
    ensures (crc(s) - HashVal(crc, s)) % SIGLENBIT == 0
  {
    var q := crc(s) / SIGLENBIT;
    assert crc(s) - HashVal(crc, s) == SIGLENBIT * q;
    assert (SIGLENBIT * q) % SIGLENBIT == 0;
  }

  /** The bits the keys and non-null values of a list of pairs ask for. */
  ghost predicate Asks(crc: Crc, ps: seq<Pair>, b: nat) {
    exists i :: 0 <= i < |ps| && AskedBy(crc, ps[i], b)
  }

  predicate AskedBy(crc: Crc, p: Pair, b: nat) {
    b == HashVal(crc, p.key) || (p.val.Some? && b == HashVal(crc, p.val.value))
  }

  /** Every bit of `inner` is in `outer`. */
  ghost predicate Covers(outer: Key, inner: Key) {
    forall b :: 0 <= b < SIGLENBIT && GetBit(inner, b) ==> GetBit(outer, b)
  }

  lemma {:induction false} CoversTrans(a: Key, b: Key, c: Key)
    requires Covers(a, b) && Covers(b, c)
    ensures Covers(a, c)
  {
  }

  ghost predicate CoversRow(crc: Crc, key: Key, hs: HStore)
    requires WellFormed(hs)
  {
    forall b :: 0 <= b < SIGLENBIT && Asks(crc, View(hs), b) ==> GetBit(key, b)
  }

  // ----- compress and union -----

  /** ghstore_compress of a leaf value: exactly the bits asked for. */
  method Compress(crc: Crc, hs: HStore) returns (key: Key)
    requires WellFormed(hs)
    ensures key.Sign? && forall b :: 0 <= b < SIGLENBIT ==> (key.bits[b] <==> Asks(crc, View(hs), b))
  {
    ghost var ps := View(hs);
    StoredSize(hs, ps);
    var sign := new bool[SIGLENBIT](_ => false);
    assert ps[..0] == [] && forall b :: 0 <= b < SIGLENBIT ==> !Asks(crc, [], b);
    hide *;
    for i := 0 to |hs.ents|
      invariant forall b :: 0 <= b < SIGLENBIT ==> (sign[b] <==> Asks(crc, ps[..i], b))
    {
      AsksTake(crc, ps, i);
      SetBits(crc, hs, i, sign, ps);
    }
    assert ps[..|ps|] == ps;
    key := Sign(sign[..]);
  }

  lemma {:induction false} AsksTake(crc: Crc, ps: seq<Pair>, i: nat)
    requires i < |ps|
    ensures forall b :: 0 <= b < SIGLENBIT ==>
      (Asks(crc, ps[..i + 1], b) <==> Asks(crc, ps[..i], b) || AskedBy(crc, ps[i], b))
  {
    var s, t := ps[..i], ps[..i + 1];
    forall b | 0 <= b < SIGLENBIT
      ensures Asks(crc, t, b) <==> Asks(crc, s, b) || AskedBy(crc, ps[i], b)
    {
      if Asks(crc, s, b) {
        var j :| 0 <= j < |s| && AskedBy(crc, s[j], b);
        assert t[j] == s[j];
      }
      if AskedBy(crc, ps[i], b) {
        assert t[i] == ps[i];
      }
      if Asks(crc, t, b) {
        var j :| 0 <= j < |t| && AskedBy(crc, t[j], b);
        assert j < i ==> s[j] == t[j];
      }
    }
  }

  /** One turn of ghstore_compress. */
  method SetBits(crc: Crc, hs: HStore, i: nat, sign: array<bool>, ghost ps: seq<Pair>)
    requires Stores(hs, ps) && i < |ps| && sign.Length == SIGLENBIT
    modifies sign
    ensures forall b :: 0 <= b < SIGLENBIT ==> (sign[b] <==> old(sign[b]) || AskedBy(crc, ps[i], b))
  {
    ReadStored(hs, ps, i);
    hide Stores, HashVal, KeyAt, ValAt, GoodEntry, ValIsNull;
    sign[HashVal(crc, KeyAt(hs, i))] := true;
    if !ValIsNull(hs, i) {
      sign[HashVal(crc, ValAt(hs, i))] := true;
    }
  }

  /** ghstore_compress of an internal key: all ones become the mark. */
  method CompressKey(key: Key) returns (r: Key)
    ensures forall b :: 0 <= b < SIGLENBIT ==> (GetBit(r, b) <==> GetBit(key, b))
    ensures r.AllTrue? <==> forall b :: 0 <= b < SIGLENBIT ==> GetBit(key, b)
  {
    if key.AllTrue? {
      return key;
    }
    for i := 0 to SIGLENBIT
      invariant forall b :: 0 <= b < i ==> GetBit(key, b)
    {
      if !key.bits[i] {
        assert !GetBit(key, i);
        return key;
      }
    }
    return AllTrue;
  }

  /** unionkey: ors a key into the base; true when the key has every bit. */
  method UnionKey(base: array<bool>, add: Key) returns (all: bool)
    requires base.Length == SIGLENBIT
    modifies base
    ensures all == add.AllTrue?
    ensures all ==> base[..] == old(base[..])
    ensures !all ==> forall b :: 0 <= b < SIGLENBIT ==> (base[b] <==> old(base[b]) || GetBit(add, b))
  {
    if add.AllTrue? {
      return true;
    }
    forall b | 0 <= b < SIGLENBIT {
      base[b] := base[b] || add.bits[b];
    }
    return false;
  }

  /** ghstore_union */
  method Union(keys: seq<Key>) returns (r: Key)
    ensures forall b :: 0 <= b < SIGLENBIT ==> (GetBit(r, b) <==> exists i :: 0 <= i < |keys| && GetBit(keys[i], b))
    ensures forall i :: 0 <= i < |keys| ==> Covers(r, keys[i])
  {
    var base := new bool[SIGLENBIT](_ => false);
    for i := 0 to |keys|
      invariant forall b :: 0 <= b < SIGLENBIT ==> (base[b] <==> exists j :: 0 <= j < i && GetBit(keys[j], b))
    {
      var all := UnionKey(base, keys[i]);
      if all {
        assert forall b :: 0 <= b < SIGLENBIT ==> GetBit(keys[i], b);
        return AllTrue;
      }
    }
    r := Sign(base[..]);
  }

  // ----- picksplit -----

  function CountBits(s: seq<bool>): nat {
    if s == [] then 0 else CountBits(s[1..]) + if s[0] then 1 else 0
  }

  function Differing(a: seq<bool>, b: seq<bool>): nat
    requires |a| == |b|
  {
    if a == [] then 0 else Differing(a[1..], b[1..]) + if a[0] != b[0] then 1 else 0
  }

  /** hemdist */
  function HemDist(a: Key, b: Key): int {
    if a.AllTrue? then if b.AllTrue? then 0 else SIGLENBIT - CountBits(b.bits)
    else if b.AllTrue? then SIGLENBIT - CountBits(a.bits)
    else Differing(a.bits, b.bits)
  }

  /** sizebitvec */
  method SizeBitVec(sign: seq<bool>) returns (size: int)
    ensures size == CountBits(sign)
  {
    size := 0;
    for i := 0 to |sign|
      invariant size + CountBits(sign[i..]) == CountBits(sign)
    {
      assert sign[i..][1..] == sign[i + 1..];
      if sign[i] {
        size := size + 1;
      }
    }
  }

  /** hemdistsign */
  method HemDistSign(a: seq<bool>, b: seq<bool>) returns (dist: int)
    requires |a| == |b|
    ensures dist == Differing(a, b)
  {
    dist := 0;
    for i := 0 to |a|
      invariant dist + Differing(a[i..], b[i..]) == Differing(a, b)
    {
      assert a[i..][1..] == a[i + 1..] && b[i..][1..] == b[i + 1..];
      if a[i] != b[i] {
        dist := dist + 1;
      }
    }
  }

  /** hemdist: the number of bits in which two keys differ. */
  method Distance(a: Key, b: Key) returns (d: int)
    ensures d == HemDist(a, b) == Differing(Expand(a), Expand(b))
  {
    HemDistCounts(a, b);
    if a.AllTrue? {
      if b.AllTrue? {
        return 0;
      }
      d := SizeBitVec(b.bits);
      return SIGLENBIT - d;
    } else if b.AllTrue? {
      d := SizeBitVec(a.bits);
      return SIGLENBIT - d;
    }
    d := HemDistSign(a.bits, b.bits);
  }

  /** The bits a key stands for. */
  function Expand(k: Key): (s: Bits)
    ensures forall b :: 0 <= b < SIGLENBIT ==> (s[b] <==> GetBit(k, b))
  {
    if k.AllTrue? then seq(SIGLENBIT, _ => true) else k.bits
  }

  /** hemdist is the number of bits in which two keys differ, the mark read as
      all ones. */
  lemma {:induction false} HemDistCounts(a: Key, b: Key)
    ensures HemDist(a, b) == Differing(Expand(a), Expand(b))
  {
    if a.AllTrue? && b.AllTrue? {
      NoDifference(Expand(a));
    } else if a.AllTrue? {
      Zeros(Expand(a), b.bits);
    } else if b.AllTrue? {
      Zeros(Expand(b), a.bits);
      DifferingFlip(Expand(b), a.bits);
    }
  }

  lemma {:induction false} NoDifference(s: seq<bool>)
    ensures Differing(s, s) == 0
  {
    if s != [] {
      NoDifference(s[1..]);
    }
  }

  lemma {:induction false} Zeros(ones: seq<bool>, s: seq<bool>)
    requires |ones| == |s| && forall i :: 0 <= i < |ones| ==> ones[i]
    ensures Differing(ones, s) == |s| - CountBits(s)
  {
    if s != [] {
      Zeros(ones[1..], s[1..]);
    }
  }

  lemma {:induction false} DifferingFlip(a: seq<bool>, b: seq<bool>)
    requires |a| == |b|
    ensures Differing(a, b) == Differing(b, a)
  {
    if a != [] {
      DifferingFlip(a[1..], b[1..]);
    }
  }

  /** The distance of the entries at two offsets, which start at 1. */
  function Dist(keys: seq<Key>, k: nat, j: nat): int
    requires 1 <= k <= |keys| && 1 <= j <= |keys|
  {
    HemDist(keys[k - 1], keys[j - 1])
  }

  predicate Earlier(i: nat, j: nat, s1: nat, s2: nat) {
    i < s1 || (i == s1 && j < s2)
  }

  /** The pair `s1`, `s2` is at distance `waste`; no pair with a first offset below
      `k` and a second up to `m` is further apart, and no earlier one as far. */
  ghost predicate Farthest(keys: seq<Key>, k: nat, m: nat, s1: nat, s2: nat, waste: int) {
    m <= |keys| && forall i, j :: 1 <= i < k && i < j <= m ==> Beaten(keys, i, j, s1, s2, waste)
  }

  predicate Beaten(keys: seq<Key>, i: nat, j: nat, s1: nat, s2: nat, waste: int)
    requires 1 <= i <= |keys| && 1 <= j <= |keys|
  {
    Dist(keys, i, j) <= waste && (Earlier(i, j, s1, s2) ==> Dist(keys, i, j) < waste)
  }

  ghost predicate SeedsAre(keys: seq<Key>, m: nat, waste: int, s1: nat, s2: nat) {
    m <= |keys| && if waste == -1 then s1 == 0 else 1 <= s1 < s2 <= m && waste == Dist(keys, s1, s2)
  }

  /** The seeds: the first pair at the greatest distance among all entries but
      the last, or the first two when there is no such pair. */
  ghost predicate SeedPair(keys: seq<Key>, s1: nat, s2: nat) {
    && 1 <= s1 < s2 <= |keys| && (|keys| == 2 ==> s1 == 1 && s2 == 2)
    && (|keys| > 2 ==> s2 < |keys| && Farthest(keys, |keys| - 1, |keys| - 1, s1, s2, Dist(keys, s1, s2)))
  }

  method Seeds(keys: seq<Key>) returns (s1: nat, s2: nat)
    requires |keys| >= 2
    ensures SeedPair(keys, s1, s2)
  {
    var maxoff, waste := |keys| - 1, -1;
    s1, s2 := 0, 0;
    hide Dist, Beaten;
    for k := 1 to maxoff
      invariant SeedsAre(keys, maxoff, waste, s1, s2) && Farthest(keys, k, maxoff, s1, s2, waste)
      invariant (k > 1 ==> waste != -1) && s1 < k
    {
      s1, s2, waste := SeedRow(keys, maxoff, k, s1, s2, waste);
    }
    if s1 == 0 || s2 == 0 {
      s1, s2 := 1, 2;
    }
  }

  method SeedRow(keys: seq<Key>, maxoff: nat, k: nat, s1: nat, s2: nat, waste: int)
    returns (t1: nat, t2: nat, w: int)
    requires 1 <= k < maxoff < |keys| && SeedsAre(keys, maxoff, waste, s1, s2)
    requires Farthest(keys, k, maxoff, s1, s2, waste) && s1 < k
    ensures w != -1 && SeedsAre(keys, maxoff, w, t1, t2) && Farthest(keys, k + 1, maxoff, t1, t2, w) && t1 <= k
  {
    t1, t2, w := s1, s2, waste;
    hide Dist;
    for j := k + 1 to maxoff + 1
      invariant SeedsAre(keys, maxoff, w, t1, t2) && (j > k + 1 ==> w != -1) && t1 <= k && (t1 == k ==> t2 < j)
      invariant Farthest(keys, k, maxoff, t1, t2, w)
      invariant forall l :: k < l < j ==> Beaten(keys, k, l, t1, t2, w)
    {
      NotNegative(keys, k, j);
      var sizeWaste := Distance(keys[k - 1], keys[j - 1]);
      if sizeWaste > w {
        Outdone(keys, k, j, maxoff, t1, t2, w, sizeWaste);
        w, t1, t2 := sizeWaste, k, j;
      }
    }
  }

  /** A pair that is further apart than all before it. */
  lemma {:induction false} Outdone(keys: seq<Key>, k: nat, j: nat, m: nat, s1: nat, s2: nat, waste: int, w: int)
    requires 1 <= k < j <= m <= |keys| && Farthest(keys, k, m, s1, s2, waste) && waste < w
    requires forall l :: k < l < j ==> Beaten(keys, k, l, s1, s2, waste)
    ensures Farthest(keys, k, m, k, j, w) && forall l :: k < l < j ==> Beaten(keys, k, l, k, j, w)
  {
    hide Dist;
    forall i, l | 1 <= i < k && i < l <= m
      ensures Beaten(keys, i, l, k, j, w)
    {
      assert Beaten(keys, i, l, s1, s2, waste);
    }
    forall l | k < l < j
      ensures Beaten(keys, k, l, k, j, w)
    {
      assert Beaten(keys, k, l, s1, s2, waste);
    }
  }

  lemma {:induction false} NotNegative(keys: seq<Key>, k: nat, j: nat)
    requires 1 <= k <= |keys| && 1 <= j <= |keys|
    ensures Dist(keys, k, j) == HemDist(keys[k - 1], keys[j - 1]) >= 0
  {
    DistNotNegative(keys[k - 1], keys[j - 1]);
  }

  lemma {:induction false} DistNotNegative(a: Key, b: Key)
    ensures HemDist(a, b) >= 0
  {
    HemDistCounts(a, b);
  }

  datatype SplitCost = SplitCost(pos: nat, cost: int)

  /** The offsets of a list of costs. */
  function Positions(costs: seq<SplitCost>): (r: seq<nat>)
    ensures |r| == |costs| && forall i :: 0 <= i < |costs| ==> r[i] == costs[i].pos
  {
    seq(|costs|, i requires 0 <= i < |costs| => costs[i].pos)
  }

  /** comparecost */
  predicate CostLe(a: SplitCost, b: SplitCost) {
    a.cost - b.cost <= 0
  }

  /** Rearranging costs rearranges their offsets. */
  lemma {:induction false} PositionsOf(s: seq<SplitCost>, t: seq<SplitCost>)
    requires multiset(s) == multiset(t)
    ensures multiset(Positions(s)) == multiset(Positions(t))
    decreases |s|
  {
    SameElements(s, t);
    hide Positions;
    if s != [] {
      assert s[0] in t;
      var k :| 0 <= k < |t| && t[k] == s[0];
      var u := t[..k] + t[k + 1..];
      Removed(t, k);
      Removed(s, 0);
      assert s[..0] + s[1..] == s[1..];
      Cancel(multiset(s[1..]), multiset(u), s[0]);
      PositionsOf(s[1..], u);
    }
  }

  lemma {:induction false} Cancel<T>(a: multiset<T>, b: multiset<T>, x: T)
    requires a + multiset{x} == b + multiset{x}
    ensures a == b
  {
    assert a == (a + multiset{x}) - multiset{x} && b == (b + multiset{x}) - multiset{x};
  }

  lemma {:induction false} Removed(t: seq<SplitCost>, k: nat)
    requires k < |t|
    ensures multiset(t) == multiset(t[..k] + t[k + 1..]) + multiset{t[k]}
    ensures multiset(Positions(t)) == multiset(Positions(t[..k] + t[k + 1..])) + multiset{t[k].pos}
  {
    var ps := Positions(t);
    assert t == t[..k] + [t[k]] + t[k + 1..];
    assert ps == ps[..k] + [ps[k]] + ps[k + 1..];
    assert Positions(t[..k] + t[k + 1..]) == ps[..k] + ps[k + 1..];
  }

  datatype Split = Split(left: seq<nat>, right: seq<nat>, ldatum: Key, rdatum: Key)

  /** A side of the split so far: its offsets and the union of their keys. */
  ghost predicate SideIs(keys: seq<Key>, at: seq<nat>, key: Key) {
    && (forall i :: 0 <= i < |at| ==> 1 <= at[i] <= |keys|)
    && forall i :: 0 <= i < |at| ==> Covers(key, keys[at[i] - 1])
  }

  /** A side's key with the bits of one more entry; only a side that starts with
      the mark carries it. */
  function Widened(datum: Key, add: Key): (r: Key)
    ensures Covers(r, datum) && Covers(r, add)
    ensures forall b :: 0 <= b < SIGLENBIT ==> (GetBit(r, b) <==> GetBit(datum, b) || GetBit(add, b))
  {
    if datum.AllTrue? then AllTrue
    else Sign(seq(SIGLENBIT, b requires 0 <= b < SIGLENBIT => datum.bits[b] || GetBit(add, b)))
  }

  /** Adding an entry to a side, as both branches of ghstore_picksplit do. */
  method AddTo(datum: Key, sign: array<bool>, add: Key) returns (r: Key)
    requires sign.Length == SIGLENBIT && (datum.Sign? ==> datum.bits == sign[..])
    modifies sign
    ensures r == Widened(datum, add) && (r.Sign? ==> r.bits == sign[..])
  {
    if datum.AllTrue? || add.AllTrue? {
      if !datum.AllTrue? {
        forall b | 0 <= b < SIGLENBIT {
          sign[b] := true;
        }
      }
    } else {
      forall b | 0 <= b < SIGLENBIT {
        sign[b] := sign[b] || add.bits[b];
      }
    }
    r := if datum.AllTrue? then AllTrue else Sign(sign[..]);
  }

  /** The wish to keep both sides of equal size. */
  function Wish(nleft: nat, nright: nat): real {
    var d := nleft as real - nright as real;
    -(d * d * d) * 0.0001
  }

  ghost predicate InSome(keys: seq<Key>, at: seq<nat>, b: nat)
    requires b < SIGLENBIT
  {
    exists i :: 0 <= i < |at| && 1 <= at[i] <= |keys| && GetBit(keys[at[i] - 1], b)
  }

  /** A bit of the key comes from the seed or from an entry of the side. */
  ghost predicate NoExtra(keys: seq<Key>, at: seq<nat>, key: Key, seed: nat)
    requires 1 <= seed <= |keys|
  {
    forall b :: 0 <= b < SIGLENBIT && GetBit(key, b) ==> GetBit(keys[seed - 1], b) || InSome(keys, at, b)
  }

  /** A side's key has exactly the bits of its entries. */
  ghost predicate UnionOf(keys: seq<Key>, at: seq<nat>, key: Key) {
    forall b :: 0 <= b < SIGLENBIT ==> (GetBit(key, b) <==> InSome(keys, at, b))
  }

  lemma {:induction false} InSomeMore(keys: seq<Key>, at: seq<nat>, j: nat, b: nat)
    requires b < SIGLENBIT
    ensures InSome(keys, at, b) ==> InSome(keys, at + [j], b)
    ensures 1 <= j <= |keys| && GetBit(keys[j - 1], b) ==> InSome(keys, at + [j], b)
  {
    hide GetBit;
    var more := at + [j];
    assert more[|at|] == j;
    if InSome(keys, at, b) {
      var i :| 0 <= i < |at| && 1 <= at[i] <= |keys| && GetBit(keys[at[i] - 1], b);
      assert more[i] == at[i];
    }
  }

  lemma {:induction false} NoExtraPush(keys: seq<Key>, at: seq<nat>, key: Key, seed: nat, j: nat, key': Key)
    requires 1 <= seed <= |keys| && NoExtra(keys, at, key, seed) && 1 <= j <= |keys|
    requires forall b :: 0 <= b < SIGLENBIT && GetBit(key', b) ==> GetBit(key, b) || GetBit(keys[j - 1], b)
    ensures NoExtra(keys, at + [j], key', seed)
  {
    hide GetBit, InSome;
    forall b | 0 <= b < SIGLENBIT && GetBit(key', b)
      ensures GetBit(keys[seed - 1], b) || InSome(keys, at + [j], b)
    {
      InSomeMore(keys, at, j, b);
    }
  }

  /** Once the seed is among the entries, nothing else is in the key. */
  lemma {:induction false} SideUnion(keys: seq<Key>, at: seq<nat>, key: Key, seed: nat)
    requires 1 <= seed <= |keys| && NoExtra(keys, at, key, seed) && SideIs(keys, at, key) && seed in at
    ensures UnionOf(keys, at, key)
  {
    var k :| 0 <= k < |at| && at[k] == seed;
    hide GetBit;
    forall b | 0 <= b < SIGLENBIT
      ensures GetBit(key, b) <==> InSome(keys, at, b)
    {
      if InSome(keys, at, b) {
        var i :| 0 <= i < |at| && 1 <= at[i] <= |keys| && GetBit(keys[at[i] - 1], b);
        assert Covers(key, keys[at[i] - 1]);
      }
    }
  }

  lemma {:induction false} SidePush(keys: seq<Key>, at: seq<nat>, key: Key, j: nat, key': Key)
    requires SideIs(keys, at, key) && 1 <= j <= |keys| && Covers(key', key) && Covers(key', keys[j - 1])
    ensures SideIs(keys, at + [j], key')
  {
    forall i | 0 <= i < |at|
      ensures Covers(key', keys[at[i] - 1])
    {
      CoversTrans(key', key, keys[at[i] - 1]);
    }
  }

  /** How much closer an entry is to one seed than to the other. */
  function CostOf(keys: seq<Key>, l: Key, r: Key, i: nat): SplitCost
    requires i < |keys|
  {
    var d := HemDist(l, keys[i]) - HemDist(r, keys[i]);
    SplitCost(i + 1, if d < 0 then -d else d)
  }

  /** The cost is the difference of the numbers of bits in which the entry differs
      from the two seeds. */
  lemma {:induction false} CostMeans(keys: seq<Key>, l: Key, r: Key, i: nat)
    requires i < |keys|
    ensures var a, b := Differing(Expand(l), Expand(keys[i])), Differing(Expand(r), Expand(keys[i]));
            CostOf(keys, l, r, i) == SplitCost(i + 1, if a < b then b - a else a - b)
  {
    HemDistCounts(l, keys[i]);
    HemDistCounts(r, keys[i]);
    hide HemDist, Differing, Expand;
  }

  method CostVector(keys: seq<Key>, l: Key, r: Key) returns (costs: seq<SplitCost>)
    ensures |costs| == |keys| && forall i :: 0 <= i < |keys| ==> costs[i] == CostOf(keys, l, r, i)
  {
    costs := [];
    hide HemDist, Differing;
    for j := 1 to |keys| + 1
      invariant |costs| == j - 1 && forall i :: 0 <= i < j - 1 ==> costs[i] == CostOf(keys, l, r, i)
    {
      var alpha := Distance(l, keys[j - 1]);
      var beta := Distance(r, keys[j - 1]);
      var d := alpha - beta;
      costs := costs + [SplitCost(j, if d < 0 then -d else d)];
    }
  }

  /** The split after one more entry: a seed goes to its own side, another entry
      to the side whose key is closer, with a wish for sides of equal size. */
  function DealTo(keys: seq<Key>, seed1: nat, seed2: nat, v: Split, j: nat): Split {
    if j == seed1 then v.(left := v.left + [j])
    else if j == seed2 then v.(right := v.right + [j])
    else
      var e := if 1 <= j <= |keys| then keys[j - 1] else AllTrue;
      if HemDist(v.ldatum, e) as real < HemDist(v.rdatum, e) as real + Wish(|v.left|, |v.right|) then
        v.(left := v.left + [j], ldatum := Widened(v.ldatum, e))
      else
        v.(right := v.right + [j], rdatum := Widened(v.rdatum, e))
  }

  /** The choice in whole numbers: with `d` more entries on the left than on the
      right, an entry goes left exactly when ten thousand times the excess of its
      differing bits there is below minus the cube of `d`. */
  lemma {:induction false} ChoiceMeans(keys: seq<Key>, seed1: nat, seed2: nat, v: Split, j: nat)
    requires 1 <= j <= |keys| && j != seed1 && j != seed2
    ensures var e, d := keys[j - 1], |v.left| - |v.right|;
            var alpha, beta := Differing(Expand(v.ldatum), Expand(e)), Differing(Expand(v.rdatum), Expand(e));
            var w := DealTo(keys, seed1, seed2, v, j);
            if 10000 * (alpha - beta) < -(d * d * d)
            then w == v.(left := v.left + [j], ldatum := w.ldatum) && w.ldatum == Widened(v.ldatum, e)
            else w == v.(right := v.right + [j], rdatum := w.rdatum) && w.rdatum == Widened(v.rdatum, e)
  {
    var e := keys[j - 1];
    HemDistCounts(v.ldatum, e);
    HemDistCounts(v.rdatum, e);
    WishMeans(HemDist(v.ldatum, e), HemDist(v.rdatum, e), |v.left|, |v.right|);
    hide HemDist, Differing, Expand, Widened, Wish;
  }

  lemma {:induction false} WishMeans(alpha: int, beta: int, nleft: nat, nright: nat)
    ensures var d := nleft - nright;
            alpha as real < beta as real + Wish(nleft, nright) <==> 10000 * (alpha - beta) < -(d * d * d)
  {
    var d := nleft - nright;
    var r := d as real;
    assert r == nleft as real - nright as real;
    assert r * r == (d * d) as real by { Cast(d, d); }
    assert r * r * r == (d * d * d) as real by { Cast(d * d, d); }
    var c := d * d * d;
    assert Wish(nleft, nright) == -(c as real) * 0.0001;
    hide Wish;
    assert alpha as real < beta as real - c as real * 0.0001 <==>
           10000.0 * (alpha as real - beta as real) < -(c as real);
    assert 10000.0 * (alpha as real - beta as real) == (10000 * (alpha - beta)) as real;
  }

  lemma {:induction false} Cast(a: int, b: int)
    ensures (a as real) * (b as real) == (a * b) as real
    decreases if b < 0 then -b else b
  {
    if b > 0 {
      Cast(a, b - 1);
      assert (a as real) * (b as real) == (a as real) * ((b - 1) as real) + a as real;
      assert a * b == a * (b - 1) + a;
    } else if b < 0 {
      Cast(a, b + 1);
      assert (a as real) * (b as real) == (a as real) * ((b + 1) as real) - a as real;
      assert a * b == a * (b + 1) - a;
    }
  }

  /** The split after all entries of `order`. */
  function Deal(keys: seq<Key>, seed1: nat, seed2: nat, order: seq<nat>): Split
    requires 1 <= seed1 <= |keys| && 1 <= seed2 <= |keys|
  {
    if order == [] then Split([], [], keys[seed1 - 1], keys[seed2 - 1])
    else
      var n := |order| - 1;
      DealTo(keys, seed1, seed2, Deal(keys, seed1, seed2, order[..n]), order[n])
  }

  /** The entries, those first that are about as far from both seeds. */
  ghost predicate ByCost(keys: seq<Key>, l: Key, r: Key, order: seq<nat>) {
    && Arrangement(order, |keys|)
    && forall i, j :: 0 <= i < j < |order| ==>
         CostOf(keys, l, r, order[i] - 1).cost <= CostOf(keys, l, r, order[j] - 1).cost
  }

  /** How the entries of a split were chosen. */
  ghost predicate Chosen(keys: seq<Key>, v: Split) {
    exists s1, s2, order :: SeedPair(keys, s1, s2) && ByCost(keys, keys[s1 - 1], keys[s2 - 1], order)
                            && v == Deal(keys, s1, s2, order)
  }

  /** ghstore_picksplit: every entry goes to exactly one of two non-empty sides,
      and each side's key has exactly the bits of its entries. */
  method PickSplit(keys: seq<Key>) returns (v: Split)
    requires |keys| >= 2
    ensures Chosen(keys, v)
    ensures v.left != [] && v.right != []
    ensures SideIs(keys, v.left, v.ldatum) && SideIs(keys, v.right, v.rdatum)
    ensures UnionOf(keys, v.left, v.ldatum) && UnionOf(keys, v.right, v.rdatum)
    ensures |v.left| + |v.right| == |keys|
    ensures forall j :: 1 <= j <= |keys| ==> multiset(v.left)[j] + multiset(v.right)[j] == 1
  {
    var seed1, seed2 := Seeds(keys);
    var costs := CostVector(keys, keys[seed1 - 1], keys[seed2 - 1]);
    var sorted := QSort(costs, CostLe);
    PositionsOf(sorted, costs);
    var order := Positions(sorted);
    EachOnce(Positions(costs), order);
    InCostOrder(keys, keys[seed1 - 1], keys[seed2 - 1], costs, sorted);
    v := Distribute(keys, seed1, seed2, order);
  }

  lemma {:induction false} InCostOrder(keys: seq<Key>, l: Key, r: Key, costs: seq<SplitCost>, sorted: seq<SplitCost>)
    requires |costs| == |keys| && forall i :: 0 <= i < |keys| ==> costs[i] == CostOf(keys, l, r, i)
    requires multiset(sorted) == multiset(costs) && SortedBy(CostLe, sorted)
    requires Arrangement(Positions(sorted), |keys|)
    ensures ByCost(keys, l, r, Positions(sorted))
  {
    var order := Positions(sorted);
    forall i | 0 <= i < |sorted|
      ensures sorted[i] == CostOf(keys, l, r, order[i] - 1)
    {
      assert sorted[i] in multiset(costs);
    }
    hide CostOf;
  }

  /** The offsets 1 to n, each once. */
  ghost predicate Arrangement(order: seq<nat>, n: nat) {
    && |order| == n
    && (forall i :: 0 <= i < |order| ==> 1 <= order[i] <= n)
    && forall j :: 1 <= j <= n ==> multiset(order)[j] == 1
  }

  lemma {:induction false} EachOnce(start: seq<nat>, order: seq<nat>)
    requires forall i :: 0 <= i < |start| ==> start[i] == i + 1
    requires multiset(order) == multiset(start)
    ensures Arrangement(order, |start|)
  {
    assert |order| == |multiset(order)| == |start|;
    forall i | 0 <= i < |order|
      ensures 1 <= order[i] <= |start|
    {
      assert order[i] in multiset(start);
    }
    forall j | 1 <= j <= |start|
      ensures multiset(order)[j] == 1
    {
      CountFrom(start, j);
    }
  }

  lemma {:induction false} CountFrom(start: seq<nat>, j: nat)
    requires forall i :: 0 <= i < |start| ==> start[i] == i + 1
    ensures multiset(start)[j] == if 1 <= j <= |start| then 1 else 0
  {
    if start != [] {
      var n := |start| - 1;
      CountFrom(start[..n], j);
      assert start == start[..n] + [start[n]];
    }
  }

  /** The sides after some of the entries: each entry on one side, the seeds on
      their own. */
  ghost predicate Dealt(done: seq<nat>, left: seq<nat>, right: seq<nat>, seed1: nat, seed2: nat) {
    && multiset(left) + multiset(right) == multiset(done) && |left| + |right| == |done|
    && (seed1 in done ==> seed1 in left) && (seed2 in done ==> seed2 in right)
  }

  lemma {:induction false} DealLeft(done: seq<nat>, left: seq<nat>, right: seq<nat>, seed1: nat, seed2: nat, j: nat)
    requires Dealt(done, left, right, seed1, seed2) && j != seed2
    ensures Dealt(done + [j], left + [j], right, seed1, seed2)
  {
  }

  lemma {:induction false} DealRight(done: seq<nat>, left: seq<nat>, right: seq<nat>, seed1: nat, seed2: nat, j: nat)
    requires Dealt(done, left, right, seed1, seed2) && j != seed1
    ensures Dealt(done + [j], left, right + [j], seed1, seed2)
  {
  }

  lemma {:induction false} DealDone(order: seq<nat>, left: seq<nat>, right: seq<nat>, seed1: nat, seed2: nat, n: nat)
    requires Arrangement(order, n) && 1 <= seed1 <= n && 1 <= seed2 <= n && Dealt(order, left, right, seed1, seed2)
    ensures left != [] && right != [] && |left| + |right| == n && seed1 in left && seed2 in right
    ensures forall j :: 1 <= j <= n ==> multiset(left)[j] + multiset(right)[j] == 1
  {
    assert seed1 in multiset(order) && seed2 in multiset(order);
    forall j | 1 <= j <= n
      ensures multiset(left)[j] + multiset(right)[j] == 1
    {
      assert (multiset(left) + multiset(right))[j] == multiset(order)[j];
    }
  }

  lemma {:induction false} StartSide(keys: seq<Key>, key: Key)
    ensures SideIs(keys, [], key) && Covers(key, key)
    ensures forall seed :: 1 <= seed <= |keys| && keys[seed - 1] == key ==> NoExtra(keys, [], key, seed)
  {
  }

  /** The loop that hands out the entries in order of cost. */
  method Distribute(keys: seq<Key>, seed1: nat, seed2: nat, order: seq<nat>) returns (v: Split)
    requires 1 <= seed1 < seed2 <= |keys| && Arrangement(order, |keys|)
    ensures v == Deal(keys, seed1, seed2, order)
    ensures v.left != [] && v.right != []
    ensures SideIs(keys, v.left, v.ldatum) && SideIs(keys, v.right, v.rdatum)
    ensures UnionOf(keys, v.left, v.ldatum) && UnionOf(keys, v.right, v.rdatum)
    ensures |v.left| + |v.right| == |keys|
    ensures forall j :: 1 <= j <= |keys| ==> multiset(v.left)[j] + multiset(v.right)[j] == 1
  {
    hide *;
    var l, r := keys[seed1 - 1], keys[seed2 - 1];
    var unionL := BitsOf(l);
    var unionR := BitsOf(r);
    var left, right := [], [];
    SeedSide(keys, unionL, seed1);
    SeedSide(keys, unionR, seed2);
    NoneDealt(keys, order, seed1, seed2);
    InRange(order, |keys|);
    for k := 0 to |order|
      invariant fresh(unionL) && fresh(unionR) && unionL != unionR
      invariant Side(keys, left, l, unionL, seed1) && Side(keys, right, r, unionR, seed2)
      invariant Dealt(order[..k], left, right, seed1, seed2)
      invariant Split(left, right, l, r) == Deal(keys, seed1, seed2, order[..k])
    {
      assert order[..k + 1] == order[..k] + [order[k]];
      DealNext(keys, seed1, seed2, order[..k], order[k]);
      l, r, left, right := DealOne(keys, seed1, seed2, order[k], order[..k], left, right, l, r, unionL, unionR);
    }
    assert order[..|order|] == order;
    DealDone(order, left, right, seed1, seed2, |keys|);
    SideEnd(keys, left, l, unionL, seed1);
    SideEnd(keys, right, r, unionR, seed2);
    v := Split(left, right, l, r);
  }

  /** One turn: a seed goes to its own side, another entry to the closer one. */
  method DealOne(keys: seq<Key>, seed1: nat, seed2: nat, j: nat, ghost done: seq<nat>,
                 left: seq<nat>, right: seq<nat>, l: Key, r: Key, unionL: array<bool>, unionR: array<bool>)
    returns (l': Key, r': Key, left': seq<nat>, right': seq<nat>)
    requires unionL != unionR && 1 <= j <= |keys| && seed1 != seed2 && Dealt(done, left, right, seed1, seed2)
    requires Side(keys, left, l, unionL, seed1) && Side(keys, right, r, unionR, seed2)
    modifies unionL, unionR
    ensures Side(keys, left', l', unionL, seed1) && Side(keys, right', r', unionR, seed2)
    ensures Dealt(done + [j], left', right', seed1, seed2)
    ensures Split(left', right', l', r') == DealTo(keys, seed1, seed2, Split(left, right, l, r), j)
  {
    DealToIs(keys, seed1, seed2, Split(left, right, l, r), j);
    hide *;
    l', r', left', right' := l, r, left, right;
    if j == seed1 {
      DealLeft(done, left, right, seed1, seed2, j);
      SideSeed(keys, left, l, unionL, seed1);
      left' := left + [j];
    } else if j == seed2 {
      DealRight(done, left, right, seed1, seed2, j);
      SideSeed(keys, right, r, unionR, seed2);
      right' := right + [j];
    } else {
      var alpha := Distance(l, keys[j - 1]);
      var beta := Distance(r, keys[j - 1]);
      if alpha as real < beta as real + Wish(|left|, |right|) {
        DealLeft(done, left, right, seed1, seed2, j);
        l' := Extend(keys, left, l, unionL, seed1, j);
        left' := left + [j];
      } else {
        DealRight(done, left, right, seed1, seed2, j);
        r' := Extend(keys, right, r, unionR, seed2, j);
        right' := right + [j];
      }
    }
  }

  lemma {:induction false} DealToIs(keys: seq<Key>, seed1: nat, seed2: nat, v: Split, j: nat)
    requires 1 <= j <= |keys|
    ensures j == seed1 ==> DealTo(keys, seed1, seed2, v, j) == v.(left := v.left + [j])
    ensures j != seed1 && j == seed2 ==> DealTo(keys, seed1, seed2, v, j) == v.(right := v.right + [j])
    ensures j != seed1 && j != seed2 ==>
              var e := keys[j - 1];
              DealTo(keys, seed1, seed2, v, j) ==
              if HemDist(v.ldatum, e) as real < HemDist(v.rdatum, e) as real + Wish(|v.left|, |v.right|)
              then v.(left := v.left + [j], ldatum := Widened(v.ldatum, e))
              else v.(right := v.right + [j], rdatum := Widened(v.rdatum, e))
  {
  }

  lemma {:induction false} SeedSide(keys: seq<Key>, sign: array<bool>, seed: nat)
    requires 1 <= seed <= |keys| && sign.Length == SIGLENBIT
    requires keys[seed - 1].Sign? ==> keys[seed - 1].bits == sign[..]
    ensures Side(keys, [], keys[seed - 1], sign, seed)
  {
    StartSide(keys, keys[seed - 1]);
    hide Covers, SideIs, NoExtra;
  }

  lemma {:induction false} NoneDealt(keys: seq<Key>, order: seq<nat>, seed1: nat, seed2: nat)
    requires 1 <= seed1 <= |keys| && 1 <= seed2 <= |keys|
    ensures Dealt(order[..0], [], [], seed1, seed2)
    ensures Deal(keys, seed1, seed2, order[..0]) == Split([], [], keys[seed1 - 1], keys[seed2 - 1])
  {
  }

  lemma {:induction false} DealNext(keys: seq<Key>, seed1: nat, seed2: nat, done: seq<nat>, j: nat)
    requires 1 <= seed1 <= |keys| && 1 <= seed2 <= |keys|
    ensures Deal(keys, seed1, seed2, done + [j]) == DealTo(keys, seed1, seed2, Deal(keys, seed1, seed2, done), j)
  {
    assert (done + [j])[..|done|] == done;
  }

  lemma {:induction false} InRange(order: seq<nat>, n: nat)
    requires Arrangement(order, n)
    ensures forall i :: 0 <= i < |order| ==> 1 <= order[i] <= n
  {
  }

  /** A side as it is built: its key covers its seed and its entries. */
  ghost predicate Side(keys: seq<Key>, at: seq<nat>, key: Key, sign: array<bool>, seed: nat)
    reads sign
  {
    && sign.Length == SIGLENBIT && (key.Sign? ==> key.bits == sign[..])
    && 1 <= seed <= |keys| && Covers(key, keys[seed - 1]) && SideIs(keys, at, key) && NoExtra(keys, at, key, seed)
  }

  method BitsOf(key: Key) returns (sign: array<bool>)
    ensures fresh(sign) && sign.Length == SIGLENBIT && (key.Sign? ==> key.bits == sign[..])
  {
    var bits := Expand(key);
    sign := new bool[SIGLENBIT](i requires 0 <= i < SIGLENBIT => bits[i]);
    assert sign[..] == bits;
  }

  lemma {:induction false} SideSeed(keys: seq<Key>, at: seq<nat>, key: Key, sign: array<bool>, seed: nat)
    requires Side(keys, at, key, sign, seed)
    ensures Side(keys, at + [seed], key, sign, seed)
  {
    StartSide(keys, key);
    hide Covers, SideIs, NoExtra;
    SidePush(keys, at, key, seed, key);
    NoExtraPush(keys, at, key, seed, seed, key);
  }

  lemma {:induction false} SideEnd(keys: seq<Key>, at: seq<nat>, key: Key, sign: array<bool>, seed: nat)
    requires Side(keys, at, key, sign, seed) && seed in at
    ensures SideIs(keys, at, key) && UnionOf(keys, at, key)
  {
    SideUnion(keys, at, key, seed);
    hide *;
  }

  method Extend(keys: seq<Key>, ghost at: seq<nat>, key: Key, sign: array<bool>, ghost seed: nat, j: nat)
    returns (key': Key)
    requires Side(keys, at, key, sign, seed) && 1 <= j <= |keys|
    modifies sign
    ensures Side(keys, at + [j], key', sign, seed) && key' == Widened(key, keys[j - 1])
  {
    hide Covers, SideIs, NoExtra, GetBit;
    key' := AddTo(key, sign, keys[j - 1]);
    SidePush(keys, at, key, j, key');
    NoExtraPush(keys, at, key, seed, j, key');
    CoversTrans(key', key, keys[seed - 1]);
  }

  // ----- consistent -----

  /** ghstore_consistent: whether rows under a key may match the query. */
  ghost predicate MayMatch(crc: Crc, key: Key, q: Query)
    requires GoodQuery(q)
  {
    key.AllTrue? ||
    match q
    case ContainsQ(tmpl) => forall b :: 0 <= b < SIGLENBIT && Asks(crc, View(tmpl), b) ==> GetBit(key, b)
    case ExistsQ(k) => GetBit(key, HashVal(crc, k))
    case AllQ(keys) => forall i :: 0 <= i < |keys| && keys[i].Some? ==> GetBit(key, HashVal(crc, keys[i].value))
    case AnyQ(keys) => exists i :: 0 <= i < |keys| && keys[i].Some? && GetBit(key, HashVal(crc, keys[i].value))
  }

  /** The test, operator by operator: a key's bit; all of the keys; one of the keys,
      unless the mark passes everything; and for contains exactly the signatures
      that cover the template as if it were a row. */
  lemma {:induction false} TestMeans(crc: Crc, key: Key, q: Query)
    requires GoodQuery(q)
    ensures match q
            case ExistsQ(k) => MayMatch(crc, key, q) <==> GetBit(key, HashVal(crc, k))
            case AllQ(ks) =>
              MayMatch(crc, key, q) <==> forall k :: k in KeySet(ks) ==> MayMatch(crc, key, ExistsQ(k))
            case AnyQ(ks) =>
              MayMatch(crc, key, q) <==> key.AllTrue? || exists k :: k in KeySet(ks) && MayMatch(crc, key, ExistsQ(k))
            case ContainsQ(tmpl) => MayMatch(crc, key, q) <==> CoversRow(crc, key, tmpl)
  {
    hide HashVal, View;
    match q
    case ExistsQ(_) =>
    case ContainsQ(_) =>
    case AllQ(ks) =>
      assert forall i :: 0 <= i < |ks| && ks[i].Some? ==> ks[i].value in KeySet(ks);
    case AnyQ(ks) =>
      assert forall i :: 0 <= i < |ks| && ks[i].Some? ==> ks[i].value in KeySet(ks);
      if key.Sign? {
        if k :| k in KeySet(ks) && MayMatch(crc, key, ExistsQ(k)) {
          assert Some(k) in ks;
        }
      }
  }

  method Consistent(crc: Crc, key: Key, q: Query) returns (res: bool)
    requires GoodQuery(q)
    ensures res <==> MayMatch(crc, key, q)
  {
    if key.AllTrue? {
      return true;
    }
    match q
    case ContainsQ(tmpl) => res := ConsistentContains(crc, key, tmpl);
    case ExistsQ(k) => res := key.bits[HashVal(crc, k)];
    case AllQ(keys) =>
      var i := 0;
      res := true;
      while res && i < |keys|
        invariant 0 <= i <= |keys|
        invariant res ==> forall j :: 0 <= j < i && keys[j].Some? ==> GetBit(key, HashVal(crc, keys[j].value))
        invariant !res ==> exists j :: 0 <= j < |keys| && keys[j].Some? && !GetBit(key, HashVal(crc, keys[j].value))
      {
        if keys[i].Some? && !key.bits[HashVal(crc, keys[i].value)] {
          res := false;
        }
        i := i + 1;
      }
    case AnyQ(keys) =>
      var i := 0;
      res := false;
      while !res && i < |keys|
        invariant 0 <= i <= |keys|
        invariant !res ==> forall j :: 0 <= j < i && keys[j].Some? ==> !GetBit(key, HashVal(crc, keys[j].value))
        invariant res ==> exists j :: 0 <= j < |keys| && keys[j].Some? && GetBit(key, HashVal(crc, keys[j].value))
      {
        if keys[i].Some? && key.bits[HashVal(crc, keys[i].value)] {
          res := true;
        }
        i := i + 1;
      }
  }

  ghost predicate PairCovered(crc: Crc, key: Key, p: Pair) {
    GetBit(key, HashVal(crc, p.key)) && (p.val.Some? ==> GetBit(key, HashVal(crc, p.val.value)))
  }

  lemma {:induction false} AllCovered(crc: Crc, key: Key, ps: seq<Pair>)
    ensures (forall i :: 0 <= i < |ps| ==> PairCovered(crc, key, ps[i]))
            <==> forall b :: 0 <= b < SIGLENBIT && Asks(crc, ps, b) ==> GetBit(key, b)
  {
    if forall b :: 0 <= b < SIGLENBIT && Asks(crc, ps, b) ==> GetBit(key, b) {
      forall i | 0 <= i < |ps|
        ensures PairCovered(crc, key, ps[i])
      {
        assert AskedBy(crc, ps[i], HashVal(crc, ps[i].key));
        assert ps[i].val.Some? ==> AskedBy(crc, ps[i], HashVal(crc, ps[i].val.value));
      }
    }
  }

  method ConsistentContains(crc: Crc, key: Key, query: HStore) returns (res: bool)
    requires WellFormed(query) && key.Sign?
    ensures res <==> forall b :: 0 <= b < SIGLENBIT && Asks(crc, View(query), b) ==> GetBit(key, b)
  {
    ghost var ps := View(query);
    StoredSize(query, ps);
    AllCovered(crc, key, ps);
    var i := 0;
    res := true;
    hide *;
    while res && i < |query.ents|
      invariant 0 <= i <= |ps|
      invariant res ==> forall j :: 0 <= j < i ==> PairCovered(crc, key, ps[j])
      invariant !res ==> exists j :: 0 <= j < |ps| && !PairCovered(crc, key, ps[j])
    {
      ReadStored(query, ps, i);
      CoveredRead(crc, key, ps[i]);
      res := key.bits[HashVal(crc, KeyAt(query, i))] &&
             (ValIsNull(query, i) || key.bits[HashVal(crc, ValAt(query, i))]);
      i := i + 1;
    }
  }

  lemma {:induction false} CoveredRead(crc: Crc, key: Key, p: Pair)
    requires key.Sign?
    ensures PairCovered(crc, key, p) <==>
            (key.bits[HashVal(crc, p.key)] && (p.val.None? || key.bits[HashVal(crc, ValBytes(p.val))]))
  {
  }

  // ----- the tree -----

  /** An entry of a page: a row, or a page below. */
  datatype Entry = Row(key: Key, hs: HStore) | Page(key: Key, entries: seq<Entry>)

  /** Every key covers what is below it. */
  ghost predicate Sound(crc: Crc, e: Entry) {
    match e
    case Row(key, hs) => WellFormed(hs) && CoversRow(crc, key, hs)
    case Page(key, entries) =>
      forall i :: 0 <= i < |entries| ==> Sound(crc, entries[i]) && Covers(key, entries[i].key)
  }

  ghost predicate Occurs(e: Entry, hs: HStore) {
    match e
    case Row(_, h) => h == hs
    case Page(_, entries) => exists i :: 0 <= i < |entries| && Occurs(entries[i], hs)
  }

  /** A search descends into an entry only when its key may match. */
  ghost predicate Finds(crc: Crc, e: Entry, q: Query, hs: HStore)
    requires GoodQuery(q)
    decreases e
  {
    MayMatch(crc, e.key, q) &&
    match e
    case Row(_, h) => h == hs
    case Page(_, entries) => exists i :: 0 <= i < |entries| && Finds(crc, entries[i], q, hs)
  }

  /** A key that covers a matching row may match. */
  lemma {:induction false} RowMayMatch(crc: Crc, key: Key, hs: HStore, q: Query)
    requires WellFormed(hs) && GoodQuery(q) && CoversRow(crc, key, hs) && Matches(hs, q)
    ensures MayMatch(crc, key, q)
  {
    match q
    case ContainsQ(tmpl) =>
      forall b | 0 <= b < SIGLENBIT && Asks(crc, View(tmpl), b)
        ensures GetBit(key, b)
      {
        TemplateBit(crc, hs, tmpl, b);
      }
    case ExistsQ(k) => KeyBit(crc, key, hs, k);
    case AllQ(keys) =>
      forall i | 0 <= i < |keys| && keys[i].Some?
        ensures GetBit(key, HashVal(crc, keys[i].value))
      {
        assert keys[i].value in KeySet(keys);
        KeyBit(crc, key, hs, keys[i].value);
      }
    case AnyQ(keys) =>
      var k :| k in KeySet(keys) && k in MapOf(hs);
      assert Some(k) in keys;
      var i :| 0 <= i < |keys| && keys[i] == Some(k);
      KeyBit(crc, key, hs, k);
  }

  lemma {:induction false} KeyBit(crc: Crc, key: Key, hs: HStore, k: string)
    requires WellFormed(hs) && CoversRow(crc, key, hs) && k in MapOf(hs)
    ensures GetBit(key, HashVal(crc, k))
  {
    var i := KeyIndex(View(hs), k);
    assert AskedBy(crc, View(hs)[i], HashVal(crc, k));
  }

  lemma {:induction false} TemplateBit(crc: Crc, hs: HStore, tmpl: HStore, b: nat)
    requires WellFormed(hs) && WellFormed(tmpl) && Matches(hs, ContainsQ(tmpl)) && Asks(crc, View(tmpl), b)
    ensures Asks(crc, View(hs), b)
  {
    var ps, ts := View(hs), View(tmpl);
    var j :| 0 <= j < |ts| && AskedBy(crc, ts[j], b);
    Lookup(tmpl, j);
    var k := ts[j].key;
    assert k in MapOf(hs) && MapOf(hs)[k] == ts[j].val;
    MapIs(hs);
    hide MapOf, View, Stores, ToMap;
    var i := KeyIndex(ps, k);
    assert AskedBy(crc, ps[i], b);
  }

  lemma {:induction false} SoundBelow(crc: Crc, e: Entry, hs: HStore)
    requires Sound(crc, e) && Occurs(e, hs)
    ensures WellFormed(hs) && CoversRow(crc, e.key, hs)
    decreases e
  {
    if e.Page? {
      var i :| 0 <= i < |e.entries| && Occurs(e.entries[i], hs);
      SoundBelow(crc, e.entries[i], hs);
    }
  }

  /** A search of a sound tree, with the recheck, answers exactly the rows that
      match. */
  lemma {:induction false} SearchExact(crc: Crc, e: Entry, q: Query, hs: HStore)
    requires Sound(crc, e) && GoodQuery(q) && WellFormed(hs)
    ensures (Finds(crc, e, q, hs) && Matches(hs, q)) <==> (Occurs(e, hs) && Matches(hs, q))
    decreases e
  {
    hide Matches, MayMatch, GetBit, View;
    if Matches(hs, q) {
      if Occurs(e, hs) {
        SoundBelow(crc, e, hs);
        RowMayMatch(crc, e.key, hs, q);
        if e.Page? {
          var i :| 0 <= i < |e.entries| && Occurs(e.entries[i], hs);
          SearchExact(crc, e.entries[i], q, hs);
        }
      }
      if Finds(crc, e, q, hs) && e.Page? {
        var i :| 0 <= i < |e.entries| && Finds(crc, e.entries[i], q, hs);
        SearchExact(crc, e.entries[i], q, hs);
      }
    }
  }

  /** The page of the entries at the given offsets. */
  function PageOf(key: Key, entries: seq<Entry>, at: seq<nat>): Entry
    requires forall i :: 0 <= i < |at| ==> 1 <= at[i] <= |entries|
  {
    Page(key, seq(|at|, i requires 0 <= i < |at| => entries[at[i] - 1]))
  }

  lemma {:induction false} SideSound(crc: Crc, entries: seq<Entry>, keys: seq<Key>, at: seq<nat>, key: Key)
    requires |keys| == |entries|
    requires forall i :: 0 <= i < |entries| ==> Sound(crc, entries[i]) && keys[i] == entries[i].key
    requires SideIs(keys, at, key)
    ensures Sound(crc, PageOf(key, entries, at))
  {
    hide Covers, GetBit;
  }

  lemma {:induction false} OnPage(entries: seq<Entry>, at: seq<nat>, key: Key, j: nat)
    requires forall i :: 0 <= i < |at| ==> 1 <= at[i] <= |entries|
    requires j < |entries| && j + 1 in at
    ensures entries[j] in PageOf(key, entries, at).entries
  {
    var i :| 0 <= i < |at| && at[i] == j + 1;
    assert PageOf(key, entries, at).entries[i] == entries[j];
  }

  /** Splitting a page gives two sound pages ... */
  lemma {:induction false} SplitSound(crc: Crc, entries: seq<Entry>, keys: seq<Key>, v: Split)
    requires |keys| == |entries|
    requires forall i :: 0 <= i < |entries| ==> Sound(crc, entries[i]) && keys[i] == entries[i].key
    requires SideIs(keys, v.left, v.ldatum) && SideIs(keys, v.right, v.rdatum)
    ensures Sound(crc, PageOf(v.ldatum, entries, v.left)) && Sound(crc, PageOf(v.rdatum, entries, v.right))
  {
    hide Sound, Covers, PageOf;
    SideSound(crc, entries, keys, v.left, v.ldatum);
    SideSound(crc, entries, keys, v.right, v.rdatum);
  }

  /** ... that hold its entries between them. */
  lemma {:induction false} SplitKeeps(entries: seq<Entry>, v: Split, j: nat)
    requires forall i :: 0 <= i < |v.left| ==> 1 <= v.left[i] <= |entries|
    requires forall i :: 0 <= i < |v.right| ==> 1 <= v.right[i] <= |entries|
    requires j < |entries| && multiset(v.left)[j + 1] + multiset(v.right)[j + 1] == 1
    ensures entries[j] in PageOf(v.ldatum, entries, v.left).entries ||
            entries[j] in PageOf(v.rdatum, entries, v.right).entries
  {
    OnOnePage(v, j + 1);
    hide PageOf;
    if j + 1 in v.left {
      OnPage(entries, v.left, v.ldatum, j);
    } else {
      OnPage(entries, v.right, v.rdatum, j);
    }
  }

  lemma {:induction false} OnOnePage(v: Split, off: nat)
    requires multiset(v.left)[off] + multiset(v.right)[off] == 1
    ensures off in v.left <==> off !in v.right
  {
    assert off in multiset(v.left) || off in multiset(v.right);
  }

  /** Adding an entry below a page whose key is widened by union. */
  lemma {:induction false} InsertSound(crc: Crc, page: Entry, e: Entry, key: Key)
    requires page.Page? && Sound(crc, page) && Sound(crc, e) && Covers(key, page.key) && Covers(key, e.key)
    ensures Sound(crc, Page(key, page.entries + [e]))
  {
    var es := page.entries + [e];
    forall i | 0 <= i < |es|
      ensures Sound(crc, es[i]) && Covers(key, es[i].key)
    {
      if i < |page.entries| {
        CoversTrans(key, page.key, es[i].key);
      }
    }
  }

  // ----- trees built by compress, union and picksplit -----

  /** A row's key has exactly the bits asked for, a page's exactly those of its
      entries. */
  ghost predicate Built(crc: Crc, e: Entry) {
    match e
    case Row(key, hs) =>
      WellFormed(hs) && forall b :: 0 <= b < SIGLENBIT ==> (GetBit(key, b) <==> Asks(crc, View(hs), b))
    case Page(key, entries) => (forall i :: 0 <= i < |entries| ==> Built(crc, entries[i])) && Gathers(key, entries)
  }

  ghost predicate Gathers(key: Key, entries: seq<Entry>) {
    forall b :: 0 <= b < SIGLENBIT ==> (GetBit(key, b) <==> exists i :: 0 <= i < |entries| && GetBit(entries[i].key, b))
  }

  function KeysOf(entries: seq<Entry>): (ks: seq<Key>)
    ensures |ks| == |entries| && forall i :: 0 <= i < |entries| ==> ks[i] == entries[i].key
  {
    seq(|entries|, i requires 0 <= i < |entries| => entries[i].key)
  }

  method MakeRow(crc: Crc, hs: HStore) returns (e: Entry)
    requires WellFormed(hs)
    ensures Built(crc, e) && e.Row? && e.hs == hs
  {
    var key := Compress(crc, hs);
    e := Row(key, hs);
  }

  method MakePage(crc: Crc, entries: seq<Entry>) returns (e: Entry)
    requires forall i :: 0 <= i < |entries| ==> Built(crc, entries[i])
    ensures Built(crc, e) && e.Page? && e.entries == entries
  {
    hide GetBit, Built;
    var key := Union(KeysOf(entries));
    e := Page(key, entries);
    GathersAll(key, entries);
    PageBuilt(crc, key, entries);
  }

  lemma {:induction false} GathersAll(key: Key, entries: seq<Entry>)
    requires forall b :: 0 <= b < SIGLENBIT ==>
               (GetBit(key, b) <==> exists i :: 0 <= i < |entries| && GetBit(KeysOf(entries)[i], b))
    ensures Gathers(key, entries)
  {
    hide GetBit;
    forall b | 0 <= b < SIGLENBIT
      ensures GetBit(key, b) <==> exists i :: 0 <= i < |entries| && GetBit(entries[i].key, b)
    {
      assert forall i :: 0 <= i < |entries| ==> KeysOf(entries)[i] == entries[i].key;
    }
  }

  lemma {:induction false} PageBuilt(crc: Crc, key: Key, entries: seq<Entry>)
    requires (forall i :: 0 <= i < |entries| ==> Built(crc, entries[i])) && Gathers(key, entries)
    ensures Built(crc, Page(key, entries))
  {
    hide Gathers;
  }

  /** A page split in two. */
  method SplitPage(crc: Crc, entries: seq<Entry>) returns (l: Entry, r: Entry)
    requires |entries| >= 2 && forall i :: 0 <= i < |entries| ==> Built(crc, entries[i])
    ensures Built(crc, l) && Built(crc, r) && l.Page? && r.Page? && l.entries != [] && r.entries != []
    ensures |l.entries| + |r.entries| == |entries|
    ensures forall j :: 0 <= j < |entries| ==> entries[j] in l.entries || entries[j] in r.entries
  {
    var v := PickSplit(KeysOf(entries));
    hide Built, UnionOf, Chosen, Covers;
    SideBuilt(crc, entries, v.left, v.ldatum);
    SideBuilt(crc, entries, v.right, v.rdatum);
    l, r := PageOf(v.ldatum, entries, v.left), PageOf(v.rdatum, entries, v.right);
    forall j | 0 <= j < |entries|
      ensures entries[j] in l.entries || entries[j] in r.entries
    {
      SplitKeeps(entries, v, j);
    }
  }

  lemma {:induction false} SideBuilt(crc: Crc, entries: seq<Entry>, at: seq<nat>, key: Key)
    requires forall i :: 0 <= i < |entries| ==> Built(crc, entries[i])
    requires SideIs(KeysOf(entries), at, key) && UnionOf(KeysOf(entries), at, key)
    ensures Built(crc, PageOf(key, entries, at))
  {
    hide *;
    SideEntries(entries, at, key);
    var es := PageOf(key, entries, at).entries;
    SideGathers(entries, at, es, key);
    PageBuilt(crc, key, es);
  }

  lemma {:induction false} SideEntries(entries: seq<Entry>, at: seq<nat>, key: Key)
    requires SideIs(KeysOf(entries), at, key)
    ensures forall i :: 0 <= i < |at| ==> 1 <= at[i] <= |entries|
    ensures var es := PageOf(key, entries, at).entries;
            && PageOf(key, entries, at) == Page(key, es) && |es| == |at|
            && forall i :: 0 <= i < |at| ==> es[i] == entries[at[i] - 1]
  {
    hide Covers;
  }

  lemma {:induction false} SideGathers(entries: seq<Entry>, at: seq<nat>, es: seq<Entry>, key: Key)
    requires |es| == |at| && forall i :: 0 <= i < |at| ==> 1 <= at[i] <= |entries| && es[i] == entries[at[i] - 1]
    requires UnionOf(KeysOf(entries), at, key)
    ensures Gathers(key, es)
  {
    hide GetBit, InSome;
    forall b | 0 <= b < SIGLENBIT
      ensures GetBit(key, b) <==> exists i :: 0 <= i < |es| && GetBit(es[i].key, b)
    {
      SideBit(entries, at, es, b);
    }
  }

  lemma {:induction false} SideBit(entries: seq<Entry>, at: seq<nat>, es: seq<Entry>, b: nat)
    requires b < SIGLENBIT && |es| == |at|
    requires forall i :: 0 <= i < |at| ==> 1 <= at[i] <= |entries| && es[i] == entries[at[i] - 1]
    ensures InSome(KeysOf(entries), at, b) <==> exists i :: 0 <= i < |es| && GetBit(es[i].key, b)
  {
    hide GetBit;
    assert forall i :: 0 <= i < |at| ==> KeysOf(entries)[at[i] - 1] == es[i].key;
  }

  /** A page that gains an entry and the bits of its key. */
  lemma {:induction false} InsertBuilt(crc: Crc, page: Entry, e: Entry, key: Key)
    requires page.Page? && Built(crc, page) && Built(crc, e)
    requires forall b :: 0 <= b < SIGLENBIT ==> (GetBit(key, b) <==> GetBit(page.key, b) || GetBit(e.key, b))
    ensures Built(crc, Page(key, page.entries + [e]))
  {
    var es := page.entries + [e];
    assert Gathers(page.key, page.entries);
    hide GetBit;
    forall b | 0 <= b < SIGLENBIT
      ensures GetBit(key, b) <==> exists i :: 0 <= i < |es| && GetBit(es[i].key, b)
    {
      assert es[|page.entries|] == e;
      assert forall i :: 0 <= i < |page.entries| ==> es[i] == page.entries[i];
    }
  }

  /** However a tree was built, its key has exactly the bits its rows ask for. */
  lemma {:induction false} BuiltBits(crc: Crc, e: Entry, b: nat)
    requires Built(crc, e) && b < SIGLENBIT
    ensures GetBit(e.key, b) <==> exists hs :: Occurs(e, hs) && WellFormed(hs) && Asks(crc, View(hs), b)
    decreases e
  {
    hide GetBit, Asks, View, WellFormed;
    if e.Row? {
      assert Occurs(e, e.hs);
    } else {
      forall i | 0 <= i < |e.entries|
        ensures GetBit(e.entries[i].key, b)
                <==> exists hs :: Occurs(e.entries[i], hs) && WellFormed(hs) && Asks(crc, View(hs), b)
      {
        BuiltBits(crc, e.entries[i], b);
      }
    }
  }

  lemma {:induction false} BuiltSound(crc: Crc, e: Entry)
    requires Built(crc, e)
    ensures Sound(crc, e)
    decreases e
  {
    hide GetBit;
    if e.Page? {
      forall i | 0 <= i < |e.entries|
        ensures Sound(crc, e.entries[i]) && Covers(e.key, e.entries[i].key)
      {
        BuiltSound(crc, e.entries[i]);
      }
    }
  }

  /** A search of any tree built this way, with the recheck, answers exactly the
      rows that match. */
  lemma {:induction false} BuiltSearch(crc: Crc, e: Entry, q: Query, hs: HStore)
    requires Built(crc, e) && GoodQuery(q) && WellFormed(hs)
    ensures (Finds(crc, e, q, hs) && Matches(hs, q)) <==> (Occurs(e, hs) && Matches(hs, q))
  {
    hide *;
    BuiltSound(crc, e);
    SearchExact(crc, e, q, hs);
  }
}
