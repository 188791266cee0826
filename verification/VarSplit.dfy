/** gbt_var_picksplit: entries are sorted, halved, and both halves' bounds are
    cut at the longer of the two common prefixes. A key is safe for all values of
    an entry exactly when it does not overshoot the entry's upper bound. */
module VarSplit {
  import opened Lexicographic
  import opened Sorting
  import opened VarKey

  datatype Vsrt = Vsrt(i: nat, t: Key)

  /** gbt_vsrt_cmp */
  function VsrtCmp(a: Key, b: Key): int {
    var r := LexCmp(a.lower, b.lower);
    if r == 0 then LexCmp(a.upper, b.upper) else r
  }

  /** The lower bounds decide, and between equal ones the upper bounds. */
  lemma {:induction false} VsrtMeans(a: Key, b: Key)
    ensures VsrtCmp(a, b) <= 0 <==>
            (a.lower != b.lower && Le(a.lower, b.lower)) || (a.lower == b.lower && Le(a.upper, b.upper))
  {
  }

  predicate VsrtLe(a: Vsrt, b: Vsrt) {
    VsrtCmp(a.t, b.t) <= 0
  }

  lemma {:induction false} VsrtOrder()
    ensures TotalPreorder(VsrtLe)
  {
    forall a: Vsrt, b: Vsrt
      ensures VsrtLe(a, b) || VsrtLe(b, a)
    {
      LexFlip(a.t.lower, b.t.lower);
      LexFlip(a.t.upper, b.t.upper);
    }
    forall a: Vsrt, b: Vsrt, c: Vsrt | VsrtLe(a, b) && VsrtLe(b, c)
      ensures VsrtLe(a, c)
    {
      VsrtTrans(a, b, c);
    }
  }

  lemma {:induction false} VsrtTrans(a: Vsrt, b: Vsrt, c: Vsrt)
    requires VsrtLe(a, b) && VsrtLe(b, c)
    ensures VsrtLe(a, c)
  {
    LexTrans(a.t.lower, b.t.lower, c.t.lower);
    if LexCmp(a.t.lower, c.t.lower) == 0 {
      LexFlip(a.t.lower, b.t.lower);
      LexFlip(b.t.lower, c.t.lower);
      LexTrans(a.t.upper, b.t.upper, c.t.upper);
    }
  }

  datatype Split = Split(left: seq<nat>, right: seq<nat>, ldatum: Key, rdatum: Key)

  function Max(a: nat, b: nat): nat {
    if a < b then b else a
  }

  /** The keys of a run of sorted entries. */
  function KeysIn(arr: seq<Vsrt>): (ks: seq<Key>)
    ensures |ks| == |arr| && forall i :: 0 <= i < |arr| ==> ks[i] == arr[i].t
  {
    seq(|arr|, i requires 0 <= i < |arr| => arr[i].t)
  }

  /** A half's key: its bounds cut at `m` bytes and two more. */
  function HalfKey(keys: seq<Key>, m: nat): Key
    requires keys != []
  {
    NodeTruncate(Hull(keys), m + 1)
  }

  /** What the split is, given the sorted entries. */
  ghost predicate SplitOf(arr: seq<Vsrt>, v: Split)
    requires |arr| >= 2
  {
    var h := |arr| / 2;
    var l, r := KeysIn(arr[..h]), KeysIn(arr[h..]);
    var m := Max(Cp(Hull(l)), Cp(Hull(r)));
    && v.ldatum == HalfKey(l, m) && v.rdatum == HalfKey(r, m)
    && |v.left| == h && (forall i :: 0 <= i < h ==> v.left[i] == arr[i].i)
    && |v.right| == |arr| - h && (forall i :: h <= i < |arr| ==> v.right[i - h] == arr[i].i)
  }

  function Numbered(entries: seq<Key>): (s: seq<Vsrt>)
    ensures |s| == |entries| && forall i :: 0 <= i < |entries| ==> s[i] == Vsrt(i + 1, entries[i])
  {
    seq(|entries|, i requires 0 <= i < |entries| => Vsrt(i + 1, entries[i]))
  }

  /** gbt_var_picksplit: the second result is the sorted array it works on, every
      entry with its offset. */
  method PickSplit(entries: seq<Key>) returns (v: Split, arr: seq<Vsrt>)
    requires |entries| >= 2
    ensures multiset(arr) == multiset(Numbered(entries)) && SortedBy(VsrtLe, arr) && |arr| == |entries|
    ensures SplitOf(arr, v)
  {
    VsrtOrder();
    arr := QSort(Numbered(entries), VsrtLe);
    SameElements(arr, Numbered(entries));
    var h := |arr| / 2;
    var ldatum, left := Gather(arr[..h]);
    var rdatum, right := Gather(arr[h..]);
    var ll := NodeCpLen(ldatum);
    var lr := NodeCpLen(rdatum);
    ll := Max(ll, lr);
    ll := ll + 1;
    v := Split(left, right, NodeTruncate(ldatum, ll), NodeTruncate(rdatum, ll));
  }

  /** The part of the loop that fills one half. */
  method Gather(arr: seq<Vsrt>) returns (datum: Key, offsets: seq<nat>)
    requires arr != []
    ensures datum == Hull(KeysIn(arr))
    ensures |offsets| == |arr| && forall i :: 0 <= i < |arr| ==> offsets[i] == arr[i].i
  {
    datum, offsets := arr[0].t, [arr[0].i];
    ghost var keys := KeysIn(arr);
    assert keys[..1] == [keys[0]];
    for i := 1 to |arr|
      invariant datum == Hull(keys[..i])
      invariant |offsets| == i && forall k :: 0 <= k < i ==> offsets[k] == arr[k].i
    {
      assert keys[..i + 1][..i] == keys[..i];
      datum := BinUnion(datum, arr[i].t);
      offsets := offsets + [arr[i].i];
    }
    assert keys[..|arr|] == keys;
  }

  // ----- exact values -----

  /** A value within the bounds stays safe when they are cut beyond the common
      prefix. */
  lemma {:induction false} CutSafe(h: Key, m: nat, x: Bytes)
    requires Le(h.lower, x) && Le(x, h.upper) && Cp(h) <= m
    ensures Safe(NodeTruncate(h, m + 1), x)
  {
    var k := NodeTruncate(h, m + 1);
    TakeLe(h.lower, m + 2);
    LeTrans(k.lower, h.lower, x);
    LeTotal(x, k.upper);
    TakeMono(x, h.upper, m + 2);
    hide LexCmp, CommonLen;
    if !Le(x, k.upper) {
      Sandwich(Take(x, m + 2), k.upper, x);
    }
    if k.lower == k.upper {
      Uncut(h, m);
      LeTotal(x, h.lower);
    }
  }

  /** Bounds that become equal were equal. */
  lemma {:induction false} Uncut(h: Key, m: nat)
    requires Cp(h) <= m && Cut(h.lower, m + 2) == Cut(h.upper, m + 2)
    ensures h.lower == h.upper == Cut(h.lower, m + 2)
  {
    var x := Cut(h.lower, m + 2);
    CommonTake(h.lower, h.upper, m + 2);
    CommonLenIs(x, x, |x|);
  }

  /** The keys of a split of leaf entries are safe for every value they cover. */
  lemma {:induction false} LeafSplitSafe(keys: seq<Key>, m: nat, i: nat, x: Bytes)
    requires i < |keys| && (forall j :: 0 <= j < |keys| ==> Ordered(keys[j])) && Cp(Hull(keys)) <= m
    requires keys[i] == LeafKey(x)
    ensures Safe(HalfKey(keys, m), x)
  {
    HullWide(keys);
    CutSafe(Hull(keys), m, x);
  }

  // ----- internal entries -----

  /** All bytes are 0xFF. */
  predicate AllTop(r: Bytes) {
    forall i :: 0 <= i < |r| ==> r[i] == 255
  }

  /** The values a key can stand for: those within its bounds, and those that
      extend an upper bound that may have been cut. */
  ghost predicate Near(e: Key, x: Bytes) {
    Le(e.lower, x) && (Le(x, e.upper) || (e.upper <= x && |e.upper| >= Cp(e) + 2))
  }

  /** The cut upper bound goes on past an entry's own upper bound, which may have
      been cut, with some byte that can still grow. */
  predicate Outgrows(e: Key, k: Key) {
    && |e.upper| >= Cp(e) + 2 && |e.upper| < |k.upper| && k.upper[..|e.upper|] == e.upper
    && !AllTop(k.upper[|e.upper|..])
  }

  /** And the lower bound is no prefix to fall back on. */
  predicate Overshoots(e: Key, k: Key) {
    Outgrows(e, k) && !(k.lower <= e.upper)
  }

  /** The key with its upper bound cut as gbt_var_union would. */
  function Cropped(e: Key): Key {
    Key(e.lower, Cut(e.upper, Cp(e) + 2))
  }

  /** What a key admits is what its cropped key can stand for, and on cut keys the
      two are one. */
  lemma {:induction false} AdmitsIsNear(e: Key, x: Bytes)
    requires Ordered(e)
    ensures Ordered(Cropped(e)) && Cp(Cropped(e)) == Cp(e)
    ensures Admits(e, x) <==> Near(Cropped(e), x)
    ensures Truncated(e) ==> Cropped(e) == e
  {
    var c, m := Cropped(e), Cp(e) + 2;
    CropOrdered(e);
    TakeLe(e.upper, m);
    TakeLe(x, m);
    hide LexCmp, CommonLen, Cut;
    if Admits(e, x) {
      TakeMono(Take(x, m), e.upper, m);
      TakeTake(x, m, m);
      LeTotal(x, c.upper);
      if !Le(x, c.upper) {
        Sandwich(Take(x, m), c.upper, x);
      }
    }
    if Near(c, x) {
      NearAdmits(e, x);
    }
  }

  lemma {:induction false} CropOrdered(e: Key)
    requires Ordered(e)
    ensures Ordered(Cropped(e)) && Cp(Cropped(e)) == Cp(e)
  {
    var n, u := Cp(e), Cropped(e).upper;
    assert u[..n] == e.upper[..n];
    CommonLenIs(e.lower, u, n);
    if n == |e.lower| {
      PrefixLe(e.lower, u);
    } else if n == |e.upper| {
      PrefixLe(e.upper, e.lower);
      LeTotal(e.lower, e.upper);
    } else {
      if e.lower[n] > e.upper[n] {
        LexDiffers(e.upper, e.lower, n);
      }
      LexDiffers(e.lower, u, n);
    }
  }

  lemma {:induction false} NearAdmits(e: Key, x: Bytes)
    requires Ordered(e) && Cp(Cropped(e)) == Cp(e) && Near(Cropped(e), x)
    ensures Admits(e, x)
  {
    var c, m := Cropped(e), Cp(e) + 2;
    TakeLe(e.upper, m);
    TakeLe(x, m);
    hide LexCmp, CommonLen;
    if Le(x, c.upper) {
      LeTrans(Take(x, m), x, c.upper);
      LeTrans(Take(x, m), c.upper, e.upper);
    } else {
      assert Take(x, m) == c.upper;
    }
  }

  /** Nothing greater than a run of 0xFF avoids having it as a prefix. */
  lemma {:induction false} TopPrefix(r: Bytes, y: Bytes)
    requires AllTop(r) && Le(r, y)
    ensures r <= y
  {
    if r != [] {
      assert y != [] && y[0] == 255;
      TopPrefix(r[1..], y[1..]);
      assert r == [r[0]] + r[1..] && y == [y[0]] + y[1..];
    }
  }

  /** Comparing extensions of a prefix is comparing what follows it. */
  lemma {:induction false} LePrefix(p: Bytes, a: Bytes, b: Bytes)
    ensures Le(p + a, p + b) <==> Le(a, b)
  {
    if p == [] {
      assert p + a == a && p + b == b;
    } else {
      assert (p + a)[1..] == p[1..] + a && (p + b)[1..] == p[1..] + b;
      LePrefix(p[1..], a, b);
    }
  }

  /** An entry that does not overshoot loses nothing ... */
  lemma {:induction false} NoOvershootSafe(e: Key, h: Key, m: nat, x: Bytes)
    requires Ordered(e) && Near(e, x) && Cp(h) <= m && Le(h.lower, e.lower) && Le(e.upper, h.upper)
    requires !Overshoots(e, NodeTruncate(h, m + 1))
    ensures Safe(NodeTruncate(h, m + 1), x)
  {
    LeTrans(h.lower, e.lower, x);
    LeTotal(x, h.upper);
    if Le(x, h.upper) {
      CutSafe(h, m, x);
    } else {
      BeyondUpper(e, h, m, x);
    }
  }

  lemma {:induction false} BeyondUpper(e: Key, h: Key, m: nat, x: Bytes)
    requires Ordered(e) && Near(e, x) && Cp(h) <= m
    requires Le(h.lower, e.lower) && Le(e.upper, h.upper) && Le(h.lower, x) && Le(h.upper, x) && !Le(x, h.upper)
    requires !Overshoots(e, NodeTruncate(h, m + 1))
    ensures Safe(NodeTruncate(h, m + 1), x)
  {
    hide LexCmp, CommonLen, Le, Near, Ordered;
    var k, p := NodeTruncate(h, m + 1), e.upper;
    ExtendsUpper(e, h, x);
    Sandwich(p, h.upper, x);
    TakeLe(h.lower, m + 2);
    TakeLe(h.upper, m + 2);
    LeTrans(k.lower, h.lower, x);
    LeTrans(k.upper, h.upper, x);
    NotEqualKeys(e, h, m);
    assert k.upper <= h.upper && p <= h.upper;
    hide Cut;
    if |k.upper| <= |p| {
      assert k.upper <= p;
    } else {
      assert p <= k.upper;
      if AllTop(k.upper[|p|..]) {
        TopUpper(p, k.upper, x);
      }
    }
  }

  lemma {:induction false} TopUpper(p: Bytes, u: Bytes, x: Bytes)
    requires p <= u && p <= x && AllTop(u[|p|..]) && Le(u, x)
    ensures u <= x
  {
    var r, y := u[|p|..], x[|p|..];
    assert u == p + r && x == p + y;
    LePrefix(p, r, y);
    TopPrefix(r, y);
  }

  /** A value above the upper bound extends it, and the bounds differ. */
  lemma {:induction false} ExtendsUpper(e: Key, h: Key, x: Bytes)
    requires Near(e, x) && Le(e.upper, h.upper) && !Le(x, h.upper)
    ensures e.upper <= x && |e.upper| >= Cp(e) + 2 && e.lower != e.upper
  {
    if Le(x, e.upper) {
      LeTrans(x, e.upper, h.upper);
    }
    CommonLenIs(e.upper, e.upper, |e.upper|);
  }

  lemma {:induction false} NotEqualKeys(e: Key, h: Key, m: nat)
    requires Ordered(e) && e.lower != e.upper && Cp(h) <= m && Le(h.lower, e.lower) && Le(e.upper, h.upper)
    ensures NodeTruncate(h, m + 1).lower != NodeTruncate(h, m + 1).upper
  {
    if NodeTruncate(h, m + 1).lower == NodeTruncate(h, m + 1).upper {
      Uncut(h, m);
      LeTrans(e.upper, h.upper, e.lower);
      LeTotal(e.lower, e.upper);
    }
  }

  /** ... and one that does could lose a value. */
  lemma {:induction false} OvershootLoses(e: Key, h: Key, m: nat) returns (x: Bytes)
    requires Ordered(e) && Cp(h) <= m && Le(h.lower, e.lower) && Le(e.upper, h.upper)
    requires Outgrows(e, NodeTruncate(h, m + 1))
    ensures Near(e, x) && !Near(NodeTruncate(h, m + 1), x)
    ensures Overshoots(e, NodeTruncate(h, m + 1)) ==> !Safe(NodeTruncate(h, m + 1), x)
  {
    var k, p := NodeTruncate(h, m + 1), e.upper;
    var r := k.upper[|p|..];
    var j :| 0 <= j < |r| && r[j] != 255;
    var y: Bytes := r[..j] + [r[j] + 1];
    x := p + y;
    assert k.upper == p + r;
    PrefixLe(p, x);
    LeTrans(e.lower, p, x);
    Raised(r, j);
    LePrefix(p, y, r);
    assert !(k.upper <= x) by {
      assert k.upper[|p| + j] == r[j] && x[|p| + j] == r[j] + 1;
    }
    if Overshoots(e, k) {
      LowerNoPrefix(e, h, m, x);
    }
  }

  /** Raising one byte goes above the original. */
  lemma {:induction false} Raised(r: Bytes, j: nat)
    requires j < |r| && r[j] != 255
    ensures !Le(r[..j] + [r[j] + 1], r)
  {
    var y := r[..j] + [r[j] + 1];
    if j > 0 {
      assert y[1..] == r[1..][..j - 1] + [r[1..][j - 1] + 1];
      Raised(r[1..], j - 1);
    }
  }

  lemma {:induction false} LowerNoPrefix(e: Key, h: Key, m: nat, x: Bytes)
    requires Ordered(e) && Le(h.lower, e.lower) && e.upper <= x && !(NodeTruncate(h, m + 1).lower <= e.upper)
    ensures !(NodeTruncate(h, m + 1).lower <= x)
  {
    var low := NodeTruncate(h, m + 1).lower;
    TakeLe(h.lower, m + 2);
    LeTrans(low, h.lower, e.lower);
    LeTrans(low, e.lower, e.upper);
    if low <= x && |low| > |e.upper| {
      assert e.upper <= low;
      PrefixLe(e.upper, low);
      LeTotal(e.upper, low);
    }
  }

  /** The exact condition for a split: the new key is safe for all values an entry
      can stand for ... */
  lemma {:induction false} SplitExact(keys: seq<Key>, m: nat, i: nat)
    requires i < |keys| && (forall j :: 0 <= j < |keys| ==> Ordered(keys[j])) && Cp(Hull(keys)) <= m
    ensures (forall x :: Near(keys[i], x) ==> Safe(HalfKey(keys, m), x)) <==> !Overshoots(keys[i], HalfKey(keys, m))
  {
    HullWide(keys);
    hide Hull;
    EntryExact(keys[i], Hull(keys), m);
  }

  /** ... or for all values the entry admits, which are more unless it was cut. */
  lemma {:induction false} SplitAdmits(keys: seq<Key>, m: nat, i: nat)
    requires i < |keys| && (forall j :: 0 <= j < |keys| ==> Ordered(keys[j])) && Cp(Hull(keys)) <= m
    ensures (forall x :: Admits(keys[i], x) ==> Safe(HalfKey(keys, m), x))
            <==> !Overshoots(Cropped(keys[i]), HalfKey(keys, m))
  {
    var e := keys[i];
    HullWide(keys);
    CropOrdered(e);
    TakeLe(e.upper, Cp(e) + 2);
    LeTrans(Cropped(e).upper, e.upper, Hull(keys).upper);
    hide Hull, Safe, Admits, Near, Overshoots;
    EntryExact(Cropped(e), Hull(keys), m);
    forall x
      ensures Admits(e, x) <==> Near(Cropped(e), x)
    {
      AdmitsIsNear(e, x);
    }
  }

  lemma {:induction false} EntryExact(e: Key, h: Key, m: nat)
    requires Ordered(e) && Cp(h) <= m && Le(h.lower, e.lower) && Le(e.upper, h.upper)
    ensures (forall x :: Near(e, x) ==> Safe(NodeTruncate(h, m + 1), x)) <==> !Overshoots(e, NodeTruncate(h, m + 1))
  {
    hide Safe, Near, Outgrows;
    if Overshoots(e, NodeTruncate(h, m + 1)) {
      var x := OvershootLoses(e, h, m);
    } else {
      forall x | Near(e, x)
        ensures Safe(NodeTruncate(h, m + 1), x)
      {
        NoOvershootSafe(e, h, m, x);
      }
    }
  }

  /** The new key stands for all values an entry stands for exactly when its upper
      bound does not outgrow the entry's. */
  lemma {:induction false} NearExact(keys: seq<Key>, m: nat, i: nat)
    requires i < |keys| && (forall j :: 0 <= j < |keys| ==> Ordered(keys[j])) && Cp(Hull(keys)) <= m
    ensures (forall x :: Near(keys[i], x) ==> Near(HalfKey(keys, m), x)) <==> !Outgrows(keys[i], HalfKey(keys, m))
  {
    var h, e := Hull(keys), keys[i];
    HullWide(keys);
    hide Near, Outgrows, Hull, Safe;
    if Outgrows(e, HalfKey(keys, m)) {
      var x := OvershootLoses(e, h, m);
    } else {
      forall x | Near(e, x)
        ensures Near(HalfKey(keys, m), x)
      {
        NearKept(e, h, m, x);
      }
    }
  }

  lemma {:induction false} NearKept(e: Key, h: Key, m: nat, x: Bytes)
    requires Ordered(e) && Ordered(h) && Near(e, x) && Cp(h) <= m && Le(h.lower, e.lower) && Le(e.upper, h.upper)
    requires !Outgrows(e, NodeTruncate(h, m + 1))
    ensures Near(NodeTruncate(h, m + 1), x)
  {
    LeTrans(h.lower, e.lower, x);
    if Le(x, h.upper) {
      CutNear(h, m, x);
    } else {
      NearBeyond(e, h, m, x);
    }
  }

  lemma {:induction false} CutNear(h: Key, m: nat, x: Bytes)
    requires Le(h.lower, x) && Le(x, h.upper) && Cp(h) <= m
    ensures Near(NodeTruncate(h, m + 1), x)
  {
    var k := NodeTruncate(h, m + 1);
    CutSafe(h, m, x);
    CommonTake(h.lower, h.upper, m + 2);
    TakeMono(x, h.upper, m + 2);
    LeTotal(x, k.upper);
    hide LexCmp, CommonLen;
    if !Le(x, k.upper) {
      assert k.upper != h.upper;
      Sandwich(Take(x, m + 2), k.upper, x);
    }
  }

  lemma {:induction false} NearBeyond(e: Key, h: Key, m: nat, x: Bytes)
    requires Ordered(e) && Near(e, x) && Cp(h) <= m && Le(h.lower, e.lower) && Le(e.upper, h.upper)
    requires Le(h.lower, x) && !Le(x, h.upper) && !Outgrows(e, NodeTruncate(h, m + 1))
    ensures Near(NodeTruncate(h, m + 1), x)
  {
    hide *;
    ExtendsUpper(e, h, x);
    LeTotal(x, h.upper);
    Sandwich(e.upper, h.upper, x);
    CommonShrinks(e, h);
    CutBeyond(e, h, m, x);
    MakeNear(NodeTruncate(h, m + 1), x);
  }

  lemma {:induction false} CutBeyond(e: Key, h: Key, m: nat, x: Bytes)
    requires e.upper <= x && e.upper <= h.upper && |e.upper| >= Cp(e) + 2 && Cp(h) <= Cp(e) && Cp(h) <= m
    requires Le(h.lower, x) && Le(h.upper, x) && !Outgrows(e, NodeTruncate(h, m + 1))
    ensures var k := NodeTruncate(h, m + 1);
            Le(k.lower, x) && k.upper <= x && |k.upper| >= Cp(k) + 2
  {
    hide *;
    var k, p := NodeTruncate(h, m + 1), e.upper;
    CutIs(h, m);
    TakeLe(h.lower, m + 2);
    TakeLe(h.upper, m + 2);
    LeTrans(k.lower, h.lower, x);
    LeTrans(k.upper, h.upper, x);
    CutPrefix(p, h.upper, m + 2, x);
    if |k.upper| > |p| {
      NotOutgrown(e, k);
      TopUpper(p, k.upper, x);
    }
  }

  lemma {:induction false} CutIs(h: Key, m: nat)
    requires Cp(h) <= m
    ensures var k := NodeTruncate(h, m + 1);
            k.lower == Take(h.lower, m + 2) && k.upper == Take(h.upper, m + 2) && Cp(k) == Cp(h)
  {
    CommonTake(h.lower, h.upper, m + 2);
    hide CommonLen, Take;
  }

  lemma {:induction false} CutPrefix(p: Bytes, u: Bytes, n: nat, x: Bytes)
    requires p <= x && p <= u
    ensures |Take(u, n)| <= |p| ==> Take(u, n) <= x
    ensures |Take(u, n)| > |p| ==> p <= Take(u, n)
  {
  }

  lemma {:induction false} NotOutgrown(e: Key, k: Key)
    requires !Outgrows(e, k) && |e.upper| >= Cp(e) + 2 && |e.upper| < |k.upper| && e.upper <= k.upper
    ensures AllTop(k.upper[|e.upper|..])
  {
    hide AllTop, Cp;
  }

  /** Wider bounds have no more in common. */
  lemma {:induction false} CommonShrinks(e: Key, h: Key)
    requires Ordered(e) && Le(h.lower, e.lower) && Le(e.upper, h.upper)
    ensures Cp(h) <= Cp(e)
  {
    LeTrans(h.lower, e.lower, e.upper);
    CommonBetween(h.lower, e.upper, h.upper);
    CommonBetween(h.lower, e.lower, e.upper);
  }

  lemma {:induction false} MakeNear(k: Key, x: Bytes)
    requires Le(k.lower, x) && k.upper <= x && |k.upper| >= Cp(k) + 2
    ensures Near(k, x)
  {
  }

  // ----- trees built by union and by splits -----

  /** The values below a page are ones its key can stand for. */
  ghost predicate NearBelow(t: Tree) {
    forall x :: Occurs(t, x) ==> Near(KeyOf(t), x)
  }

  /** A split loses nothing below an entry: its key does not overshoot, or, should
      there be values below that the key only admits, its cropped key does not. */
  ghost predicate SplitsWell(kid: Tree, key: Key) {
    !Overshoots(Cropped(KeyOf(kid)), key) || (NearBelow(kid) && !Overshoots(KeyOf(kid), key))
  }

  /** A leaf always splits well, and its key stands for its value. */
  lemma {:induction false} LeafSplits(x: Bytes, key: Key)
    ensures NearBelow(Leaf(x)) && !Outgrows(LeafKey(x), key) && SplitsWell(Leaf(x), key)
  {
    LeafAdmits(x);
    CommonLenIs(x, x, |x|);
    LeTotal(x, x);
  }

  /** The key of a union stands for everything below it ... */
  lemma {:induction false} UnionNear(kids: seq<Tree>)
    requires kids != [] && forall i :: 0 <= i < |kids| ==> Bounded(kids[i])
    ensures NearBelow(Node(UnionKey(KeysOf(kids)), kids))
  {
    var keys, t := KeysOf(kids), Node(UnionKey(KeysOf(kids)), kids);
    UnionBounds(kids);
    forall i | 0 <= i < |kids|
      ensures Ordered(keys[i])
    {
      KeyBounds(kids[i]);
    }
    UnionShape(keys);
    hide UnionKey, Admits, Safe, Ordered, Truncated, Near, Occurs;
    forall x | Occurs(t, x)
      ensures Near(t.key, x)
    {
      AdmitsIsNear(t.key, x);
    }
  }

  /** ... and so does that of a split of leaves, or of entries none of which it
      outgrows. */
  lemma {:induction false} SplitNear(kids: seq<Tree>, m: nat)
    requires kids != [] && Cp(Hull(KeysOf(kids))) <= m
    requires forall i :: 0 <= i < |kids| ==>
               Ordered(KeyOf(kids[i])) && NearBelow(kids[i]) && !Outgrows(KeyOf(kids[i]), HalfKey(KeysOf(kids), m))
    ensures NearBelow(Node(HalfKey(KeysOf(kids), m), kids))
  {
    var keys, t := KeysOf(kids), Node(HalfKey(KeysOf(kids), m), kids);
    hide HalfKey, Hull, Ordered, Outgrows, Near;
    forall x | Occurs(t, x)
      ensures Near(t.key, x)
    {
      var i :| 0 <= i < |kids| && Occurs(kids[i], x);
      NearExact(keys, m, i);
    }
  }

  /** A page of a split keeps the bounds. */
  lemma {:induction false} SplitBounds(kids: seq<Tree>, m: nat)
    requires kids != [] && (forall i :: 0 <= i < |kids| ==> Bounded(kids[i])) && Cp(Hull(KeysOf(kids))) <= m
    requires forall i :: 0 <= i < |kids| ==> SplitsWell(kids[i], HalfKey(KeysOf(kids), m))
    ensures Bounded(Node(HalfKey(KeysOf(kids), m), kids))
  {
    hide Admits, Safe, Ordered, Truncated, Overshoots, Hull, SplitsWell;
    var keys := KeysOf(kids);
    forall i | 0 <= i < |kids|
      ensures Ordered(keys[i])
    {
      KeyBounds(kids[i]);
    }
    HullWide(keys);
    TruncateOrdered(Hull(keys), m + 1);
    var t := Node(HalfKey(keys, m), kids);
    forall x | Occurs(t, x)
      ensures Admits(t.key, x) && Safe(t.key, x)
    {
      var i :| 0 <= i < |kids| && Occurs(kids[i], x);
      SplitBoundsOne(kids, m, i, x);
    }
  }

  lemma {:induction false} SplitBoundsOne(kids: seq<Tree>, m: nat, i: nat, x: Bytes)
    requires i < |kids| && Bounded(kids[i]) && Cp(Hull(KeysOf(kids))) <= m && Occurs(kids[i], x)
    requires forall j :: 0 <= j < |kids| ==> Ordered(KeyOf(kids[j]))
    requires SplitsWell(kids[i], HalfKey(KeysOf(kids), m))
    ensures Admits(HalfKey(KeysOf(kids), m), x) && Safe(HalfKey(KeysOf(kids), m), x)
  {
    hide Admits, Safe, Ordered, Overshoots, Hull, NodeTruncate, Cp, Near, Cropped;
    var keys := KeysOf(kids);
    KeyBounds(kids[i]);
    HullWide(keys);
    Widen(keys[i], Hull(keys), x);
    TruncateAdmits(Hull(keys), m + 1, x);
    SplitExact(keys, m, i);
    SplitAdmits(keys, m, i);
  }

  /** Every key comes from union, or from a split that loses nothing. */
  ghost predicate Built(t: Tree) {
    t.Node? ==>
      && t.kids != [] && (forall i :: 0 <= i < |t.kids| ==> Built(t.kids[i]))
      && (t.key == UnionKey(KeysOf(t.kids)) || exists m: nat :: SplitKeyed(t, m))
  }

  ghost predicate SplitKeyed(t: Tree, m: nat)
    requires t.Node? && t.kids != []
  {
    && Cp(Hull(KeysOf(t.kids))) <= m && t.key == HalfKey(KeysOf(t.kids), m)
    && forall i :: 0 <= i < |t.kids| ==> SplitsWell(t.kids[i], t.key)
  }

  /** In such a tree, however deep, a search finds exactly the values that satisfy
      it, for all six strategies. */
  lemma {:induction false} BuiltExact(t: Tree, s: Strategy, q: Bytes, x: Bytes)
    requires Built(t)
    ensures Finds(t, s, q, x) <==> Occurs(t, x) && Satisfies(x, s, q)
  {
    BuiltBounded(t);
    SearchExact(t, s, q, x);
  }

  lemma {:induction false} BuiltBounded(t: Tree)
    requires Built(t)
    ensures Bounded(t)
  {
    hide UnionKey, HalfKey, Hull, SplitsWell;
    if t.Node? {
      forall i | 0 <= i < |t.kids|
        ensures Bounded(t.kids[i])
      {
        BuiltBounded(t.kids[i]);
      }
      if t.key == UnionKey(KeysOf(t.kids)) {
        UnionBounds(t.kids);
      } else {
        var m: nat :| SplitKeyed(t, m);
        SplitBounds(t.kids, m);
      }
    }
  }
}
