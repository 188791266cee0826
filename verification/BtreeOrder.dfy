/** The order of B-tree items with truncated attributes, and the comparisons
    amcheck makes with it. */
module BtreeOrder {
  import opened Prelude
  import opened Lexicographic

  /** The key attributes an index tuple has, and its heap TID. Attribute values
      are numbered in the order of their operator class, nulls included. */
  datatype Item = Item(atts: seq<int>, tid: Option<int>)

  /** At most `n` attributes, and a heap TID only after all of them. */
  predicate Proper(it: Item, n: nat) {
    |it.atts| <= n && (it.tid.Some? ==> |it.atts| == n)
  }

  // ----- the reference order -----

  /** Attribute `i`, the heap TID being attribute `n`; what was truncated is
      absent. */
  function At(it: Item, n: nat, i: nat): Option<int> {
    if i < |it.atts| then Some(it.atts[i]) else if i == n then it.tid else None
  }

  /** An absent attribute is minus infinity. */
  predicate AttLess(a: Option<int>, b: Option<int>) {
    b.Some? && (a.None? || a.value < b.value)
  }

  /** The first attribute in which two items differ decides. */
  ghost predicate Less(a: Item, b: Item, n: nat) {
    exists k :: 0 <= k <= n && DecidedAt(a, b, n, k)
  }

  ghost predicate DecidedAt(a: Item, b: Item, n: nat, k: nat) {
    (forall i: nat :: i < k ==> At(a, n, i) == At(b, n, i)) && AttLess(At(a, n, k), At(b, n, k))
  }

  /** The attributes that are present, in order. */
  function Present(it: Item): seq<int> {
    it.atts + if it.tid.Some? then [it.tid.value] else []
  }

  lemma {:induction false} PresentAt(it: Item, n: nat, i: nat)
    requires Proper(it, n) && i <= n
    ensures At(it, n, i) == if i < |Present(it)| then Some(Present(it)[i]) else None
    ensures |Present(it)| <= n + 1
  {
  }

  lemma {:induction false} AllPresent(it: Item, n: nat)
    requires Proper(it, n)
    ensures |Present(it)| <= n + 1 && forall i: nat :: i <= n ==> At(it, n, i) == Nth(Present(it), i)
  {
    forall i: nat | i <= n
      ensures At(it, n, i) == Nth(Present(it), i)
    {
      PresentAt(it, n, i);
    }
    PresentAt(it, n, 0);
  }

  lemma {:induction false} LexIsLess(a: Item, b: Item, n: nat)
    requires Proper(a, n) && Proper(b, n) && LexCmp(Present(a), Present(b)) < 0
    ensures Less(a, b, n)
  {
    var x, y := Present(a), Present(b);
    AllPresent(a, n);
    AllPresent(b, n);
    hide Present, At, LexCmp, CommonLen;
    LexDecides(x, y);
    var c := CommonLen(x, y);
    SamePrefix(x, y, c);
    assert DecidedAt(a, b, n, c);
  }

  lemma {:induction false} LessIsLower(a: Item, b: Item, n: nat, k: nat)
    requires Proper(a, n) && Proper(b, n) && k <= n && DecidedAt(a, b, n, k)
    ensures LexCmp(Present(a), Present(b)) < 0
  {
    var x, y := Present(a), Present(b);
    AllPresent(a, n);
    AllPresent(b, n);
    hide Present, At, LexCmp;
    SameNth(x, y, k);
    Decided(x, y, k);
  }

  /** The reference order is the lexicographic order of what is present. */
  lemma {:induction false} LessIsLex(a: Item, b: Item, n: nat)
    requires Proper(a, n) && Proper(b, n)
    ensures Less(a, b, n) <==> LexCmp(Present(a), Present(b)) < 0
  {
    hide Present, LexCmp, DecidedAt;
    if LexCmp(Present(a), Present(b)) < 0 {
      LexIsLess(a, b, n);
    }
    if Less(a, b, n) {
      var k :| 0 <= k <= n && DecidedAt(a, b, n, k);
      LessIsLower(a, b, n, k);
    }
  }

  function Nth(x: seq<int>, i: nat): Option<int> {
    if i < |x| then Some(x[i]) else None
  }

  lemma {:induction false} SamePrefix(x: seq<int>, y: seq<int>, c: nat)
    requires c <= |x| && c <= |y| && x[..c] == y[..c]
    ensures forall i: nat :: i < c ==> Nth(x, i) == Nth(y, i)
  {
    assert forall i: nat :: i < c ==> x[..c][i] == y[..c][i];
  }

  lemma {:induction false} SameNth(x: seq<int>, y: seq<int>, k: nat)
    requires k < |y| && forall i: nat :: i < k ==> Nth(x, i) == Nth(y, i)
    ensures k <= |x| && x[..k] == y[..k]
  {
    if k > 0 {
      assert Nth(x, k - 1) == Nth(y, k - 1);
      assert forall i: nat :: i < k ==> Nth(x, i) == Some(x[i]) && Nth(y, i) == Some(y[i]);
    }
  }

  /** Where a lexicographic comparison is decided. */
  lemma {:induction false} LexDecides(x: seq<int>, y: seq<int>)
    requires LexCmp(x, y) < 0
    ensures var c := CommonLen(x, y); c < |y| && (c < |x| ==> x[c] < y[c])
  {
    if x != [] && x[0] == y[0] {
      LexDecides(x[1..], y[1..]);
    }
  }

  lemma {:induction false} Decided(x: seq<int>, y: seq<int>, k: nat)
    requires k <= |x| && k < |y| && x[..k] == y[..k] && (k < |x| ==> x[k] < y[k])
    ensures LexCmp(x, y) < 0
  {
    if k < |x| {
      LexDiffers(x, y, k);
    } else {
      assert x[..k] == x;
      PrefixLe(x, y);
    }
  }

  lemma {:induction false} LessTrans(a: Item, b: Item, c: Item, n: nat)
    requires Proper(a, n) && Proper(b, n) && Proper(c, n) && Less(a, b, n) && Less(b, c, n)
    ensures Less(a, c, n)
  {
    LessIsLex(a, b, n);
    LessIsLex(b, c, n);
    LessIsLex(a, c, n);
    LexTrans(Present(a), Present(b), Present(c));
    LexFlip(Present(a), Present(b));
  }

  // ----- _bt_compare -----

  /** The loop over the attributes both have. */
  function CmpAtts(a: seq<int>, b: seq<int>): (r: int)
    ensures r == -1 || r == 0 || r == 1
  {
    if a == [] || b == [] then 0
    else if a[0] < b[0] then -1
    else if a[0] > b[0] then 1
    else CmpAtts(a[1..], b[1..])
  }

  /** _bt_compare of a pivot-search scan key made from an item, with an item that
      is not the first on an internal page. */
  function BtCompare(key: Item, it: Item): int {
    var c := CmpAtts(key.atts, it.atts);
    if c != 0 then c
    else if |key.atts| > |it.atts| then 1
    else if key.tid.None? then 0
    else if it.tid.None? then 1
    else if key.tid.value < it.tid.value then -1
    else if key.tid.value > it.tid.value then 1
    else 0
  }

  /** _bt_compare */
  method Compare(key: Item, it: Item) returns (r: int)
    ensures r == BtCompare(key, it)
  {
    var a, b := key.atts, it.atts;
    var ncmpkey := if |b| < |a| then |b| else |a|;
    for i := 0 to ncmpkey
      invariant CmpAtts(a[i..], b[i..]) == CmpAtts(a, b)
    {
      if a[i] != b[i] {
        return if a[i] < b[i] then -1 else 1;
      }
      assert a[i..][1..] == a[i + 1..] && b[i..][1..] == b[i + 1..];
    }
    assert CmpAtts(a, b) == 0;
    if |a| > |b| {
      return 1;
    }
    if key.tid.None? {
      return 0;
    }
    if it.tid.None? {
      return 1;
    }
    r := if key.tid.value < it.tid.value then -1 else if key.tid.value > it.tid.value then 1 else 0;
  }

  lemma {:induction false} CmpAttsLex(a: seq<int>, b: seq<int>, x: seq<int>, y: seq<int>)
    ensures CmpAtts(a, b) != 0 ==> LexCmp(a + x, b + y) == CmpAtts(a, b) && !(a + x <= b + y)
    ensures CmpAtts(a, b) == 0 ==> a <= b || b <= a
  {
    if a != [] && b != [] {
      assert (a + x)[1..] == a[1..] + x && (b + y)[1..] == b[1..] + y;
      if a[0] == b[0] {
        CmpAttsLex(a[1..], b[1..], x, y);
        assert a == [a[0]] + a[1..] && b == [b[0]] + b[1..];
      }
    }
  }

  /** A positive result means greater; zero means that the key is the item cut
      short or the item itself. */
  lemma {:induction false} BtCompareMeans(key: Item, it: Item, n: nat)
    requires Proper(key, n) && Proper(it, n)
    ensures BtCompare(key, it) > 0 <==> LexCmp(Present(key), Present(it)) > 0
    ensures BtCompare(key, it) == 0 <==> Present(key) <= Present(it)
  {
    var a, b := key.atts, it.atts;
    var x := if key.tid.Some? then [key.tid.value] else [];
    var y := if it.tid.Some? then [it.tid.value] else [];
    CmpAttsLex(a, b, x, y);
    if CmpAtts(a, b) != 0 {
    } else if |a| > |b| {
      assert y == [] && b + y == b && b <= a + x && !(a + x <= b);
      PrefixLe(b, a + x);
      LexFlip(a + x, b);
    } else if key.tid.None? {
      assert a + x == a && a <= b + y;
      PrefixLe(a, b + y);
    } else {
      assert a == b;
      SameAtts(a, x, y);
    }
  }

  lemma {:induction false} SameAtts(a: seq<int>, x: seq<int>, y: seq<int>)
    requires |x| == 1 && |y| <= 1
    ensures LexCmp(a + x, a + y) > 0 <==> y == [] || x[0] > y[0]
    ensures a + x <= a + y <==> x == y
  {
    if a == [] {
      assert a + x == x && a + y == y;
    } else {
      assert (a + x)[1..] == a[1..] + x && (a + y)[1..] == a[1..] + y;
      SameAtts(a[1..], x, y);
      assert x == y ==> a + x == a + y;
      assert a + x <= a + y ==> (a + x)[|a|] == (a + y)[|a|] && x == y;
    }
  }

  // ----- amcheck's comparisons on a heapkeyspace index -----

  /** invariant_l_offset */
  predicate InvariantL(key: Item, upper: Item) {
    var cmp := BtCompare(key, upper);
    if cmp == 0 then
      if |key.atts| == |upper.atts| then key.tid.None? && upper.tid.Some? else |key.atts| < |upper.atts|
    else cmp < 0
  }

  /** invariant_leq_offset */
  predicate InvariantLeq(key: Item, upper: Item) {
    BtCompare(key, upper) <= 0
  }

  /** invariant_g_offset */
  predicate InvariantG(key: Item, lower: Item) {
    BtCompare(key, lower) > 0
  }

  /** The three tests decide the reference order. */
  lemma {:induction false} InvariantsDecide(a: Item, b: Item, n: nat)
    requires Proper(a, n) && Proper(b, n)
    ensures InvariantL(a, b) <==> Less(a, b, n)
    ensures InvariantLeq(a, b) <==> !Less(b, a, n)
    ensures InvariantG(a, b) <==> Less(b, a, n)
  {
    BtCompareMeans(a, b, n);
    LessIsLex(a, b, n);
    LessIsLex(b, a, n);
    LexFlip(Present(a), Present(b));
    if BtCompare(a, b) == 0 {
      ShorterIsLess(a, b, n);
    }
    hide LexCmp, BtCompare, Less;
  }

  lemma {:induction false} ShorterIsLess(a: Item, b: Item, n: nat)
    requires Proper(a, n) && Proper(b, n) && Present(a) <= Present(b)
    ensures LexCmp(Present(a), Present(b)) < 0 <==>
            (if |a.atts| == |b.atts| then a.tid.None? && b.tid.Some? else |a.atts| < |b.atts|)
  {
    PrefixLe(Present(a), Present(b));
  }
}
