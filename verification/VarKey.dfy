/** Keys of variable length in btree_gist, for bytea: internal keys are bounds
    cut to their common prefix and two more bytes. Which searches stay safe. */
module VarKey {
  import opened Lexicographic

  type byte = b: int | 0 <= b < 256
  type Bytes = seq<byte>

  /** GBT_VARKEY_R; a leaf key has its value as both bounds. */
  datatype Key = Key(lower: Bytes, upper: Bytes)

  function LeafKey(x: Bytes): Key {
    Key(x, x)
  }

  function Cp(k: Key): nat {
    CommonLen(k.lower, k.upper)
  }

  function Cut(x: Bytes, k: nat): (r: Bytes)
    ensures r == Take(x, k)
  {
    if |x| <= k then x else x[..k]
  }

  // ----- what a key promises about the values below it -----

  /** The value is not below the lower bound, and cut to the common prefix and
      two bytes it is not above the upper one. */
  ghost predicate Admits(k: Key, x: Bytes) {
    Le(k.lower, x) && Le(Take(x, Cp(k) + 2), k.upper)
  }

  ghost predicate Ordered(k: Key) {
    Le(k.lower, k.upper)
  }

  /** As gbt_var_union leaves it. */
  ghost predicate Truncated(k: Key) {
    |k.lower| <= Cp(k) + 2 && |k.upper| <= Cp(k) + 2
  }

  // ----- operations -----

  /** gbt_var_node_cp_len for single-byte comparison. */
  method NodeCpLen(k: Key) returns (n: nat)
    ensures n == Cp(k)
  {
    var ml := if |k.lower| < |k.upper| then |k.lower| else |k.upper|;
    var i := 0;
    while i < ml
      invariant 0 <= i <= ml && k.lower[..i] == k.upper[..i]
    {
      if k.lower[i] != k.upper[i] {
        CommonLenIs(k.lower, k.upper, i);
        return i;
      }
      i := i + 1;
    }
    CommonLenIs(k.lower, k.upper, ml);
    return ml;
  }

  /** gbt_var_node_truncate: both bounds cut to `cpf` bytes and one more. */
  function NodeTruncate(k: Key, cpf: nat): Key {
    Key(Cut(k.lower, cpf + 1), Cut(k.upper, cpf + 1))
  }

  function Lower(a: Bytes, b: Bytes): Bytes {
    if LexCmp(a, b) > 0 then b else a
  }

  function Upper(a: Bytes, b: Bytes): Bytes {
    if LexCmp(a, b) < 0 then b else a
  }

  /** gbt_var_bin_union */
  function BinUnion(u: Key, e: Key): Key {
    Key(Lower(u.lower, e.lower), Upper(u.upper, e.upper))
  }

  /** The bounds of several keys, before cutting. */
  function Hull(keys: seq<Key>): Key
    requires keys != []
  {
    if |keys| == 1 then keys[0] else BinUnion(Hull(keys[..|keys| - 1]), keys[|keys| - 1])
  }

  function UnionKey(keys: seq<Key>): Key
    requires keys != []
  {
    NodeTruncate(Hull(keys), Cp(Hull(keys)) + 1)
  }

  /** gbt_var_union */
  method Union(keys: seq<Key>) returns (out: Key)
    requires keys != []
    ensures out == UnionKey(keys)
  {
    out := keys[0];
    assert keys[..1] == [keys[0]];
    for i := 1 to |keys|
      invariant out == Hull(keys[..i])
    {
      assert keys[..i + 1][..i] == keys[..i];
      out := BinUnion(out, keys[i]);
    }
    assert keys[..|keys|] == keys;
    var plen := NodeCpLen(out);
    out := NodeTruncate(out, plen + 1);
  }

  // ----- safety of union -----

  lemma {:induction false} LowerUpper(a: Bytes, b: Bytes)
    ensures Le(Lower(a, b), a) && Le(Lower(a, b), b) && Le(a, Upper(a, b)) && Le(b, Upper(a, b))
    ensures (Lower(a, b) == a || Lower(a, b) == b) && (Upper(a, b) == a || Upper(a, b) == b)
  {
    LexFlip(a, b);
  }

  /** Widening ordered bounds keeps what they admit. */
  lemma {:induction false} Widen(k: Key, w: Key, x: Bytes)
    requires Admits(k, x) && Ordered(k) && Le(w.lower, k.lower) && Le(k.upper, w.upper)
    ensures Admits(w, x) && Ordered(w)
  {
    LeTrans(w.lower, k.lower, x);
    LeTrans(w.lower, k.lower, k.upper);
    LeTrans(w.lower, k.upper, w.upper);
    CommonBetween(w.lower, k.lower, k.upper);
    CommonBetween(w.lower, k.upper, w.upper);
    var m, n := Cp(k) + 2, Cp(w) + 2;
    hide Le, CommonLen;
    TakeTake(x, n, m);
    TakeLe(Take(x, m), n);
    LeTrans(Take(x, n), Take(x, m), k.upper);
    LeTrans(Take(x, n), k.upper, w.upper);
  }

  /** The hull of ordered keys is ordered and wider than each. */
  lemma {:induction false} HullWide(keys: seq<Key>)
    requires keys != [] && forall i :: 0 <= i < |keys| ==> Ordered(keys[i])
    ensures Ordered(Hull(keys))
    ensures forall i :: 0 <= i < |keys| ==> Le(Hull(keys).lower, keys[i].lower) && Le(keys[i].upper, Hull(keys).upper)
  {
    if |keys| == 1 {
      LeTotal(keys[0].lower, keys[0].lower);
      LeTotal(keys[0].upper, keys[0].upper);
    } else {
      var n := |keys| - 1;
      var h, e := Hull(keys[..n]), keys[n];
      HullWide(keys[..n]);
      LowerUpper(h.lower, e.lower);
      LowerUpper(h.upper, e.upper);
      var u := BinUnion(h, e);
      hide Le, Lower, Upper;
      LeTrans(u.lower, h.lower, h.upper);
      LeTrans(u.lower, h.upper, u.upper);
      forall i | 0 <= i < |keys|
        ensures Le(u.lower, keys[i].lower) && Le(keys[i].upper, u.upper)
      {
        if i < n {
          assert keys[..n][i] == keys[i];
          LeTrans(u.lower, h.lower, keys[i].lower);
          LeTrans(keys[i].upper, h.upper, u.upper);
        }
      }
    }
  }

  /** Cutting beyond the common prefix and one byte keeps what a key admits. */
  lemma {:induction false} TruncateAdmits(k: Key, cpf: nat, x: Bytes)
    requires Admits(k, x) && Ordered(k) && Cp(k) + 1 <= cpf
    ensures Admits(NodeTruncate(k, cpf), x)
  {
    hide LexCmp, CommonLen, Take;
    var t, m := NodeTruncate(k, cpf), Cp(k) + 2;
    CommonTake(k.lower, k.upper, cpf + 1);
    TakeLe(k.lower, cpf + 1);
    LeTrans(t.lower, k.lower, x);
    TakeMono(Take(x, m), k.upper, cpf + 1);
    TakeTake(x, m, cpf + 1);
  }

  lemma {:induction false} TruncateOrdered(k: Key, cpf: nat)
    requires Ordered(k) && Cp(k) + 1 <= cpf
    ensures Ordered(NodeTruncate(k, cpf)) && Cp(NodeTruncate(k, cpf)) == Cp(k)
  {
    hide LexCmp, CommonLen, Take;
    CommonTake(k.lower, k.upper, cpf + 1);
    TakeMono(k.lower, k.upper, cpf + 1);
  }

  /** gbt_var_union loses nothing: the new key admits every value one of the old
      keys admits, through any number of levels. */
  lemma {:induction false} UnionAdmits(keys: seq<Key>, i: nat, x: Bytes)
    requires i < |keys| && Admits(keys[i], x) && forall j :: 0 <= j < |keys| ==> Ordered(keys[j])
    ensures Admits(UnionKey(keys), x)
  {
    var h := Hull(keys);
    HullWide(keys);
    Widen(keys[i], h, x);
    TruncateAdmits(h, Cp(h) + 1, x);
  }

  lemma {:induction false} UnionShape(keys: seq<Key>)
    requires keys != [] && forall j :: 0 <= j < |keys| ==> Ordered(keys[j])
    ensures Ordered(UnionKey(keys)) && Truncated(UnionKey(keys))
  {
    var h := Hull(keys);
    HullWide(keys);
    TruncateOrdered(h, Cp(h) + 1);
  }

  lemma {:induction false} LeafAdmits(x: Bytes)
    ensures Admits(LeafKey(x), x) && Ordered(LeafKey(x)) && Truncated(LeafKey(x))
  {
    LeTotal(x, x);
    CommonLenIs(x, x, |x|);
  }

  // ----- consistent -----

  datatype Strategy = LessEqual | Less | Equal | Greater | GreaterEqual | NotEqual

  /** What the operators mean for a stored value. */
  predicate Satisfies(x: Bytes, s: Strategy, q: Bytes) {
    match s
    case LessEqual => LexCmp(x, q) <= 0
    case Less => LexCmp(x, q) < 0
    case Equal => x == q
    case Greater => LexCmp(x, q) > 0
    case GreaterEqual => LexCmp(x, q) >= 0
    case NotEqual => x != q
  }

  /** gbt_bytea_pf_match */
  predicate PfMatch(pf: Bytes, query: Bytes) {
    |pf| <= |query| && query[..|pf|] == pf
  }

  /** gbt_var_node_pf_match for a type whose keys are cut. */
  predicate NodePfMatch(k: Key, query: Bytes) {
    PfMatch(k.lower, query) || PfMatch(k.upper, query)
  }

  /** gbt_var_consistent */
  predicate Consistent(k: Key, q: Bytes, s: Strategy, isLeaf: bool) {
    match s
    case LessEqual => if isLeaf then LexCmp(q, k.lower) >= 0 else LexCmp(q, k.lower) >= 0 || NodePfMatch(k, q)
    case Less => if isLeaf then LexCmp(q, k.lower) > 0 else LexCmp(q, k.lower) >= 0 || NodePfMatch(k, q)
    case Equal =>
      if isLeaf then q == k.lower
      else (LexCmp(k.lower, q) <= 0 && LexCmp(q, k.upper) <= 0) || NodePfMatch(k, q)
    case Greater => if isLeaf then LexCmp(q, k.upper) < 0 else LexCmp(q, k.upper) <= 0 || NodePfMatch(k, q)
    case GreaterEqual => if isLeaf then LexCmp(q, k.upper) <= 0 else LexCmp(q, k.upper) <= 0 || NodePfMatch(k, q)
    case NotEqual => !(q == k.lower && q == k.upper)
  }

  /** On a leaf key the test is exact, so nothing is rechecked. */
  lemma {:induction false} LeafExact(x: Bytes, s: Strategy, q: Bytes)
    ensures Consistent(LeafKey(x), q, s, true) <==> Satisfies(x, s, q)
  {
    LexFlip(x, q);
  }

  /** Exactly when an internal key is searched: for "less" when its lower bound is no
      greater than the query, for "greater" when the query is not above its upper
      bound or one of the bounds is a prefix of it, for equality when both, and for
      "not equal" unless both bounds are the query. */
  lemma {:induction false} TestExactly(k: Key, q: Bytes)
    requires Ordered(k)
    ensures var low, high := Le(k.lower, q), Le(q, k.upper) || k.lower <= q || k.upper <= q;
            && (Consistent(k, q, LessEqual, false) <==> low) && (Consistent(k, q, Less, false) <==> low)
            && (Consistent(k, q, GreaterEqual, false) <==> high) && (Consistent(k, q, Greater, false) <==> high)
            && (Consistent(k, q, Equal, false) <==> low && high)
            && (Consistent(k, q, NotEqual, false) <==> k != Key(q, q))
  {
    LexFlip(k.lower, q);
    if k.lower <= q {
      PrefixLe(k.lower, q);
    }
    if k.upper <= q {
      PrefixLe(k.upper, q);
      LeTrans(k.lower, k.upper, q);
    }
    hide LexCmp;
  }

  /** The values for which an internal key never rejects a search. */
  ghost predicate Safe(k: Key, x: Bytes) {
    && Le(k.lower, x) && (Le(x, k.upper) || k.upper <= x || k.lower <= x)
    && (k.lower == k.upper ==> x == k.lower)
  }

  ghost predicate NeverRejects(k: Key, x: Bytes) {
    forall s: Strategy, q: Bytes :: Satisfies(x, s, q) ==> Consistent(k, q, s, false)
  }

  lemma {:induction false} SafeAccepts(k: Key, x: Bytes, s: Strategy, q: Bytes)
    requires Ordered(k) && Safe(k, x) && Satisfies(x, s, q)
    ensures Consistent(k, q, s, false)
  {
    match s
    case LessEqual => LeTrans(k.lower, x, q); LexFlip(k.lower, q);
    case Less => LeTrans(k.lower, x, q); LexFlip(k.lower, q);
    case Equal =>
    case Greater => LexFlip(x, q); SafeAbove(k, x, q);
    case GreaterEqual => LexFlip(x, q); SafeAbove(k, x, q);
    case NotEqual =>
  }

  lemma {:induction false} SafeAbove(k: Key, x: Bytes, q: Bytes)
    requires Ordered(k) && Safe(k, x) && Le(q, x)
    ensures LexCmp(q, k.upper) <= 0 || NodePfMatch(k, q)
  {
    LeTotal(q, k.upper);
    if !Le(q, k.upper) {
      if Le(x, k.upper) {
        LeTrans(q, x, k.upper);
      } else if k.upper <= x {
        Sandwich(k.upper, q, x);
      } else {
        LeTrans(k.lower, k.upper, q);
        Sandwich(k.lower, q, x);
      }
    }
  }

  /** The exact condition for pruning with an internal key to be harmless. */
  lemma {:induction false} SafeExactly(k: Key, x: Bytes)
    requires Ordered(k)
    ensures NeverRejects(k, x) <==> Safe(k, x)
  {
    if Safe(k, x) {
      forall s: Strategy, q: Bytes | Satisfies(x, s, q)
        ensures Consistent(k, q, s, false)
      {
        SafeAccepts(k, x, s, q);
      }
    }
    if NeverRejects(k, x) {
      LeTotal(x, x);
      assert Satisfies(x, LessEqual, x) && Satisfies(x, Equal, x);
      assert Consistent(k, x, LessEqual, false) && Consistent(k, x, Equal, false);
      if k.lower == k.upper && x != k.lower {
        assert Satisfies(x, NotEqual, k.lower);
        assert Consistent(k, k.lower, NotEqual, false);
      }
      if k.upper <= x {
        PrefixLe(k.upper, x);
        LeTrans(k.lower, k.upper, x);
      }
      if k.lower <= x {
        PrefixLe(k.lower, x);
      }
      LexFlip(k.lower, x);
    }
  }

  /** A cut key is safe for whatever it admits. */
  lemma {:induction false} AdmitsSafe(k: Key, x: Bytes)
    requires Ordered(k) && Truncated(k) && Admits(k, x)
    ensures Safe(k, x)
  {
    var m := Cp(k) + 2;
    LeTotal(x, k.upper);
    if !Le(x, k.upper) {
      Sandwich(Take(x, m), k.upper, x);
      assert k.upper == Take(x, m);
    }
    if k.lower == k.upper {
      CommonLenIs(k.lower, k.upper, |k.lower|);
      LeTotal(x, k.lower);
    }
  }

  // ----- trees keyed by union -----

  datatype Tree = Leaf(value: Bytes) | Node(key: Key, kids: seq<Tree>)

  function KeyOf(t: Tree): Key {
    match t
    case Leaf(x) => LeafKey(x)
    case Node(k, _) => k
  }

  function KeysOf(kids: seq<Tree>): (ks: seq<Key>)
    ensures |ks| == |kids| && forall i :: 0 <= i < |kids| ==> ks[i] == KeyOf(kids[i])
  {
    seq(|kids|, i requires 0 <= i < |kids| => KeyOf(kids[i]))
  }

  ghost predicate Occurs(t: Tree, x: Bytes) {
    match t
    case Leaf(v) => v == x
    case Node(_, kids) => exists i :: 0 <= i < |kids| && Occurs(kids[i], x)
  }

  /** Every internal key comes from gbt_var_union over the keys below it. */
  ghost predicate UnionKeyed(t: Tree) {
    t.Node? ==>
      && t.kids != [] && t.key == UnionKey(KeysOf(t.kids))
      && forall i :: 0 <= i < |t.kids| ==> UnionKeyed(t.kids[i])
  }

  /** Every internal key is ordered, and admits and never rejects the values below it. */
  ghost predicate Bounded(t: Tree) {
    t.Node? ==>
      && Ordered(t.key) && (forall i :: 0 <= i < |t.kids| ==> Bounded(t.kids[i]))
      && (forall x :: Occurs(t, x) ==> Admits(t.key, x) && Safe(t.key, x))
  }

  lemma {:induction false} KeyBounds(t: Tree)
    requires Bounded(t)
    ensures Ordered(KeyOf(t)) && forall x :: Occurs(t, x) ==> Admits(KeyOf(t), x)
  {
    if t.Leaf? {
      LeafAdmits(t.value);
    }
  }

  /** A key formed by union over bounded trees bounds them all. */
  lemma {:induction false} UnionBounds(kids: seq<Tree>)
    requires kids != [] && forall i :: 0 <= i < |kids| ==> Bounded(kids[i])
    ensures Bounded(Node(UnionKey(KeysOf(kids)), kids))
  {
    var keys := KeysOf(kids);
    forall i | 0 <= i < |kids|
      ensures Ordered(keys[i])
    {
      KeyBounds(kids[i]);
    }
    UnionShape(keys);
    var t := Node(UnionKey(keys), kids);
    hide UnionKey, Admits, Safe, Ordered, Truncated;
    forall x | Occurs(t, x)
      ensures Admits(t.key, x) && Safe(t.key, x)
    {
      var i :| 0 <= i < |kids| && Occurs(kids[i], x);
      KeyBounds(kids[i]);
      UnionAdmits(keys, i, x);
      AdmitsSafe(t.key, x);
    }
  }

  lemma {:induction false} UnionKeyedBounded(t: Tree)
    requires UnionKeyed(t)
    ensures Bounded(t)
  {
    if t.Node? {
      forall i | 0 <= i < |t.kids|
        ensures Bounded(t.kids[i])
      {
        UnionKeyedBounded(t.kids[i]);
      }
      UnionBounds(t.kids);
    }
  }

  /** An insertion that widens the page's key by union keeps the bounds. */
  lemma {:induction false} InsertBounded(t: Tree, e: Tree)
    requires t.Node? && Bounded(t) && Bounded(e)
    ensures Bounded(Node(UnionKey([t.key, KeyOf(e)]), t.kids + [e]))
  {
    KeyBounds(e);
    var keys, r := [t.key, KeyOf(e)], Node(UnionKey([t.key, KeyOf(e)]), t.kids + [e]);
    UnionShape(keys);
    hide UnionKey, Admits, Safe, Ordered, Truncated;
    forall x | Occurs(r, x)
      ensures Admits(r.key, x) && Safe(r.key, x)
    {
      var i :| 0 <= i < |r.kids| && Occurs(r.kids[i], x);
      if i < |t.kids| {
        assert Occurs(t, x) by { assert r.kids[i] == t.kids[i]; }
        UnionAdmits(keys, 0, x);
      } else {
        UnionAdmits(keys, 1, x);
      }
      AdmitsSafe(r.key, x);
    }
  }

  /** A search descends where the key is consistent; leaves are decided exactly. */
  ghost predicate Finds(t: Tree, s: Strategy, q: Bytes, x: Bytes) {
    match t
    case Leaf(v) => Consistent(LeafKey(v), q, s, true) && v == x
    case Node(k, kids) => Consistent(k, q, s, false) && exists i :: 0 <= i < |kids| && Finds(kids[i], s, q, x)
  }

  /** For all six strategies a search finds exactly the values that satisfy it. */
  lemma {:induction false} SearchExact(t: Tree, s: Strategy, q: Bytes, x: Bytes)
    requires Bounded(t)
    ensures Finds(t, s, q, x) <==> Occurs(t, x) && Satisfies(x, s, q)
  {
    if t.Leaf? {
      LeafExact(t.value, s, q);
    } else {
      hide Consistent, Satisfies, Admits, Safe;
      if Occurs(t, x) && Satisfies(x, s, q) {
        SafeAccepts(t.key, x, s, q);
        var i :| 0 <= i < |t.kids| && Occurs(t.kids[i], x);
        SearchExact(t.kids[i], s, q, x);
      }
      if Finds(t, s, q, x) {
        var i :| 0 <= i < |t.kids| && Finds(t.kids[i], s, q, x);
        SearchExact(t.kids[i], s, q, x);
      }
    }
  }
}
