/** A page of internal entries whose split by gbt_var_picksplit loses a stored
    value: the left half is cut at the right half's longer common prefix. */
module VarLoss {
  import opened Lexicographic
  import opened Sorting
  import opened VarKey
  import opened VarSplit

  /** A page over two leaves, keyed by union. */
  function Over(x: Bytes, y: Bytes): Tree {
    Node(UnionKey([LeafKey(x), LeafKey(y)]), [Leaf(x), Leaf(y)])
  }

  /** The key of a page over two leaves with `n` bytes in common. */
  lemma {:induction false} OverKey(x: Bytes, y: Bytes, n: nat)
    requires n < |y| && n <= |x| && x[..n] == y[..n] && (n < |x| ==> x[n] < y[n])
    ensures Over(x, y).key == Key(Take(x, n + 2), Take(y, n + 2)) && UnionKeyed(Over(x, y))
  {
    var l, r := LeafKey(x), LeafKey(y);
    if n < |x| {
      LexDiffers(x, y, n);
    } else {
      PrefixLe(x, y);
    }
    CommonLenIs(x, y, n);
    hide LexCmp, CommonLen;
    assert [l, r][..1] == [l] && Hull([l]) == l && Hull([l, r]) == Key(x, y);
    assert KeysOf([Leaf(x), Leaf(y)]) == [l, r];
  }

  /** The value that is lost, and four pages; the first holds it. */
  const LOST: Bytes := [2, 9, 8]

  function Pages(): seq<Tree> {
    [Over([1], LOST), Over([2, 9], [2, 9, 3]), Over([7, 1], [7, 2]), Over([7, 3], [7, 4])]
  }

  function Keys(): seq<Key> {
    [Key([1], [2, 9]), Key([2, 9], [2, 9, 3]), Key([7, 1], [7, 2]), Key([7, 3], [7, 4])]
  }

  lemma {:induction false} PageKey(i: nat)
    requires i < 4
    ensures KeyOf(Pages()[i]) == Keys()[i] && UnionKeyed(Pages()[i])
  {
    hide UnionKey, UnionKeyed;
    match i
    case 0 => OverKey([1], LOST, 0);
    case 1 => OverKey([2, 9], [2, 9, 3], 2);
    case 2 => OverKey([7, 1], [7, 2], 1);
    case 3 => OverKey([7, 3], [7, 4], 1);
  }

  lemma {:induction false} PageKeys()
    ensures |Pages()| == 4 == |Keys()| && KeysOf(Pages()) == Keys() && forall i :: 0 <= i < 4 ==> UnionKeyed(Pages()[i])
  {
    hide Over, UnionKeyed;
    forall i | 0 <= i < 4
      ensures KeyOf(Pages()[i]) == Keys()[i] && UnionKeyed(Pages()[i])
    {
      PageKey(i);
    }
  }

  /** The keys are in strict order, so their split is determined. */
  lemma {:induction false} InStrictOrder()
    ensures StrictBy(VsrtLe, Numbered(Keys()))
  {
    var ks := Numbered(Keys());
    hide LexCmp, VsrtLe;
    forall i, j | 0 <= i < j < |ks|
      ensures VsrtLe(ks[i], ks[j]) && !VsrtLe(ks[j], ks[i])
    {
      LowerFirst(ks[i], ks[j], if i == 2 then 1 else 0);
    }
  }

  lemma {:induction false} LowerFirst(a: Vsrt, b: Vsrt, n: nat)
    requires n < |a.t.lower| && n < |b.t.lower| && a.t.lower[..n] == b.t.lower[..n] && a.t.lower[n] < b.t.lower[n]
    ensures VsrtLe(a, b) && !VsrtLe(b, a)
  {
    LexDiffers(a.t.lower, b.t.lower, n);
  }

  lemma {:induction false} LossyHulls()
    ensures Hull(Keys()[..2]) == Key([1], [2, 9, 3]) && Cp(Hull(Keys()[..2])) == 0 && Cp(Hull(Keys()[2..])) == 1
  {
    var ks := Keys();
    LexDiffers(ks[0].lower, ks[1].lower, 0);
    PrefixLe(ks[0].upper, ks[1].upper);
    LexDiffers(ks[2].lower, ks[3].lower, 1);
    LexDiffers(ks[2].upper, ks[3].upper, 1);
    CommonLenIs([1], [2, 9, 3], 0);
    CommonLenIs([7, 1], [7, 4], 1);
    hide CommonLen, LexCmp;
    assert ks[..2][..1] == [ks[0]] && ks[2..][..1] == [ks[2]];
    assert Hull([ks[0]]) == ks[0] && Hull([ks[2]]) == ks[2];
  }

  lemma {:induction false} LossyKey(k: Key)
    requires k == Key([1], [2, 9, 3])
    ensures NodeTruncate(k, 2) == k && !Consistent(k, LOST, Equal, false)
  {
    hide LexCmp;
    LexDiffers(k.upper, LOST, 2);
    LexFlip(k.upper, LOST);
    assert k.lower[0] != LOST[0] && k.upper[2] != LOST[2];
  }

  lemma {:induction false} OverHolds(x: Bytes, y: Bytes)
    ensures Occurs(Over(x, y), y)
  {
    hide UnionKey;
    assert Over(x, y).kids[1] == Leaf(y);
  }

  lemma {:induction false} StoredFirst(key: Key)
    ensures Occurs(Node(key, Pages()[..2]), LOST)
  {
    OverHolds([1], LOST);
    var kids := Pages()[..2];
    assert kids[0] == Over([1], LOST);
    hide Over, Pages;
  }

  /** The halves of the sorted page. */
  lemma {:induction false} LossyHalves(arr: seq<Vsrt>)
    requires arr == Numbered(Keys())
    ensures |arr| == 4 && arr[0].i == 1 && arr[1].i == 2
    ensures KeysIn(arr[..2]) == Keys()[..2] && KeysIn(arr[2..]) == Keys()[2..]
  {
  }

  lemma {:induction false} LossyDatum(arr: seq<Vsrt>, v: Split)
    requires arr == Numbered(Keys()) && |arr| == 4 && SplitOf(arr, v)
    ensures v.left == [1, 2] && v.ldatum == Key([1], [2, 9, 3]) && !Consistent(v.ldatum, LOST, Equal, false)
  {
    hide Hull, Cp, Consistent, Keys, KeysIn, Numbered, NodeTruncate;
    LossyHalves(arr);
    LossyHulls();
    LossyKey(Key([1], [2, 9, 3]));
  }

  /** Splitting a page with these four entries: the first two form the left half,
      and a search of it for a value stored below its first entry finds nothing. */
  lemma {:induction false} SplitLoses(arr: seq<Vsrt>, v: Split)
    requires multiset(arr) == multiset(Numbered(Keys())) && SortedBy(VsrtLe, arr)
    requires |arr| == 4 && SplitOf(arr, v)
    ensures v.left == [1, 2]
    ensures Occurs(Node(v.ldatum, Pages()[..2]), LOST) && !Finds(Node(v.ldatum, Pages()[..2]), Equal, LOST, LOST)
  {
    hide Consistent, SortedBy, StrictBy, VsrtLe, Pages, Keys, Numbered, SplitOf, Occurs;
    InStrictOrder();
    OneArrangement(Numbered(Keys()), arr, VsrtLe);
    LossyDatum(arr, v);
    StoredFirst(v.ldatum);
  }

  /** The split of the page itself. */
  method LossySplit() returns (v: Split)
    ensures v.left == [1, 2]
    ensures Occurs(Node(v.ldatum, Pages()[..2]), LOST) && !Finds(Node(v.ldatum, Pages()[..2]), Equal, LOST, LOST)
  {
    hide *;
    PageKeys();
    var arr;
    v, arr := PickSplit(KeysOf(Pages()));
    SplitLoses(arr, v);
  }
}
