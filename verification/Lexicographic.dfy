/** The lexicographic order of sequences of numbers, a prefix coming first. */
module Lexicographic {

  function LexCmp(a: seq<int>, b: seq<int>): (r: int)
    ensures r == -1 || r == 0 || r == 1
    ensures r == 0 <==> a == b
  {
    if a == [] || b == [] then if a != [] then 1 else if b != [] then -1 else 0
    else if a[0] != b[0] then if a[0] < b[0] then -1 else 1
    else
      assert a == [a[0]] + a[1..] && b == [b[0]] + b[1..];
      LexCmp(a[1..], b[1..])
  }

  lemma {:induction false} LexFlip(a: seq<int>, b: seq<int>)
    ensures LexCmp(a, b) == -LexCmp(b, a)
  {
    if a != [] && b != [] && a[0] == b[0] {
      LexFlip(a[1..], b[1..]);
    }
  }

  lemma {:induction false} LexTrans(a: seq<int>, b: seq<int>, c: seq<int>)
    requires LexCmp(a, b) <= 0 && LexCmp(b, c) <= 0
    ensures LexCmp(a, c) <= 0
  {
    if a != [] && b != [] && c != [] && a[0] == b[0] == c[0] {
      LexTrans(a[1..], b[1..], c[1..]);
    }
  }

  lemma {:induction false} LexHead(x: int, a: seq<int>, b: seq<int>)
    ensures LexCmp([x] + a, [x] + b) == LexCmp(a, b)
  {
    assert ([x] + a)[1..] == a && ([x] + b)[1..] == b;
  }

  /** The first difference decides. */
  lemma {:induction false} LexDiffers(a: seq<int>, b: seq<int>, n: nat)
    requires n < |a| && n < |b| && a[..n] == b[..n] && a[n] < b[n]
    ensures LexCmp(a, b) == -1 && LexCmp(b, a) == 1
  {
    if n > 0 {
      assert a[..n][0] == b[..n][0];
      assert a[1..][..n - 1] == a[..n][1..] && b[1..][..n - 1] == b[..n][1..];
      LexDiffers(a[1..], b[1..], n - 1);
    }
  }

  ghost predicate Le(a: seq<int>, b: seq<int>) {
    LexCmp(a, b) <= 0
  }

  lemma {:induction false} LeTrans(a: seq<int>, b: seq<int>, c: seq<int>)
    requires Le(a, b) && Le(b, c)
    ensures Le(a, c)
  {
    LexTrans(a, b, c);
  }

  lemma {:induction false} LeTotal(a: seq<int>, b: seq<int>)
    ensures Le(a, b) || Le(b, a)
    ensures Le(a, b) && Le(b, a) ==> a == b
  {
    LexFlip(a, b);
  }

  lemma {:induction false} PrefixLe(a: seq<int>, b: seq<int>)
    requires a <= b
    ensures Le(a, b)
  {
    if a != [] {
      PrefixLe(a[1..], b[1..]);
    }
  }

  /** At most the first `k` elements. */
  function Take(a: seq<int>, k: nat): (r: seq<int>)
    ensures r <= a && |r| == if |a| < k then |a| else k
  {
    if |a| <= k then a else a[..k]
  }

  lemma {:induction false} TakeLe(a: seq<int>, k: nat)
    ensures Le(Take(a, k), a)
  {
    PrefixLe(Take(a, k), a);
  }

  lemma {:induction false} TakeHead(a: seq<int>, k: nat)
    requires a != [] && k > 0
    ensures Take(a, k) != [] && Take(a, k)[0] == a[0] && Take(a, k)[1..] == Take(a[1..], k - 1)
  {
  }

  /** Cutting keeps the order. */
  lemma {:induction false} TakeMono(a: seq<int>, b: seq<int>, k: nat)
    requires Le(a, b)
    ensures Le(Take(a, k), Take(b, k))
  {
    if a != [] && b != [] && k > 0 {
      TakeHead(a, k);
      TakeHead(b, k);
      if a[0] == b[0] {
        TakeMono(a[1..], b[1..], k - 1);
      }
    }
  }

  lemma {:induction false} TakeTake(a: seq<int>, j: nat, k: nat)
    requires j <= k
    ensures Take(Take(a, j), k) == Take(a, j) && Take(Take(a, k), j) == Take(a, j)
  {
  }

  /** What lies between a sequence and one of its extensions extends it too. */
  lemma {:induction false} Sandwich(p: seq<int>, u: seq<int>, q: seq<int>)
    requires p <= q && Le(p, u) && Le(u, q)
    ensures p <= u
  {
    if p != [] {
      Sandwich(p[1..], u[1..], q[1..]);
      assert p == [p[0]] + p[1..] && u == [u[0]] + u[1..];
    }
  }

  /** The length of the common prefix. */
  function CommonLen(a: seq<int>, b: seq<int>): (n: nat)
    ensures n <= |a| && n <= |b| && a[..n] == b[..n]
    ensures n < |a| && n < |b| ==> a[n] != b[n]
  {
    if a == [] || b == [] || a[0] != b[0] then 0
    else
      var n := CommonLen(a[1..], b[1..]);
      assert a[..n + 1] == [a[0]] + a[1..][..n] && b[..n + 1] == [b[0]] + b[1..][..n];
      n + 1
  }

  lemma {:induction false} CommonLenIs(a: seq<int>, b: seq<int>, n: nat)
    requires n <= |a| && n <= |b| && a[..n] == b[..n] && (n < |a| && n < |b| ==> a[n] != b[n])
    ensures n == CommonLen(a, b)
  {
    var m := CommonLen(a, b);
    assert forall i :: 0 <= i < n ==> a[..n][i] == b[..n][i];
    assert forall i :: 0 <= i < m ==> a[..m][i] == b[..m][i];
  }

  /** Everything between two sequences shares their common prefix. */
  lemma {:induction false} CommonBetween(a: seq<int>, b: seq<int>, c: seq<int>)
    requires Le(a, b) && Le(b, c)
    ensures CommonLen(a, c) <= CommonLen(a, b) && CommonLen(a, c) <= CommonLen(b, c)
  {
    if a != [] && c != [] && a[0] == c[0] {
      assert b != [] && b[0] == a[0];
      CommonBetween(a[1..], b[1..], c[1..]);
    }
  }

  /** Cutting beyond the common prefix does not change it. */
  lemma {:induction false} CommonTake(a: seq<int>, b: seq<int>, k: nat)
    requires CommonLen(a, b) < k
    ensures CommonLen(Take(a, k), Take(b, k)) == CommonLen(a, b)
  {
    var n, x, y := CommonLen(a, b), Take(a, k), Take(b, k);
    assert x[..n] == a[..n] && y[..n] == b[..n];
    CommonLenIs(x, y, n);
  }
}
