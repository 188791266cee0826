/** Boxes of mixed dimension, a missing dimension being read as zero: union,
    the pruning tests of the GiST opclass, and the distances that order a
    nearest-neighbour search. Coordinates are real numbers. */
module Cube {
  import opened Prelude

  /** A box: corner coordinates per dimension, in either order; a point stores
      only one corner. */
  datatype NDBox = NDBox(point: bool, dim: nat, x: seq<real>)

  predicate Valid(c: NDBox) {
    |c.x| == if c.point then c.dim else 2 * c.dim
  }

  function LL(c: NDBox, i: nat): real
    requires Valid(c) && i < c.dim
  {
    c.x[i]
  }

  function UR(c: NDBox, i: nat): real
    requires Valid(c) && i < c.dim
  {
    if c.point then c.x[i] else c.x[i + c.dim]
  }

  function Min(a: real, b: real): real {
    if a < b then a else b
  }

  function Max(a: real, b: real): real {
    if a > b then a else b
  }

  function MaxDim(a: NDBox, b: NDBox): nat {
    if a.dim < b.dim then b.dim else a.dim
  }

  /** The interval in every dimension. */
  function Lo(c: NDBox, i: nat): real
    requires Valid(c)
  {
    if i < c.dim then Min(LL(c, i), UR(c, i)) else 0.0
  }

  function Hi(c: NDBox, i: nat): real
    requires Valid(c)
  {
    if i < c.dim then Max(LL(c, i), UR(c, i)) else 0.0
  }

  lemma {:induction false} LoHi(c: NDBox, i: nat)
    requires Valid(c)
    ensures Lo(c, i) <= Hi(c, i)
  {
  }

  // ----- union -----

  /** `r` is the smallest box around both. */
  ghost predicate IsUnion(r: NDBox, a: NDBox, b: NDBox)
    requires Valid(a) && Valid(b) && Valid(r)
  {
    r.dim == MaxDim(a, b) &&
    forall i: nat :: Lo(r, i) == Min(Lo(a, i), Lo(b, i)) && Hi(r, i) == Max(Hi(a, i), Hi(b, i))
  }

  /** cube_union_v0; `same` says that both arguments are one object. */
  method Union(a: NDBox, b: NDBox, same: bool) returns (r: NDBox)
    requires Valid(a) && Valid(b) && (same ==> a == b)
    ensures Valid(r) && IsUnion(r, a, b)
  {
    if same {
      return a;
    }
    if a.dim < b.dim {
      r := UnionLarger(b, a);
    } else {
      r := UnionLarger(a, b);
    }
  }

  /** The coordinates of the union when the first has no fewer dimensions. */
  method UnionLarger(a: NDBox, b: NDBox) returns (r: NDBox)
    requires Valid(a) && Valid(b) && a.dim >= b.dim
    ensures Valid(r) && IsUnion(r, a, b) && IsUnion(r, b, a)
  {
    var x := new real[2 * a.dim](_ => 0.0);
    hide LL, UR;
    for i := 0 to b.dim
      invariant forall k: nat :: k < i ==> x[k] == Min(Lo(a, k), Lo(b, k)) && x[k + a.dim] == Max(Hi(a, k), Hi(b, k))
    {
      x[i] := Min(Min(LL(a, i), UR(a, i)), Min(LL(b, i), UR(b, i)));
      x[i + a.dim] := Max(Max(LL(a, i), UR(a, i)), Max(LL(b, i), UR(b, i)));
    }
    for i := b.dim to a.dim
      invariant forall k: nat :: k < i ==> x[k] == Min(Lo(a, k), Lo(b, k)) && x[k + a.dim] == Max(Hi(a, k), Hi(b, k))
    {
      x[i] := Min(0.0, Min(LL(a, i), UR(a, i)));
      x[i + a.dim] := Max(0.0, Max(LL(a, i), UR(a, i)));
    }
    r := NDBox(false, a.dim, x[..]);
    UnionBox(a, b, r);
    var point := IsPoint(r);
    if point {
      PointBox(r, NDBox(true, a.dim, x[..a.dim]));
      r := NDBox(true, a.dim, x[..a.dim]);
    }
  }

  lemma {:induction false} UnionBox(a: NDBox, b: NDBox, r: NDBox)
    requires Valid(a) && Valid(b) && Valid(r) && !r.point && r.dim == a.dim >= b.dim
    requires forall k: nat :: k < a.dim ==>
               r.x[k] == Min(Lo(a, k), Lo(b, k)) && r.x[k + a.dim] == Max(Hi(a, k), Hi(b, k))
    ensures IsUnion(r, a, b) && IsUnion(r, b, a)
  {
    forall i: nat
      ensures Lo(r, i) == Min(Lo(a, i), Lo(b, i)) && Hi(r, i) == Max(Hi(a, i), Hi(b, i))
    {
      LoHi(a, i);
      LoHi(b, i);
    }
  }

  /** cube_is_point_internal */
  method IsPoint(c: NDBox) returns (point: bool)
    requires Valid(c)
    ensures point <==> forall i: nat :: i < c.dim ==> LL(c, i) == UR(c, i)
  {
    if c.point {
      return true;
    }
    for i := 0 to c.dim
      invariant forall k: nat :: k < i ==> LL(c, k) == UR(c, k)
    {
      if LL(c, i) != UR(c, i) {
        return false;
      }
    }
    return true;
  }

  /** Storing a degenerate box as a point does not change it. */
  lemma {:induction false} PointBox(r: NDBox, p: NDBox)
    requires Valid(r) && !r.point && p == NDBox(true, r.dim, r.x[..r.dim])
    requires forall i: nat :: i < r.dim ==> LL(r, i) == UR(r, i)
    ensures forall i: nat :: Lo(p, i) == Lo(r, i) && Hi(p, i) == Hi(r, i)
  {
  }

  // ----- covering -----

  /** The key's box contains the member's in every dimension. */
  ghost predicate Covers(key: NDBox, m: NDBox)
    requires Valid(key) && Valid(m)
  {
    m.dim <= key.dim && forall i: nat :: Lo(key, i) <= Lo(m, i) && Hi(m, i) <= Hi(key, i)
  }

  lemma {:induction false} UnionCovers(r: NDBox, a: NDBox, b: NDBox)
    requires Valid(a) && Valid(b) && Valid(r) && IsUnion(r, a, b)
    ensures Covers(r, a) && Covers(r, b)
  {
    hide Lo, Hi;
  }

  lemma {:induction false} CoversTrans(a: NDBox, b: NDBox, c: NDBox)
    requires Valid(a) && Valid(b) && Valid(c) && Covers(a, b) && Covers(b, c)
    ensures Covers(a, c)
  {
    hide Lo, Hi;
  }

  /** What covers both arguments covers their union. */
  lemma {:induction false} UnionLeast(r: NDBox, a: NDBox, b: NDBox, c: NDBox)
    requires Valid(a) && Valid(b) && Valid(r) && IsUnion(r, a, b) && Valid(c) && Covers(c, a) && Covers(c, b)
    ensures Covers(c, r)
  {
    hide Lo, Hi;
  }

  ghost predicate CoversAll(c: NDBox, entries: seq<NDBox>)
    requires Valid(c) && forall i :: 0 <= i < |entries| ==> Valid(entries[i])
  {
    forall i :: 0 <= i < |entries| ==> Covers(c, entries[i])
  }

  /** The smallest box that covers all entries. */
  ghost predicate Bounds(r: NDBox, entries: seq<NDBox>)
    requires forall i :: 0 <= i < |entries| ==> Valid(entries[i])
  {
    Valid(r) && CoversAll(r, entries) && forall c :: Valid(c) && CoversAll(c, entries) ==> Covers(c, r)
  }

  /** g_cube_union. A single entry gives a null pointer: the caller passes two or
      more. */
  method GUnion(entries: seq<NDBox>) returns (out: Option<NDBox>)
    requires entries != [] && forall i :: 0 <= i < |entries| ==> Valid(entries[i])
    ensures out.None? <==> |entries| == 1
    ensures out.Some? ==> Bounds(out.value, entries)
  {
    var tmp := entries[0];
    out := None;
    hide *;
    OneBounds(entries);
    for i := 1 to |entries|
      invariant Valid(tmp) && Bounds(tmp, entries[..i])
      invariant if i == 1 then out == None else out == Some(tmp)
    {
      var r := Union(tmp, entries[i], false);
      NextBounds(r, tmp, entries, i);
      out := Some(r);
      tmp := r;
    }
    assert entries[..|entries|] == entries;
  }

  lemma {:induction false} OneBounds(entries: seq<NDBox>)
    requires entries != [] && Valid(entries[0])
    ensures Bounds(entries[0], entries[..1])
  {
    hide Lo, Hi;
  }

  lemma {:induction false} NextBounds(r: NDBox, tmp: NDBox, entries: seq<NDBox>, i: nat)
    requires (forall i :: 0 <= i < |entries| ==> Valid(entries[i])) && i < |entries| && Bounds(tmp, entries[..i])
    requires Valid(r) && IsUnion(r, tmp, entries[i])
    ensures Bounds(r, entries[..i + 1])
  {
    hide Covers, IsUnion;
    var more := entries[..i + 1];
    assert more[i] == entries[i] && forall j :: 0 <= j < i ==> more[j] == entries[..i][j];
    UnionCovers(r, tmp, entries[i]);
    forall j | 0 <= j < |more|
      ensures Covers(r, more[j])
    {
      if j < i {
        CoversTrans(r, tmp, more[j]);
      }
    }
    forall c | Valid(c) && CoversAll(c, more)
      ensures Covers(c, r)
    {
      assert CoversAll(c, entries[..i]) && Covers(c, more[i]);
      UnionLeast(r, tmp, entries[i], c);
    }
  }

  // ----- tests -----

  /** Two boxes meet in a dimension. */
  predicate Meets(a: NDBox, b: NDBox, i: nat)
    requires Valid(a) && Valid(b)
  {
    Lo(a, i) <= Hi(b, i) && Lo(b, i) <= Hi(a, i)
  }

  ghost predicate Overlaps(a: NDBox, b: NDBox)
    requires Valid(a) && Valid(b)
  {
    forall i: nat :: Meets(a, b, i)
  }

  /** cube_overlap_v0 */
  method Overlap(a: NDBox, b: NDBox) returns (r: bool)
    requires Valid(a) && Valid(b)
    ensures r <==> Overlaps(a, b)
  {
    if a.dim < b.dim {
      r := OverlapLarger(b, a);
      assert Overlaps(b, a) <==> Overlaps(a, b) by { OverlapsFlip(a, b); OverlapsFlip(b, a); }
    } else {
      r := OverlapLarger(a, b);
    }
  }

  lemma {:induction false} OverlapsFlip(a: NDBox, b: NDBox)
    requires Valid(a) && Valid(b)
    ensures Overlaps(a, b) ==> Overlaps(b, a)
  {
    hide Lo, Hi;
    if Overlaps(a, b) {
      forall i: nat
        ensures Meets(b, a, i)
      {
        assert Meets(a, b, i);
      }
    }
  }

  method OverlapLarger(a: NDBox, b: NDBox) returns (r: bool)
    requires Valid(a) && Valid(b) && a.dim >= b.dim
    ensures r <==> Overlaps(a, b)
  {
    for i := 0 to b.dim
      invariant forall k: nat :: k < i ==> Meets(a, b, k)
    {
      if Min(LL(a, i), UR(a, i)) > Max(LL(b, i), UR(b, i)) || Max(LL(a, i), UR(a, i)) < Min(LL(b, i), UR(b, i)) {
        assert !Meets(a, b, i);
        return false;
      }
    }
    for i := b.dim to a.dim
      invariant forall k: nat :: k < i ==> Meets(a, b, k)
    {
      if Min(LL(a, i), UR(a, i)) > 0.0 || Max(LL(a, i), UR(a, i)) < 0.0 {
        assert !Meets(a, b, i);
        return false;
      }
    }
    forall i: nat | i >= a.dim
      ensures Meets(a, b, i)
    {
      BeyondMeets(a, b, i);
    }
    return true;
  }

  lemma {:induction false} BeyondMeets(a: NDBox, b: NDBox, i: nat)
    requires Valid(a) && Valid(b) && i >= MaxDim(a, b)
    ensures Meets(a, b, i)
  {
  }

  /** What cube_contains_v0 looks at: dimensions that only the first box has are
      ignored. */
  predicate Holds(a: NDBox, b: NDBox, i: nat)
    requires Valid(a) && Valid(b)
  {
    i >= b.dim || (Lo(a, i) <= Lo(b, i) && Hi(b, i) <= Hi(a, i))
  }

  ghost predicate Contains(a: NDBox, b: NDBox)
    requires Valid(a) && Valid(b)
  {
    forall i: nat :: i < b.dim ==> Holds(a, b, i)
  }

  /** cube_contains_v0 */
  method CubeContains(a: NDBox, b: NDBox) returns (r: bool)
    requires Valid(a) && Valid(b)
    ensures r <==> Contains(a, b)
  {
    if a.dim < b.dim {
      for i := a.dim to b.dim
        invariant forall k: nat :: a.dim <= k < i ==> Holds(a, b, k)
      {
        if LL(b, i) != 0.0 || UR(b, i) != 0.0 {
          assert !Holds(a, b, i);
          return false;
        }
      }
    }
    var n := if a.dim < b.dim then a.dim else b.dim;
    for i := 0 to n
      invariant forall k: nat :: k < i || a.dim <= k < b.dim ==> Holds(a, b, k)
    {
      if Min(LL(a, i), UR(a, i)) > Min(LL(b, i), UR(b, i)) || Max(LL(a, i), UR(a, i)) < Max(LL(b, i), UR(b, i)) {
        assert !Holds(a, b, i);
        return false;
      }
    }
    return true;
  }

  /** g_cube_internal_consistent for overlap loses no member ... */
  lemma {:induction false} OverlapSafe(key: NDBox, m: NDBox, q: NDBox)
    requires Valid(key) && Valid(m) && Valid(q) && Covers(key, m) && Overlaps(m, q)
    ensures Overlaps(key, q)
  {
    hide Lo, Hi;
    forall i: nat
      ensures Meets(key, q, i)
    {
      assert Meets(m, q, i);
    }
  }

  /** ... nor for contains ... */
  lemma {:induction false} ContainsSafe(key: NDBox, m: NDBox, q: NDBox)
    requires Valid(key) && Valid(m) && Valid(q) && Covers(key, m) && Contains(m, q)
    ensures Contains(key, q)
  {
    hide Lo, Hi;
    forall i: nat | i < q.dim
      ensures Holds(key, q, i)
    {
      assert Holds(m, q, i);
    }
  }

  /** ... but for contained-by the overlap test is exact only about dimensions
      that the query has and the member lacks: there the query may exclude zero
      and still count as containing the member. */
  lemma {:induction false} ContainedByExact(key: NDBox, m: NDBox, q: NDBox)
    requires Valid(key) && Valid(m) && Valid(q) && Covers(key, m) && Contains(q, m)
    ensures Overlaps(key, q) <==> forall i: nat :: m.dim <= i < q.dim ==> Meets(key, q, i)
  {
    if forall i: nat :: m.dim <= i < q.dim ==> Meets(key, q, i) {
      forall i: nat
        ensures Meets(key, q, i)
      {
        MeetsInside(key, m, q, i);
      }
    }
  }

  lemma {:induction false} MeetsInside(key: NDBox, m: NDBox, q: NDBox, i: nat)
    requires Valid(key) && Valid(m) && Valid(q) && Covers(key, m) && Contains(q, m)
    ensures i < m.dim || i >= q.dim ==> Meets(key, q, i)
  {
    LoHi(m, i);
    if i < m.dim {
      assert Holds(q, m, i);
      hide Lo, Hi;
    } else if i >= q.dim {
      assert Lo(m, i) == 0.0 == Hi(m, i) && Lo(q, i) == 0.0 == Hi(q, i);
    }
  }

  /** With no more dimensions than the member, contained-by is safe. */
  lemma {:induction false} ContainedBySafe(key: NDBox, m: NDBox, q: NDBox)
    requires Valid(key) && Valid(m) && Valid(q) && Covers(key, m) && Contains(q, m) && q.dim <= m.dim
    ensures Overlaps(key, q)
  {
    ContainedByExact(key, m, q);
  }

  // ----- the order of cubes -----

  function RealLex(a: seq<real>, b: seq<real>): (r: int)
    requires |a| == |b|
    ensures r == -1 || r == 0 || r == 1
    ensures r == 0 <==> a == b
  {
    if a == [] then 0
    else if a[0] > b[0] then 1
    else if a[0] < b[0] then -1
    else
      assert a == [a[0]] + a[1..] && b == [b[0]] + b[1..];
      RealLex(a[1..], b[1..])
  }

  lemma {:induction false} RealLexFlip(a: seq<real>, b: seq<real>)
    requires |a| == |b|
    ensures RealLex(a, b) == -RealLex(b, a)
  {
    if a != [] && a[0] == b[0] {
      RealLexFlip(a[1..], b[1..]);
    }
  }

  lemma {:induction false} RealLexTrans(a: seq<real>, b: seq<real>, c: seq<real>)
    requires |a| == |b| == |c| && RealLex(a, b) <= 0 && RealLex(b, c) <= 0
    ensures RealLex(a, c) <= 0 && (RealLex(a, c) == 0 ==> RealLex(a, b) == 0 && RealLex(b, c) == 0)
  {
    if a != [] && a[0] == b[0] == c[0] {
      RealLexTrans(a[1..], b[1..], c[1..]);
    }
  }

  function Los(c: NDBox, from: nat, to: nat): (s: seq<real>)
    requires Valid(c) && from <= to
    ensures |s| == to - from && forall i :: 0 <= i < |s| ==> s[i] == Lo(c, from + i)
  {
    seq(to - from, i requires 0 <= i < to - from => Lo(c, from + i))
  }

  function His(c: NDBox, from: nat, to: nat): (s: seq<real>)
    requires Valid(c) && from <= to
    ensures |s| == to - from && forall i :: 0 <= i < |s| ==> s[i] == Hi(c, from + i)
  {
    seq(to - from, i requires 0 <= i < to - from => Hi(c, from + i))
  }

  /** cube_cmp_v0: lower and then upper bounds of the dimensions both have, then
      the others against zero, then the number of dimensions. */
  function CubeCmp(a: NDBox, b: NDBox): int
    requires Valid(a) && Valid(b)
  {
    var n, m := MinDim(a, b), MaxDim(a, b);
    var c1, c2 := RealLex(Los(a, 0, n), Los(b, 0, n)), RealLex(His(a, 0, n), His(b, 0, n));
    var c3, c4 := RealLex(Los(a, n, m), Los(b, n, m)), RealLex(His(a, n, m), His(b, n, m));
    if c1 != 0 then c1 else if c2 != 0 then c2 else if c3 != 0 then c3 else if c4 != 0 then c4
    else if a.dim > b.dim then 1 else if a.dim < b.dim then -1 else 0
  }

  function MinDim(a: NDBox, b: NDBox): nat {
    if a.dim < b.dim then a.dim else b.dim
  }

  /** The loops of cube_cmp_v0: the first difference decides. */
  method CmpCoords(xs: seq<real>, ys: seq<real>) returns (c: int)
    requires |xs| == |ys|
    ensures c == RealLex(xs, ys)
  {
    for i := 0 to |xs|
      invariant RealLex(xs[i..], ys[i..]) == RealLex(xs, ys)
    {
      if xs[i] > ys[i] {
        return 1;
      }
      if xs[i] < ys[i] {
        return -1;
      }
      assert xs[i..][1..] == xs[i + 1..] && ys[i..][1..] == ys[i + 1..];
    }
    c := 0;
  }

  /** cube_cmp_v0 */
  method Cmp(a: NDBox, b: NDBox) returns (c: int)
    requires Valid(a) && Valid(b)
    ensures c == CubeCmp(a, b)
  {
    hide Los, His, RealLex, Zeros, Lo, Hi;
    var dim := MinDim(a, b);
    c := CmpCoords(Los(a, 0, dim), Los(b, 0, dim));
    if c != 0 {
      return;
    }
    c := CmpCoords(His(a, 0, dim), His(b, 0, dim));
    if c != 0 {
      return;
    }
    ExtraIsZero(a, b);
    ExtraIsZero(b, a);
    if a.dim > b.dim {
      c := CmpExtra(a, dim);
      return if c != 0 then c else 1;
    }
    if a.dim < b.dim {
      c := CmpExtra(b, dim);
      RealLexFlip(Los(b, dim, b.dim), Zeros(b.dim - dim));
      RealLexFlip(His(b, dim, b.dim), Zeros(b.dim - dim));
      return if c != 0 then -c else -1;
    }
    c := 0;
  }

  function Zeros(n: nat): (z: seq<real>)
    ensures |z| == n && forall i :: 0 <= i < n ==> z[i] == 0.0
  {
    seq(n, _ => 0.0)
  }

  /** The dimensions only one box has, against zero. */
  method CmpExtra(a: NDBox, dim: nat) returns (c: int)
    requires Valid(a) && dim <= a.dim
    ensures var low := RealLex(Los(a, dim, a.dim), Zeros(a.dim - dim));
            c == if low != 0 then low else RealLex(His(a, dim, a.dim), Zeros(a.dim - dim))
  {
    c := CmpCoords(Los(a, dim, a.dim), Zeros(a.dim - dim));
    if c == 0 {
      c := CmpCoords(His(a, dim, a.dim), Zeros(a.dim - dim));
    }
  }

  lemma {:induction false} ExtraIsZero(a: NDBox, b: NDBox)
    requires Valid(a) && Valid(b)
    ensures a.dim <= b.dim ==>
              Los(a, a.dim, b.dim) == Zeros(b.dim - a.dim) && His(a, a.dim, b.dim) == Zeros(b.dim - a.dim)
  {
  }

  /** Zero means the same box. */
  lemma {:induction false} CmpZero(a: NDBox, b: NDBox)
    requires Valid(a) && Valid(b)
    ensures CubeCmp(a, b) == 0 <==> a.dim == b.dim && forall i: nat :: Lo(a, i) == Lo(b, i) && Hi(a, i) == Hi(b, i)
  {
    var n := a.dim;
    if CubeCmp(a, b) == 0 {
      forall i: nat
        ensures Lo(a, i) == Lo(b, i) && Hi(a, i) == Hi(b, i)
      {
        if i < n {
          assert Los(a, 0, n)[i] == Los(b, 0, n)[i] && His(a, 0, n)[i] == His(b, 0, n)[i];
        }
      }
    }
    if a.dim == b.dim && forall i: nat :: Lo(a, i) == Lo(b, i) && Hi(a, i) == Hi(b, i) {
      assert Los(a, 0, n) == Los(b, 0, n) && His(a, 0, n) == His(b, 0, n);
    }
  }

  /** Swapping the arguments turns the result around, for all dimensions. */
  lemma {:induction false} CmpFlip(a: NDBox, b: NDBox)
    requires Valid(a) && Valid(b)
    ensures CubeCmp(a, b) == -CubeCmp(b, a)
  {
    var n, m := MinDim(a, b), MaxDim(a, b);
    RealLexFlip(Los(a, 0, n), Los(b, 0, n));
    RealLexFlip(His(a, 0, n), His(b, 0, n));
    RealLexFlip(Los(a, n, m), Los(b, n, m));
    RealLexFlip(His(a, n, m), His(b, n, m));
  }

  // ----- when the comparison is an order -----

  ghost predicate TransitiveOn(dims: set<nat>) {
    forall a, b, c :: Valid(a) && Valid(b) && Valid(c) && {a.dim, b.dim, c.dim} <= dims ==>
      (CubeCmp(a, b) <= 0 && CubeCmp(b, c) <= 0 ==> CubeCmp(a, c) <= 0)
  }

  /** The comparison is transitive on cubes of some dimensions exactly when at
      most one of the dimensions is not zero. */
  lemma {:induction false} TransitiveExactly(dims: set<nat>)
    ensures TransitiveOn(dims) <==> forall p, q :: p in dims && q in dims ==> p == q || p == 0 || q == 0
  {
    if TransitiveOn(dims) {
      forall p, q | p in dims && q in dims
        ensures p == q || p == 0 || q == 0
      {
        if 0 < p < q {
          NotTransitive(dims, p, q);
        } else if 0 < q < p {
          NotTransitive(dims, q, p);
        }
      }
    }
    if forall p, q :: p in dims && q in dims ==> p == q || p == 0 || q == 0 {
      forall a, b, c | Valid(a) && Valid(b) && Valid(c) && {a.dim, b.dim, c.dim} <= dims
        ensures CubeCmp(a, b) <= 0 && CubeCmp(b, c) <= 0 ==> CubeCmp(a, c) <= 0
      {
        assert a.dim in {a.dim, b.dim, c.dim} && b.dim in {a.dim, b.dim, c.dim} && c.dim in {a.dim, b.dim, c.dim};
        var d := if a.dim != 0 then a.dim else if b.dim != 0 then b.dim else c.dim;
        CmpTrans(a, b, c, d);
      }
    }
  }

  lemma {:induction false} NotTransitive(dims: set<nat>, p: nat, q: nat)
    requires 0 < p < q && p in dims && q in dims
    ensures !TransitiveOn(dims)
  {
    hide *;
    CmpCircle(p, q);
    var a, b, c := Spoke(p, 5.0, p, 0.0), Spoke(q, 4.0, p, 1.0), Spoke(q, 6.0, p, -1.0);
    CmpFlip(a, b);
    CmpFlip(a, c);
    if TransitiveOn(dims) {
      TransitiveAt(dims, b, a, c);
    }
  }

  lemma {:induction false} TransitiveAt(dims: set<nat>, a: NDBox, b: NDBox, c: NDBox)
    requires TransitiveOn(dims) && Valid(a) && Valid(b) && Valid(c) && a.dim in dims && b.dim in dims && c.dim in dims
    ensures CubeCmp(a, b) <= 0 && CubeCmp(b, c) <= 0 ==> CubeCmp(a, c) <= 0
  {
    hide CubeCmp, Valid;
    assert {a.dim, b.dim, c.dim} <= dims;
  }

  /** The comparison when every cube has dimension 0 or `d`. */
  function Ranked(a: NDBox, b: NDBox, d: nat): int
    requires Valid(a) && Valid(b)
  {
    var l, h := RealLex(Los(a, 0, d), Los(b, 0, d)), RealLex(His(a, 0, d), His(b, 0, d));
    if l != 0 then l else if h != 0 then h else if a.dim > b.dim then 1 else if a.dim < b.dim then -1 else 0
  }

  lemma {:induction false} CmpIsRanked(a: NDBox, b: NDBox, d: nat)
    requires Valid(a) && Valid(b) && (a.dim == 0 || a.dim == d) && (b.dim == 0 || b.dim == d)
    ensures CubeCmp(a, b) == Ranked(a, b, d)
  {
    var m := MaxDim(a, b);
    assert Los(a, m, m) == [] == Los(b, m, m) && His(a, m, m) == [] == His(b, m, m);
    assert Los(a, 0, 0) == [] == Los(b, 0, 0) && His(a, 0, 0) == [] == His(b, 0, 0);
    if m == 0 {
      assert Los(a, 0, d) == Los(b, 0, d) && His(a, 0, d) == His(b, 0, d);
    }
    hide Los, His, RealLex;
  }

  lemma {:induction false} CmpTrans(a: NDBox, b: NDBox, c: NDBox, d: nat)
    requires Valid(a) && Valid(b) && Valid(c)
    requires (a.dim == 0 || a.dim == d) && (b.dim == 0 || b.dim == d) && (c.dim == 0 || c.dim == d)
    ensures CubeCmp(a, b) <= 0 && CubeCmp(b, c) <= 0 ==> CubeCmp(a, c) <= 0
  {
    hide CubeCmp, Los, His, RealLex;
    CmpIsRanked(a, b, d);
    CmpIsRanked(b, c, d);
    CmpIsRanked(a, c, d);
    var la, lb, lc := Los(a, 0, d), Los(b, 0, d), Los(c, 0, d);
    var ha, hb, hc := His(a, 0, d), His(b, 0, d), His(c, 0, d);
    if CubeCmp(a, b) <= 0 && CubeCmp(b, c) <= 0 {
      RealLexTrans(la, lb, lc);
      if RealLex(la, lc) == 0 {
        RealLexTrans(ha, hb, hc);
      }
    }
  }

  /** Lower bounds 0, the first upper bound `h`; in dimension `at` the point `v`. */
  function Spoke(d: nat, h: real, at: nat, v: real): NDBox {
    NDBox(false, d, seq(2 * d, k => if k == d then h else if k == at || k == at + d then v else 0.0))
  }

  lemma {:induction false} SpokeBounds(d: nat, h: real, at: nat, v: real, i: nat)
    requires h > 0.0 && 0 < at <= d && i < d
    ensures var c := Spoke(d, h, at, v);
            && Valid(c) && Hi(c, 0) == h
            && Lo(c, i) == if i == at && at < d then v else 0.0
  {
  }

  /** Three cubes of two different dimensions that go round in a circle. */
  lemma {:induction false} CmpCircle(p: nat, q: nat)
    requires 0 < p < q
    ensures var a, b, c := Spoke(p, 5.0, p, 0.0), Spoke(q, 4.0, p, 1.0), Spoke(q, 6.0, p, -1.0);
            && Valid(a) && Valid(b) && Valid(c) && a.dim == p && b.dim == q && c.dim == q
            && CubeCmp(c, a) > 0 && CubeCmp(a, b) > 0 && CubeCmp(b, c) > 0
  {
    var a, b, c := Spoke(p, 5.0, p, 0.0), Spoke(q, 4.0, p, 1.0), Spoke(q, 6.0, p, -1.0);
    forall i: nat | i < p
      ensures Valid(a) && Valid(b) && Valid(c) && Lo(a, i) == 0.0 == Lo(b, i) == Lo(c, i)
    {
      SpokeBounds(p, 5.0, p, 0.0, i);
      SpokeBounds(q, 4.0, p, 1.0, i);
      SpokeBounds(q, 6.0, p, -1.0, i);
    }
    SpokeBounds(p, 5.0, p, 0.0, 0);
    SpokeBounds(q, 4.0, p, 1.0, p);
    SpokeBounds(q, 6.0, p, -1.0, p);
    assert a.dim == p && b.dim == q && c.dim == q;
    hide Spoke, Lo, Hi;
    FirstUpper(a, b, p);
    FirstUpper(c, a, p);
    assert Los(b, 0, q)[..p] == Los(c, 0, q)[..p];
    FirstDifference(Los(b, 0, q), Los(c, 0, q), p);
  }

  lemma {:induction false} FirstUpper(a: NDBox, b: NDBox, p: nat)
    requires Valid(a) && Valid(b) && 0 < p == MinDim(a, b) && Hi(a, 0) > Hi(b, 0)
    requires forall i: nat :: i < p ==> Lo(a, i) == Lo(b, i)
    ensures CubeCmp(a, b) == 1
  {
    hide Lo, Hi, Valid;
    assert Los(a, 0, p) == Los(b, 0, p);
    FirstDifference(His(a, 0, p), His(b, 0, p), 0);
  }

  lemma {:induction false} FirstDifference(a: seq<real>, b: seq<real>, k: nat)
    requires |a| == |b| && k < |a| && a[..k] == b[..k] && a[k] > b[k]
    ensures RealLex(a, b) == 1
  {
    if k > 0 {
      assert a[0] == a[..k][0] == b[..k][0] == b[0];
      assert a[1..][..k - 1] == a[..k][1..] && b[1..][..k - 1] == b[..k][1..];
      FirstDifference(a[1..], b[1..], k - 1);
    }
  }

  /** Pruning with contains is safe for a search for the same cube. */
  lemma {:induction false} SameSafe(key: NDBox, m: NDBox, q: NDBox)
    requires Valid(key) && Valid(m) && Valid(q) && Covers(key, m) && CubeCmp(m, q) == 0
    ensures Contains(key, q)
  {
    CmpZero(m, q);
    hide Lo, Hi, CubeCmp;
    forall i: nat | i < q.dim
      ensures Holds(key, q, i)
    {
    }
  }

  // ----- distances -----

  /** distance_1D */
  function Distance1D(a1: real, a2: real, b1: real, b2: real): real {
    if a1 <= b1 && a2 <= b1 && a1 <= b2 && a2 <= b2 then Min(b1, b2) - Max(a1, a2)
    else if a1 > b1 && a2 > b1 && a1 > b2 && a2 > b2 then Min(a1, a2) - Max(b1, b2)
    else 0.0
  }

  /** The gap between two boxes in a dimension. */
  function Gap(a: NDBox, b: NDBox, i: nat): (d: real)
    requires Valid(a) && Valid(b)
    ensures d >= 0.0
  {
    Max(0.0, Max(Lo(b, i) - Hi(a, i), Lo(a, i) - Hi(b, i)))
  }

  lemma {:induction false} Distance1DIsGap(a1: real, a2: real, b1: real, b2: real)
    ensures Distance1D(a1, a2, b1, b2) ==
            Max(0.0, Max(Min(b1, b2) - Max(a1, a2), Min(a1, a2) - Max(b1, b2)))
  {
  }

  function AbsReal(x: real): real {
    if x < 0.0 then -x else x
  }

  /** What the two loops of a distance function add in a dimension. */
  lemma {:induction false} GapOf(a: NDBox, b: NDBox, i: nat)
    requires Valid(a) && Valid(b) && b.dim <= a.dim && i < a.dim
    ensures i < b.dim ==> Distance1D(LL(a, i), UR(a, i), LL(b, i), UR(b, i)) == Gap(a, b, i)
    ensures i >= b.dim ==> Distance1D(LL(a, i), UR(a, i), 0.0, 0.0) == Gap(a, b, i)
  {
    if i < b.dim {
      Distance1DIsGap(LL(a, i), UR(a, i), LL(b, i), UR(b, i));
    } else {
      Distance1DIsGap(LL(a, i), UR(a, i), 0.0, 0.0);
    }
  }

  function Sq(x: real): real {
    x * x
  }

  /** The sum, the sum of squares and the maximum of the gaps. */
  function Taxi(a: NDBox, b: NDBox, n: nat): real
    requires Valid(a) && Valid(b)
  {
    if n == 0 then 0.0 else Taxi(a, b, n - 1) + Gap(a, b, n - 1)
  }

  function Square(a: NDBox, b: NDBox, n: nat): real
    requires Valid(a) && Valid(b)
  {
    if n == 0 then 0.0 else Square(a, b, n - 1) + Sq(Gap(a, b, n - 1))
  }

  function Cheby(a: NDBox, b: NDBox, n: nat): real
    requires Valid(a) && Valid(b)
  {
    if n == 0 then 0.0 else Max(Cheby(a, b, n - 1), Gap(a, b, n - 1))
  }

  /** Boxes with the same gap to `b` in every dimension but `k`. */
  ghost predicate SameBut(a: NDBox, c: NDBox, b: NDBox, n: nat, k: nat)
    requires Valid(a) && Valid(b) && Valid(c)
  {
    forall i: nat :: i < n && i != k ==> Gap(c, b, i) == Gap(a, b, i)
  }

  /** What one dimension contributes to the sums: its gap, and the square of it. */
  lemma {:induction false} OneDimension(a: NDBox, c: NDBox, b: NDBox, n: nat, k: nat)
    requires Valid(a) && Valid(b) && Valid(c) && k < n && SameBut(a, c, b, n, k)
    ensures Taxi(c, b, n) - Taxi(a, b, n) == Gap(c, b, k) - Gap(a, b, k)
    ensures Square(c, b, n) - Square(a, b, n) == Sq(Gap(c, b, k)) - Sq(Gap(a, b, k))
  {
    hide Gap, Sq;
    if k < n - 1 {
      OneDimension(a, c, b, n - 1, k);
    } else {
      SameSums(a, c, b, n - 1);
    }
  }

  lemma {:induction false} SameSums(a: NDBox, c: NDBox, b: NDBox, n: nat)
    requires Valid(a) && Valid(b) && Valid(c) && SameBut(a, c, b, n, n)
    ensures Taxi(c, b, n) == Taxi(a, b, n) && Square(c, b, n) == Square(a, b, n)
  {
    hide Gap, Sq;
    if n > 0 {
      assert SameBut(a, c, b, n - 1, n - 1);
      SameSums(a, c, b, n - 1);
    }
  }

  /** Without gaps the sums are zero. */
  lemma {:induction false} NoGaps(a: NDBox, b: NDBox, n: nat)
    requires Valid(a) && Valid(b) && forall i: nat :: i < n ==> Gap(a, b, i) == 0.0
    ensures Taxi(a, b, n) == 0.0 && Square(a, b, n) == 0.0 && Cheby(a, b, n) == 0.0
  {
    hide Gap;
    if n > 0 {
      NoGaps(a, b, n - 1);
    }
  }

  /** The maximum is no less than any gap, and one of them. */
  lemma {:induction false} ChebyIsGreatest(a: NDBox, b: NDBox, n: nat)
    requires Valid(a) && Valid(b)
    ensures forall i: nat :: i < n ==> Gap(a, b, i) <= Cheby(a, b, n)
    ensures if n == 0 then Cheby(a, b, n) == 0.0 else exists i: nat :: i < n && Cheby(a, b, n) == Gap(a, b, i)
  {
    if n > 0 {
      ChebyIsGreatest(a, b, n - 1);
      assert Gap(a, b, n - 1) >= 0.0;
      hide Gap;
      assert Cheby(a, b, n) == Gap(a, b, n - 1) || Cheby(a, b, n) == Cheby(a, b, n - 1);
    }
  }

  /** distance_taxicab */
  method Taxicab(a: NDBox, b: NDBox) returns (d: real)
    requires Valid(a) && Valid(b)
    ensures d == Taxi(a, b, MaxDim(a, b))
  {
    var x, y := a, b;
    if x.dim < y.dim {
      x, y := y, x;
    }
    d := 0.0;
    hide Distance1D, Gap, Lo, Hi;
    for i := 0 to y.dim
      invariant d == Taxi(x, y, i)
    {
      GapOf(x, y, i);
      d := d + AbsReal(Distance1D(LL(x, i), UR(x, i), LL(y, i), UR(y, i)));
    }
    for i := y.dim to x.dim
      invariant d == Taxi(x, y, i)
    {
      GapOf(x, y, i);
      d := d + AbsReal(Distance1D(LL(x, i), UR(x, i), 0.0, 0.0));
    }
    Swapped(x, y, x.dim);
  }

  /** cube_distance before the square root. */
  method SquaredDistance(a: NDBox, b: NDBox) returns (d: real)
    requires Valid(a) && Valid(b)
    ensures d == Square(a, b, MaxDim(a, b))
  {
    var x, y := a, b;
    if x.dim < y.dim {
      x, y := y, x;
    }
    d := 0.0;
    hide Distance1D, Gap, Sq, Lo, Hi;
    for i := 0 to y.dim
      invariant d == Square(x, y, i)
    {
      GapOf(x, y, i);
      d := d + Sq(Distance1D(LL(x, i), UR(x, i), LL(y, i), UR(y, i)));
    }
    for i := y.dim to x.dim
      invariant d == Square(x, y, i)
    {
      GapOf(x, y, i);
      d := d + Sq(Distance1D(LL(x, i), UR(x, i), 0.0, 0.0));
    }
    Swapped(x, y, x.dim);
  }

  /** distance_chebyshev */
  method Chebyshev(a: NDBox, b: NDBox) returns (d: real)
    requires Valid(a) && Valid(b)
    ensures d == Cheby(a, b, MaxDim(a, b))
  {
    var x, y := a, b;
    if x.dim < y.dim {
      x, y := y, x;
    }
    d := 0.0;
    hide Distance1D, Gap, Lo, Hi;
    for i := 0 to y.dim
      invariant d == Cheby(x, y, i)
    {
      GapOf(x, y, i);
      var e := AbsReal(Distance1D(LL(x, i), UR(x, i), LL(y, i), UR(y, i)));
      if e > d {
        d := e;
      }
    }
    for i := y.dim to x.dim
      invariant d == Cheby(x, y, i)
    {
      GapOf(x, y, i);
      var e := AbsReal(Distance1D(LL(x, i), UR(x, i), 0.0, 0.0));
      if e > d {
        d := e;
      }
    }
    Swapped(x, y, x.dim);
  }

  /** The sums do not depend on the order of the boxes. */
  lemma {:induction false} Swapped(a: NDBox, b: NDBox, n: nat)
    requires Valid(a) && Valid(b)
    ensures Taxi(a, b, n) == Taxi(b, a, n) && Square(a, b, n) == Square(b, a, n) && Cheby(a, b, n) == Cheby(b, a, n)
  {
    if n > 0 {
      Swapped(a, b, n - 1);
      assert Gap(a, b, n - 1) == Gap(b, a, n - 1);
    }
  }

  lemma {:induction false} GapBound(key: NDBox, m: NDBox, q: NDBox, i: nat)
    requires Valid(key) && Valid(m) && Valid(q) && Covers(key, m)
    ensures Gap(key, q, i) <= Gap(m, q, i)
  {
    hide Lo, Hi;
  }

  lemma {:induction false} SquareMono(a: real, b: real)
    requires 0.0 <= a <= b
    ensures Sq(a) <= Sq(b)
  {
    assert a * a <= a * b <= b * b;
  }

  /** Over the same dimensions a key is no further away than its members. */
  lemma {:induction false} BoundUpTo(key: NDBox, m: NDBox, q: NDBox, n: nat)
    requires Valid(key) && Valid(m) && Valid(q) && Covers(key, m)
    ensures Taxi(key, q, n) <= Taxi(m, q, n) && Square(key, q, n) <= Square(m, q, n)
            && Cheby(key, q, n) <= Cheby(m, q, n)
  {
    if n > 0 {
      BoundUpTo(key, m, q, n - 1);
      GapBound(key, m, q, n - 1);
      hide Gap, Sq, Covers, Lo, Hi;
      SquareMono(Gap(key, q, n - 1), Gap(m, q, n - 1));
    }
  }

  /** Dimensions neither box has add nothing. */
  lemma {:induction false} Beyond(m: NDBox, q: NDBox, n: nat)
    requires Valid(m) && Valid(q) && n >= MaxDim(m, q)
    ensures Taxi(m, q, n) == Taxi(m, q, MaxDim(m, q)) && Square(m, q, n) == Square(m, q, MaxDim(m, q))
    ensures Cheby(m, q, n) == Cheby(m, q, MaxDim(m, q))
  {
    ChebyNotNegative(m, q, n);
    if n > MaxDim(m, q) {
      Beyond(m, q, n - 1);
      ChebyNotNegative(m, q, n - 1);
      assert Gap(m, q, n - 1) == 0.0;
    }
  }

  lemma {:induction false} ChebyNotNegative(m: NDBox, q: NDBox, n: nat)
    requires Valid(m) && Valid(q)
    ensures Cheby(m, q, n) >= 0.0
  {
    if n > 0 {
      ChebyNotNegative(m, q, n - 1);
    }
  }

  /** The distances of a key are lower bounds on those of every member, as a
      nearest-neighbour search needs. */
  lemma {:induction false} DistanceBounds(key: NDBox, m: NDBox, q: NDBox)
    requires Valid(key) && Valid(m) && Valid(q) && Covers(key, m)
    ensures Taxi(key, q, MaxDim(key, q)) <= Taxi(m, q, MaxDim(m, q))
    ensures Square(key, q, MaxDim(key, q)) <= Square(m, q, MaxDim(m, q))
    ensures Cheby(key, q, MaxDim(key, q)) <= Cheby(m, q, MaxDim(m, q))
  {
    var n := MaxDim(key, q);
    BoundUpTo(key, m, q, n);
    Beyond(m, q, n);
  }

  /** So is the Euclidean distance, the root of the sum of squares. */
  lemma {:induction false} EuclidBounds(key: NDBox, m: NDBox, q: NDBox, d: real, e: real)
    requires Valid(key) && Valid(m) && Valid(q) && Covers(key, m) && d >= 0.0 && e >= 0.0
    requires d * d == Square(key, q, MaxDim(key, q)) && e * e == Square(m, q, MaxDim(m, q))
    ensures d <= e
  {
    hide *;
    DistanceBounds(key, m, q);
    if d > e {
      Product(d - e, d + e);
    }
  }

  lemma {:induction false} Product(a: real, b: real)
    requires a > 0.0 && b > 0.0
    ensures a * b > 0.0
  {
  }

  /** g_cube_distance for the ~> operator; coordinate 0 is an error there. */
  function CoordDistance(c: NDBox, coord: int, isLeaf: bool): real
    requires Valid(c) && coord != 0
  {
    var inverse := coord < 0;
    var k := if inverse then -coord else coord;
    var v :=
      if k <= 2 * c.dim then
        var index, upper := (k - 1) / 2, (k - 1) % 2 == 1;
        if c.point then c.x[index]
        else if (if isLeaf then upper else inverse) then Max(c.x[index], c.x[index + c.dim])
        else Min(c.x[index], c.x[index + c.dim])
      else 0.0;
    if inverse then -v else v
  }

  /** An internal key's coordinate bounds that of every member from below, with
      the sign of an inverse order taken into account. */
  lemma {:induction false} CoordBound(key: NDBox, m: NDBox, coord: int)
    requires Valid(key) && Valid(m) && Covers(key, m) && coord != 0
    ensures CoordDistance(key, coord, false) <= CoordDistance(m, coord, true)
    ensures CoordDistance(key, coord, false) <= CoordDistance(m, coord, false)
  {
    var k := if coord < 0 then -coord else coord;
    var index := (k - 1) / 2;
    LoHi(m, index);
    CoordIs(key, coord, false);
    CoordIs(m, coord, true);
    CoordIs(m, coord, false);
    hide Lo, Hi, CoordDistance;
  }

  lemma {:induction false} CoordIs(c: NDBox, coord: int, isLeaf: bool)
    requires Valid(c) && coord != 0
    ensures var inverse := coord < 0;
            var k := if inverse then -coord else coord;
            var index, upper := (k - 1) / 2, if isLeaf then (k - 1) % 2 == 1 else inverse;
            var v := if upper then Hi(c, index) else Lo(c, index);
            CoordDistance(c, coord, isLeaf) == if inverse then -v else v
  {
  }
}
