/** What the comparison, the tests and the distances of cubes mean, in terms of
    points and of first differences. */
module CubeMeaning {
  import opened Cube

  // ----- points -----

  /** A point, with a coordinate in every dimension. */
  type Point = nat -> real

  /** The point lies in the box in the first `n` dimensions. */
  ghost predicate Inside(c: NDBox, p: Point, n: nat)
    requires Valid(c)
  {
    forall i: nat :: i < n ==> Lo(c, i) <= p(i) <= Hi(c, i)
  }

  /** Two boxes overlap exactly when they share a point, dimensions that one of them
      lacks being zero. */
  lemma {:induction false} OverlapMeans(a: NDBox, b: NDBox)
    requires Valid(a) && Valid(b)
    ensures Overlaps(a, b) <==> exists p: Point :: Inside(a, p, MaxDim(a, b)) && Inside(b, p, MaxDim(a, b))
  {
    var n := MaxDim(a, b);
    if Overlaps(a, b) {
      var p: Point := (i: nat) => Max(Lo(a, i), Lo(b, i));
      forall i: nat | i < n
        ensures Lo(a, i) <= p(i) <= Hi(a, i) && Lo(b, i) <= p(i) <= Hi(b, i)
      {
        LoHi(a, i);
        LoHi(b, i);
        assert Meets(a, b, i);
      }
      assert Inside(a, p, n) && Inside(b, p, n);
    }
    if p: Point :| Inside(a, p, n) && Inside(b, p, n) {
      forall i: nat
        ensures Meets(a, b, i)
      {
        if i < n {
          assert Lo(a, i) <= p(i) <= Hi(a, i) && Lo(b, i) <= p(i) <= Hi(b, i);
        } else {
          BeyondMeets(a, b, i);
        }
      }
    }
  }

  /** A box contains another exactly when every point of the second, in the
      dimensions of the second, is in the first. */
  lemma {:induction false} ContainsMeans(a: NDBox, b: NDBox)
    requires Valid(a) && Valid(b)
    ensures Contains(a, b) <==> forall p: Point :: Inside(b, p, b.dim) ==> Inside(a, p, b.dim)
  {
    var n := b.dim;
    if Contains(a, b) {
      forall p: Point | Inside(b, p, n)
        ensures Inside(a, p, n)
      {
        forall i: nat | i < n
          ensures Lo(a, i) <= p(i) <= Hi(a, i)
        {
          assert Holds(a, b, i) && Lo(b, i) <= p(i) <= Hi(b, i);
        }
      }
    }
    if forall p: Point :: Inside(b, p, n) ==> Inside(a, p, n) {
      var low: Point, high: Point := (i: nat) => Lo(b, i), (i: nat) => Hi(b, i);
      forall i: nat
        ensures low(i) <= Hi(b, i) && Lo(b, i) <= high(i)
      {
        LoHi(b, i);
      }
      assert Inside(b, low, n) && Inside(b, high, n);
      forall i: nat | i < n
        ensures Holds(a, b, i)
      {
        assert Lo(a, i) <= low(i) <= Hi(a, i) && Lo(a, i) <= high(i) <= Hi(a, i);
      }
    }
  }

  predicate Between(c: NDBox, i: nat, x: real)
    requires Valid(c)
  {
    Lo(c, i) <= x <= Hi(c, i)
  }

  /** The gap is the least distance of two points, one in either box, and there are
      two points at that distance. */
  lemma {:induction false} GapMeans(a: NDBox, b: NDBox, i: nat)
    requires Valid(a) && Valid(b)
    ensures forall x, y :: Between(a, i, x) && Between(b, i, y) ==> Gap(a, b, i) <= AbsReal(x - y)
    ensures exists x, y :: Between(a, i, x) && Between(b, i, y) && Gap(a, b, i) == AbsReal(x - y)
  {
    LoHi(a, i);
    LoHi(b, i);
    hide Lo, Hi;
    var x := if Hi(a, i) < Lo(b, i) then Hi(a, i) else if Hi(b, i) < Lo(a, i) then Lo(a, i)
             else Max(Lo(a, i), Lo(b, i));
    var y := if Hi(a, i) < Lo(b, i) then Lo(b, i) else if Hi(b, i) < Lo(a, i) then Hi(b, i)
             else Max(Lo(a, i), Lo(b, i));
    assert Between(a, i, x) && Between(b, i, y) && Gap(a, b, i) == AbsReal(x - y);
  }

  // ----- the comparison -----

  /** The first difference of two lists of coordinates is greater on the left. */
  ghost predicate GreaterAt(a: seq<real>, b: seq<real>, k: nat)
    requires |a| == |b|
  {
    k < |a| && a[k] > b[k] && forall i: nat :: i < k ==> a[i] == b[i]
  }

  lemma {:induction false} LexMeans(a: seq<real>, b: seq<real>)
    requires |a| == |b|
    ensures RealLex(a, b) == 1 <==> exists k :: GreaterAt(a, b, k)
  {
    if RealLex(a, b) == 1 {
      var k := FindGreater(a, b);
    }
    if k: nat :| GreaterAt(a, b, k) {
      assert a[..k] == b[..k];
      FirstDifference(a, b, k);
    }
  }

  lemma {:induction false} FindGreater(a: seq<real>, b: seq<real>) returns (k: nat)
    requires |a| == |b| && RealLex(a, b) == 1
    ensures GreaterAt(a, b, k)
  {
    if a[0] > b[0] {
      k := 0;
    } else {
      var m := FindGreater(a[1..], b[1..]);
      k := m + 1;
      forall i: nat | i < k
        ensures a[i] == b[i]
      {
        if i > 0 {
          assert a[1..][i - 1] == b[1..][i - 1];
        }
      }
    }
  }

  /** When a cube is greater: at the first difference of the lower bounds in the
      dimensions both have, then of the upper bounds; then the same for the other
      dimensions, zero standing for what is missing; then by having more dimensions. */
  ghost predicate Greater(a: NDBox, b: NDBox)
    requires Valid(a) && Valid(b)
  {
    var n, m := MinDim(a, b), MaxDim(a, b);
    || (exists k :: GreaterAt(Los(a, 0, n), Los(b, 0, n), k))
    || (Los(a, 0, n) == Los(b, 0, n) && (
        || (exists k :: GreaterAt(His(a, 0, n), His(b, 0, n), k))
        || (His(a, 0, n) == His(b, 0, n) && (
            || (exists k :: GreaterAt(Los(a, n, m), Los(b, n, m), k))
            || (Los(a, n, m) == Los(b, n, m) && (
                || (exists k :: GreaterAt(His(a, n, m), His(b, n, m), k))
                || (His(a, n, m) == His(b, n, m) && a.dim > b.dim)))))))
  }

  lemma {:induction false} CmpMeans(a: NDBox, b: NDBox)
    requires Valid(a) && Valid(b)
    ensures CubeCmp(a, b) == 1 <==> Greater(a, b)
    ensures CubeCmp(a, b) == -1 <==> Greater(b, a)
  {
    CmpFlip(a, b);
    CmpGreater(a, b);
    CmpGreater(b, a);
    hide CubeCmp, Greater;
  }

  lemma {:induction false} CmpGreater(a: NDBox, b: NDBox)
    requires Valid(a) && Valid(b)
    ensures CubeCmp(a, b) == 1 <==> Greater(a, b)
  {
    var n, m := MinDim(a, b), MaxDim(a, b);
    hide Los, His, Lo, Hi, GreaterAt;
    LexMeans(Los(a, 0, n), Los(b, 0, n));
    LexMeans(His(a, 0, n), His(b, 0, n));
    LexMeans(Los(a, n, m), Los(b, n, m));
    LexMeans(His(a, n, m), His(b, n, m));
    SameNotGreater(Los(a, 0, n));
    SameNotGreater(His(a, 0, n));
    SameNotGreater(Los(a, n, m));
    SameNotGreater(His(a, n, m));
    hide RealLex;
  }

  lemma {:induction false} SameNotGreater(a: seq<real>)
    ensures RealLex(a, a) == 0
  {
  }
}
