/** A stand-in for the library's qsort: some sorted arrangement of the input.
    How it orders elements that compare equal is not promised to its callers. */
module Sorting {

  ghost predicate TotalPreorder<T(!new)>(le: (T, T) -> bool) {
    && (forall a, b :: le(a, b) || le(b, a))
    && (forall a, b, c :: le(a, b) && le(b, c) ==> le(a, c))
  }

  ghost predicate SortedBy<T>(le: (T, T) -> bool, s: seq<T>) {
    forall i, j :: 0 <= i < j < |s| ==> le(s[i], s[j])
  }

  method QSort<T(!new)>(s: seq<T>, le: (T, T) -> bool) returns (t: seq<T>)
    requires TotalPreorder(le)
    ensures multiset(t) == multiset(s) && SortedBy(le, t)
    decreases |s|
  {
    if s == [] {
      return [];
    }
    var rest := QSort(s[1..], le);
    var k := 0;
    while k < |rest| && le(rest[k], s[0])
      invariant 0 <= k <= |rest|
      invariant forall i :: 0 <= i < k ==> le(rest[i], s[0])
    {
      k := k + 1;
    }
    t := rest[..k] + [s[0]] + rest[k..];
    InsertSorted(rest, k, s[0], le);
    assert s == [s[0]] + s[1..];
    assert rest == rest[..k] + rest[k..];
  }

  lemma {:induction false} InsertSorted<T(!new)>(rest: seq<T>, k: nat, x: T, le: (T, T) -> bool)
    requires TotalPreorder(le) && SortedBy(le, rest) && k <= |rest|
    requires forall i :: 0 <= i < k ==> le(rest[i], x)
    requires k < |rest| ==> !le(rest[k], x)
    ensures SortedBy(le, rest[..k] + [x] + rest[k..])
  {
    var t := rest[..k] + [x] + rest[k..];
    forall i, j | 0 <= i < j < |t|
      ensures le(t[i], t[j])
    {
      if i == k {
        assert t[j] == rest[j - 1] && le(x, rest[k]);
      }
    }
  }

  /** The sorted arrangement has the same elements. */
  lemma {:induction false} SameElements<T>(s: seq<T>, t: seq<T>)
    requires multiset(s) == multiset(t)
    ensures |s| == |t| && forall x :: x in s <==> x in t
  {
    assert |s| == |multiset(s)| && |t| == |multiset(t)|;
    assert forall x :: x in s <==> x in multiset(s);
    assert forall x :: x in t <==> x in multiset(t);
  }

  /** In strict order: no element is at or above a later one. */
  ghost predicate StrictBy<T>(le: (T, T) -> bool, s: seq<T>) {
    forall i, j :: 0 <= i < j < |s| ==> le(s[i], s[j]) && !le(s[j], s[i])
  }

  /** Elements in strict order have no other sorted arrangement. */
  lemma {:induction false} OneArrangement<T>(s: seq<T>, t: seq<T>, le: (T, T) -> bool)
    requires multiset(s) == multiset(t) && StrictBy(le, s) && SortedBy(le, t)
    ensures s == t
    decreases |s|
  {
    SameElements(s, t);
    if s != [] {
      SameFirst(s, t, le);
      SameRest(s, t);
      assert StrictBy(le, s[1..]) && SortedBy(le, t[1..]);
      hide StrictBy, SortedBy;
      OneArrangement(s[1..], t[1..], le);
      assert s == [s[0]] + s[1..] && t == [t[0]] + t[1..];
    }
  }

  lemma {:induction false} SameFirst<T>(s: seq<T>, t: seq<T>, le: (T, T) -> bool)
    requires s != [] && multiset(s) == multiset(t) && StrictBy(le, s) && SortedBy(le, t)
    ensures t != [] && s[0] == t[0]
  {
    SameElements(s, t);
    assert s[0] in t && t[0] in s;
    var j :| 0 <= j < |s| && s[j] == t[0];
    var k :| 0 <= k < |t| && t[k] == s[0];
  }

  lemma {:induction false} SameRest<T>(s: seq<T>, t: seq<T>)
    requires s != [] && t != [] && s[0] == t[0] && multiset(s) == multiset(t)
    ensures multiset(s[1..]) == multiset(t[1..])
  {
    assert s == [s[0]] + s[1..] && t == [t[0]] + t[1..];
    assert multiset(s[1..]) == multiset(s) - multiset{s[0]};
    assert multiset(t[1..]) == multiset(t) - multiset{t[0]};
  }
}
