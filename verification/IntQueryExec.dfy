/** Evaluating a linked query: against an array, against a signature of hashed
    bits, and against the answers of a GIN index; and the test whether every
    match must contain some value of the query. */
module IntQueryExec {
  import opened Prelude
  import opened IntQueryGrammar
  import opened IntQueryLink

  /** Every link stays inside the array and points backwards. */
  predicate WellLinked(items: seq<Item>, cur: int)
    decreases cur
  {
    && 0 <= cur < |items|
    && match items[cur].node
       case Val(_) => true
       case Opr(Not) => WellLinked(items, cur - 1)
       case Opr(_) => items[cur].left < 0 && WellLinked(items, cur + items[cur].left) && WellLinked(items, cur - 1)
  }

  /** execute: `chkcond` tests the operand at a position; without `calcnot`
      every negation counts as true. */
  function Execute(items: seq<Item>, cur: int, calcnot: bool, chkcond: int -> bool): bool
    requires WellLinked(items, cur)
    decreases cur
  {
    match items[cur].node
    case Val(_) => chkcond(cur)
    case Opr(Not) => if calcnot then !Execute(items, cur - 1, calcnot, chkcond) else true
    case Opr(And) =>
      if Execute(items, cur + items[cur].left, calcnot, chkcond)
      then Execute(items, cur - 1, calcnot, chkcond) else false
    case Opr(Or) =>
      if Execute(items, cur + items[cur].left, calcnot, chkcond)
      then true else Execute(items, cur - 1, calcnot, chkcond)
  }

  /** `chkcond` answers every operand of the query as `has` does. */
  ghost predicate Agrees(items: seq<Item>, chkcond: int -> bool, has: int -> bool) {
    forall k :: 0 <= k < |items| && items[k].node.Val? ==> chkcond(k) == has(items[k].node.val)
  }

  lemma {:induction false} LinkedIsWellLinked(items: seq<Item>, i: int, q: Query)
    requires Linked(items, i, q)
    ensures WellLinked(items, i)
    decreases q
  {
    match q
    case Lit(_) =>
    case Inv(a) => LinkedIsWellLinked(items, i - 1, a);
    case Both(l, r) =>
      LinkedIsWellLinked(items, i - 1, r);
      LinkedIsWellLinked(items, i - 1 - |Post(r)|, l);
    case Either(l, r) =>
      LinkedIsWellLinked(items, i - 1, r);
      LinkedIsWellLinked(items, i - 1 - |Post(r)|, l);
  }

  /** The evaluator computes the query. */
  lemma {:induction false} ExecuteIsHolds(items: seq<Item>, i: int, q: Query, chkcond: int -> bool, has: int -> bool)
    requires Linked(items, i, q) && Agrees(items, chkcond, has)
    ensures WellLinked(items, i) && Execute(items, i, true, chkcond) == Holds(q, has)
    decreases q
  {
    LinkedIsWellLinked(items, i, q);
    match q
    case Lit(_) =>
    case Inv(a) => ExecuteIsHolds(items, i - 1, a, chkcond, has);
    case Both(l, r) =>
      ExecuteIsHolds(items, i - 1, r, chkcond, has);
      ExecuteIsHolds(items, i - 1 - |Post(r)|, l, chkcond, has);
    case Either(l, r) =>
      ExecuteIsHolds(items, i - 1, r, chkcond, has);
      ExecuteIsHolds(items, i - 1 - |Post(r)|, l, chkcond, has);
  }

  /** Without `calcnot`, and with a test that never denies a value that is
      present, the evaluator never rejects a match. */
  lemma {:induction false} ExecuteLosesNothing(items: seq<Item>, i: int, q: Query, chkcond: int -> bool,
                                               has: int -> bool)
    requires Linked(items, i, q) && Holds(q, has)
    requires forall k :: 0 <= k < |items| && items[k].node.Val? && has(items[k].node.val) ==> chkcond(k)
    ensures WellLinked(items, i) && Execute(items, i, false, chkcond)
    decreases q
  {
    LinkedIsWellLinked(items, i, q);
    match q
    case Lit(_) =>
    case Inv(_) =>
    case Both(l, r) =>
      ExecuteLosesNothing(items, i - 1, r, chkcond, has);
      ExecuteLosesNothing(items, i - 1 - |Post(r)|, l, chkcond, has);
    case Either(l, r) =>
      if Holds(l, has) {
        ExecuteLosesNothing(items, i - 1 - |Post(r)|, l, chkcond, has);
      } else {
        ExecuteLosesNothing(items, i - 1, r, chkcond, has);
      }
  }

  /** The query with every negation replaced by something that always holds. */
  function Loose(q: Query): Query {
    match q
    case Lit(_) => q
    case Inv(a) => Either(a, Inv(a))
    case Both(l, r) => Both(Loose(l), Loose(r))
    case Either(l, r) => Either(Loose(l), Loose(r))
  }

  /** Without `calcnot` the evaluator computes the loosened query. */
  lemma {:induction false} ExecuteIsLoose(items: seq<Item>, i: int, q: Query, chkcond: int -> bool, has: int -> bool)
    requires Linked(items, i, q) && Agrees(items, chkcond, has)
    ensures WellLinked(items, i) && Execute(items, i, false, chkcond) == Holds(Loose(q), has)
    decreases q
  {
    LinkedIsWellLinked(items, i, q);
    match q
    case Lit(_) =>
    case Inv(_) =>
    case Both(l, r) =>
      ExecuteIsLoose(items, i - 1, r, chkcond, has);
      ExecuteIsLoose(items, i - 1 - |Post(r)|, l, chkcond, has);
    case Either(l, r) =>
      ExecuteIsLoose(items, i - 1, r, chkcond, has);
      ExecuteIsLoose(items, i - 1 - |Post(r)|, l, chkcond, has);
  }

  // ----- arrays -----

  predicate Sorted(a: seq<int>) {
    forall i, j :: 0 <= i < j < |a| ==> a[i] <= a[j]
  }

  /** checkcondition_arr. */
  method CheckArray(a: array<int>, val: int) returns (found: bool)
    requires Sorted(a[..])
    ensures found <==> val in a[..]
  {
    var low, high := 0, a.Length;
    while low < high
      invariant 0 <= low <= high <= a.Length
      invariant forall k :: 0 <= k < low ==> a[k] < val
      invariant forall k :: high <= k < a.Length ==> val < a[k]
    {
      var middle := low + (high - low) / 2;
      if a[middle] == val {
        assert a[..][middle] == val;
        return true;
      } else if a[middle] < val {
        assert forall k :: 0 <= k <= middle ==> a[..][k] <= a[..][middle];
        low := middle + 1;
      } else {
        assert forall k :: middle <= k < a.Length ==> a[..][middle] <= a[..][k];
        high := middle;
      }
    }
    return false;
  }

  /** boolop: the query's value on an array. */
  function BoolOp(items: seq<Item>, a: seq<int>): bool
    requires WellLinked(items, |items| - 1)
  {
    Execute(items, |items| - 1, true, k => 0 <= k < |items| && items[k].node.Val? && items[k].node.val in a)
  }

  /** Running a query that bqarr_in built from a text gives the truth value of
      the text. */
  lemma {:induction false} BoolOpIsMeaning(items: seq<Item>, q: Query, a: seq<int>)
    requires Linked(items, |items| - 1, q)
    ensures WellLinked(items, |items| - 1) && (BoolOp(items, a) <==> Holds(q, v => v in a))
  {
    ExecuteIsHolds(items, |items| - 1, q,
                   k => 0 <= k < |items| && items[k].node.Val? && items[k].node.val in a, v => v in a);
  }

  // ----- signatures -----

  const SIGLENBIT := 63 * 4 * 8

  /** HASHVAL: the value as an unsigned 32-bit number, modulo the signature length. */
  function HashVal(val: int): (h: nat)
    requires IsInt32(val)
    ensures h < SIGLENBIT
  {
    (if val < 0 then val + 0x1_0000_0000 else val) % SIGLENBIT
  }

  /** The hash leaves the remainder of the value's 32-bit pattern. */
  lemma {:induction false} HashRemainder(val: int)
    requires IsInt32(val)
    ensures (val - HashVal(val)) % SIGLENBIT == if val < 0 then -0x1_0000_0000 % SIGLENBIT else 0
  {
    var u := if val < 0 then val + 0x1_0000_0000 else val;
    assert u == SIGLENBIT * (u / SIGLENBIT) + HashVal(val);
    Remainder(val - HashVal(val), u / SIGLENBIT, if val < 0 then -0x1_0000_0000 else 0);
  }

  lemma {:induction false} Remainder(a: int, k: int, c: int)
    requires a == SIGLENBIT * k + c
    ensures a % SIGLENBIT == c % SIGLENBIT
  {
    var q, r := c / SIGLENBIT, c % SIGLENBIT;
    assert a == SIGLENBIT * (k + q) + r;
    assert SIGLENBIT * (a / SIGLENBIT - (k + q)) == r - a % SIGLENBIT;
  }

  predicate ValuesInt32(items: seq<Item>) {
    forall k :: 0 <= k < |items| && items[k].node.Val? ==> IsInt32(items[k].node.val)
  }

  /** signconsistent. */
  function SignConsistent(items: seq<Item>, sign: seq<bool>, calcnot: bool): bool
    requires WellLinked(items, |items| - 1) && ValuesInt32(items) && |sign| == SIGLENBIT
  {
    Execute(items, |items| - 1, calcnot,
            k => 0 <= k < |items| && items[k].node.Val? && sign[HashVal(items[k].node.val)])
  }

  /** A signature that covers the hashes of a matching array is never rejected. */
  lemma {:induction false} SignLosesNothing(items: seq<Item>, q: Query, a: seq<int>, sign: seq<bool>)
    requires Linked(items, |items| - 1, q) && ValuesInt32(items) && |sign| == SIGLENBIT
    requires forall v :: v in a ==> IsInt32(v) && sign[HashVal(v)]
    requires Holds(q, v => v in a)
    ensures WellLinked(items, |items| - 1) && SignConsistent(items, sign, false)
  {
    ExecuteLosesNothing(items, |items| - 1, q,
                        k => 0 <= k < |items| && items[k].node.Val? && sign[HashVal(items[k].node.val)], v => v in a);
  }

  /** Exactly which signatures are accepted: those on which the query holds, or its
      loosened form, when a set bit is read as the presence of every value that
      hashes to it. */
  lemma {:induction false} SignExact(items: seq<Item>, q: Query, sign: seq<bool>, calcnot: bool)
    requires Linked(items, |items| - 1, q) && ValuesInt32(items) && |sign| == SIGLENBIT
    ensures WellLinked(items, |items| - 1)
    ensures SignConsistent(items, sign, calcnot) <==>
            Holds(if calcnot then q else Loose(q), v => IsInt32(v) && sign[HashVal(v)])
  {
    hide HashVal;
    var chk := k => 0 <= k < |items| && items[k].node.Val? && sign[HashVal(items[k].node.val)];
    if calcnot {
      ExecuteIsHolds(items, |items| - 1, q, chk, v => IsInt32(v) && sign[HashVal(v)]);
    } else {
      ExecuteIsLoose(items, |items| - 1, q, chk, v => IsInt32(v) && sign[HashVal(v)]);
    }
  }

  // ----- GIN -----

  /** ginint4_queryextract: the operands of a query, in array order. */
  function Extract(items: seq<Item>): seq<int> {
    if items == [] then []
    else
      var n := |items| - 1;
      Extract(items[..n]) + if items[n].node.Val? then [items[n].node.val] else []
  }

  /** gin_bool_consistent: `check` holds the index's answer, for the array
      `a`, to each extracted operand; the result is the value of the query. */
  method GinBoolConsistent(items: seq<Item>, check: seq<bool>, ghost q: Query, ghost a: seq<int>) returns (res: bool)
    requires items != [] ==> Linked(items, |items| - 1, q)
    requires |check| == |Extract(items)|
    requires forall j :: 0 <= j < |check| ==> check[j] == (Extract(items)[j] in a)
    ensures res <==> items != [] && Holds(q, v => v in a)
  {
    if |items| == 0 {
      return false;
    }
    var mapped := MapChecks(items, check);
    LinkedIsWellLinked(items, |items| - 1, q);
    res := Execute(items, |items| - 1, true, k => 0 <= k < |mapped| && mapped[k]);
    ExecuteIsHolds(items, |items| - 1, q, k => 0 <= k < |mapped| && mapped[k], v => v in a);
  }

  /** The answers, moved to the positions of their operands. */
  method MapChecks(items: seq<Item>, check: seq<bool>) returns (mapped: seq<bool>)
    requires |check| == |Extract(items)|
    ensures |mapped| == |items|
    ensures forall k :: 0 <= k < |items| && items[k].node.Val? ==>
              exists m :: 0 <= m < |check| && mapped[k] == check[m] && Extract(items)[m] == items[k].node.val
  {
    var map0 := new bool[|items|];
    var j := 0;
    for i := 0 to |items|
      invariant j == |Extract(items[..i])| && Extract(items[..i]) <= Extract(items)
      invariant forall k :: 0 <= k < i && items[k].node.Val? ==>
                  exists m :: 0 <= m < j && map0[k] == check[m] && Extract(items)[m] == items[k].node.val
    {
      assert items[..i + 1][..i] == items[..i];
      ExtractPrefix(items, i + 1);
      if items[i].node.Val? {
        assert Extract(items[..i + 1])[j] == items[i].node.val;
        map0[i] := check[j];
        j := j + 1;
      }
    }
    assert items[..|items|] == items;
    mapped := map0[..];
  }

  lemma {:induction false} ExtractPrefix(items: seq<Item>, n: nat)
    requires n <= |items|
    ensures Extract(items[..n]) <= Extract(items)
    decreases |items|
  {
    if n < |items| {
      var init := items[..|items| - 1];
      ExtractPrefix(init, n);
      assert init[..n] == items[..n];
    } else {
      assert items[..n] == items;
    }
  }

  /** contains_required_value. */
  predicate Required(items: seq<Item>, cur: int)
    requires WellLinked(items, cur)
    decreases cur
  {
    match items[cur].node
    case Val(_) => true
    case Opr(Not) => false
    case Opr(And) => if Required(items, cur + items[cur].left) then true else Required(items, cur - 1)
    case Opr(Or) => if Required(items, cur + items[cur].left) then Required(items, cur - 1) else false
  }

  /** A query has required values exactly when the evaluator, negations read as
      true, rejects the empty array. */
  lemma {:induction false} RequiredExactly(items: seq<Item>, cur: int)
    requires WellLinked(items, cur)
    ensures Required(items, cur) <==> !Execute(items, cur, false, _ => false)
    decreases cur
  {
    match items[cur].node
    case Val(_) =>
    case Opr(Not) =>
    case Opr(_) =>
      RequiredExactly(items, cur + items[cur].left);
      RequiredExactly(items, cur - 1);
  }

  /** In terms of the query alone. */
  lemma {:induction false} RequiredMeans(items: seq<Item>, i: int, q: Query)
    requires Linked(items, i, q)
    ensures WellLinked(items, i) && (Required(items, i) <==> !Holds(Loose(q), _ => false))
  {
    LinkedIsWellLinked(items, i, q);
    RequiredExactly(items, i);
    ExecuteIsLoose(items, i, q, _ => false, _ => false);
  }

  /** When a query has required values, every array that satisfies it contains
      some value the query names, so an index search for those values is enough. */
  lemma {:induction false} RequiredIsPresent(items: seq<Item>, i: int, q: Query, has: int -> bool) returns (k: int)
    requires Linked(items, i, q) && WellLinked(items, i) && Required(items, i) && Holds(q, has)
    ensures 0 <= k <= i && items[k].node.Val? && has(items[k].node.val)
    decreases q
  {
    match q
    case Lit(_) => k := i;
    case Inv(_) => assert false;
    case Both(l, r) =>
      LinkedIsWellLinked(items, i - 1, r);
      if Required(items, i - 1 - |Post(r)|) {
        k := RequiredIsPresent(items, i - 1 - |Post(r)|, l, has);
      } else {
        k := RequiredIsPresent(items, i - 1, r, has);
      }
    case Either(l, r) =>
      if Holds(l, has) {
        k := RequiredIsPresent(items, i - 1 - |Post(r)|, l, has);
      } else {
        k := RequiredIsPresent(items, i - 1, r, has);
      }
  }
}
