/** The second half of bqarr_in: the node list becomes an array of items, and
    findoprnd fills in, from the last item backwards, the relative link from
    each binary operator to its left operand. */
module IntQueryLink {
  import opened Prelude
  import opened IntQueryGrammar
  import opened IntQueryParser
  import opened IntQueryUnique
  import opened IntQueryWork

  datatype Item = Item(node: Node, left: int)

  function Nodes(items: seq<Item>): (ns: seq<Node>)
    ensures |ns| == |items|
    ensures forall k :: 0 <= k < |items| ==> ns[k] == items[k].node
  {
    seq(|items|, i requires 0 <= i < |items| => items[i].node)
  }

  /** The postfix form of `q` ends at position `i`. */
  ghost predicate Shows(ns: seq<Node>, i: int, q: Query)
    decreases q
  {
    && 0 <= i < |ns|
    && match q
       case Lit(v) => ns[i] == Val(v)
       case Inv(a) => ns[i] == Opr(Not) && Shows(ns, i - 1, a)
       case Both(l, r) => ns[i] == Opr(And) && Shows(ns, i - 1, r) && Shows(ns, i - 1 - |Post(r)|, l)
       case Either(l, r) => ns[i] == Opr(Or) && Shows(ns, i - 1, r) && Shows(ns, i - 1 - |Post(r)|, l)
  }

  lemma {:induction false} ShowsRoom(ns: seq<Node>, i: int, q: Query)
    requires Shows(ns, i, q)
    ensures |Post(q)| <= i + 1
  {
    match q
    case Lit(_) =>
    case Inv(a) => ShowsRoom(ns, i - 1, a);
    case Both(l, r) => ShowsRoom(ns, i - 1 - |Post(r)|, l);
    case Either(l, r) => ShowsRoom(ns, i - 1 - |Post(r)|, l);
  }

  /** A postfix form inside a longer sequence. */
  lemma {:induction false} ShowsInside(pre: seq<Node>, q: Query, tail: seq<Node>)
    ensures Shows(pre + Post(q) + tail, |pre| + |Post(q)| - 1, q)
    decreases q
  {
    match q
    case Lit(_) =>
    case Inv(a) =>
      ShowsInside(pre, a, [Opr(Not)] + tail);
      Assoc(pre, Post(a), [Opr(Not)]);
      Assoc(pre + Post(a), [Opr(Not)], tail);
    case Both(l, r) => ShowsInsideBinary(pre, q, l, r, Opr(And), tail);
    case Either(l, r) => ShowsInsideBinary(pre, q, l, r, Opr(Or), tail);
  }

  lemma {:induction false} ShowsInsideBinary(pre: seq<Node>, q: Query, l: Query, r: Query, op: Node, tail: seq<Node>)
    requires (op == Opr(And) && q == Both(l, r)) || (op == Opr(Or) && q == Either(l, r))
    ensures Shows(pre + Post(q) + tail, |pre| + |Post(q)| - 1, q)
    decreases q, 0
  {
    var end := [op] + tail;
    ShowsInside(pre, l, Post(r) + end);
    ShowsInside(pre + Post(l), r, end);
    Regroup(pre, Post(l), Post(r), [op], tail);
    assert (pre + Post(q) + tail)[|pre| + |Post(q)| - 1] == op;
  }

  lemma {:induction false} Regroup<T>(a: seq<T>, b: seq<T>, c: seq<T>, d: seq<T>, e: seq<T>)
    ensures a + (b + c + d) + e == a + b + c + (d + e) == a + b + (c + (d + e))
  {
    Assoc(a + b, c, d + e);
    Assoc(a + b + c, d, e);
    Assoc(a, b, c);
    Assoc(a, b + c, d);
  }

  /** The links of the items that end at position `i` are those of `q`. */
  ghost predicate Linked(items: seq<Item>, i: int, q: Query)
    decreases q
  {
    && 0 <= i < |items|
    && match q
       case Lit(v) => items[i] == Item(Val(v), 0)
       case Inv(a) => items[i] == Item(Opr(Not), -1) && Linked(items, i - 1, a)
       case Both(l, r) =>
         && items[i] == Item(Opr(And), -1 - |Post(r)|)
         && Linked(items, i - 1, r) && Linked(items, i - 1 - |Post(r)|, l)
       case Either(l, r) =>
         && items[i] == Item(Opr(Or), -1 - |Post(r)|)
         && Linked(items, i - 1, r) && Linked(items, i - 1 - |Post(r)|, l)
  }

  /** Links depend only on the items of the operand itself. */
  lemma {:induction false} LinkedFrame(a: seq<Item>, b: seq<Item>, i: int, q: Query)
    requires |a| == |b| && i < |a| && Linked(a, i, q) && |Post(q)| <= i + 1
    requires forall k :: i - |Post(q)| < k <= i ==> a[k] == b[k]
    ensures Linked(b, i, q)
    decreases q
  {
    match q
    case Lit(_) =>
    case Inv(x) => LinkedFrame(a, b, i - 1, x);
    case Both(l, r) =>
      LinkedFrame(a, b, i - 1, r);
      LinkedFrame(a, b, i - 1 - |Post(r)|, l);
    case Either(l, r) =>
      LinkedFrame(a, b, i - 1, r);
      LinkedFrame(a, b, i - 1 - |Post(r)|, l);
  }

  /** Only links have changed, and only above `lo` and up to `hi`. */
  ghost predicate Relinked(a: seq<Item>, b: seq<Item>, lo: int, hi: int) {
    && |a| == |b| && Nodes(a) == Nodes(b)
    && forall k :: 0 <= k < |a| && !(lo < k <= hi) ==> a[k] == b[k]
  }

  lemma {:induction false} RelinkedMore(a: seq<Item>, b: seq<Item>, c: seq<Item>, lo: int, hi: int, lo': int, hi': int)
    requires Relinked(a, b, lo, hi) && Relinked(b, c, lo', hi')
    ensures Relinked(a, c, if lo < lo' then lo else lo', if hi < hi' then hi' else hi)
  {
  }

  lemma {:induction false} RelinkedWiden(a: seq<Item>, b: seq<Item>, lo: int, hi: int, lo': int, hi': int)
    requires Relinked(a, b, lo, hi) && lo' <= lo && hi <= hi'
    ensures Relinked(a, b, lo', hi')
  {
  }

  lemma {:induction false} LinkedElsewhere(a: seq<Item>, b: seq<Item>, lo: int, hi: int, i: int, q: Query)
    requires Relinked(a, b, lo, hi) && i < |a| && Linked(a, i, q) && |Post(q)| <= i + 1
    requires i <= lo || hi <= i - |Post(q)|
    ensures Linked(b, i, q)
  {
    LinkedFrame(a, b, i, q);
  }

  lemma {:induction false} RelinkedAt(a: seq<Item>, i: int, left: int)
    requires 0 <= i < |a|
    ensures Relinked(a, a[i := a[i].(left := left)], i - 1, i)
  {
    assert Nodes(a[i := a[i].(left := left)]) == Nodes(a);
  }

  lemma {:induction false} ShowsWhole(ns: seq<Node>, q: Query)
    requires ns == Post(q)
    ensures Shows(ns, |ns| - 1, q)
  {
    ShowsInside([], q, []);
    assert [] + Post(q) + [] == ns;
  }

  /** findoprnd: `pos` is the item to link, the result the first item below its
      operand. */
  method FindOprnd(ptr: array<Item>, pos: int, ghost q: Query) returns (next: int, ok: bool)
    requires 0 <= pos < ptr.Length && Shows(Nodes(ptr[..]), pos, q)
    modifies ptr
    ensures Relinked(old(ptr[..]), ptr[..], pos - |Post(q)|, pos)
    ensures ok <==> LinksFit(q)
    ensures ok ==> next == pos - |Post(q)| && Linked(ptr[..], pos, q)
    decreases q
  {
    ShowsRoom(Nodes(ptr[..]), pos, q);
    next := pos - 1;
    if ptr[pos].node.Val? {
      RelinkedAt(ptr[..], pos, 0);
      ptr[pos] := ptr[pos].(left := 0);
      assert ptr[..] == old(ptr[..])[pos := old(ptr[pos]).(left := 0)];
      return next, true;
    } else if ptr[pos].node.op == Not {
      ghost var s0 := ptr[..];
      ptr[pos] := ptr[pos].(left := -1);
      ghost var s1 := ptr[..];
      assert s1 == s0[pos := s0[pos].(left := -1)];
      RelinkedAt(s0, pos, -1);
      next, ok := FindOprnd(ptr, next, q.arg);
      RelinkedMore(s0, s1, ptr[..], pos - 1, pos, pos - |Post(q)|, pos - 1);
    } else {
      next, ok := LinkBinary(ptr, pos, q);
    }
  }

  /** The binary case of findoprnd: the right operand is scanned first, and
      tells where the left one ends. */
  method LinkBinary(ptr: array<Item>, pos: int, ghost q: Query) returns (next: int, ok: bool)
    requires 0 <= pos < ptr.Length && (q.Both? || q.Either?)
    requires ptr[pos].node == Opr(if q.Both? then And else Or)
    requires Shows(Nodes(ptr[..]), pos - 1, q.right) && Shows(Nodes(ptr[..]), pos - 1 - |Post(q.right)|, q.left)
    modifies ptr
    ensures Relinked(old(ptr[..]), ptr[..], pos - |Post(q)|, pos)
    ensures ok <==> LinksFit(q)
    ensures ok ==> next == pos - |Post(q)| && Linked(ptr[..], pos, q)
    decreases q, 1
  {
    BinaryFit(q);
    ghost var s0, n := ptr[..], |Post(q.right)|;
    ShowsRoom(Nodes(s0), pos - 1 - n, q.left);
    hide Linked, LinksFit, Post, Nodes;
    next, ok := LinkRight(ptr, pos, q);
    ghost var s2 := ptr[..];
    if !ok {
      RelinkedWiden(s0, s2, pos - 1 - n, pos, pos - |Post(q)|, pos);
      return next, false;
    }
    hide Relinked, Shows;
    next, ok := FindOprnd(ptr, next, q.left);
    BinaryDone(s0, s2, ptr[..], pos, q, ok);
  }

  lemma {:induction false} BinaryDone(s0: seq<Item>, s2: seq<Item>, s3: seq<Item>, i: int, q: Query, ok: bool)
    requires (q.Both? || q.Either?) && |Post(q)| <= i + 1 <= |s0| == |s2|
    ensures && Relinked(s0, s2, i - 1 - |Post(q.right)|, i)
            && Relinked(s2, s3, i - 1 - |Post(q.right)| - |Post(q.left)|, i - 1 - |Post(q.right)|)
            && s2[i] == Item(Opr(if q.Both? then And else Or), -1 - |Post(q.right)|)
            && Linked(s2, i - 1, q.right) && (ok ==> Linked(s3, i - 1 - |Post(q.right)|, q.left)) ==>
              Relinked(s0, s3, i - |Post(q)|, i) && (ok ==> Linked(s3, i, q))
  {
    var n := |Post(q.right)|;
    if && Relinked(s0, s2, i - 1 - n, i) && Relinked(s2, s3, i - |Post(q)|, i - 1 - n)
       && s2[i] == Item(Opr(if q.Both? then And else Or), -1 - n) && Linked(s2, i - 1, q.right) {
      RelinkedMore(s0, s2, s3, i - 1 - n, i, i - |Post(q)|, i - 1 - n);
      LinkedElsewhere(s2, s3, i - |Post(q)|, i - 1 - n, i - 1, q.right);
    }
  }

  method LinkRight(ptr: array<Item>, pos: int, ghost q: Query) returns (next: int, ok: bool)
    requires 0 <= pos < ptr.Length && (q.Both? || q.Either?)
    requires Shows(Nodes(ptr[..]), pos - 1, q.right)
    modifies ptr
    ensures Relinked(old(ptr[..]), ptr[..], pos - 1 - |Post(q.right)|, pos)
    ensures ok <==> LinksFit(q.right) && |Post(q.right)| <= LINK_MAX
    ensures ok ==> && next == pos - 1 - |Post(q.right)| && Linked(ptr[..], pos - 1, q.right)
                   && ptr[pos] == old(ptr[pos]).(left := -1 - |Post(q.right)|)
    decreases q, 0
  {
    ghost var s0, n := ptr[..], |Post(q.right)|;
    ShowsRoom(Nodes(s0), pos - 1, q.right);
    next, ok := FindOprnd(ptr, pos - 1, q.right);
    ghost var s1 := ptr[..];
    var delta := next - pos;
    if !ok || delta < -0x8000 {
      RelinkedWiden(s0, s1, pos - 1 - n, pos - 1, pos - 1 - n, pos);
      return next, false;
    }
    assert ptr[pos] == s1[pos] == s0[pos];
    ptr[pos] := ptr[pos].(left := delta);
    ghost var s2 := ptr[..];
    assert s2 == s1[pos := s1[pos].(left := delta)];
    RelinkedAt(s1, pos, delta);
    RelinkedMore(s0, s1, s2, pos - 1 - n, pos - 1, pos - 1, pos);
    LinkedElsewhere(s1, s2, pos - 1, pos, pos - 1, q.right);
  }

  lemma {:induction false} BinaryFit(q: Query)
    requires q.Both? || q.Either?
    ensures LinksFit(q) <==> LinksFit(q.left) && LinksFit(q.right) && |Post(q.right)| <= LINK_MAX
    ensures |Post(q)| == |Post(q.left)| + |Post(q.right)| + 1
  {
  }

  // ----- bqarr_in -----

  datatype Input = Accepted(items: seq<Item>) | Refused(error: QueryError)

  /** The texts bqarr_in accepts: the sentences of the language within the
      limits of the operator stack, of the item array and of the links. */
  ghost predicate Within(s: Syntax) {
    QueryFits(s) && |Post(Meaning(s))| <= MAX_ITEMS && LinksFit(Meaning(s))
  }

  /** bqarr_in. */
  method BqarrIn(text: string) returns (r: Input)
    ensures r.Accepted? <==> exists s :: Parses(text, s) && Within(s)
    ensures r.Accepted? ==> forall s :: Parses(text, s) ==>
              Nodes(r.items) == Post(Meaning(s)) && Linked(r.items, |r.items| - 1, Meaning(s))
    ensures (exists s :: Parses(text, s) && !QueryFits(s)) ==> r == Refused(StatementTooComplex)
    ensures r == Refused(SyntaxError) ==> !exists s :: Parses(text, s)
    ensures r != Refused(EmptyQuery)
  {
    var state := new WorkState(text);
    var error := state.MakePol();
    RefusedOutright(text);
    if error.Some? {
      return Refused(error.value);
    }
    ghost var s := CompiledIsSentence(text);
    OneTree(text, s);
    hide Compile, Parses, QueryFits, Linked, LinksFit, Post, Nodes;
    r := BuildQuery(state.str, Meaning(s));
  }

  /** What bqarr_in does with the finished list of nodes. */
  method BuildQuery(list: seq<Node>, ghost q: Query) returns (r: Input)
    requires OldestFirst(list) == Post(q)
    ensures r.Accepted? <==> |Post(q)| <= MAX_ITEMS && LinksFit(q)
    ensures r.Accepted? ==> Nodes(r.items) == Post(q) && Linked(r.items, |r.items| - 1, q)
    ensures r.Refused? ==> r.error == TooManyItems || r.error == ExpressionTooComplex
  {
    if |list| == 0 {
      return Refused(EmptyQuery);
    }
    if |list| > MAX_ITEMS {
      return Refused(TooManyItems);
    }
    var ptr := CopyNodes(list);
    ShowsWhole(Nodes(ptr[..]), q);
    hide Shows, Nodes, Linked, Post, LinksFit, OldestFirst;
    var next, ok := FindOprnd(ptr, ptr.Length - 1, q);
    r := if ok then Accepted(ptr[..]) else Refused(ExpressionTooComplex);
  }

  /** The copying loop of bqarr_in: the list is newest first, the array is
      filled from its end. */
  method CopyNodes(list: seq<Node>) returns (ptr: array<Item>)
    ensures fresh(ptr) && Nodes(ptr[..]) == OldestFirst(list)
  {
    var num := |list|;
    ptr := new Item[num](_ => Item(Opr(Not), 0));
    var str := list;
    var i := num - 1;
    while i >= 0
      invariant -1 <= i < num
      invariant str == list[num - 1 - i..]
      invariant forall k :: i < k < num ==> ptr[k].node == list[num - 1 - k]
    {
      ptr[i] := Item(str[0], 0);
      str := str[1..];
      i := i - 1;
    }
  }

  /** The errors of makepol. */
  lemma {:induction false} RefusedOutright(text: string)
    ensures var r := Compile(Start(text), [], []);
            && (r.Fail? ==> !exists s :: Parses(text, s) && QueryFits(s))
            && ((exists s :: Parses(text, s) && !QueryFits(s)) ==> r == Fail(StatementTooComplex))
  {
    forall s | Parses(text, s)
      ensures Compile(Start(text), [], []) == Fail(StatementTooComplex) <==> !QueryFits(s)
      ensures Compile(Start(text), [], []).Done? <==> QueryFits(s)
    {
      SentenceCompiles(text, s);
    }
  }
}
