/** The language of queries is unambiguous: a recursive-descent reader recovers
    the one parse tree of a text, whether or not it fits the operator stack. */
module IntQueryUnique {
  import opened Prelude
  import opened IntQueryGrammar

  /** A parse tree and the tokens after it. */
  type Parse = Option<(Syntax, seq<Token>)>

  function ReadFactor(ts: seq<Token>): (p: Parse)
    ensures p.Some? ==> |p.value.1| < |ts|
    decreases |ts|, 0
  {
    if ts == [] then None
    else match ts[0]
      case Number(v) => Some((Num(v), ts[1..]))
      case Operator(op) =>
        if op != Not then None
        else
          (match ReadFactor(ts[1..])
           case None => None
           case Some(q) => Some((Neg(q.0), q.1)))
      case Open =>
        (match ReadQuery(ts[1..])
         case None => None
         case Some(q) => if q.1 == [] || q.1[0] != Close then None else Some((Paren(q.0), q.1[1..])))
      case _ => None
  }

  function ReadQuery(ts: seq<Token>): (p: Parse)
    ensures p.Some? ==> |p.value.1| < |ts|
    decreases |ts|, 1
  {
    match ReadFactor(ts)
    case None => None
    case Some(q) => ReadOn(q.0, q.1)
  }

  /** Reads operators and operands after the query `s`. */
  function ReadOn(s: Syntax, ts: seq<Token>): (p: Parse)
    ensures p.Some? ==> |p.value.1| <= |ts|
    decreases |ts|, 1
  {
    if ts == [] || (ts[0] != Operator(And) && ts[0] != Operator(Or)) then Some((s, ts))
    else
      match ReadFactor(ts[1..])
      case None => None
      case Some(q) => ReadOn(Join(s, ts[0].op, q.0), q.1)
  }

  /** "&" binds to the last term of a query. */
  function Join(s: Syntax, op: Op, f: Syntax): Syntax {
    if op == Or then Disj(s, f)
    else if s.Disj? then Disj(s.left, Conj(s.right, f))
    else Conj(s, f)
  }

  /** A query of several factors is a shorter query joined to its last factor. */
  lemma {:induction false} LastFactor(s: Syntax) returns (l: Syntax, op: Op, f: Syntax)
    requires IsQuery(s) && !IsFactor(s)
    ensures IsQuery(l) && IsFactor(f) && op != Not && s == Join(l, op, f)
    ensures Tokens(s) == Tokens(l) + [Operator(op)] + Tokens(f)
  {
    if !s.Disj? {
      assert IsTerm(s);
      l, op, f := s.left, And, s.right;
      assert IsTerm(l) && (l.Conj? || IsFactor(l));
    } else if s.right.Conj? {
      l, op, f := Disj(s.left, s.right.left), And, s.right.right;
      assert IsTerm(s.right) && IsTerm(s.right.left);
      Assoc(Tokens(s.left) + [Operator(Or)], Tokens(s.right.left), [Operator(And)]);
      Assoc(Tokens(s.left) + [Operator(Or)], Tokens(s.right.left) + [Operator(And)], Tokens(f));
    } else {
      l, op, f := s.left, Or, s.right;
      assert IsTerm(f);
    }
  }

  lemma {:induction false} FactorRead(f: Syntax, more: seq<Token>)
    requires IsFactor(f)
    ensures ReadFactor(Tokens(f) + more) == Some((f, more))
    decreases |Tokens(f)|, 0
  {
    var ts := Tokens(f) + more;
    match f
    case Num(v) => assert ts[1..] == more;
    case Neg(a) =>
      assert ts[1..] == Tokens(a) + more;
      FactorRead(a, more);
    case Paren(b) =>
      assert ts[1..] == Tokens(b) + ([Close] + more);
      QueryRead(b, [Close] + more);
      assert ([Close] + more)[1..] == more;
  }

  /** The reader comes to the end of a query with exactly that query. */
  lemma {:induction false} QueryRead(s: Syntax, more: seq<Token>)
    requires IsQuery(s)
    ensures ReadQuery(Tokens(s) + more) == ReadOn(s, more)
    decreases |Tokens(s)|, 1
  {
    if IsFactor(s) {
      FactorRead(s, more);
    } else {
      var l, op, f := LastFactor(s);
      var tail := [Operator(op)] + (Tokens(f) + more);
      Assoc(Tokens(l) + [Operator(op)], Tokens(f), more);
      Assoc(Tokens(l), [Operator(op)], Tokens(f) + more);
      QueryRead(l, tail);
      assert tail[1..] == Tokens(f) + more;
      FactorRead(f, more);
    }
  }

  /** A text has at most one parse tree. */
  lemma {:induction false} OneParse(text: string, s: Syntax, s': Syntax)
    requires Parses(text, s) && Parses(text, s')
    ensures s == s'
  {
    QueryRead(s, []);
    QueryRead(s', []);
    assert Tokens(s) + [] == Tokens(s) && Tokens(s') + [] == Tokens(s');
  }

  lemma {:induction false} OneTree(text: string, s: Syntax)
    requires Parses(text, s)
    ensures forall s' :: Parses(text, s') ==> s' == s
  {
    forall s' | Parses(text, s')
      ensures s' == s
    {
      OneParse(text, s, s');
    }
  }
}
