/** The text-to-postfix half of bqarr_in: the tokenizer gettoken and the
    operator-precedence compiler makepol, as functions of a cursor into the
    text. They accept exactly the language of the grammar, up to the depth of
    the operator stack. */
module IntQueryParser {
  import opened Prelude
  import opened IntQueryGrammar

  datatype QueryError = SyntaxError | StatementTooComplex | EmptyQuery | TooManyItems | ExpressionTooComplex

  // ----- tokenizer -----

  /** What the tokenizer sees: the unread text, whether an operand or an
      operator must come next, and the number of open parentheses. */
  datatype Cursor = Cursor(rest: string, operand: bool, depth: nat)

  function Start(text: string): Cursor {
    Cursor(text, true, 0)
  }

  /** The token gettoken returns, and where it leaves the cursor. */
  function Next(c: Cursor): (r: (Token, Cursor))
    ensures r.0 != Err && r.0 != End ==> |r.1.rest| < |c.rest|
    ensures |r.1.rest| <= |c.rest|
    decreases |c.rest|
  {
    var s := c.rest;
    if c.operand then
      if s == "" then (Err, c)
      else if IsDigit(s[0]) || s[0] == '-' then
        var n := LeadingNumeral(s);
        if |n| > NUMERAL_MAX || !IsInt32(StrToL(n)) || (c.depth > 0 && |n| == |s|) then (Err, c)
        else (Number(StrToL(n)), Cursor(s[|n|..], false, c.depth))
      else if s[0] == '!' then (Operator(Not), c.(rest := s[1..]))
      else if s[0] == '(' then (Open, Cursor(s[1..], true, c.depth + 1))
      else if s[0] == ' ' then Next(c.(rest := s[1..]))
      else (Err, c)
    else
      if s == "" then (if c.depth > 0 then Err else End, c)
      else if s[0] == '&' then (Operator(And), Cursor(s[1..], true, c.depth))
      else if s[0] == '|' then (Operator(Or), Cursor(s[1..], true, c.depth))
      else if s[0] == ')' then
        if c.depth == 0 then (Err, c) else (Close, Cursor(s[1..], false, c.depth - 1))
      else if s[0] == ' ' then Next(c.(rest := s[1..]))
      else (Err, c)
  }

  /** Tokens the grammar allows where an operand is expected, or an operator. */
  predicate Expected(t: Token, operand: bool) {
    if operand then t.Number? || t == Operator(Not) || t.Open?
    else t == Operator(And) || t == Operator(Or) || t.Close?
  }

  function After(t: Token, c: Cursor): (bool, int) {
    (match t
     case Number(_) => false
     case Close => false
     case _ => true,
     match t
     case Open => c.depth + 1
     case Close => c.depth - 1
     case _ => c.depth)
  }

  /** A token that is read without error is the first token of the text. */
  lemma {:induction false} NextIsLexed(c: Cursor)
    ensures Next(c).0 != Err && Next(c).0 != End ==>
              && Lex(c.rest) == Prepend([Next(c).0], Lex(Next(c).1.rest))
              && Expected(Next(c).0, c.operand) && (Next(c).0.Number? ==> IsInt32(Next(c).0.val))
              && After(Next(c).0, c) == (Next(c).1.operand, Next(c).1.depth)
    ensures Next(c).0 == End ==>
              Lex(c.rest) == Some([]) && !c.operand && c.depth == 0 && !Next(c).1.operand
    decreases |c.rest|
  {
    if c.rest != "" && c.rest[0] == ' ' {
      NextIsLexed(c.(rest := c.rest[1..]));
    }
  }

  /** Conversely, an expected first token of the text is read. */
  lemma {:induction false} LexedIsNext(c: Cursor, t: Token, more: seq<Token>)
    requires Lex(c.rest) == Some([t] + more)
    requires Expected(t, c.operand)
    requires t.Close? ==> c.depth > 0
    requires c.depth > 0 ==> more != [] || t.Close?
    ensures Next(c).0 == t
    ensures Lex(Next(c).1.rest) == Some(more)
    ensures After(t, c) == (Next(c).1.operand, Next(c).1.depth)
    decreases |c.rest|
  {
    var s := c.rest;
    if s[0] == ' ' {
      LexedIsNext(c.(rest := s[1..]), t, more);
    } else if IsPunctuation(s[0]) {
      PrependHead(Punctuation(s[0]), Lex(s[1..]), t, more);
    } else {
      var n := LeadingNumeral(s);
      PrependHead(Number(StrToL(n)), Lex(s[|n|..]), t, more);
    }
  }

  lemma {:induction false} PrependHead(u: Token, o: Option<seq<Token>>, t: Token, more: seq<Token>)
    requires Prepend([u], o) == Some([t] + more)
    ensures u == t && o == Some(more)
  {
    assert ([u] + o.value)[0] == ([t] + more)[0];
    assert ([u] + o.value)[1..] == o.value && ([t] + more)[1..] == more;
  }

  /** The end of the text is seen exactly when no token is left. */
  lemma {:induction false} LexedIsEnd(c: Cursor)
    requires Lex(c.rest) == Some([])
    requires !c.operand && c.depth == 0
    ensures Next(c).0 == End
    decreases |c.rest|
  {
    if c.rest != "" && c.rest[0] == ' ' {
      LexedIsEnd(c.(rest := c.rest[1..]));
    }
  }

  // ----- compiler -----

  /** An operator stack without its trailing "&" and "!" ... */
  function Low(st: seq<Op>): (r: seq<Op>)
    ensures |r| <= |st|
  {
    if st != [] && st[|st| - 1] != Or then Low(st[..|st| - 1]) else st
  }

  /** ... and those trailing operators, in the order they are emitted. */
  function High(st: seq<Op>): seq<Node> {
    if st != [] && st[|st| - 1] != Or then [Opr(st[|st| - 1])] + High(st[..|st| - 1]) else []
  }

  /** All of an operator stack, in the order it is emitted. */
  function Drain(st: seq<Op>): seq<Node> {
    if st == [] then [] else [Opr(st[|st| - 1])] + Drain(st[..|st| - 1])
  }

  datatype Compiled = Done(cursor: Cursor, out: seq<Node>) | Fail(error: QueryError)

  /** makepol from a given cursor, operator stack and output so far. */
  function Compile(c: Cursor, st: seq<Op>, out: seq<Node>): (r: Compiled)
    ensures r.Done? ==> |r.cursor.rest| <= |c.rest|
    ensures r.Fail? ==> r.error == SyntaxError || r.error == StatementTooComplex
    decreases |c.rest|
  {
    var (t, c') := Next(c);
    match t
    case End => Done(c', out + Drain(st))
    case Close => Done(c', out + Drain(st))
    case Number(v) => Compile(c', Low(st), out + [Val(v)] + High(st))
    case Operator(op) =>
      if st != [] && op == Or then Compile(c', st, out + [Opr(op)])
      else if |st| == STACK_DEPTH then Fail(StatementTooComplex)
      else Compile(c', st + [op], out)
    case Open =>
      (match Compile(c', [], out)
       case Fail(e) => Fail(e)
       case Done(c'', out') => Compile(c'', Low(st), out' + High(st)))
    case Err => Fail(SyntaxError)
  }

  /** One turn of makepol's loop. */
  lemma {:induction false} CompileStep(c: Cursor, c': Cursor, t: Token, st: seq<Op>, out: seq<Node>)
    requires Next(c) == (t, c')
    ensures t.End? || t.Close? ==> Compile(c, st, out) == Done(c', out + Drain(st))
    ensures t.Err? ==> Compile(c, st, out) == Fail(SyntaxError)
    ensures t.Number? ==> Compile(c, st, out) == Compile(c', Low(st), out + [Val(t.val)] + High(st))
    ensures t.Operator? && st != [] && t.op == Or ==> Compile(c, st, out) == Compile(c', st, out + [Opr(t.op)])
    ensures t.Operator? && !(st != [] && t.op == Or) ==>
              Compile(c, st, out) ==
              if |st| == STACK_DEPTH then Fail(StatementTooComplex) else Compile(c', st + [t.op], out)
    ensures t.Open? && Compile(c', [], out).Fail? ==> Compile(c, st, out) == Compile(c', [], out)
    ensures t.Open? && Compile(c', [], out).Done? ==>
              var inner := Compile(c', [], out);
              Compile(c, st, out) == Compile(inner.cursor, Low(st), inner.out + High(st))
  {
  }

  // ----- every sentence compiles to its postfix form -----

  lemma {:induction false} LowHighPush(st: seq<Op>, op: Op)
    requires op != Or
    ensures Low(st + [op]) == Low(st)
    ensures High(st + [op]) == [Opr(op)] + High(st)
  {
    assert (st + [op])[..|st|] == st;
  }

  /** Reading one factor emits its postfix form and then every pending "!" and
      "&", or fails when the factor does not fit the stack. */
  lemma {:induction false} CompileFactor(s: Syntax, c: Cursor, st: seq<Op>, out: seq<Node>, more: seq<Token>)
    returns (c': Cursor)
    requires IsFactor(s) && c.operand && |st| <= STACK_DEPTH
    requires Lex(c.rest) == Some(Tokens(s) + more)
    requires c.depth > 0 ==> more != []
    ensures !FactorFits(s, |st|) ==> Compile(c, st, out) == Fail(StatementTooComplex)
    ensures FactorFits(s, |st|) ==>
              && Lex(c'.rest) == Some(more) && !c'.operand && c'.depth == c.depth
              && Compile(c, st, out) == Compile(c', Low(st), out + Post(Meaning(s)) + High(st))
    decreases s, 0
  {
    match s {
      case Num(v) =>
        LexedIsNext(c, Number(v), more);
        c' := Next(c).1;
      case Neg(a) =>
        c' := CompileNot(a, c, st, out, more);
      case Paren(b) =>
        c' := CompileParen(b, c, st, out, more);
    }
  }

  lemma {:induction false} CompileNot(a: Syntax, c: Cursor, st: seq<Op>, out: seq<Node>, more: seq<Token>)
    returns (c': Cursor)
    requires IsFactor(a) && c.operand && |st| <= STACK_DEPTH
    requires Lex(c.rest) == Some(Tokens(Neg(a)) + more)
    requires c.depth > 0 ==> more != []
    ensures !FactorFits(Neg(a), |st|) ==> Compile(c, st, out) == Fail(StatementTooComplex)
    ensures FactorFits(Neg(a), |st|) ==>
              && Lex(c'.rest) == Some(more) && !c'.operand && c'.depth == c.depth
              && Compile(c, st, out) == Compile(c', Low(st), out + Post(Inv(Meaning(a))) + High(st))
    decreases a, 3
  {
    hide *;
    NotIsNext(a, c, |st|, more);
    c' := Next(c).1;
    CompileStep(c, c', Operator(Not), st, out);
    LowHighPush(st, Not);
    if |st| < STACK_DEPTH {
      c' := CompileFactor(a, c', st + [Not], out, more);
      EmitNot(out, Meaning(a), High(st));
    }
  }

  lemma {:induction false} NotIsNext(a: Syntax, c: Cursor, used: nat, more: seq<Token>)
    requires c.operand && Lex(c.rest) == Some(Tokens(Neg(a)) + more)
    requires c.depth > 0 ==> more != []
    ensures var (t, c') := Next(c);
            t == Operator(Not) && c'.operand && c'.depth == c.depth && Lex(c'.rest) == Some(Tokens(a) + more)
    ensures FactorFits(Neg(a), used) <==> used < STACK_DEPTH && FactorFits(a, used + 1)
  {
    Assoc([Operator(Not)], Tokens(a), more);
    LexedIsNext(c, Operator(Not), Tokens(a) + more);
    hide Lex, Next;
  }

  lemma {:induction false} EmitNot(out: seq<Node>, a: Query, high: seq<Node>)
    ensures out + Post(a) + ([Opr(Not)] + high) == out + Post(Inv(a)) + high
  {
    Assoc(out + Post(a), [Opr(Not)], high);
    Assoc(out, Post(a), [Opr(Not)]);
  }

  lemma {:induction false} CompileParen(b: Syntax, c: Cursor, st: seq<Op>, out: seq<Node>, more: seq<Token>)
    returns (c': Cursor)
    requires IsQuery(b) && c.operand && |st| <= STACK_DEPTH
    requires Lex(c.rest) == Some(Tokens(Paren(b)) + more)
    requires c.depth > 0 ==> more != []
    ensures !QueryFits(b) ==> Compile(c, st, out) == Fail(StatementTooComplex)
    ensures QueryFits(b) ==>
              && Lex(c'.rest) == Some(more) && !c'.operand && c'.depth == c.depth
              && Compile(c, st, out) == Compile(c', Low(st), out + Post(Meaning(b)) + High(st))
    decreases b, 3
  {
    var inner := [Close] + more;
    Assoc([Open], Tokens(b), [Close]);
    Assoc([Open], Tokens(b) + [Close], more);
    Assoc(Tokens(b), [Close], more);
    LexedIsNext(c, Open, Tokens(b) + inner);
    var c1 := CompileQuery(b, Next(c).1, out, inner);
    c' := Next(c1).1;
    if QueryFits(b) {
      LexedIsNext(c1, Close, more);
      DrainPending(b, out);
    }
  }

  lemma {:induction false} EmitAnd(out: seq<Node>, l: Query, r: Query)
    ensures out + Post(l) + Post(r) + ([Opr(And)] + []) == out + Post(Both(l, r))
  {
    Assoc(out, Post(l), Post(r));
    Assoc(out, Post(l) + Post(r), [Opr(And)]);
  }

  /** Reading a term above an empty stack or a lone "|". */
  lemma {:induction false} CompileTerm(s: Syntax, c: Cursor, st: seq<Op>, out: seq<Node>, more: seq<Token>)
    returns (c': Cursor)
    requires IsTerm(s) && c.operand && (st == [] || st == [Or])
    requires Lex(c.rest) == Some(Tokens(s) + more)
    requires c.depth > 0 ==> more != []
    ensures !TermFits(s, |st|) ==> Compile(c, st, out) == Fail(StatementTooComplex)
    ensures TermFits(s, |st|) ==>
              && Lex(c'.rest) == Some(more) && !c'.operand && c'.depth == c.depth
              && Compile(c, st, out) == Compile(c', st, out + Post(Meaning(s)))
    decreases s, 1
  {
    if s.Conj? {
      var tail := [Operator(And)] + (Tokens(s.right) + more);
      Assoc(Tokens(s.left), [Operator(And)], Tokens(s.right));
      Assoc(Tokens(s.left), [Operator(And)] + Tokens(s.right), more);
      Assoc([Operator(And)], Tokens(s.right), more);
      var c1 := CompileTerm(s.left, c, st, out, tail);
      c' := c1;
      if TermFits(s.left, |st|) {
        LexedIsNext(c1, Operator(And), Tokens(s.right) + more);
        var out1 := out + Post(Meaning(s.left));
        c' := CompileFactor(s.right, Next(c1).1, st + [And], out1, more);
        LowHighPush(st, And);
        EmitAnd(out, Meaning(s.left), Meaning(s.right));
      }
    } else {
      c' := CompileFactor(s, c, st, out, more);
      assert out + Post(Meaning(s)) + High(st) == out + Post(Meaning(s));
    }
  }

  /** A disjunction leaves its last "|" on the stack ... */
  function Pending(s: Syntax): seq<Op> {
    if s.Disj? then [Or] else []
  }

  /** ... and the rest of its postfix form in the output. */
  function Emitted(s: Syntax): seq<Node> {
    if s.Disj? then Post(Meaning(s.left)) + Post(Meaning(s.right)) else Post(Meaning(s))
  }

  lemma {:induction false} DrainPending(s: Syntax, out: seq<Node>)
    ensures out + Emitted(s) + Drain(Pending(s)) == out + Post(Meaning(s))
  {
    if s.Disj? {
      assert [Or][..0] == [];
      assert Drain([Or]) == [Opr(Or)];
    }
  }

  /** The next "|" of a level: it goes on the empty stack, or is emitted in
      place of the one already there. */
  lemma {:induction false} CompileOr(s: Syntax, c: Cursor, out: seq<Node>)
    requires Next(c).0 == Operator(Or)
    ensures Compile(c, Pending(s), out + Emitted(s)) == Compile(Next(c).1, [Or], out + Post(Meaning(s)))
  {
    if s.Disj? {
      assert out + Emitted(s) + [Opr(Or)] == out + Post(Meaning(s));
    } else {
      assert [] + [Or] == [Or];
    }
  }

  lemma {:induction false} CompileQuery(s: Syntax, c: Cursor, out: seq<Node>, more: seq<Token>)
    returns (c': Cursor)
    requires IsQuery(s) && c.operand
    requires Lex(c.rest) == Some(Tokens(s) + more)
    requires c.depth > 0 ==> more != []
    ensures !QueryFits(s) ==> Compile(c, [], out) == Fail(StatementTooComplex)
    ensures QueryFits(s) ==>
              && Lex(c'.rest) == Some(more) && !c'.operand && c'.depth == c.depth
              && Compile(c, [], out) == Compile(c', Pending(s), out + Emitted(s))
    decreases s, 2
  {
    if s.Disj? {
      var tail := [Operator(Or)] + (Tokens(s.right) + more);
      Assoc(Tokens(s.left), [Operator(Or)], Tokens(s.right));
      Assoc(Tokens(s.left), [Operator(Or)] + Tokens(s.right), more);
      Assoc([Operator(Or)], Tokens(s.right), more);
      var c1 := CompileQuery(s.left, c, out, tail);
      c' := c1;
      if QueryFits(s.left) {
        var out1 := out + Post(Meaning(s.left));
        LexedIsNext(c1, Operator(Or), Tokens(s.right) + more);
        CompileOr(s.left, c1, out);
        c' := CompileTerm(s.right, Next(c1).1, [Or], out1, more);
        assert out1 + Post(Meaning(s.right)) == out + Emitted(s);
      }
    } else {
      c' := CompileTerm(s, c, [], out, more);
    }
  }

  // ----- everything that compiles is a sentence -----

  /** What one nesting level has read while it waits for an operand: a finished
      disjunction, a finished left side of "&", and a run of "!". */
  datatype Context = Context(disj: Option<Syntax>, conj: Option<Syntax>, nots: nat)

  predicate GoodContext(x: Context) {
    && (x.disj.Some? ==> IsQuery(x.disj.value))
    && (x.conj.Some? ==> IsTerm(x.conj.value))
  }

  function OrStack(disj: Option<Syntax>): seq<Op> {
    if disj.Some? then [Or] else []
  }

  function Repeat<T>(t: T, n: nat): seq<T> {
    if n == 0 then [] else Repeat(t, n - 1) + [t]
  }

  function StackOf(x: Context): seq<Op> {
    OrStack(x.disj) + (if x.conj.Some? then [And] else []) + Repeat(Not, x.nots)
  }

  function Before(s: Option<Syntax>, op: Op): seq<Token> {
    match s
    case None => []
    case Some(v) => Tokens(v) + [Operator(op)]
  }

  function TokensOf(x: Context): seq<Token> {
    Before(x.disj, Or) + Before(x.conj, And) + Repeat(Operator(Not), x.nots)
  }

  function Negate(n: nat, s: Syntax): Syntax {
    if n == 0 then s else Negate(n - 1, Neg(s))
  }

  lemma {:induction false} NegateShape(n: nat, s: Syntax)
    requires IsFactor(s)
    ensures IsFactor(Negate(n, s))
    ensures Tokens(Negate(n, s)) == Repeat(Operator(Not), n) + Tokens(s)
    decreases n
  {
    if n > 0 {
      NegateShape(n - 1, Neg(s));
      Assoc(Repeat(Operator(Not), n - 1), [Operator(Not)], Tokens(s));
    }
  }

  /** The term completed by a factor. */
  function Complete(x: Context, f: Syntax): Syntax {
    var g := Negate(x.nots, f);
    if x.conj.Some? then Conj(x.conj.value, g) else g
  }

  lemma {:induction false} CompleteShape(x: Context, f: Syntax)
    requires GoodContext(x) && IsFactor(f)
    ensures IsTerm(Complete(x, f))
    ensures Before(x.disj, Or) + Tokens(Complete(x, f)) == TokensOf(x) + Tokens(f)
  {
    NegateShape(x.nots, f);
  }

  lemma {:induction false} LowOfContext(x: Context)
    ensures Low(StackOf(x)) == OrStack(x.disj)
    decreases x.nots
  {
    var st := StackOf(x);
    if x.nots > 0 {
      assert st[..|st| - 1] == StackOf(x.(nots := x.nots - 1));
      LowOfContext(x.(nots := x.nots - 1));
    } else if x.conj.Some? {
      assert st == OrStack(x.disj) + [And];
      LowHighPush(OrStack(x.disj), And);
    } else {
      assert st == OrStack(x.disj);
    }
  }

  function JoinOr(disj: Option<Syntax>, term: Syntax): Syntax {
    match disj
    case None => term
    case Some(d) => Disj(d, term)
  }

  /** What a level has read after a binary operator. */
  function Extend(disj: Option<Syntax>, term: Syntax, op: Op): Context {
    if op == And then Context(disj, Some(term), 0) else Context(Some(JoinOr(disj, term)), None, 0)
  }

  lemma {:induction false} ExtendShape(disj: Option<Syntax>, term: Syntax, op: Op)
    requires op != Not
    ensures StackOf(Extend(disj, term, op)) == if op == And then OrStack(disj) + [And] else [Or]
    ensures TokensOf(Extend(disj, term, op)) == Before(disj, Or) + Tokens(term) + [Operator(op)]
  {
    Assoc(Before(disj, Or), Tokens(term), [Operator(op)]);
  }

  lemma {:induction false} CompileExtend(c: Cursor, disj: Option<Syntax>, term: Syntax, op: Op, out: seq<Node>)
    requires Next(c).0 == Operator(op) && op != Not
    ensures Compile(c, OrStack(disj), out)
         == Compile(Next(c).1, StackOf(Extend(disj, term, op)), if op == Or && disj.Some? then out + [Opr(op)] else out)
  {
    ExtendShape(disj, term, op);
    if op == Or && disj.None? {
      assert [] + [Or] == [Or];
    }
  }

  /** What a successful run from `c` to `r` has read: the tokens `eaten`, and
      the closing parenthesis of its level if it has one. */
  ghost predicate Reads(c: Cursor, r: Compiled, eaten: seq<Token>) {
    && r.Done? && !r.cursor.operand
    && (c.depth > 0 ==> r.cursor.depth == c.depth - 1)
    && Lex(c.rest) == (if c.depth > 0 then Prepend(eaten + [Close], Lex(r.cursor.rest)) else Some(eaten))
  }

  lemma {:induction false} PrependPrepend(ts: seq<Token>, us: seq<Token>, o: Option<seq<Token>>)
    ensures Prepend(ts, Prepend(us, o)) == Prepend(ts + us, o)
  {
    if o.Some? {
      Assoc(ts, us, o.value);
    }
  }

  /** Reading `ts` and then a run that reads `eaten` is reading both. */
  lemma {:induction false} ReadsMore(c: Cursor, mid: Cursor, r: Compiled, ts: seq<Token>, eaten: seq<Token>)
    requires Lex(c.rest) == Prepend(ts, Lex(mid.rest)) && c.depth == mid.depth
    requires Reads(mid, r, eaten)
    ensures Reads(c, r, ts + eaten)
  {
    if c.depth > 0 {
      PrependPrepend(ts, eaten + [Close], Lex(r.cursor.rest));
      Assoc(ts, eaten, [Close]);
    }
  }

  lemma {:induction false} SentenceFromOperand(c: Cursor, x: Context, out: seq<Node>)
    returns (s: Syntax, eaten: seq<Token>)
    requires c.operand && GoodContext(x)
    requires Compile(c, StackOf(x), out).Done?
    ensures Reads(c, Compile(c, StackOf(x), out), eaten)
    ensures IsQuery(s) && Tokens(s) == TokensOf(x) + eaten
    decreases |c.rest|, 1
  {
    NextIsLexed(c);
    match Next(c).0 {
      case Number(_) => s, eaten := SentenceFromNumber(c, x, out);
      case Operator(_) => s, eaten := SentenceFromNot(c, x, out);
      case Open => s, eaten := SentenceFromOpen(c, x, out);
    }
  }

  lemma {:induction false} SentenceFromNumber(c: Cursor, x: Context, out: seq<Node>)
    returns (s: Syntax, eaten: seq<Token>)
    requires c.operand && GoodContext(x) && Next(c).0.Number?
    requires Compile(c, StackOf(x), out).Done?
    ensures Reads(c, Compile(c, StackOf(x), out), eaten)
    ensures IsQuery(s) && Tokens(s) == TokensOf(x) + eaten
    decreases |c.rest|, 0
  {
    NextIsLexed(c);
    var (t, c') := Next(c);
    var f := Num(t.val);
    CompleteShape(x, f);
    LowOfContext(x);
    var rest;
    s, rest := SentenceFromOperator(c', x.disj, Complete(x, f), out + [Val(t.val)] + High(StackOf(x)));
    eaten := [t] + rest;
    ReadsMore(c, c', Compile(c, StackOf(x), out), [t], rest);
    Assoc(TokensOf(x), [t], rest);
  }

  lemma {:induction false} SentenceFromNot(c: Cursor, x: Context, out: seq<Node>)
    returns (s: Syntax, eaten: seq<Token>)
    requires c.operand && GoodContext(x) && Next(c).0 == Operator(Not)
    requires Compile(c, StackOf(x), out).Done?
    ensures Reads(c, Compile(c, StackOf(x), out), eaten)
    ensures IsQuery(s) && Tokens(s) == TokensOf(x) + eaten
    decreases |c.rest|, 0
  {
    NextIsLexed(c);
    var (t, c') := Next(c);
    var y := x.(nots := x.nots + 1);
    assert StackOf(y) == StackOf(x) + [Not];
    assert TokensOf(y) == TokensOf(x) + [t];
    var rest;
    s, rest := SentenceFromOperand(c', y, out);
    eaten := [t] + rest;
    ReadsMore(c, c', Compile(c, StackOf(x), out), [t], rest);
    Assoc(TokensOf(x), [t], rest);
  }

  lemma {:induction false} SentenceFromOpen(c: Cursor, x: Context, out: seq<Node>)
    returns (s: Syntax, eaten: seq<Token>)
    requires c.operand && GoodContext(x) && Next(c).0 == Open
    requires Compile(c, StackOf(x), out).Done?
    ensures Reads(c, Compile(c, StackOf(x), out), eaten)
    ensures IsQuery(s) && Tokens(s) == TokensOf(x) + eaten
    decreases |c.rest|, 0
  {
    NextIsLexed(c);
    var c' := Next(c).1;
    var inner := Compile(c', [], out);
    var b, body := SentenceOfLevel(c', out);
    var f := Paren(b);
    CompleteShape(x, f);
    LowOfContext(x);
    var rest;
    s, rest := SentenceFromOperator(inner.cursor, x.disj, Complete(x, f), inner.out + High(StackOf(x)));
    PrependPrepend([Open], body + [Close], Lex(inner.cursor.rest));
    Assoc([Open], body, [Close]);
    ReadsMore(c, inner.cursor, Compile(c, StackOf(x), out), Tokens(f), rest);
    eaten := Tokens(f) + rest;
    Assoc(TokensOf(x), Tokens(f), rest);
  }

  /** One whole nesting level. */
  lemma {:induction false} SentenceOfLevel(c: Cursor, out: seq<Node>)
    returns (s: Syntax, eaten: seq<Token>)
    requires c.operand && Compile(c, [], out).Done?
    ensures Reads(c, Compile(c, [], out), eaten)
    ensures IsQuery(s) && Tokens(s) == eaten
    decreases |c.rest|, 2
  {
    var empty := Context(None, None, 0);
    assert StackOf(empty) == [] && TokensOf(empty) == [];
    s, eaten := SentenceFromOperand(c, empty, out);
    assert [] + eaten == eaten;
  }

  lemma {:induction false} SentenceFromOperator(c: Cursor, disj: Option<Syntax>, term: Syntax, out: seq<Node>)
    returns (s: Syntax, eaten: seq<Token>)
    requires !c.operand && IsTerm(term) && (disj.Some? ==> IsQuery(disj.value))
    requires Compile(c, OrStack(disj), out).Done?
    ensures Reads(c, Compile(c, OrStack(disj), out), eaten)
    ensures IsQuery(s) && Tokens(s) == Before(disj, Or) + Tokens(term) + eaten
    decreases |c.rest|, 2
  {
    NextIsLexed(c);
    var (t, c') := Next(c);
    var r := Compile(c, OrStack(disj), out);
    match t {
      case End =>
        s, eaten := JoinOr(disj, term), [];
      case Close =>
        s, eaten := JoinOr(disj, term), [];
        assert [] + [Close] == [Close];
      case Operator(op) =>
        var x := Extend(disj, term, op);
        var out' := if op == Or && disj.Some? then out + [Opr(op)] else out;
        ExtendShape(disj, term, op);
        CompileExtend(c, disj, term, op, out);
        var rest;
        s, rest := SentenceFromOperand(c', x, out');
        eaten := [t] + rest;
        ReadsMore(c, c', r, [t], rest);
        Assoc(Before(disj, Or) + Tokens(term), [t], rest);
    }
  }

  // ----- main results about the compiler -----

  /** Every sentence that fits the operator stack compiles to the postfix form
      of its meaning; one that does not fit is refused. */
  lemma {:induction false} SentenceCompiles(text: string, s: Syntax)
    requires Parses(text, s)
    ensures QueryFits(s) ==>
              Compile(Start(text), [], []).Done? && Compile(Start(text), [], []).out == Post(Meaning(s))
    ensures !QueryFits(s) ==> Compile(Start(text), [], []) == Fail(StatementTooComplex)
  {
    assert Tokens(s) + [] == Tokens(s);
    var c := CompileQuery(s, Start(text), [], []);
    if QueryFits(s) {
      LexedIsEnd(c);
      DrainPending(s, []);
    }
  }

  /** Everything that compiles is a sentence. */
  lemma {:induction false} CompiledIsSentence(text: string) returns (s: Syntax)
    requires Compile(Start(text), [], []).Done?
    ensures Parses(text, s) && QueryFits(s)
    ensures Compile(Start(text), [], []).out == Post(Meaning(s))
  {
    var eaten;
    s, eaten := SentenceOfLevel(Start(text), []);
    SentenceCompiles(text, s);
  }
}
