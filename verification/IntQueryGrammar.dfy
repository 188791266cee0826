/** The query_int language of contrib/intarray: its tokens, the numerals it
    accepts, its grammar ("!" above "&" above "|", parentheses), the
    abstract query a text denotes, and that query's value on an array.

    Nothing here follows the order in which the parser works: it is the
    reference against which the parser, linker, evaluator and printer are
    proved. */
module IntQueryGrammar {
  import opened Prelude

  // ----- abstract queries -----

  datatype Op = Not | And | Or

  datatype Query =
    | Lit(val: int)
    | Inv(arg: Query)
    | Both(left: Query, right: Query)
    | Either(left: Query, right: Query)

  /** The value of a query when `has` says which integers are present. */
  ghost predicate Holds(q: Query, has: int -> bool) {
    match q
    case Lit(v) => has(v)
    case Inv(a) => !Holds(a, has)
    case Both(l, r) => Holds(l, has) && Holds(r, has)
    case Either(l, r) => Holds(l, has) || Holds(r, has)
  }

  /** One cell of the parser's polish notation. */
  datatype Node = Val(val: int) | Opr(op: Op)

  /** Postfix form: operands first, the operator last. */
  function Post(q: Query): (ns: seq<Node>)
    ensures |ns| >= 1
  {
    match q
    case Lit(v) => [Val(v)]
    case Inv(a) => Post(a) + [Opr(Not)]
    case Both(l, r) => Post(l) + Post(r) + [Opr(And)]
    case Either(l, r) => Post(l) + Post(r) + [Opr(Or)]
  }

  // ----- tokens -----

  datatype Token = Number(val: int) | Operator(op: Op) | Open | Close | End | Err

  const INT32_MIN := -0x8000_0000
  const INT32_MAX := 0x7fff_ffff
  /** Room in the tokenizer's numeral buffer, without the terminating NUL. */
  const NUMERAL_MAX := 15

  predicate IsDigit(c: char) {
    '0' <= c <= '9'
  }

  function DigitValue(c: char): nat
    requires IsDigit(c)
  {
    (c - '0') as nat
  }

  predicate AllDigits(s: string) {
    forall i :: 0 <= i < |s| ==> IsDigit(s[i])
  }

  /** Length of the leading run of digits. */
  function DigitRun(s: string): (n: nat)
    ensures n <= |s|
    ensures AllDigits(s[..n])
    ensures n < |s| ==> !IsDigit(s[n])
  {
    if s != "" && IsDigit(s[0]) then
      assert forall k :: 1 <= k <= |s| ==> s[..k] == [s[0]] + s[1..][..k - 1];
      1 + DigitRun(s[1..])
    else 0
  }

  function Decimal(s: string): nat
    requires AllDigits(s)
  {
    if s == "" then 0 else 10 * Decimal(s[..|s| - 1]) + DigitValue(s[|s| - 1])
  }

  /** strtol in base 8 stops at the first character that is not an octal digit. */
  function Octal(s: string, acc: nat): nat
    requires AllDigits(s)
  {
    if s == "" || s[0] > '7' then acc else Octal(s[1..], 8 * acc + DigitValue(s[0]))
  }

  function Magnitude(s: string): nat
    requires AllDigits(s)
  {
    if s != "" && s[0] == '0' then Octal(s, 0) else Decimal(s)
  }

  predicate IsNumeral(s: string) {
    s != "" && (IsDigit(s[0]) || s[0] == '-') && AllDigits(s[1..])
  }

  /** strtol(s, NULL, 0): base 8 after a leading zero, base 10 otherwise; a
      sign with no digits reads as zero. */
  function StrToL(s: string): int
    requires IsNumeral(s)
  {
    if s[0] == '-' then 0 - Magnitude(s[1..]) else Magnitude(s)
  }

  predicate IsInt32(v: int) {
    INT32_MIN <= v <= INT32_MAX
  }

  /** The numeral at the front of a text that starts with a digit or a sign. */
  function LeadingNumeral(s: string): (n: string)
    requires s != "" && (IsDigit(s[0]) || s[0] == '-')
    ensures IsNumeral(n) && n <= s
    ensures |n| < |s| ==> !IsDigit(s[|n|])
  {
    var n := s[..1 + DigitRun(s[1..])];
    assert n[1..] == s[1..][..DigitRun(s[1..])];
    n
  }

  function Prepend(ts: seq<Token>, rest: Option<seq<Token>>): Option<seq<Token>> {
    match rest
    case None => None
    case Some(us) => Some(ts + us)
  }

  predicate IsPunctuation(c: char) {
    c == '!' || c == '&' || c == '|' || c == '(' || c == ')'
  }

  function Punctuation(c: char): Token
    requires IsPunctuation(c)
  {
    match c
    case '!' => Operator(Not)
    case '&' => Operator(And)
    case '|' => Operator(Or)
    case '(' => Open
    case _ => Close
  }

  /** The tokens a text spells, with blanks anywhere between them. */
  function Lex(s: string): Option<seq<Token>>
    decreases |s|
  {
    if s == "" then Some([])
    else if s[0] == ' ' then Lex(s[1..])
    else if IsPunctuation(s[0]) then Prepend([Punctuation(s[0])], Lex(s[1..]))
    else if IsDigit(s[0]) || s[0] == '-' then
      var n := LeadingNumeral(s);
      if |n| > NUMERAL_MAX || !IsInt32(StrToL(n)) then None
      else Prepend([Number(StrToL(n))], Lex(s[|n|..]))
    else None
  }

  // ----- grammar -----

  /** Parse trees, with the parentheses of the text kept. */
  datatype Syntax =
    | Num(val: int)
    | Neg(arg: Syntax)
    | Conj(left: Syntax, right: Syntax)
    | Disj(left: Syntax, right: Syntax)
    | Paren(body: Syntax)

  /** factor ::= number | "!" factor | "(" query ")" */
  predicate IsFactor(s: Syntax)
    decreases s, 0
  {
    match s
    case Num(v) => IsInt32(v)
    case Neg(a) => IsFactor(a)
    case Paren(b) => IsQuery(b)
    case _ => false
  }

  /** term ::= factor | term "&" factor */
  predicate IsTerm(s: Syntax)
    decreases s, 1
  {
    if s.Conj? then IsTerm(s.left) && IsFactor(s.right) else IsFactor(s)
  }

  /** query ::= term | query "|" term */
  predicate IsQuery(s: Syntax)
    decreases s, 2
  {
    if s.Disj? then IsQuery(s.left) && IsTerm(s.right) else IsTerm(s)
  }

  function Tokens(s: Syntax): (ts: seq<Token>)
    ensures |ts| >= 1
  {
    match s
    case Num(v) => [Number(v)]
    case Neg(a) => [Operator(Not)] + Tokens(a)
    case Conj(l, r) => Tokens(l) + [Operator(And)] + Tokens(r)
    case Disj(l, r) => Tokens(l) + [Operator(Or)] + Tokens(r)
    case Paren(b) => [Open] + Tokens(b) + [Close]
  }

  /** The query a parse tree denotes. */
  function Meaning(s: Syntax): Query {
    match s
    case Num(v) => Lit(v)
    case Neg(a) => Inv(Meaning(a))
    case Conj(l, r) => Both(Meaning(l), Meaning(r))
    case Disj(l, r) => Either(Meaning(l), Meaning(r))
    case Paren(b) => Meaning(b)
  }

  /** `text` is a sentence of the language with parse tree `s`. */
  ghost predicate Parses(text: string, s: Syntax) {
    IsQuery(s) && Lex(text) == Some(Tokens(s))
  }

  // ----- the two limits of the implementation -----

  /** Slots of the operator stack of one nesting level. */
  const STACK_DEPTH := 16

  /** A factor read when `used` slots are taken: only "!" adds to them. */
  predicate FactorFits(s: Syntax, used: nat)
    decreases s, 0
  {
    match s
    case Neg(a) => used < STACK_DEPTH && FactorFits(a, used + 1)
    case Paren(b) => QueryFits(b)
    case _ => true
  }

  predicate TermFits(s: Syntax, used: nat)
    decreases s, 1
  {
    if s.Conj? then TermFits(s.left, used) && FactorFits(s.right, used + 1)
    else FactorFits(s, used)
  }

  /** No run of "!" is too long for the operator stack: a level's pending "|"
      and a pending "&" take one slot each. */
  predicate QueryFits(s: Syntax)
    decreases s, 2
  {
    if s.Disj? then QueryFits(s.left) && TermFits(s.right, 1) else TermFits(s, 0)
  }

  /** The longest right operand whose length fits an int16 back-link. */
  const LINK_MAX := 0x7fff

  predicate LinksFit(q: Query) {
    match q
    case Lit(_) => true
    case Inv(a) => LinksFit(a)
    case Both(l, r) => LinksFit(l) && LinksFit(r) && |Post(r)| <= LINK_MAX
    case Either(l, r) => LinksFit(l) && LinksFit(r) && |Post(r)| <= LINK_MAX
  }

  /** QUERYTYPEMAXITEMS: what fits in one palloc request. */
  const MAX_ITEMS := (0x3fff_ffff - 8) / 8

  // ----- postfix form determines the query -----

  /** Reading a postfix sequence with a stack of finished operands. */
  function Unpost(ns: seq<Node>, stack: seq<Query>): Option<seq<Query>>
    decreases |ns|
  {
    if ns == [] then Some(stack)
    else
      var n := |stack|;
      match ns[0]
      case Val(v) => Unpost(ns[1..], stack + [Lit(v)])
      case Opr(Not) => if n < 1 then None else Unpost(ns[1..], stack[..n - 1] + [Inv(stack[n - 1])])
      case Opr(And) =>
        if n < 2 then None else Unpost(ns[1..], stack[..n - 2] + [Both(stack[n - 2], stack[n - 1])])
      case Opr(Or) =>
        if n < 2 then None else Unpost(ns[1..], stack[..n - 2] + [Either(stack[n - 2], stack[n - 1])])
  }

  lemma {:induction false} UnpostPost(q: Query, tail: seq<Node>, stack: seq<Query>)
    ensures Unpost(Post(q) + tail, stack) == Unpost(tail, stack + [q])
    decreases q, 1
  {
    match q
    case Lit(v) =>
      assert (Post(q) + tail)[1..] == tail;
    case Inv(a) =>
      Assoc(Post(a), [Opr(Not)], tail);
      UnpostPost(a, [Opr(Not)] + tail, stack);
      assert ([Opr(Not)] + tail)[1..] == tail;
      assert (stack + [a])[..|stack|] == stack;
    case Both(l, r) => UnpostBinary(q, And, l, r, tail, stack);
    case Either(l, r) => UnpostBinary(q, Or, l, r, tail, stack);
  }

  lemma {:induction false} UnpostBinary(q: Query, op: Op, l: Query, r: Query, tail: seq<Node>, stack: seq<Query>)
    requires l < q && r < q
    requires (op == And && q == Both(l, r)) || (op == Or && q == Either(l, r))
    ensures Unpost(Post(q) + tail, stack) == Unpost(tail, stack + [q])
    decreases q, 0
  {
    var rest := [Opr(op)] + tail;
    Assoc(Post(l) + Post(r), [Opr(op)], tail);
    Assoc(Post(l), Post(r), rest);
    UnpostPost(l, Post(r) + rest, stack);
    UnpostPost(r, rest, stack + [l]);
    UnpostOperator(op, l, r, tail, stack);
  }

  lemma {:induction false} UnpostOperator(op: Op, l: Query, r: Query, tail: seq<Node>, stack: seq<Query>)
    requires op != Not
    ensures Unpost([Opr(op)] + tail, stack + [l] + [r])
         == Unpost(tail, stack + [if op == And then Both(l, r) else Either(l, r)])
  {
    assert ([Opr(op)] + tail)[1..] == tail;
    assert (stack + [l] + [r])[..|stack|] == stack;
  }

  /** Two queries with the same postfix form are the same query, so a text has
      at most one meaning once its postfix form is known. */
  lemma {:induction false} PostInjective(p: Query, q: Query)
    requires Post(p) == Post(q)
    ensures p == q
  {
    UnpostPost(p, [], []);
    UnpostPost(q, [], []);
    assert Post(p) + [] == Post(p) && Post(q) + [] == Post(q);
    assert ([] + [p])[0] == ([] + [q])[0];
  }
}
