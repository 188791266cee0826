/** The printer bqarr_out and what happens when its text is read back: "&" is
    printed without parentheses, so a conjunction comes back grouped from the
    left, but with the same value, the same size and the same printed text. */
module IntQueryPrint {
  import opened Prelude
  import opened IntQueryGrammar
  import opened IntQueryParser
  import opened IntQueryUnique
  import opened IntQueryWork
  import opened IntQueryLink
  import IntQueryExec

  // ----- numerals -----

  function Digit(d: nat): (c: char)
    requires d < 10
    ensures IsDigit(c) && DigitValue(c) == d
  {
    '0' + d as char
  }

  function ShowNat(n: nat): string {
    if n < 10 then [Digit(n)] else ShowNat(n / 10) + [Digit(n % 10)]
  }

  /** sprintf "%d". */
  function Show(v: int): string {
    if v < 0 then "-" + ShowNat(-v) else ShowNat(v)
  }

  lemma {:induction false} ShowNatReads(n: nat)
    ensures ShowNat(n) != "" && AllDigits(ShowNat(n)) && Decimal(ShowNat(n)) == n
    ensures n > 0 ==> ShowNat(n)[0] != '0'
  {
    if n >= 10 {
      ShowNatReads(n / 10);
      var s := ShowNat(n);
      assert s[..|s| - 1] == ShowNat(n / 10);
    } else {
      assert [Digit(n)][..0] == "";
    }
  }

  function Pow10(k: nat): nat {
    if k == 0 then 1 else 10 * Pow10(k - 1)
  }

  lemma {:induction false} ShowNatLength(n: nat, k: nat)
    requires k >= 1 && n < Pow10(k)
    ensures |ShowNat(n)| <= k
  {
    if n >= 10 {
      assert Pow10(1) == 10 * Pow10(0) == 10;
      ShowNatLength(n / 10, k - 1);
    }
  }

  /** What the printer writes for a number, the tokenizer reads as that number. */
  lemma {:induction false} ShowReads(v: int)
    requires IsInt32(v)
    ensures IsNumeral(Show(v)) && StrToL(Show(v)) == v && |Show(v)| <= NUMERAL_MAX
  {
    var n := if v < 0 then -v else v;
    ShowNatReads(n);
    var s := ShowNat(n);
    assert n == 0 ==> s == "0";
    assert n == 0 ==> s[1..] == "" && Octal(s, 0) == Octal(s[1..], 0);
    assert Magnitude(s) == n;
    assert ("-" + s)[1..] == s;
    assert AllDigits(s[1..]);
    assert Pow10(4) == 10000;
    assert Pow10(8) == 10000 * Pow10(4);
    assert Pow10(10) == 100 * Pow10(8);
    ShowNatLength(n, 10);
  }

  predicate NoDigitFirst(s: string) {
    s == "" || !IsDigit(s[0])
  }

  lemma {:induction false} LexShow(v: int, tail: string)
    requires IsInt32(v) && NoDigitFirst(tail)
    ensures Lex(Show(v) + tail) == Prepend([Number(v)], Lex(tail))
  {
    ShowReads(v);
    var n := Show(v);
    var s := n + tail;
    assert s[1..][..|n| - 1] == n[1..];
    DigitRunIs(s[1..], |n| - 1);
    assert LeadingNumeral(s) == n;
    assert s[|n|..] == tail;
  }

  lemma {:induction false} LexPunctuation(c: char, s: string)
    requires IsPunctuation(c)
    ensures Lex([c] + s) == Prepend([Punctuation(c)], Lex(s))
  {
    assert ([c] + s)[1..] == s;
  }

  lemma {:induction false} LexBlank(s: string)
    ensures Lex(" " + s) == Lex(s)
  {
    assert (" " + s)[1..] == s;
  }

  // ----- the printed text -----

  function Wrap(s: string): string {
    "( " + s + " )"
  }

  /** The text infix writes; `first` is false for the operand of a binary
      operator. */
  function Print(q: Query, first: bool): string {
    match q
    case Lit(v) => Show(v)
    case Inv(a) => "!" + if a.Lit? then Print(a, false) else Wrap(Print(a, true))
    case Both(l, r) => Print(l, false) + " & " + Print(r, false)
    case Either(l, r) =>
      var s := Print(l, false) + " | " + Print(r, false);
      if first then s else Wrap(s)
  }

  /** A query without its grouping of "&": conjunctions group from the left. */
  function Normal(q: Query): Query {
    match q
    case Lit(v) => q
    case Inv(a) => Inv(Normal(a))
    case Both(l, r) => JoinAnd(Normal(l), Normal(r))
    case Either(l, r) => Either(Normal(l), Normal(r))
  }

  function JoinAnd(a: Query, b: Query): Query
    decreases b
  {
    if b.Both? then Both(JoinAnd(a, b.left), b.right) else Both(a, b)
  }

  /** The parse tree of the printed text. */
  function Printed(q: Query, first: bool): Syntax {
    match q
    case Lit(v) => Num(v)
    case Inv(a) => Neg(if a.Lit? then Printed(a, false) else Paren(Printed(a, true)))
    case Both(l, r) => JoinConj(Printed(l, false), Printed(r, false))
    case Either(l, r) =>
      var s := Disj(Printed(l, false), Printed(r, false));
      if first then s else Paren(s)
  }

  function JoinConj(a: Syntax, b: Syntax): Syntax
    decreases b
  {
    if b.Conj? then Conj(JoinConj(a, b.left), b.right) else Conj(a, b)
  }

  predicate Int32Values(q: Query) {
    match q
    case Lit(v) => IsInt32(v)
    case Inv(a) => Int32Values(a)
    case Both(l, r) => Int32Values(l) && Int32Values(r)
    case Either(l, r) => Int32Values(l) && Int32Values(r)
  }

  lemma {:induction false} JoinConjShape(a: Syntax, b: Syntax)
    requires IsTerm(a) && IsTerm(b)
    ensures IsTerm(JoinConj(a, b))
    ensures Tokens(JoinConj(a, b)) == Tokens(a) + [Operator(And)] + Tokens(b)
    ensures Meaning(JoinConj(a, b)) == JoinTerm(Meaning(a), b)
    decreases b
  {
    if b.Conj? {
      JoinConjShape(a, b.left);
      var and := [Operator(And)];
      Assoc(Tokens(a) + and, Tokens(b.left), and);
      Assoc(Tokens(a) + and, Tokens(b.left) + and, Tokens(b.right));
    }
  }

  /** Joining to a term, as opposed to joining to what it means: the two agree
      on printed terms, whose factors are never conjunctions. */
  function JoinTerm(a: Query, b: Syntax): Query
    decreases b
  {
    if b.Conj? then Both(JoinTerm(a, b.left), Meaning(b.right)) else Both(a, Meaning(b))
  }

  /** No factor of the term is a bare conjunction in parentheses. */
  predicate FlatTerm(s: Syntax) {
    if s.Conj? then FlatTerm(s.left) && !Meaning(s.right).Both? else !Meaning(s).Both?
  }

  lemma {:induction false} FlatJoin(a: Query, b: Syntax)
    requires IsTerm(b) && FlatTerm(b)
    ensures JoinTerm(a, b) == JoinAnd(a, Meaning(b))
    decreases b
  {
    if b.Conj? {
      FlatJoin(a, b.left);
    }
  }

  lemma {:induction false} FlatJoinConj(a: Syntax, b: Syntax)
    requires FlatTerm(a) && FlatTerm(b)
    ensures FlatTerm(JoinConj(a, b))
    decreases b
  {
    if b.Conj? {
      FlatJoinConj(a, b.left);
    }
  }

  /** The printed text is a sentence of the language and denotes the query
      with its conjunctions regrouped. */
  lemma {:induction false} PrintedShape(q: Query, first: bool)
    requires Int32Values(q)
    ensures IsQuery(Printed(q, first)) && Meaning(Printed(q, first)) == Normal(q)
    ensures !first || !q.Either? ==> IsTerm(Printed(q, first)) && FlatTerm(Printed(q, first))
    ensures q.Lit? || q.Inv? ==> IsFactor(Printed(q, first))
    decreases q
  {
    match q
    case Lit(_) =>
    case Inv(a) =>
      PrintedShape(a, !a.Lit?);
      assert IsFactor(Printed(q, first).arg);
      assert IsFactor(Printed(q, first));
    case Both(l, r) =>
      PrintedShape(l, false);
      PrintedShape(r, false);
      JoinConjShape(Printed(l, false), Printed(r, false));
      FlatJoin(Normal(l), Printed(r, false));
      FlatJoinConj(Printed(l, false), Printed(r, false));
    case Either(l, r) =>
      PrintedShape(l, false);
      PrintedShape(r, false);
      assert IsQuery(Disj(Printed(l, false), Printed(r, false)));
      assert IsFactor(Paren(Disj(Printed(l, false), Printed(r, false))));
  }

  lemma {:induction false} LexWrap(s: string, ts: seq<Token>, tail: string)
    requires Lex(s + (" )" + tail)) == Prepend(ts, Lex(" )" + tail))
    ensures Lex(Wrap(s) + tail) == Prepend([Open] + ts + [Close], Lex(tail))
  {
    assert Wrap(s) + tail == "(" + (" " + (s + (" )" + tail)));
    LexPunctuation('(', " " + (s + (" )" + tail)));
    LexBlank(s + (" )" + tail));
    assert " )" + tail == " " + (")" + tail);
    LexBlank(")" + tail);
    LexPunctuation(')', tail);
    PrependPrepend(ts, [Close], Lex(tail));
    PrependPrepend([Open], ts + [Close], Lex(tail));
    Assoc([Open], ts, [Close]);
  }

  lemma {:induction false} LexBinary(l: string, r: string, c: char, op: string, ls: seq<Token>, rs: seq<Token>,
                                     tail: string)
    requires IsPunctuation(c) && op == [' ', c, ' ']
    requires Lex(l + (op + (r + tail))) == Prepend(ls, Lex(op + (r + tail)))
    requires Lex(r + tail) == Prepend(rs, Lex(tail))
    ensures Lex(l + op + r + tail) == Prepend(ls + [Punctuation(c)] + rs, Lex(tail))
  {
    Assoc(l, op, r);
    Assoc(l, op + r, tail);
    Assoc(op, r, tail);
    LexOperator(c, op, r + tail);
    PrependPrepend([Punctuation(c)], rs, Lex(tail));
    PrependPrepend(ls, [Punctuation(c)] + rs, Lex(tail));
    Assoc(ls, [Punctuation(c)], rs);
  }

  lemma {:induction false} LexOperator(c: char, op: string, s: string)
    requires IsPunctuation(c) && op == [' ', c, ' ']
    ensures Lex(op + s) == Prepend([Punctuation(c)], Lex(s))
  {
    assert op + s == " " + ([c] + (" " + s));
    LexBlank([c] + (" " + s));
    LexPunctuation(c, " " + s);
    LexBlank(s);
  }

  lemma {:induction false} PrintLexes(q: Query, first: bool, tail: string)
    requires Int32Values(q) && NoDigitFirst(tail)
    ensures Lex(Print(q, first) + tail) == Prepend(Tokens(Printed(q, first)), Lex(tail))
    decreases q, 1
  {
    match q
    case Lit(v) => LexShow(v, tail);
    case Inv(a) => PrintLexesInv(a, first, tail);
    case Both(l, r) =>
      PrintLexesBinary(q, l, r, '&', " & ", tail);
      PrintedShape(l, false);
      PrintedShape(r, false);
      JoinConjShape(Printed(l, false), Printed(r, false));
    case Either(l, r) =>
      if first {
        PrintLexesBinary(q, l, r, '|', " | ", tail);
      } else {
        PrintLexesBinary(q, l, r, '|', " | ", " )" + tail);
        LexWrap(Print(l, false) + " | " + Print(r, false),
                Tokens(Printed(l, false)) + [Operator(Or)] + Tokens(Printed(r, false)), tail);
      }
  }

  lemma {:induction false} PrintLexesInv(a: Query, first: bool, tail: string)
    requires Int32Values(a) && NoDigitFirst(tail)
    ensures Lex(Print(Inv(a), first) + tail) == Prepend(Tokens(Printed(Inv(a), first)), Lex(tail))
    decreases a, 2
  {
    var s := if a.Lit? then Print(a, false) else Wrap(Print(a, true));
    var ts := Tokens(if a.Lit? then Printed(a, false) else Paren(Printed(a, true)));
    assert Lex(s + tail) == Prepend(ts, Lex(tail)) by {
      if a.Lit? {
        PrintLexes(a, false, tail);
      } else {
        PrintLexes(a, true, " )" + tail);
        LexWrap(Print(a, true), Tokens(Printed(a, true)), tail);
      }
    }
    Assoc("!", s, tail);
    LexPunctuation('!', s + tail);
    PrependPrepend([Operator(Not)], ts, Lex(tail));
  }

  lemma {:induction false} PrintLexesBinary(q: Query, l: Query, r: Query, c: char, op: string, tail: string)
    requires l < q && r < q && Int32Values(l) && Int32Values(r)
    requires NoDigitFirst(tail) && IsPunctuation(c) && op == [' ', c, ' ']
    ensures Lex(Print(l, false) + op + Print(r, false) + tail)
         == Prepend(Tokens(Printed(l, false)) + [Punctuation(c)] + Tokens(Printed(r, false)), Lex(tail))
    decreases q, 0
  {
    PrintLexes(l, false, op + (Print(r, false) + tail));
    PrintLexes(r, false, tail);
    LexBinary(Print(l, false), Print(r, false), c, op, Tokens(Printed(l, false)), Tokens(Printed(r, false)), tail);
  }

  // ----- what regrouping keeps -----

  lemma {:induction false} JoinAndKeeps(a: Query, b: Query, has: int -> bool)
    ensures Holds(JoinAnd(a, b), has) <==> Holds(a, has) && Holds(b, has)
    ensures |Post(JoinAnd(a, b))| == |Post(a)| + |Post(b)| + 1
    ensures LinksFit(a) && LinksFit(b) && |Post(b)| <= LINK_MAX ==> LinksFit(JoinAnd(a, b))
    ensures Int32Values(a) && Int32Values(b) ==> Int32Values(JoinAnd(a, b))
    decreases b
  {
    if b.Both? {
      JoinAndKeeps(a, b.left, has);
    }
  }

  /** The regrouped query has the same value everywhere, the same number of
      items, and links that still fit. */
  lemma {:induction false} NormalKeeps(q: Query, has: int -> bool)
    ensures Holds(Normal(q), has) <==> Holds(q, has)
    ensures |Post(Normal(q))| == |Post(q)|
    ensures LinksFit(q) ==> LinksFit(Normal(q))
    ensures Int32Values(q) ==> Int32Values(Normal(q))
    decreases q
  {
    match q
    case Lit(_) =>
    case Inv(a) => NormalKeeps(a, has);
    case Both(l, r) =>
      NormalKeeps(l, has);
      NormalKeeps(r, has);
      JoinAndKeeps(Normal(l), Normal(r), has);
    case Either(l, r) =>
      NormalKeeps(l, has);
      NormalKeeps(r, has);
  }

  lemma {:induction false} PrintJoinAnd(a: Query, b: Query, first: bool)
    ensures Print(JoinAnd(a, b), first) == Print(a, false) + " & " + Print(b, false)
    decreases b
  {
    if b.Both? {
      PrintJoinAnd(a, b.left, false);
      var x, y, z := Print(a, false), Print(b.left, false), Print(b.right, false);
      Assoc(x + " & ", y, " & ");
      Assoc(x + " & ", y + " & ", z);
    }
  }

  /** Regrouping does not show in the printed text. */
  lemma {:induction false} PrintNormal(q: Query, first: bool)
    ensures Print(Normal(q), first) == Print(q, first)
    decreases q
  {
    match q
    case Lit(_) =>
    case Inv(a) =>
      PrintNormal(a, !a.Lit?);
    case Both(l, r) =>
      PrintNormal(l, false);
      PrintNormal(r, false);
      PrintJoinAnd(Normal(l), Normal(r), first);
    case Either(l, r) =>
      PrintNormal(l, false);
      PrintNormal(r, false);
  }

  // ----- the printed text fits the parser -----

  /** Every factor of the term fits above two pending operators. */
  predicate FactorsFit(s: Syntax) {
    if s.Conj? then FactorsFit(s.left) && FactorFits(s.right, 2) else FactorFits(s, 2)
  }

  lemma {:induction false} FactorFitsLower(s: Syntax, used: nat, more: nat)
    requires FactorFits(s, more) && used <= more
    ensures FactorFits(s, used)
  {
    if s.Neg? {
      FactorFitsLower(s.arg, used + 1, more + 1);
    }
  }

  lemma {:induction false} FactorsFitTerm(s: Syntax, used: nat)
    requires FactorsFit(s) && used <= 1
    ensures TermFits(s, used)
    decreases s
  {
    if s.Conj? {
      FactorsFitTerm(s.left, used);
      FactorFitsLower(s.right, used + 1, 2);
    } else {
      FactorFitsLower(s, used, 2);
    }
  }

  lemma {:induction false} FactorsFitJoin(a: Syntax, b: Syntax)
    requires FactorsFit(a) && FactorsFit(b)
    ensures FactorsFit(JoinConj(a, b))
    decreases b
  {
    if b.Conj? {
      FactorsFitJoin(a, b.left);
    }
  }

  /** The printer never writes "!!", so its text always fits the stack. */
  lemma {:induction false} PrintedFits(q: Query, first: bool)
    ensures QueryFits(Printed(q, first))
    ensures !first || !q.Either? ==> FactorsFit(Printed(q, first))
    decreases q
  {
    match q
    case Lit(_) =>
    case Inv(a) =>
      PrintedFits(a, !a.Lit?);
      var f := Printed(q, first).arg;
      assert FactorFits(f, 3);
      FactorsFitTerm(Printed(q, first), 0);
    case Both(l, r) =>
      PrintedFits(l, false);
      PrintedFits(r, false);
      FactorsFitJoin(Printed(l, false), Printed(r, false));
      FactorsFitTerm(Printed(q, first), 0);
    case Either(l, r) =>
      PrintedFits(l, false);
      PrintedFits(r, false);
      FactorsFitTerm(Printed(l, false), 0);
      FactorsFitTerm(Printed(r, false), 1);
      assert FactorFits(Paren(Disj(Printed(l, false), Printed(r, false))), 2);
      assert !first ==> FactorsFit(Printed(q, first));
      assert !first ==> FactorFits(Printed(q, first), 0);
  }

  // ----- infix -----

  /** The printer's state: the next item to print, going backwards, and a
      growing buffer with the text so far and its terminating NUL. */
  class Infix {
    const items: seq<Item>
    var curpol: int
    var buf: array<char>
    var cur: nat

    constructor (items: seq<Item>, curpol: int, buflen: nat)
      requires buflen > 0
      ensures this.items == items && this.curpol == curpol && Valid() && Text() == "" && fresh(buf)
    {
      this.items, this.curpol, this.cur := items, curpol, 0;
      buf := new char[buflen](_ => '\0');
    }

    ghost predicate Valid()
      reads this
    {
      cur < buf.Length
    }

    ghost function Text(): string
      reads this, buf
      requires Valid()
    {
      buf[..cur]
    }

    /** RESIZEBUF: room for `addsize` more characters and the NUL. */
    method Resize(addsize: nat)
      requires Valid()
      modifies this`buf
      ensures Valid() && Text() == old(Text()) && (buf == old(buf) || fresh(buf))
      ensures cur + addsize + 1 < buf.Length
    {
      while cur + addsize + 1 >= buf.Length
        invariant Valid() && Text() == old(Text()) && (buf == old(buf) || fresh(buf))
        decreases cur + addsize + 2 - buf.Length
      {
        var bigger := new char[2 * buf.Length](_ => '\0');
        forall i | 0 <= i < cur {
          bigger[i] := buf[i];
        }
        assert bigger[..cur] == buf[..cur];
        buf := bigger;
      }
    }

    /** sprintf at the end of the text. */
    method Put(s: string)
      requires Valid() && cur + |s| < buf.Length
      modifies this`cur, buf
      ensures buf == old(buf) && Valid() && Text() == old(Text()) + s
    {
      forall i | 0 <= i < |s| {
        buf[cur + i] := s[i];
      }
      buf[cur + |s|] := '\0';
      assert buf[..cur + |s|] == old(buf[..cur]) + s;
      cur := cur + |s|;
    }

    method Append(s: string)
      requires Valid()
      modifies this`buf, this`cur, buf
      ensures Valid() && Text() == old(Text()) + s && (buf == old(buf) || fresh(buf))
    {
      Resize(|s|);
      Put(s);
    }

    /** infix: prints the operand that ends at the current item. */
    method Run(first: bool, ghost q: Query)
      requires Valid() && Shows(Nodes(items), curpol, q)
      modifies this`buf, this`cur, this`curpol, buf
      ensures Valid() && (buf == old(buf) || fresh(buf))
      ensures Text() == old(Text()) + Print(q, first) && curpol == old(curpol) - |Post(q)|
      decreases q, 3
    {
      if items[curpol].node.Val? {
        Append(Show(items[curpol].node.val));
        curpol := curpol - 1;
      } else if items[curpol].node.op == Not {
        RunNot(first, q);
      } else {
        RunBinary(first, q);
      }
    }

    method RunNot(first: bool, ghost q: Query)
      requires Valid() && Shows(Nodes(items), curpol, q) && q.Inv?
      modifies this`buf, this`cur, this`curpol, buf
      ensures Valid() && (buf == old(buf) || fresh(buf))
      ensures Text() == old(Text()) + Print(q, first) && curpol == old(curpol) - |Post(q)|
      decreases q, 0
    {
      assert 0 < curpol < |items| && (items[curpol - 1].node.Val? <==> q.arg.Lit?);
      PrintNot(Text(), q.arg, first);
      hide Shows, Nodes, Print, Wrap, Post;
      Append("!");
      curpol := curpol - 1;
      if items[curpol].node.Opr? {
        RunParen(q.arg);
      } else {
        Run(false, q.arg);
      }
    }

    method RunParen(ghost q: Query)
      requires Valid() && Shows(Nodes(items), curpol, q)
      modifies this`buf, this`cur, this`curpol, buf
      ensures Valid() && (buf == old(buf) || fresh(buf))
      ensures Text() == old(Text()) + Wrap(Print(q, true)) && curpol == old(curpol) - |Post(q)|
      decreases q, 4
    {
      hide Shows, Nodes, Print, Wrap;
      ghost var t0 := Text();
      Append("( ");
      Run(true, q);
      Append(" )");
      WrapLater(t0, Print(q, true));
    }

    method RunBinary(first: bool, ghost q: Query)
      requires Valid() && Shows(Nodes(items), curpol, q) && (q.Both? || q.Either?)
      modifies this`buf, this`cur, this`curpol, buf
      ensures Valid() && (buf == old(buf) || fresh(buf))
      ensures Text() == old(Text()) + Print(q, first) && curpol == old(curpol) - |Post(q)|
      decreases q, 2
    {
      assert items[curpol].node == Opr(if q.Both? then And else Or);
      hide Shows, Nodes;
      var op := items[curpol].node.op;
      curpol := curpol - 1;
      ghost var t0 := Text();
      if op == Or && !first {
        Append("( ");
        RunOperands(" | ", q);
        Append(" )");
        WrapLater(t0, Print(q.left, false) + " | " + Print(q.right, false));
      } else {
        RunOperands(if op == And then " & " else " | ", q);
      }
    }

    /** Both operands: the right one into a buffer of its own, then the left
        one, the operator and that buffer. */
    method RunOperands(op: string, ghost q: Query)
      requires Valid() && (q.Both? || q.Either?)
      requires Shows(Nodes(items), curpol, q.right) && Shows(Nodes(items), curpol - |Post(q.right)|, q.left)
      modifies this`buf, this`cur, this`curpol, buf
      ensures Valid() && (buf == old(buf) || fresh(buf))
      ensures Text() == old(Text()) + (Print(q.left, false) + op + Print(q.right, false))
      ensures curpol == old(curpol) - |Post(q.right)| - |Post(q.left)|
      decreases q, 1
    {
      hide Shows, Nodes, Print;
      ghost var t0 := Text();
      var nrm := new Infix(items, curpol, 16);
      nrm.Run(false, q.right);
      assert nrm.Text() == Print(q.right, false);
      curpol := nrm.curpol;
      Run(false, q.left);
      var tail := op + nrm.buf[..nrm.cur];
      Append(tail);
      Assoc(t0, Print(q.left, false), tail);
      Assoc(Print(q.left, false), op, Print(q.right, false));
    }
  }

  lemma {:induction false} PrintNot(t: string, a: Query, first: bool)
    ensures t + "!" + (if a.Lit? then Print(a, false) else Wrap(Print(a, true))) == t + Print(Inv(a), first)
    ensures |Post(Inv(a))| == |Post(a)| + 1
  {
    Assoc(t, "!", if a.Lit? then Print(a, false) else Wrap(Print(a, true)));
  }

  lemma {:induction false} WrapLater(t: string, s: string)
    ensures t + "( " + s + " )" == t + Wrap(s)
  {
    Assoc(t, "( ", s);
    Assoc(t, "( " + s, " )");
  }

  /** bqarr_out. */
  method BqarrOut(items: seq<Item>, ghost q: Query) returns (text: string)
    requires Nodes(items) == Post(q)
    ensures text == Print(q, true)
  {
    var nrm := new Infix(items, |items| - 1, 32);
    ShowsWhole(Nodes(items), q);
    hide Shows, Nodes, Print;
    nrm.Run(true, q);
    assert "" + Print(q, true) == Print(q, true);
    text := nrm.buf[..nrm.cur];
  }

  // ----- round trip -----

  /** The parse tree the printed text has. */
  lemma {:induction false} PrintedParses(q: Query)
    requires Int32Values(q)
    ensures Parses(Print(q, true), Printed(q, true)) && Meaning(Printed(q, true)) == Normal(q)
    ensures QueryFits(Printed(q, true))
  {
    PrintedShape(q, true);
    PrintedFits(q, true);
    PrintLexes(q, true, "");
    assert Print(q, true) + "" == Print(q, true);
    assert Tokens(Printed(q, true)) + [] == Tokens(Printed(q, true));
  }

  lemma {:induction false} SyntaxValues(s: Syntax)
    requires IsQuery(s) || IsTerm(s) || IsFactor(s)
    ensures Int32Values(Meaning(s))
  {
    assert IsQuery(s) ==> s.Disj? || IsTerm(s);
    assert IsTerm(s) ==> s.Conj? || IsFactor(s);
    match s
    case Num(_) =>
    case Neg(a) => SyntaxValues(a);
    case Paren(b) => SyntaxValues(b);
    case Conj(l, r) =>
      SyntaxValues(l);
      SyntaxValues(r);
    case Disj(l, r) =>
      SyntaxValues(l);
      SyntaxValues(r);
  }

  // ----- the layout of the text -----

  /** The text of a token, and a list of tokens with a blank after each but "!". */
  function TokenText(t: Token): string {
    match t
    case Number(v) => Show(v)
    case Operator(op) => (match op case And => "&" case Or => "|" case Not => "!")
    case Open => "("
    case Close => ")"
    case _ => ""
  }

  function Laid(ts: seq<Token>): string {
    if ts == [] then ""
    else if |ts| == 1 then TokenText(ts[0])
    else TokenText(ts[0]) + (if ts[0] == Operator(Not) then "" else " ") + Laid(ts[1..])
  }

  lemma {:induction false} LaidJoin(a: seq<Token>, b: seq<Token>)
    requires a != [] && b != [] && a[|a| - 1] != Operator(Not)
    ensures Laid(a + b) == Laid(a) + (" " + Laid(b))
  {
    hide *;
    if |a| == 1 {
      assert a == [a[0]];
      LaidLong(a[0], b);
      LaidOne(a[0]);
      Assoc(TokenText(a[0]), " ", Laid(b));
    } else {
      LaidJoin(a[1..], b);
      LaidLong(a[0], a[1..] + b);
      LaidLong(a[0], a[1..]);
      assert [a[0]] + (a[1..] + b) == a + b && [a[0]] + a[1..] == a;
      var head := TokenText(a[0]) + if a[0] == Operator(Not) then "" else " ";
      Assoc(head, Laid(a[1..]), " " + Laid(b));
    }
  }

  lemma {:induction false} LaidOne(t: Token)
    ensures Laid([t]) == TokenText(t)
  {
  }

  lemma {:induction false} LaidLong(t: Token, b: seq<Token>)
    requires b != []
    ensures Laid([t] + b) == TokenText(t) + (if t == Operator(Not) then "" else " ") + Laid(b)
  {
    assert ([t] + b)[1..] == b;
  }

  /** Parse trees end with an operand. */
  lemma {:induction false} EndsOperand(s: Syntax)
    ensures Tokens(s)[|Tokens(s)| - 1].Number? || Tokens(s)[|Tokens(s)| - 1].Close?
  {
    match s
    case Num(_) =>
    case Neg(a) => EndsOperand(a);
    case Conj(_, r) => EndsOperand(r);
    case Disj(_, r) => EndsOperand(r);
    case Paren(_) =>
  }

  /** The printed text is its tokens, one blank apart, except that "!" stands close
      to what it negates. */
  lemma {:induction false} PrintIsLaid(q: Query, first: bool)
    requires Int32Values(q)
    ensures Print(q, first) == Laid(Tokens(Printed(q, first)))
    decreases q
  {
    match q
    case Lit(_) =>
    case Inv(a) =>
      PrintIsLaid(a, !a.Lit?);
      var s := Printed(a, !a.Lit?);
      LaidParen(s);
      LaidLong(Operator(Not), Tokens(if a.Lit? then s else Paren(s)));
    case Both(l, r) =>
      PrintIsLaid(l, false);
      PrintIsLaid(r, false);
      PrintedShape(l, false);
      PrintedShape(r, false);
      JoinConjShape(Printed(l, false), Printed(r, false));
      LaidBinary(Printed(l, false), And, Printed(r, false));
    case Either(l, r) =>
      PrintIsLaid(l, false);
      PrintIsLaid(r, false);
      var s := Disj(Printed(l, false), Printed(r, false));
      LaidBinary(s.left, Or, s.right);
      LaidParen(s);
  }

  lemma {:induction false} LaidParen(s: Syntax)
    ensures Laid(Tokens(Paren(s))) == Wrap(Laid(Tokens(s)))
  {
    EndsOperand(s);
    var ts := Tokens(s);
    Assoc([Open], ts, [Close]);
    LaidLong(Open, ts + [Close]);
    LaidJoin(ts, [Close]);
    hide Tokens;
    assert Laid([Close]) == ")";
    assert Laid([Open] + (ts + [Close])) == "(" + " " + (Laid(ts) + (" " + ")"));
    WrapText(Laid(ts));
  }

  lemma {:induction false} WrapText(s: string)
    ensures "(" + " " + (s + (" " + ")")) == Wrap(s)
  {
  }

  lemma {:induction false} LaidBinary(l: Syntax, op: Op, r: Syntax)
    requires op != Not
    ensures Laid(Tokens(l) + [Operator(op)] + Tokens(r)) ==
            Laid(Tokens(l)) + (if op == And then " & " else " | ") + Laid(Tokens(r))
  {
    hide *;
    EndsOperand(l);
    var a, b := Tokens(l), Tokens(r);
    Assoc(a, [Operator(op)], b);
    LaidJoin(a, [Operator(op)] + b);
    LaidLong(Operator(op), b);
    OperatorText(op);
    BinaryText(Laid(a), TokenText(Operator(op)), Laid(b));
  }

  lemma {:induction false} OperatorText(op: Op)
    requires op != Not
    ensures " " + TokenText(Operator(op)) + " " == if op == And then " & " else " | "
  {
  }

  lemma {:induction false} BinaryText(a: string, op: string, b: string)
    ensures a + (" " + (op + " " + b)) == a + (" " + op + " ") + b
  {
  }

  /** The stack holds sixteen operators: so many "!" may stand in a row. */
  function Nots(k: nat): Syntax {
    if k == 0 then Num(0) else Neg(Nots(k - 1))
  }

  lemma {:induction false} SixteenNots(k: nat, used: nat)
    requires used <= 16
    ensures FactorFits(Nots(k), used) <==> used + k <= 16
    decreases k
  {
    if k > 0 && used < 16 {
      SixteenNots(k - 1, used + 1);
    }
  }

  /** A query and its regrouped form have the same value on every array. */
  lemma {:induction false} SameValue(items: seq<Item>, again: seq<Item>, q: Query)
    requires Linked(items, |items| - 1, q) && Linked(again, |again| - 1, Normal(q))
    ensures IntQueryExec.WellLinked(items, |items| - 1) && IntQueryExec.WellLinked(again, |again| - 1)
    ensures forall a :: IntQueryExec.BoolOp(again, a) <==> IntQueryExec.BoolOp(items, a)
  {
    hide Linked, Normal, IntQueryExec.BoolOp, IntQueryExec.WellLinked;
    IntQueryExec.LinkedIsWellLinked(items, |items| - 1, q);
    IntQueryExec.LinkedIsWellLinked(again, |again| - 1, Normal(q));
    forall a
      ensures IntQueryExec.BoolOp(again, a) <==> IntQueryExec.BoolOp(items, a)
    {
      IntQueryExec.BoolOpIsMeaning(items, q, a);
      IntQueryExec.BoolOpIsMeaning(again, Normal(q), a);
      NormalKeeps(q, v => v in a);
    }
  }

  /** What printing and reading back promises. */
  ghost predicate ReadBack(q: Query, first: seq<Item>, printed: string, second: seq<Item>) {
    && printed == Print(q, true) && |second| == |first| && Linked(second, |second| - 1, Normal(q))
    && IntQueryExec.WellLinked(first, |first| - 1) && IntQueryExec.WellLinked(second, |second| - 1)
    && forall a :: IntQueryExec.BoolOp(second, a) <==> IntQueryExec.BoolOp(first, a)
  }

  /** Every accepted query, printed and read back: the text is accepted, the
      new query is the old one with its conjunctions grouped from the left, it has
      the same value on every array, and it prints as the same text. */
  method RoundTrip(text: string) returns (first: Input, printed: string, second: Input, again: string)
    ensures first.Accepted? ==>
              && second.Accepted? && again == printed
              && forall s :: Parses(text, s) ==> ReadBack(Meaning(s), first.items, printed, second.items)
  {
    hide *;
    first := BqarrIn(text);
    if first.Refused? {
      return first, "", first, "";
    }
    ghost var s :| Parses(text, s) && Within(s);
    ghost var q := Meaning(s);
    OneTree(text, s);
    PrintAccepted(text, s);
    printed := BqarrOut(first.items, q);
    second := BqarrIn(printed);
    again := BqarrOut(second.items, Normal(q));
    PrintNormal(q, true);
    MakeReadBack(q, first.items, printed, second.items);
  }

  lemma {:induction false} MakeReadBack(q: Query, first: seq<Item>, printed: string, second: seq<Item>)
    requires printed == Print(q, true) && |second| == |first|
    requires Linked(first, |first| - 1, q) && Linked(second, |second| - 1, Normal(q))
    ensures ReadBack(q, first, printed, second)
  {
    SameValue(first, second, q);
    hide Linked, Normal, Print, IntQueryExec.BoolOp, IntQueryExec.WellLinked;
  }

  /** What is printed for a query that was accepted is accepted. */
  lemma {:induction false} PrintAccepted(text: string, s: Syntax)
    requires Parses(text, s) && Within(s)
    ensures var q := Meaning(s);
            && Parses(Print(q, true), Printed(q, true)) && Within(Printed(q, true))
            && Meaning(Printed(q, true)) == Normal(q) && |Post(Normal(q))| == |Post(q)|
  {
    SyntaxValues(s);
    PrintedParses(Meaning(s));
    NormalKeeps(Meaning(s), v => true);
  }
}
