/** The text form: the printer (hstore_out), the character machine that reads
    values, the reader of whole texts (hstore_in), and the round trip. */
module HStoreText {
  import opened Prelude
  import opened HStoreCore
  import opened HStorePairs

  // ----- printed text -----

  predicate NeedsEscape(c: char) {
    c == '"' || c == '\\'
  }

  /** A key or value with quotes and backslashes escaped. */
  function Quote(s: string): (r: string)
    ensures |s| <= |r| <= 2 * |s|
  {
    if s == "" then ""
    else (if NeedsEscape(s[0]) then ['\\', s[0]] else [s[0]]) + Quote(s[1..])
  }

  function PrintVal(v: Option<string>): string {
    match v
    case None => "NULL"
    case Some(s) => "\"" + (Quote(s) + "\"")
  }

  function PrintPair(p: Pair): string {
    "\"" + (Quote(p.key) + ("\"=>" + PrintVal(p.val)))
  }

  function Separator(ps: seq<Pair>, i: nat): string {
    if i + 1 < |ps| then ", " else ""
  }

  /** The text of the pairs from `i` on. */
  function PrintFrom(ps: seq<Pair>, i: nat): string
    decreases |ps| - i
  {
    if i >= |ps| then "" else PrintPair(ps[i]) + (Separator(ps, i) + PrintFrom(ps, i + 1))
  }

  function Print(ps: seq<Pair>): string {
    PrintFrom(ps, 0)
  }

  /** One pair as it is printed ... */
  lemma {:induction false} PrintOne(p: Pair)
    ensures Print([p]) ==
            "\"" + Quote(p.key) + "\"=>" + if p.val.None? then "NULL" else "\"" + Quote(p.val.value) + "\""
  {
    assert PrintFrom([p], 1) == "";
    hide Quote;
    assert Separator([p], 0) + "" == "";
    if p.val.Some? {
      assert "\"" + (Quote(p.val.value) + "\"") == "\"" + Quote(p.val.value) + "\"";
    }
  }

  /** ... and the pairs with a comma and a blank between them. */
  lemma {:induction false} PrintPush(ps: seq<Pair>, p: Pair)
    requires ps != []
    ensures Print(ps + [p]) == Print(ps) + ", " + Print([p])
  {
    PrintFromPush(ps, p, 0);
  }

  lemma {:induction false} PrintFromPush(ps: seq<Pair>, p: Pair, i: nat)
    requires i < |ps|
    ensures PrintFrom(ps + [p], i) == PrintFrom(ps, i) + ", " + Print([p])
    decreases |ps| - i
  {
    hide *;
    var qs := ps + [p];
    NextPrinted(qs, i);
    NextPrinted(ps, i);
    NextPrinted([p], 0);
    LastPrinted([p], 1);
    if i + 1 < |ps| {
      PrintFromPush(ps, p, i + 1);
      MoveRight(PrintPair(ps[i]), PrintFrom(ps, i + 1), Print([p]));
    } else {
      NextPrinted(qs, i + 1);
      LastPrinted(qs, i + 2);
      LastPrinted(ps, i + 1);
      NothingAfter(PrintPair(p));
      NothingAfter(PrintPair(ps[i]));
      Assoc3(PrintPair(ps[i]), Print([p]));
    }
  }

  lemma {:induction false} NextPrinted(ps: seq<Pair>, i: nat)
    requires i < |ps|
    ensures PrintFrom(ps, i) == PrintPair(ps[i]) + ((if i + 1 < |ps| then ", " else "") + PrintFrom(ps, i + 1))
    ensures Print(ps) == PrintFrom(ps, 0)
  {
  }

  lemma {:induction false} LastPrinted(ps: seq<Pair>, i: nat)
    requires i >= |ps|
    ensures PrintFrom(ps, i) == ""
  {
  }

  lemma {:induction false} MoveRight(x: string, rest: string, p: string)
    ensures x + (", " + (rest + ", " + p)) == x + (", " + rest) + ", " + p
  {
  }

  lemma {:induction false} NothingAfter(x: string)
    ensures x + ("" + "") == x
  {
  }

  lemma {:induction false} Assoc3(x: string, p: string)
    ensures x + (", " + p) == x + ", " + p
  {
  }

  /** Quotes and backslashes get a backslash, other characters stand for themselves. */
  lemma {:induction false} QuoteAppend(s: string, c: char)
    ensures Quote(s + [c]) == Quote(s) + if c == '"' || c == '\\' then ['\\', c] else [c]
  {
    if s == "" {
      assert Quote([c][1..]) == "";
    } else {
      assert (s + [c])[1..] == s[1..] + [c];
      QuoteAppend(s[1..], c);
    }
  }

  // ----- reading one key or value -----

  datatype St = WaitVal | InVal | InEscVal | WaitEscIn | WaitEscEscIn

  datatype ParseError = UnexpectedEnd | SyntaxError(rest: string) | KeyTooLong | ValTooLong | TooLarge

  datatype Outcome<T> = Ok(value: T) | Err(error: ParseError)

  predicate IsSpace(c: char) {
    c == ' ' || c == '\t' || c == '\n' || c == '\r' || c == '\U{0B}' || c == '\U{0C}'
  }

  /** What one character does: move on, perhaps storing it or noting a quote;
      stop, stepping back or not; report that there is no value; or fail. */
  datatype Act = Move(st: St, put: bool, quote: bool) | Stop(back: bool) | NoValue | EndError | EqualsError

  /** One turn of get_val; no character is the end of the text. */
  function Step(st: St, c: Option<char>, ignoreeq: bool): (a: Act)
    ensures a.Move? ==> c.Some?
    ensures c.None? && a.Stop? ==> a.back
    ensures a.Stop? ==> !st.WaitVal?
  {
    match st
    case WaitVal =>
      if c.None? then NoValue
      else if c.value == '"' then Move(InEscVal, false, true)
      else if c.value == '=' && !ignoreeq then EqualsError
      else if c.value == '\\' then Move(WaitEscIn, false, false)
      else if !IsSpace(c.value) then Move(InVal, true, false)
      else Move(WaitVal, false, false)
    case InVal =>
      if c.None? then Stop(true)
      else if c.value == '\\' then Move(WaitEscIn, false, false)
      else if c.value == '=' && !ignoreeq then Stop(true)
      else if c.value == ',' && ignoreeq then Stop(true)
      else if IsSpace(c.value) then Stop(false)
      else Move(InVal, true, false)
    case InEscVal =>
      if c.None? then EndError
      else if c.value == '\\' then Move(WaitEscEscIn, false, false)
      else if c.value == '"' then Stop(false)
      else Move(InEscVal, true, false)
    case WaitEscIn => if c.None? then EndError else Move(InVal, true, false)
    case WaitEscEscIn => if c.None? then EndError else Move(InEscVal, true, false)
  }

  /** The outcome of get_val: `rest` is the text the caller goes on with. */
  datatype Scan = NoWord | Got(word: string, escaped: bool, rest: string) | Bad(error: ParseError)

  function Head(s: string): Option<char> {
    if s == "" then None else Some(s[0])
  }

  function Scanned(s: string, ignoreeq: bool, st: St, word: string, escaped: bool): (r: Scan)
    ensures r.Got? ==> |r.rest| <= |s| && (st.WaitVal? ==> |r.rest| < |s|)
    decreases |s|
  {
    match Step(st, Head(s), ignoreeq)
    case NoValue => NoWord
    case EndError => Bad(UnexpectedEnd)
    case EqualsError => Bad(SyntaxError(s))
    case Stop(back) => Got(word, escaped, if back then s else s[1..])
    case Move(st', put, quote) =>
      Scanned(s[1..], ignoreeq, st', if put then word + [s[0]] else word, escaped || quote)
  }

  function GetVal(s: string, ignoreeq: bool): (r: Scan)
    ensures r.Got? ==> |r.rest| < |s|
  {
    Scanned(s, ignoreeq, WaitVal, "", false)
  }

  // ----- reading a whole text -----

  datatype Want = WKey | WEq | WGt | WVal | WDel

  function Lower(c: char): char {
    if 'A' <= c <= 'Z' then c + ' ' else c
  }

  /** pg_strcasecmp with "null" on a word of four characters. */
  predicate IsNullWord(w: string) {
    |w| == 4 && Lower(w[0]) == 'n' && Lower(w[1]) == 'u' && Lower(w[2]) == 'l' && Lower(w[3]) == 'l'
  }

  const MAX_LEN := 0x3FFF_FFFF

  /** parse_hstore from one of its states: the pairs read, in order. */
  function ParseFrom(s: string, st: Want, pairs: seq<Pairs>, key: string): Outcome<seq<Pairs>>
    decreases |s|
  {
    match st
    case WKey =>
      (match GetVal(s, false)
       case NoWord => Ok(pairs)
       case Bad(e) => Err(e)
       case Got(w, _, rest) => if |w| > MAX_LEN then Err(KeyTooLong) else ParseFrom(rest, WEq, pairs, w))
    case WEq =>
      if s == "" then Err(UnexpectedEnd)
      else if s[0] == '=' then ParseFrom(s[1..], WGt, pairs, key)
      else if IsSpace(s[0]) then ParseFrom(s[1..], WEq, pairs, key)
      else Err(SyntaxError(s))
    case WGt =>
      if s == "" then Err(UnexpectedEnd)
      else if s[0] == '>' then ParseFrom(s[1..], WVal, pairs, key)
      else Err(SyntaxError(s))
    case WVal =>
      (match GetVal(s, true)
       case NoWord => Err(UnexpectedEnd)
       case Bad(e) => Err(e)
       case Got(w, escaped, rest) =>
         if |w| > MAX_LEN then Err(ValTooLong)
         else ParseFrom(rest, WDel, pairs + [Pairs(key, w, !escaped && IsNullWord(w), true)], key))
    case WDel =>
      if s == "" then Ok(pairs)
      else if s[0] == ',' then ParseFrom(s[1..], WKey, pairs, key)
      else if IsSpace(s[0]) then ParseFrom(s[1..], WDel, pairs, key)
      else Err(SyntaxError(s))
  }

  function Parse(text: string): Outcome<seq<Pairs>> {
    ParseFrom(text, WKey, [], "")
  }

  // ----- printed text is read back -----

  lemma {:induction false} ScanMove(c: char, s: string, ignoreeq: bool, st: St, word: string, escaped: bool)
    requires Step(st, Some(c), ignoreeq).Move?
    ensures var a := Step(st, Some(c), ignoreeq);
            Scanned([c] + s, ignoreeq, st, word, escaped) ==
            Scanned(s, ignoreeq, a.st, if a.put then word + [c] else word, escaped || a.quote)
  {
    assert ([c] + s)[1..] == s;
  }

  lemma {:induction false} QuoteHead(k: string, tail: string)
    requires k != ""
    ensures var q := [k[0]] + (Quote(k[1..]) + tail);
            Quote(k) + tail == if NeedsEscape(k[0]) then ['\\'] + q else q
  {
    var c, q := k[0], Quote(k[1..]);
    Assoc([c], q, tail);
    if NeedsEscape(c) {
      assert ['\\', c] == ['\\'] + [c];
      Assoc(['\\'], [c], q);
      Assoc(['\\'], [c] + q, tail);
    }
  }

  /** A quoted word is read to its closing quote. */
  lemma {:induction false} ScanQuoted(k: string, rest: string, ignoreeq: bool, word: string)
    ensures Scanned(Quote(k) + ("\"" + rest), ignoreeq, InEscVal, word, true) == Got(word + k, true, rest)
    decreases |k|
  {
    var tail := "\"" + rest;
    if k == "" {
      assert "" + tail == tail && tail[1..] == rest && word + k == word;
    } else {
      hide Scanned, Quote;
      var c, more := k[0], Quote(k[1..]) + tail;
      QuoteHead(k, tail);
      ScanQuoted(k[1..], rest, ignoreeq, word + [c]);
      assert (word + [c]) + k[1..] == word + k by { assert k == [c] + k[1..]; Assoc(word, [c], k[1..]); }
      if NeedsEscape(c) {
        ScanMove('\\', [c] + more, ignoreeq, InEscVal, word, true);
        ScanMove(c, more, ignoreeq, WaitEscEscIn, word, true);
      } else {
        ScanMove(c, more, ignoreeq, InEscVal, word, true);
      }
    }
  }

  lemma {:induction false} ReadQuoted(k: string, rest: string, ignoreeq: bool)
    ensures GetVal("\"" + (Quote(k) + ("\"" + rest)), ignoreeq) == Got(k, true, rest)
  {
    ScanQuoted(k, rest, ignoreeq, "");
    assert "" + k == k;
    hide Scanned, Quote;
    ScanMove('"', Quote(k) + ("\"" + rest), ignoreeq, WaitVal, "", false);
  }

  /** NULL is read up to the comma or the end. */
  lemma {:induction false} ReadNull(rest: string)
    requires rest == "" || rest[0] == ','
    ensures GetVal("NULL" + rest, true) == Got("NULL", false, rest)
  {
    assert "NULL" + rest == ['N'] + (['U'] + (['L'] + (['L'] + rest)));
    assert Scanned(rest, true, InVal, "NULL", false) == Got("NULL", false, rest);
    hide Scanned;
    assert "" + ['N'] == "N" && "N" + ['U'] == "NU" && "NU" + ['L'] == "NUL" && "NUL" + ['L'] == "NULL";
    ScanMove('N', ['U'] + (['L'] + (['L'] + rest)), true, WaitVal, "", false);
    ScanMove('U', ['L'] + (['L'] + rest), true, InVal, "N", false);
    ScanMove('L', ['L'] + rest, true, InVal, "NU", false);
    ScanMove('L', rest, true, InVal, "NUL", false);
  }

  /** The pair a printed value is read as. */
  function ReadAs(p: Pair): Pairs {
    match p.val
    case None => Pairs(p.key, "NULL", true, true)
    case Some(s) => Pairs(p.key, s, false, true)
  }

  lemma {:induction false} ReadValue(p: Pair, rest: string, pairs: seq<Pairs>)
    requires |ValBytes(p.val)| <= MAX_LEN && (rest == "" || rest[0] == ',')
    ensures ParseFrom(PrintVal(p.val) + rest, WVal, pairs, p.key) == ParseFrom(rest, WDel, pairs + [ReadAs(p)], p.key)
  {
    match p.val
    case None => ReadNull(rest);
    case Some(s) =>
      Assoc("\"", Quote(s) + "\"", rest);
      Assoc(Quote(s), "\"", rest);
      ReadQuoted(s, rest, true);
  }

  lemma {:induction false} ReadArrow(s: string, pairs: seq<Pairs>, key: string)
    ensures ParseFrom("=>" + s, WEq, pairs, key) == ParseFrom(s, WVal, pairs, key)
  {
    assert ("=>" + s)[1..] == [">"[0]] + s && ([">"[0]] + s)[1..] == s;
  }

  lemma {:induction false} ReadPair(p: Pair, rest: string, pairs: seq<Pairs>, any: string)
    requires |p.key| <= MAX_LEN && |ValBytes(p.val)| <= MAX_LEN && (rest == "" || rest[0] == ',')
    ensures ParseFrom(PrintPair(p) + rest, WKey, pairs, any) == ParseFrom(rest, WDel, pairs + [ReadAs(p)], p.key)
  {
    var v := PrintVal(p.val);
    PairText(p, rest);
    ReadQuoted(p.key, "=>" + (v + rest), false);
    ReadArrow(v + rest, pairs, p.key);
    ReadValue(p, rest, pairs);
  }

  lemma {:induction false} PairText(p: Pair, rest: string)
    ensures PrintPair(p) + rest == "\"" + (Quote(p.key) + ("\"" + ("=>" + (PrintVal(p.val) + rest))))
  {
    var v, q := PrintVal(p.val), Quote(p.key);
    hide Quote, PrintVal;
    assert "\"=>" == "\"" + "=>";
    Assoc("\"", q + ("\"=>" + v), rest);
    Assoc(q, "\"=>" + v, rest);
    Assoc("\"=>", v, rest);
    Assoc("\"", "=>", v + rest);
  }

  /** A blank before a key is skipped. */
  lemma {:induction false} SkipBlank(s: string, pairs: seq<Pairs>, any: string)
    ensures ParseFrom(" " + s, WKey, pairs, any) == ParseFrom(s, WKey, pairs, any)
  {
    ScanMove(' ', s, false, WaitVal, "", false);
    hide Scanned;
  }

  function ReadAll(ps: seq<Pair>): (r: seq<Pairs>)
    ensures |r| == |ps| && forall i :: 0 <= i < |ps| ==> r[i] == ReadAs(ps[i])
  {
    seq(|ps|, i requires 0 <= i < |ps| => ReadAs(ps[i]))
  }

  ghost predicate Short(ps: seq<Pair>) {
    forall i :: 0 <= i < |ps| ==> |ps[i].key| <= MAX_LEN && |ValBytes(ps[i].val)| <= MAX_LEN
  }

  lemma {:induction false} ParseFromPrinted(ps: seq<Pair>, i: nat, any: string)
    requires i < |ps| && Short(ps)
    ensures ParseFrom(PrintFrom(ps, i), WKey, ReadAll(ps)[..i], any) == Ok(ReadAll(ps))
    decreases |ps| - i
  {
    var prs, rest := ReadAll(ps), PrintFrom(ps, i + 1);
    var tail := Separator(ps, i) + rest;
    assert PrintFrom(ps, i) == PrintPair(ps[i]) + tail;
    assert |ps[i].key| <= MAX_LEN && |ValBytes(ps[i].val)| <= MAX_LEN;
    assert tail == if i + 1 < |ps| then ", " + rest else "";
    assert tail == "" || tail[0] == ',';
    assert prs[..i] + [ReadAs(ps[i])] == prs[..i + 1];
    hide *;
    ReadPair(ps[i], tail, prs[..i], any);
    if i + 1 < |ps| {
      ParseFromPrinted(ps, i + 1, ps[i].key);
      NextPair(rest, prs[..i + 1], ps[i].key);
    } else {
      assert prs[..i + 1] == prs;
      LastPair(prs, ps[i].key);
    }
  }

  lemma {:induction false} NextPair(rest: string, pairs: seq<Pairs>, key: string)
    ensures ParseFrom(", " + rest, WDel, pairs, key) == ParseFrom(rest, WKey, pairs, key)
  {
    assert ", " + rest == "," + (" " + rest) && (", " + rest)[1..] == " " + rest;
    SkipBlank(rest, pairs, key);
  }

  lemma {:induction false} LastPair(pairs: seq<Pairs>, key: string)
    ensures ParseFrom("", WDel, pairs, key) == Ok(pairs)
  {
  }

  /** Parsing the printed text gives back the pairs, nulls and escapes included. */
  lemma {:induction false} ParsePrinted(ps: seq<Pair>)
    requires Short(ps)
    ensures Parse(Print(ps)) == Ok(ReadAll(ps)) && Abs(ReadAll(ps)) == ps
  {
    var prs := ReadAll(ps);
    if ps == [] {
      assert prs == [];
    } else {
      ParseFromPrinted(ps, 0, "");
      assert prs[..0] == [];
    }
    forall i | 0 <= i < |ps|
      ensures PairOf(prs[i]) == ps[i]
    {
    }
  }
}
