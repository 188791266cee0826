/** The language of hstore texts, written as a grammar that knows nothing of the
    reader's states, and the proof that the reader accepts exactly this language
    with exactly this meaning. */
module HStoreGrammar {
  import opened Prelude
  import opened HStorePairs
  import opened HStoreText

  // ----- words -----

  /** A character of a word, written as itself or after a backslash. */
  datatype Ch = Plain(c: char) | Esc(c: char)

  function ChText(x: Ch): string {
    match x
    case Plain(c) => [c]
    case Esc(c) => ['\\', c]
  }

  function ChsText(chs: seq<Ch>): string {
    if chs == [] then "" else ChText(chs[0]) + ChsText(chs[1..])
  }

  function ChsWord(chs: seq<Ch>): string {
    if chs == [] then "" else [chs[0].c] + ChsWord(chs[1..])
  }

  datatype Word = Quoted(chs: seq<Ch>) | Bare(chs: seq<Ch>)

  function WordText(w: Word): string {
    match w
    case Quoted(chs) => "\"" + (ChsText(chs) + "\"")
    case Bare(chs) => ChsText(chs)
  }

  /** The character that ends a bare word besides blanks: "=" after a key, ","
      after a value. */
  function Delim(isVal: bool): char {
    if isVal then ',' else '='
  }

  predicate QuotedChs(chs: seq<Ch>) {
    forall i :: 0 <= i < |chs| && chs[i].Plain? ==> !NeedsEscape(chs[i].c)
  }

  predicate BareChs(chs: seq<Ch>, isVal: bool) {
    forall i :: 0 <= i < |chs| && chs[i].Plain? ==>
      chs[i].c != '\\' && !IsSpace(chs[i].c) && chs[i].c != Delim(isVal)
  }

  /** The first character must not look like a quote, nor like the sign between
      key and value where a key is expected. */
  predicate FirstCh(x: Ch, isVal: bool) {
    x.Plain? ==> x.c != '"' && x.c != '\\' && !IsSpace(x.c) && !(x.c == '=' && !isVal)
  }

  predicate GoodWord(w: Word, isVal: bool) {
    match w
    case Quoted(chs) => QuotedChs(chs)
    case Bare(chs) => chs != [] && FirstCh(chs[0], isVal) && BareChs(chs[1..], isVal)
  }

  predicate AllSpace(b: string) {
    forall i :: 0 <= i < |b| ==> IsSpace(b[i])
  }

  /** What may follow a word, and where reading goes on: a bare word takes the
      blank that ends it. */
  predicate CanFollow(w: Word, t: string, isVal: bool) {
    w.Bare? ==> t == "" || IsSpace(t[0]) || t[0] == Delim(isVal)
  }

  function AfterWord(w: Word, t: string): string {
    if w.Bare? && t != "" && IsSpace(t[0]) then t[1..] else t
  }

  // ----- reading a word -----

  lemma {:induction false} ChTextMore(x: Ch, s: string)
    ensures ChText(x) + s == match x case Plain(c) => [c] + s case Esc(c) => ['\\'] + ([c] + s)
  {
  }

  lemma {:induction false} ChsHead(chs: seq<Ch>, t: string)
    requires chs != []
    ensures ChsText(chs) + t == ChText(chs[0]) + (ChsText(chs[1..]) + t)
    ensures ChsWord(chs) == [chs[0].c] + ChsWord(chs[1..])
  {
    Assoc(ChText(chs[0]), ChsText(chs[1..]), t);
  }

  /** Reading one character of a word, in a state in which plain ones are taken. */
  lemma {:induction false} ReadCh(x: Ch, s: string, isVal: bool, st: St, word: string, escaped: bool)
    requires st.InEscVal? || st.InVal?
    requires x.Plain? ==> Step(st, Some(x.c), isVal) == Move(st, true, false)
    ensures Scanned(ChText(x) + s, isVal, st, word, escaped) == Scanned(s, isVal, st, word + [x.c], escaped)
  {
    ChTextMore(x, s);
    hide Scanned;
    match x
    case Plain(c) => ScanMove(c, s, isVal, st, word, escaped);
    case Esc(c) =>
      ScanMove('\\', [c] + s, isVal, st, word, escaped);
      ScanMove(c, s, isVal, if st.InEscVal? then WaitEscEscIn else WaitEscIn, word, escaped);
  }

  lemma {:induction false} ReadChs(chs: seq<Ch>, t: string, isVal: bool, st: St, word: string, escaped: bool)
    requires (st.InEscVal? && QuotedChs(chs)) || (st.InVal? && BareChs(chs, isVal))
    ensures Scanned(ChsText(chs) + t, isVal, st, word, escaped) == Scanned(t, isVal, st, word + ChsWord(chs), escaped)
    decreases |chs|
  {
    if chs == [] {
      assert "" + t == t && word + "" == word;
    } else {
      ChsHead(chs, t);
      var rest := ChsText(chs[1..]) + t;
      assert (word + [chs[0].c]) + ChsWord(chs[1..]) == word + ChsWord(chs) by {
        Assoc(word, [chs[0].c], ChsWord(chs[1..]));
      }
      hide Scanned, ChsText, ChsWord;
      ReadCh(chs[0], rest, isVal, st, word, escaped);
      ReadChs(chs[1..], t, isVal, st, word + [chs[0].c], escaped);
    }
  }

  lemma {:induction false} SkipSpaces(b: string, s: string, isVal: bool)
    requires AllSpace(b)
    ensures GetVal(b + s, isVal) == GetVal(s, isVal)
  {
    if b == "" {
      assert b + s == s;
    } else {
      SkipSpaces(b[1..], s, isVal);
      assert b + s == [b[0]] + (b[1..] + s);
      hide Scanned;
      ScanMove(b[0], b[1..] + s, isVal, WaitVal, "", false);
    }
  }

  /** A good word is read as the string it stands for. */
  lemma {:induction false} WordReads(w: Word, t: string, isVal: bool)
    requires GoodWord(w, isVal) && CanFollow(w, t, isVal)
    ensures GetVal(WordText(w) + t, isVal) == Got(ChsWord(w.chs), w.Quoted?, AfterWord(w, t))
  {
    match w
    case Quoted(chs) =>
      Assoc("\"", ChsText(chs) + "\"", t);
      Assoc(ChsText(chs), "\"", t);
      assert "" + ChsWord(chs) == ChsWord(chs);
      assert ("\"" + t)[1..] == t;
      assert Scanned("\"" + t, isVal, InEscVal, ChsWord(chs), true) == Got(ChsWord(chs), true, t);
      hide Scanned;
      ScanMove('"', ChsText(chs) + ("\"" + t), isVal, WaitVal, "", false);
      ReadChs(chs, "\"" + t, isVal, InEscVal, "", true);
    case Bare(chs) =>
      ChsHead(chs, t);
      var rest := ChsText(chs[1..]) + t;
      ReadFirst(chs[0], rest, isVal);
      ReadChs(chs[1..], t, isVal, InVal, [chs[0].c], false);
      BareEnds(t, isVal, ChsWord(chs));
      hide Scanned, ChsText;
  }

  lemma {:induction false} ReadFirst(x: Ch, s: string, isVal: bool)
    requires FirstCh(x, isVal)
    ensures GetVal(ChText(x) + s, isVal) == Scanned(s, isVal, InVal, [x.c], false)
  {
    ChTextMore(x, s);
    assert "" + [x.c] == [x.c];
    hide Scanned;
    match x
    case Plain(c) => ScanMove(c, s, isVal, WaitVal, "", false);
    case Esc(c) =>
      ScanMove('\\', [c] + s, isVal, WaitVal, "", false);
      ScanMove(c, s, isVal, WaitEscIn, "", false);
  }

  lemma {:induction false} BareEnds(t: string, isVal: bool, word: string)
    requires t == "" || IsSpace(t[0]) || t[0] == Delim(isVal)
    ensures Scanned(t, isVal, InVal, word, false) == Got(word, false, AfterWord(Bare([]), t))
  {
  }

  // ----- every word that is read is a good word -----

  /** Inside a word, reading either ends it or takes one more character. */
  lemma {:induction false} ChBack(s: string, isVal: bool, st: St, word: string, escaped: bool)
    returns (x: Ch, more: string)
    requires (st.InEscVal? || st.InVal?) && Scanned(s, isVal, st, word, escaped).Got? && !Step(st, Head(s), isVal).Stop?
    ensures s == ChText(x) + more && |more| < |s|
    ensures Scanned(s, isVal, st, word, escaped) == Scanned(more, isVal, st, word + [x.c], escaped)
    ensures st.InEscVal? && x.Plain? ==> !NeedsEscape(x.c)
    ensures st.InVal? && x.Plain? ==> x.c != '\\' && !IsSpace(x.c) && x.c != Delim(isVal)
  {
    if s[0] == '\\' {
      EscBack(s, isVal, st, word, escaped);
      x, more := Esc(s[1]), s[2..];
    } else {
      x, more := Plain(s[0]), s[1..];
    }
  }

  /** How a word that is being read ends. */
  ghost predicate EndsAt(r: Scan, isVal: bool, st: St, chs: seq<Ch>, t: string) {
    && r.Got?
    && (st.InEscVal? ==> QuotedChs(chs) && t != "" && t[0] == '"' && r.rest == t[1..])
    && (st.InVal? ==> BareChs(chs, isVal) && CanFollow(Bare(chs), t, isVal) && r.rest == AfterWord(Bare(chs), t))
  }

  /** From inside a word: the characters read, and what ended it. */
  lemma {:induction false} ChsBack(s: string, isVal: bool, st: St, word: string, escaped: bool)
    returns (chs: seq<Ch>, t: string)
    requires (st.InEscVal? || st.InVal?) && Scanned(s, isVal, st, word, escaped).Got?
    ensures var r := Scanned(s, isVal, st, word, escaped);
            s == ChsText(chs) + t && r.word == word + ChsWord(chs) && r.escaped == escaped
              && EndsAt(r, isVal, st, chs, t)
    decreases |s|
  {
    if Step(st, Head(s), isVal).Stop? {
      chs, t := [], s;
      StopBack(s, isVal, st, word, escaped);
      assert "" + s == s && word + "" == word;
    } else {
      hide Scanned, Step, EndsAt;
      var x, more := ChBack(s, isVal, st, word, escaped);
      chs, t := ChsBack(more, isVal, st, word + [x.c], escaped);
      ChsCons(x, chs, t, word, isVal);
      ConsEnds(Scanned(s, isVal, st, word, escaped), isVal, st, x, chs, t);
      chs := [x] + chs;
    }
  }

  lemma {:induction false} StopBack(s: string, isVal: bool, st: St, word: string, escaped: bool)
    requires (st.InEscVal? || st.InVal?) && Step(st, Head(s), isVal).Stop?
    ensures var r := Scanned(s, isVal, st, word, escaped);
            r.Got? && r.word == word && r.escaped == escaped && EndsAt(r, isVal, st, [], s)
  {
    var r := Scanned(s, isVal, st, word, escaped);
    assert r == Got(word, escaped, if Step(st, Head(s), isVal).back then s else s[1..]);
    hide Scanned;
  }

  lemma {:induction false} ConsEnds(r: Scan, isVal: bool, st: St, x: Ch, chs: seq<Ch>, t: string)
    requires EndsAt(r, isVal, st, chs, t)
    requires st.InEscVal? && x.Plain? ==> !NeedsEscape(x.c)
    requires st.InVal? && x.Plain? ==> x.c != '\\' && !IsSpace(x.c) && x.c != Delim(isVal)
    ensures EndsAt(r, isVal, st, [x] + chs, t)
  {
    ChsCons(x, chs, t, "", isVal);
    hide QuotedChs, BareChs, ChsText, ChsWord;
  }

  lemma {:induction false} EscBack(s: string, isVal: bool, st: St, word: string, escaped: bool)
    requires (st.InEscVal? || st.InVal?) && s != "" && s[0] == '\\' && Scanned(s, isVal, st, word, escaped).Got?
    ensures |s| >= 2 && Scanned(s, isVal, st, word, escaped) == Scanned(s[2..], isVal, st, word + [s[1]], escaped)
  {
    var wait := if st.InEscVal? then WaitEscEscIn else WaitEscIn;
    assert Scanned(s, isVal, st, word, escaped) == Scanned(s[1..], isVal, wait, word, escaped);
    if |s| >= 2 {
      assert s[1..][1..] == s[2..];
    }
  }

  lemma {:induction false} ChsCons(x: Ch, chs: seq<Ch>, t: string, word: string, isVal: bool)
    ensures ChsText([x] + chs) + t == ChText(x) + (ChsText(chs) + t)
    ensures word + ChsWord([x] + chs) == (word + [x.c]) + ChsWord(chs)
    ensures QuotedChs([x] + chs) <==> QuotedChs(chs) && (x.Plain? ==> !NeedsEscape(x.c))
    ensures BareChs([x] + chs, isVal) <==>
            BareChs(chs, isVal) && (x.Plain? ==> x.c != '\\' && !IsSpace(x.c) && x.c != Delim(isVal))
  {
    var ys := [x] + chs;
    assert ys[1..] == chs && ys[0] == x;
    ChsHead(ys, t);
    Assoc(word, [x.c], ChsWord(chs));
    hide ChsText, ChsWord;
    assert forall i :: 0 <= i < |chs| ==> ys[i + 1] == chs[i];
  }

  /** Nothing is read exactly from blanks. */
  lemma {:induction false} NoWordBack(s: string, isVal: bool)
    requires GetVal(s, isVal).NoWord?
    ensures AllSpace(s)
  {
    if s != "" {
      var a := Step(WaitVal, Some(s[0]), isVal);
      if a.Move? && !a.st.WaitVal? {
        NotYetWord(s[1..], isVal, a.st, if a.put then "" + [s[0]] else "", a.quote);
      } else {
        NoWordBack(s[1..], isVal);
      }
    }
  }

  /** Once a word has begun there is one, or an error. */
  lemma {:induction false} NotYetWord(s: string, isVal: bool, st: St, word: string, escaped: bool)
    requires !st.WaitVal?
    ensures !Scanned(s, isVal, st, word, escaped).NoWord?
    decreases |s|
  {
    var a := Step(st, Head(s), isVal);
    if a.Move? {
      NotYetWord(s[1..], isVal, a.st, if a.put then word + [s[0]] else word, escaped || a.quote);
    }
  }

  /** A word that is read is a good word after blanks. */
  lemma {:induction false} WordBack(s: string, isVal: bool) returns (b: string, w: Word, t: string)
    requires GetVal(s, isVal).Got?
    ensures s == b + (WordText(w) + t) && AllSpace(b) && GoodWord(w, isVal) && CanFollow(w, t, isVal)
    ensures GetVal(s, isVal) == Got(ChsWord(w.chs), w.Quoted?, AfterWord(w, t))
    decreases |s|
  {
    if s[0] == '"' {
      b := "";
      w, t := QuotedBack(s, isVal);
    } else if IsSpace(s[0]) {
      var b', w', t' := WordBack(s[1..], isVal);
      b, w, t := [s[0]] + b', w', t';
      Assoc([s[0]], b', WordText(w) + t);
      assert s == [s[0]] + s[1..];
    } else {
      b := "";
      w, t := BareBack(s, isVal);
    }
    assert "" + (WordText(w) + t) == WordText(w) + t;
  }

  lemma {:induction false} QuotedBack(s: string, isVal: bool) returns (w: Word, t: string)
    requires s != "" && s[0] == '"' && GetVal(s, isVal).Got?
    ensures s == WordText(w) + t && w.Quoted? && GoodWord(w, isVal)
    ensures GetVal(s, isVal) == Got(ChsWord(w.chs), true, t)
  {
    assert GetVal(s, isVal) == Scanned(s[1..], isVal, InEscVal, "", true);
    var chs, u := ChsBack(s[1..], isVal, InEscVal, "", true);
    w, t := Quoted(chs), u[1..];
    assert "" + ChsWord(chs) == ChsWord(chs);
    assert u == "\"" + t && s == "\"" + s[1..];
    Assoc(ChsText(chs), "\"", t);
    Assoc("\"", ChsText(chs) + "\"", t);
  }

  lemma {:induction false} BareBack(s: string, isVal: bool) returns (w: Word, t: string)
    requires s != "" && s[0] != '"' && !IsSpace(s[0]) && GetVal(s, isVal).Got?
    ensures s == WordText(w) + t && w.Bare? && GoodWord(w, isVal) && CanFollow(w, t, isVal)
    ensures GetVal(s, isVal) == Got(ChsWord(w.chs), false, AfterWord(w, t))
  {
    var x, more := FirstBack(s, isVal);
    hide Scanned;
    var chs, u := ChsBack(more, isVal, InVal, [x.c], false);
    ChsCons(x, chs, u, "", isVal);
    w, t := Bare([x] + chs), u;
    assert w.chs[1..] == chs && w.chs[0] == x;
    assert "" + ChsWord(w.chs) == ChsWord(w.chs) && ("" + [x.c]) + ChsWord(chs) == [x.c] + ChsWord(chs);
  }

  lemma {:induction false} FirstBack(s: string, isVal: bool) returns (x: Ch, more: string)
    requires s != "" && s[0] != '"' && !IsSpace(s[0]) && GetVal(s, isVal).Got?
    ensures s == ChText(x) + more && FirstCh(x, isVal) && GetVal(s, isVal) == Scanned(more, isVal, InVal, [x.c], false)
  {
    assert "" + [s[0]] == [s[0]];
    if s[0] == '\\' {
      assert GetVal(s, isVal) == Scanned(s[1..], isVal, WaitEscIn, "", false);
      assert |s| >= 2 && s[1..][1..] == s[2..] && "" + [s[1]] == [s[1]];
      x, more := Esc(s[1]), s[2..];
    } else {
      x, more := Plain(s[0]), s[1..];
    }
  }

  // ----- whole texts -----

  /** Blanks; or blanks, a key, "=>" with blanks around it, a value, blanks, and
      perhaps a comma and more, which may be nothing but blanks. */
  datatype Doc = Blank(b: string)
               | Entry(b1: string, key: Word, b2: string, b3: string, val: Word, b4: string, tail: Option<Doc>)

  function DocText(d: Doc): string {
    match d
    case Blank(b) => b
    case Entry(b1, key, b2, b3, val, b4, tail) =>
      b1 + (WordText(key) + (b2 + ("=>" + (b3 + (WordText(val) + (b4 + TailText(tail)))))))
  }

  function TailText(tail: Option<Doc>): string {
    match tail
    case None => ""
    case Some(d) => "," + DocText(d)
  }

  predicate GoodDoc(d: Doc) {
    match d
    case Blank(b) => AllSpace(b)
    case Entry(b1, key, b2, b3, val, b4, tail) =>
      && AllSpace(b1) && AllSpace(b2) && AllSpace(b3) && AllSpace(b4)
      && GoodWord(key, false) && GoodWord(val, true)
      && |ChsWord(key.chs)| <= MAX_LEN && |ChsWord(val.chs)| <= MAX_LEN
      && (tail.Some? ==> GoodDoc(tail.value))
  }

  /** The pair an entry stands for: an unquoted "null", in any case, is null. */
  function PairRead(key: Word, val: Word): Pairs {
    var v := ChsWord(val.chs);
    Pairs(ChsWord(key.chs), v, val.Bare? && IsNullWord(v), true)
  }

  function Denotes(d: Doc): seq<Pairs> {
    match d
    case Blank(_) => []
    case Entry(_, key, _, _, val, _, tail) =>
      [PairRead(key, val)] + match tail { case None => [] case Some(d') => Denotes(d') }
  }

  // ----- every good text is accepted with its meaning -----

  lemma {:induction false} AfterBlanks(w: Word, b: string, s: string)
    requires AllSpace(b) && (w.Bare? && b == "" && s != "" ==> !IsSpace(s[0]))
    ensures exists b' :: AllSpace(b') && AfterWord(w, b + s) == b' + s
  {
    if w.Bare? && b != "" {
      assert (b + s)[1..] == b[1..] + s && AllSpace(b[1..]);
    } else {
      assert AllSpace(b);
    }
  }

  lemma {:induction false} SkipToArrow(b: string, s: string, pairs: seq<Pairs>, key: string)
    requires AllSpace(b)
    ensures ParseFrom(b + ("=>" + s), WEq, pairs, key) == ParseFrom(s, WVal, pairs, key)
  {
    if b == "" {
      assert "" + ("=>" + s) == "=>" + s;
      ReadArrow(s, pairs, key);
    } else {
      assert (b + ("=>" + s))[1..] == b[1..] + ("=>" + s) && (b + ("=>" + s))[0] == b[0];
      SkipToArrow(b[1..], s, pairs, key);
    }
  }

  lemma {:induction false} SkipToTail(b: string, tail: Option<Doc>, pairs: seq<Pairs>, key: string)
    requires AllSpace(b)
    ensures ParseFrom(b + TailText(tail), WDel, pairs, key) ==
            match tail case None => Ok(pairs) case Some(d) => ParseFrom(DocText(d), WKey, pairs, key)
    decreases |b|
  {
    var s := b + TailText(tail);
    if b == "" {
      assert s == TailText(tail);
      if tail.Some? {
        assert ("," + DocText(tail.value))[1..] == DocText(tail.value);
      }
    } else {
      assert s[1..] == b[1..] + TailText(tail) && s[0] == b[0];
      SkipToTail(b[1..], tail, pairs, key);
    }
  }

  lemma {:induction false} EntryReads(d: Doc, pairs: seq<Pairs>, any: string)
    requires GoodDoc(d) && d.Entry?
    ensures ParseFrom(DocText(d), WKey, pairs, any) ==
            ParseFrom(d.b4 + TailText(d.tail), WDel, pairs + [PairRead(d.key, d.val)], ChsWord(d.key.chs))
  {
    var tail := d.b4 + TailText(d.tail);
    var value := d.b3 + (WordText(d.val) + tail);
    KeyReads(d.b1, d.key, d.b2, value, pairs, any);
    TailFollows(d.val, d.b4, d.tail);
    ValReads(d.b3, d.val, tail, pairs, ChsWord(d.key.chs));
    TailSkips(d.val, d.b4, d.tail, pairs + [PairRead(d.key, d.val)], ChsWord(d.key.chs));
  }

  lemma {:induction false} KeyReads(b1: string, key: Word, b2: string, s: string, pairs: seq<Pairs>, any: string)
    requires AllSpace(b1) && AllSpace(b2) && GoodWord(key, false) && |ChsWord(key.chs)| <= MAX_LEN
    ensures ParseFrom(b1 + (WordText(key) + (b2 + ("=>" + s))), WKey, pairs, any) ==
            ParseFrom(s, WVal, pairs, ChsWord(key.chs))
  {
    var t := b2 + ("=>" + s);
    assert t[0] == if b2 == "" then '=' else b2[0];
    SkipSpaces(b1, WordText(key) + t, false);
    WordReads(key, t, false);
    AfterBlanks(key, b2, "=>" + s);
    var b' :| AllSpace(b') && AfterWord(key, t) == b' + ("=>" + s);
    SkipToArrow(b', s, pairs, ChsWord(key.chs));
    KeyStep(b1 + (WordText(key) + t), pairs, any);
  }

  lemma {:induction false} KeyStep(s: string, pairs: seq<Pairs>, any: string)
    requires GetVal(s, false).Got? && |GetVal(s, false).word| <= MAX_LEN
    ensures ParseFrom(s, WKey, pairs, any) == ParseFrom(GetVal(s, false).rest, WEq, pairs, GetVal(s, false).word)
  {
  }

  lemma {:induction false} ValStep(s: string, pairs: seq<Pairs>, key: string)
    requires GetVal(s, true).Got? && |GetVal(s, true).word| <= MAX_LEN
    ensures var g := GetVal(s, true);
            ParseFrom(s, WVal, pairs, key) ==
            ParseFrom(g.rest, WDel, pairs + [Pairs(key, g.word, !g.escaped && IsNullWord(g.word), true)], key)
  {
  }

  lemma {:induction false} ValReads(b3: string, val: Word, t: string, pairs: seq<Pairs>, key: string)
    requires AllSpace(b3) && GoodWord(val, true) && |ChsWord(val.chs)| <= MAX_LEN && CanFollow(val, t, true)
    ensures ParseFrom(b3 + (WordText(val) + t), WVal, pairs, key) ==
            ParseFrom(AfterWord(val, t), WDel,
                      pairs + [Pairs(key, ChsWord(val.chs), val.Bare? && IsNullWord(ChsWord(val.chs)), true)], key)
  {
    SkipSpaces(b3, WordText(val) + t, true);
    WordReads(val, t, true);
    ValStep(b3 + (WordText(val) + t), pairs, key);
  }

  lemma {:induction false} TailFollows(val: Word, b: string, tail: Option<Doc>)
    requires AllSpace(b)
    ensures CanFollow(val, b + TailText(tail), true)
  {
    var t := b + TailText(tail);
    if b != "" {
      assert t[0] == b[0];
    } else {
      assert t == TailText(tail);
    }
  }

  lemma {:induction false} TailSkips(val: Word, b: string, tail: Option<Doc>, pairs: seq<Pairs>, key: string)
    requires AllSpace(b)
    ensures ParseFrom(AfterWord(val, b + TailText(tail)), WDel, pairs, key) ==
            ParseFrom(b + TailText(tail), WDel, pairs, key)
  {
    TailNoSpace(tail);
    AfterBlanks(val, b, TailText(tail));
    var b' :| AllSpace(b') && AfterWord(val, b + TailText(tail)) == b' + TailText(tail);
    SkipToTail(b', tail, pairs, key);
    SkipToTail(b, tail, pairs, key);
  }

  lemma {:induction false} TailNoSpace(tail: Option<Doc>)
    ensures TailText(tail) != "" ==> !IsSpace(TailText(tail)[0])
  {
  }

  /** Every text of the language is accepted, with its meaning. */
  lemma {:induction false} DocParses(d: Doc, pairs: seq<Pairs>, any: string)
    requires GoodDoc(d)
    ensures ParseFrom(DocText(d), WKey, pairs, any) == Ok(pairs + Denotes(d))
    decreases d
  {
    match d
    case Blank(b) =>
      assert b + "" == b && pairs + [] == pairs;
      SkipSpaces(b, "", false);
      assert GetVal("", false).NoWord?;
    case Entry(_, key, _, _, val, b4, tail) =>
      var more := pairs + [PairRead(key, val)];
      EntryReads(d, pairs, any);
      SkipToTail(b4, tail, more, ChsWord(key.chs));
      hide ParseFrom;
      if tail.Some? {
        DocParses(tail.value, more, ChsWord(key.chs));
        Assoc(pairs, [PairRead(key, val)], Denotes(tail.value));
      } else {
        assert [PairRead(key, val)] + [] == [PairRead(key, val)];
      }
  }

  // ----- every accepted text is of the language -----

  lemma {:induction false} ArrowBack(s: string, pairs: seq<Pairs>, key: string) returns (b: string, rest: string)
    requires ParseFrom(s, WEq, pairs, key).Ok?
    ensures AllSpace(b) && s == b + ("=>" + rest) && ParseFrom(s, WEq, pairs, key) == ParseFrom(rest, WVal, pairs, key)
  {
    if s[0] == '=' {
      b, rest := "", s[2..];
      assert ParseFrom(s[1..], WGt, pairs, key).Ok?;
      assert s[1..][0] == '>' && s[1..][1..] == rest && s == "=>" + rest;
      assert "" + ("=>" + rest) == "=>" + rest;
    } else {
      var b';
      b', rest := ArrowBack(s[1..], pairs, key);
      b := [s[0]] + b';
      Assoc([s[0]], b', "=>" + rest);
      assert s == [s[0]] + s[1..];
    }
  }

  /** After a value: blanks, and the end or a comma and the rest. */
  lemma {:induction false} DelBack(s: string, pairs: seq<Pairs>, key: string) returns (b: string, rest: Option<string>)
    requires ParseFrom(s, WDel, pairs, key).Ok?
    ensures AllSpace(b) && s == b + (match rest case None => "" case Some(r) => "," + r)
    ensures rest.None? ==> ParseFrom(s, WDel, pairs, key) == Ok(pairs)
    ensures rest.Some? ==>
              |rest.value| < |s| && ParseFrom(s, WDel, pairs, key) == ParseFrom(rest.value, WKey, pairs, key)
  {
    if s == "" {
      b, rest := "", None;
    } else if s[0] == ',' {
      b, rest := "", Some(s[1..]);
      assert s == "" + ("," + s[1..]);
    } else {
      var b';
      b', rest := DelBack(s[1..], pairs, key);
      b := [s[0]] + b';
      Assoc([s[0]], b', match rest case None => "" case Some(r) => "," + r);
      assert s == [s[0]] + s[1..];
    }
  }

  /** Blanks before and after the point where a word stopped are blanks. */
  lemma {:induction false} RejoinBlanks(w: Word, t: string, b: string, s: string) returns (b': string)
    requires AfterWord(w, t) == b + s && AllSpace(b)
    ensures AllSpace(b') && t == b' + s
  {
    if AfterWord(w, t) == t {
      b' := b;
    } else {
      b' := [t[0]] + b;
      Assoc([t[0]], b, s);
      assert t == [t[0]] + t[1..];
    }
  }

  lemma {:induction false} KeyBack(s: string, pairs: seq<Pairs>, any: string)
    returns (b1: string, key: Word, b2: string, rest: string)
    requires ParseFrom(s, WKey, pairs, any).Ok? && !GetVal(s, false).NoWord?
    ensures AllSpace(b1) && AllSpace(b2) && GoodWord(key, false) && |ChsWord(key.chs)| <= MAX_LEN
    ensures s == b1 + (WordText(key) + (b2 + ("=>" + rest)))
    ensures ParseFrom(s, WKey, pairs, any) == ParseFrom(rest, WVal, pairs, ChsWord(key.chs))
  {
    var t, b;
    b1, key, t := WordBack(s, false);
    KeyStep(s, pairs, any);
    b, rest := ArrowBack(AfterWord(key, t), pairs, ChsWord(key.chs));
    b2 := RejoinBlanks(key, t, b, "=>" + rest);
  }

  lemma {:induction false} ValBack(s: string, pairs: seq<Pairs>, key: string)
    returns (b3: string, val: Word, b4: string, rest: Option<string>)
    requires ParseFrom(s, WVal, pairs, key).Ok?
    ensures AllSpace(b3) && AllSpace(b4) && GoodWord(val, true) && |ChsWord(val.chs)| <= MAX_LEN
    ensures s == b3 + (WordText(val) + (b4 + (match rest case None => "" case Some(r) => "," + r)))
    ensures var more := pairs + [Pairs(key, ChsWord(val.chs), val.Bare? && IsNullWord(ChsWord(val.chs)), true)];
            ParseFrom(s, WVal, pairs, key) ==
              match rest case None => Ok(more) case Some(r) => ParseFrom(r, WKey, more, key)
    ensures rest.Some? ==> |rest.value| < |s|
  {
    var t, b;
    b3, val, t := WordBack(s, true);
    ValStep(s, pairs, key);
    var more := pairs + [Pairs(key, ChsWord(val.chs), val.Bare? && IsNullWord(ChsWord(val.chs)), true)];
    b, rest := DelBack(AfterWord(val, t), more, key);
    b4 := RejoinBlanks(val, t, b, match rest case None => "" case Some(r) => "," + r);
  }

  /** Every accepted text is a text of the language with the meaning it was given. */
  lemma {:induction false} DocBack(s: string, pairs: seq<Pairs>, any: string) returns (d: Doc)
    requires ParseFrom(s, WKey, pairs, any).Ok?
    ensures GoodDoc(d) && DocText(d) == s && ParseFrom(s, WKey, pairs, any) == Ok(pairs + Denotes(d))
    decreases |s|
  {
    if GetVal(s, false).NoWord? {
      NoWordBack(s, false);
      d := Blank(s);
      assert pairs + [] == pairs;
    } else {
      var b1, key, b2, s2 := KeyBack(s, pairs, any);
      var b3, val, b4, rest := ValBack(s2, pairs, ChsWord(key.chs));
      var tail := None;
      if rest.Some? {
        assert |s2| < |s|;
        hide ParseFrom;
        var d' := DocBack(rest.value, pairs + [PairRead(key, val)], ChsWord(key.chs));
        tail := Some(d');
      }
      d := Entry(b1, key, b2, b3, val, b4, tail);
      hide ParseFrom;
      DocParses(d, pairs, any);
    }
  }

  /** The reader accepts exactly the language, with exactly its meaning. */
  lemma {:induction false} ParseExact(text: string, prs: seq<Pairs>)
    ensures Parse(text) == Ok(prs) <==> exists d :: GoodDoc(d) && DocText(d) == text && Denotes(d) == prs
  {
    if Parse(text) == Ok(prs) {
      var d := DocBack(text, [], "");
      assert [] + Denotes(d) == Denotes(d);
    }
    if d :| GoodDoc(d) && DocText(d) == text && Denotes(d) == prs {
      DocParses(d, [], "");
      assert [] + Denotes(d) == Denotes(d);
    }
  }
}
