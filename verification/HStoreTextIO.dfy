/** hstore_out and hstore_in as they run: buffers that are filled, grown and
    never overrun, and the round trip between them. */
module HStoreTextIO {
  import opened Prelude
  import opened HStoreCore
  import opened HStorePairs
  import opened HStoreText
  import opened HStoreOps

  // ----- hstore_out -----

  /** What hstore_out reserves for a pair. */
  function BufNeed(p: Pair): nat {
    6 + 2 * |p.key| + 2 + if p.val.None? then 2 else 2 * |ValBytes(p.val)|
  }

  function BufFrom(ps: seq<Pair>, i: nat): nat
    decreases |ps| - i
  {
    if i >= |ps| then 0 else BufNeed(ps[i]) + BufFrom(ps, i + 1)
  }

  /** The reserve is enough for the text and its terminator ... */
  lemma {:induction false} BufEnough(ps: seq<Pair>, i: nat)
    requires i < |ps|
    ensures |PrintFrom(ps, i)| + 2 <= BufFrom(ps, i)
    decreases |ps| - i
  {
    assert |PrintPair(ps[i])| + 2 <= BufNeed(ps[i]);
    if i + 1 < |ps| {
      BufEnough(ps, i + 1);
    }
  }

  function Nulls(ps: seq<Pair>): nat {
    if ps == [] then 0 else Nulls(ps[..|ps| - 1]) + if ps[|ps| - 1].val.None? then 1 else 0
  }

  /** The reserve in closed form. */
  lemma {:induction false} BufTotal(ps: seq<Pair>, i: nat)
    requires i <= |ps|
    ensures BufFrom(ps, 0) == 2 * |Str(ps[..i])| + 8 * i + 2 * Nulls(ps[..i]) + BufFrom(ps, i)
  {
    if i == 0 {
      assert ps[..0] == [];
    } else {
      BufTotal(ps, i - 1);
      assert ps[..i] == ps[..i - 1] + [ps[i - 1]];
      StrPush(ps[..i - 1], ps[i - 1]);
      assert ps[..i][..i - 1] == ps[..i - 1];
      hide Str;
    }
  }

  /** ... and computing it does not leave the range of int. */
  lemma {:induction false} BufSmall(ps: seq<Pair>, i: nat)
    requires i <= |ps|
    ensures BufFrom(ps, i) + 2 * |Str(ps[..i])| <= 2 * |Str(ps)| + 10 * (|ps| - i)
    decreases |ps| - i
  {
    if i == |ps| {
      assert ps[..i] == ps;
    } else {
      BufSmall(ps, i + 1);
      RoomForNext(ps, i);
      StrPush(ps[..i], ps[i]);
    }
  }

  lemma {:induction false} BufInt(hs: HStore)
    requires WellFormed(hs)
    ensures BufFrom(View(hs), 0) < 0x8000_0000
  {
    var ps := View(hs);
    StoredSize(hs, ps);
    assert VarSize(hs) <= MAX_ALLOC;
    BufSmall(ps, 0);
  }

  /** Appending to a buffer that holds `pre`. */
  method PutText(out: array<char>, p: nat, s: string, ghost pre: string) returns (q: nat)
    requires p + |s| <= out.Length && out[..p] == pre
    modifies out
    ensures q == p + |s| && out[..q] == pre + s
  {
    forall j | 0 <= j < |s| {
      out[p + j] := s[j];
    }
    q := p + |s|;
    assert forall j :: 0 <= j < |pre| ==> out[j] == pre[j];
  }

  /** cpw: copies with quotes and backslashes escaped. */
  method Cpw(out: array<char>, p: nat, src: string, ghost pre: string) returns (q: nat)
    requires p + |Quote(src)| <= out.Length && out[..p] == pre
    modifies out
    ensures q == p + |Quote(src)| && out[..q] == pre + Quote(src)
  {
    q := p;
    var i := 0;
    ghost var done := "";
    assert src[0..] == src && pre + "" == pre && "" + Quote(src) == Quote(src);
    hide Quote;
    while i < |src|
      invariant 0 <= i <= |src| && done + Quote(src[i..]) == Quote(src)
      invariant q == p + |done| && q <= out.Length && out[..q] == pre + done
    {
      QuoteNext(src, i, done);
      ghost var unit := Escaped(src[i]);
      Assoc(pre, done, unit);
      q := PutText(out, q, Escaped(src[i]), pre + done);
      done := done + unit;
      i := i + 1;
    }
    assert done == Quote(src) by { QuoteEnd(src[i..], done); }
  }

  function Escaped(c: char): string {
    if NeedsEscape(c) then ['\\', c] else [c]
  }

  lemma {:induction false} QuoteNext(src: string, i: nat, done: string)
    requires i < |src|
    ensures (done + Escaped(src[i])) + Quote(src[i + 1..]) == done + Quote(src[i..])
    ensures |done| + |Escaped(src[i])| <= |done + Quote(src[i..])|
  {
    assert src[i..][1..] == src[i + 1..];
    Assoc(done, Escaped(src[i]), Quote(src[i + 1..]));
  }

  lemma {:induction false} QuoteEnd(rest: string, done: string)
    requires rest == ""
    ensures done + Quote(rest) == done
  {
  }

  method WriteQuoted(out: array<char>, p: nat, src: string, ghost pre: string) returns (q: nat)
    requires p + 2 + |Quote(src)| <= out.Length && out[..p] == pre
    modifies out
    ensures q == p + 2 + |Quote(src)| && out[..q] == pre + ("\"" + (Quote(src) + "\""))
  {
    hide Quote;
    q := PutText(out, p, "\"", pre);
    q := Cpw(out, q, src, pre + "\"");
    q := PutText(out, q, "\"", pre + "\"" + Quote(src));
    Assoc(pre, "\"", Quote(src));
    Assoc(pre, "\"" + Quote(src), "\"");
    Assoc("\"", Quote(src), "\"");
  }

  method WriteValue(out: array<char>, p: nat, isnull: bool, val: string, ghost v: Option<string>, ghost pre: string)
    returns (q: nat)
    requires p + |PrintVal(v)| <= out.Length && out[..p] == pre && isnull == v.None? && val == ValBytes(v)
    modifies out
    ensures q == p + |PrintVal(v)| && out[..q] == pre + PrintVal(v)
  {
    if isnull {
      q := PutText(out, p, "NULL", pre);
    } else {
      q := WriteQuoted(out, p, val, pre);
    }
  }

  /** One turn of the printing loop. */
  method WritePair(out: array<char>, p: nat, hs: HStore, i: nat, ghost ps: seq<Pair>, ghost pre: string)
    returns (q: nat)
    requires Stores(hs, ps) && i < |ps| && p + |PrintFrom(ps, i)| <= out.Length && out[..p] == pre
    modifies out
    ensures q + |PrintFrom(ps, i + 1)| == p + |PrintFrom(ps, i)| <= out.Length
    ensures out[..q] + PrintFrom(ps, i + 1) == pre + PrintFrom(ps, i)
  {
    ReadStored(hs, ps, i);
    StoredSize(hs, ps);
    ghost var quoted, v := "\"" + (Quote(ps[i].key) + "\""), PrintVal(ps[i].val);
    ghost var sep, rest := Separator(ps, i), PrintFrom(ps, i + 1);
    PairParts(ps, i, pre);
    var sepText := if i + 1 != |hs.ents| then ", " else "";
    assert sepText == sep;
    hide *;
    q := WriteQuoted(out, p, KeyAt(hs, i), pre);
    q := PutText(out, q, "=>", pre + quoted);
    q := WriteValue(out, q, ValIsNull(hs, i), ValAt(hs, i), ps[i].val, pre + quoted + "=>");
    q := PutText(out, q, sepText, pre + quoted + "=>" + v);
  }

  lemma {:induction false} PairParts(ps: seq<Pair>, i: nat, pre: string)
    requires i < |ps|
    ensures var quoted, v := "\"" + (Quote(ps[i].key) + "\""), PrintVal(ps[i].val);
            var sep, rest := Separator(ps, i), PrintFrom(ps, i + 1);
            && pre + PrintFrom(ps, i) == pre + quoted + "=>" + v + sep + rest
            && |PrintFrom(ps, i)| == 2 + |Quote(ps[i].key)| + 2 + |v| + |sep| + |rest|
  {
    var k, v, sep, rest := Quote(ps[i].key), PrintVal(ps[i].val), Separator(ps, i), PrintFrom(ps, i + 1);
    var tail := sep + rest;
    assert PrintFrom(ps, i) == PrintPair(ps[i]) + tail;
    PairText(ps[i], tail);
    hide *;
    Regroup(pre, k, v, sep, rest);
  }

  lemma {:induction false} Regroup(pre: string, k: string, v: string, sep: string, rest: string)
    ensures pre + ("\"" + (k + ("\"" + ("=>" + (v + (sep + rest)))))) ==
            pre + ("\"" + (k + "\"")) + "=>" + v + sep + rest
  {
    var quoted, t := "\"" + (k + "\""), "=>" + (v + (sep + rest));
    Assoc(k, "\"", t);
    Assoc("\"", k + "\"", t);
    Assoc(pre, quoted, t);
    Assoc(pre + quoted, "=>", v + (sep + rest));
    Assoc(pre + quoted + "=>", v, sep + rest);
    Assoc(pre + quoted + "=>" + v, sep, rest);
  }

  /** The reserve hstore_out computes. */
  method BufLen(hs: HStore) returns (buflen: nat)
    requires WellFormed(hs)
    ensures buflen == BufFrom(View(hs), 0)
  {
    ghost var ps := View(hs);
    StoredSize(hs, ps);
    buflen := 0;
    hide Stores, View, GoodEntry, BufNeed, ValIsNull;
    for i := 0 to |hs.ents|
      invariant buflen + BufFrom(ps, i) == BufFrom(ps, 0)
    {
      ReadStored(hs, ps, i);
      NeedIs(ps[i]);
      buflen := buflen + 6 + 2 * |KeyAt(hs, i)|;
      buflen := buflen + 2 + if ValIsNull(hs, i) then 2 else 2 * |ValAt(hs, i)|;
    }
  }

  lemma {:induction false} NeedIs(p: Pair)
    ensures BufNeed(p) == 6 + 2 * |p.key| + 2 + if p.val.None? then 2 else 2 * |ValBytes(p.val)|
  {
  }

  /** hstore_out: the text, or nothing when its buffer cannot be allocated. */
  method HstoreOut(hs: HStore) returns (r: Option<string>)
    requires WellFormed(hs)
    ensures r.Some? <==> View(hs) == [] || BufFrom(View(hs), 0) <= MAX_ALLOC
    ensures r.Some? ==> r.value == Print(View(hs))
  {
    ghost var ps := View(hs);
    StoredSize(hs, ps);
    if |hs.ents| == 0 {
      return Some("");
    }
    var buflen := BufLen(hs);
    if buflen > MAX_ALLOC {
      return None;
    }
    BufEnough(ps, 0);
    assert Print(ps) == PrintFrom(ps, 0);
    var out := new char[buflen](_ => '?');
    hide *;
    var ptr := WritePairs(out, hs, ps);
    out[ptr] := '\0';
    r := Some(out[..ptr]);
  }

  /** The printing loop of hstore_out. */
  method WritePairs(out: array<char>, hs: HStore, ghost ps: seq<Pair>) returns (ptr: nat)
    requires Stores(hs, ps) && |PrintFrom(ps, 0)| < out.Length
    modifies out
    ensures ptr < out.Length && out[..ptr] == PrintFrom(ps, 0)
  {
    ptr := 0;
    StoredSize(hs, ps);
    assert PrintFrom(ps, |ps|) == "";
    hide *;
    ghost var pre := "";
    assert "" + PrintFrom(ps, 0) == PrintFrom(ps, 0) && out[..0] == pre;
    for i := 0 to |hs.ents|
      invariant ptr == |pre| && pre + PrintFrom(ps, i) == PrintFrom(ps, 0) && ptr <= out.Length && out[..ptr] == pre
    {
      ptr := WritePair(out, ptr, hs, i, ps, pre);
      pre := out[..ptr];
    }
    assert pre + "" == pre;
  }

  // ----- hstore_in -----

  datatype GvResult = GvNone | GvWord(escaped: bool) | GvError(error: ParseError)

  datatype Turn = Go(st: Want) | Done | Fail(error: ParseError)

  lemma {:induction false} ParseKey(s: string, pairs: seq<Pairs>, key: string)
    ensures match GetVal(s, false)
            case NoWord => ParseFrom(s, WKey, pairs, key) == Ok(pairs)
            case Bad(e) => ParseFrom(s, WKey, pairs, key) == Err(e)
            case Got(w, _, rest) =>
              ParseFrom(s, WKey, pairs, key) ==
              if |w| > MAX_LEN then Err(KeyTooLong) else ParseFrom(rest, WEq, pairs, w)
  {
  }

  lemma {:induction false} ParseVal(s: string, pairs: seq<Pairs>, key: string)
    ensures match GetVal(s, true)
            case NoWord => ParseFrom(s, WVal, pairs, key) == Err(UnexpectedEnd)
            case Bad(e) => ParseFrom(s, WVal, pairs, key) == Err(e)
            case Got(w, escaped, rest) =>
              ParseFrom(s, WVal, pairs, key) ==
              if |w| > MAX_LEN then Err(ValTooLong)
              else ParseFrom(rest, WDel, pairs + [Pairs(key, w, !escaped && IsNullWord(w), true)], key)
  {
  }

  class HSParser {
    const begin: string
    var ptr: nat
    var word: array<char>
    var cur: nat
    var pairs: array<Pairs>
    var pcur: nat

    constructor (text: string)
      ensures begin == text && ptr == 0 && pcur == 0 && pairs.Length == 16 && Valid()
      ensures fresh(word) && fresh(pairs)
    {
      begin := text;
      ptr, cur, pcur := 0, 0, 0;
      word := new char[32](_ => '?');
      pairs := new Pairs[16](_ => Pairs("", "", false, false));
    }

    ghost predicate Valid()
      reads this
    {
      ptr <= |begin| && cur < word.Length && pcur <= pairs.Length && pairs.Length > 0
    }

    /** RESIZEPRSBUF */
    method Resize()
      requires cur < word.Length
      modifies this`word
      ensures cur + 1 < word.Length && word[..cur] == old(word[..cur]) && (word == old(word) || fresh(word))
    {
      if cur + 1 >= word.Length {
        var bigger := new char[2 * word.Length](_ => '?');
        forall i | 0 <= i < cur {
          bigger[i] := word[i];
        }
        word := bigger;
      }
    }

    method Store(c: char)
      requires cur < word.Length
      modifies this`word, this`cur, word
      ensures cur == old(cur) + 1 < word.Length && word[..cur] == old(word[..cur]) + [c]
      ensures word == old(word) || fresh(word)
    {
      Resize();
      word[cur] := c;
      cur := cur + 1;
    }

    /** What get_val leaves behind, for each outcome. */
    ghost predicate Returned(scan: Scan, r: GvResult)
      reads this, word
      requires cur <= word.Length
    {
      match scan
      case NoWord => r.GvNone?
      case Bad(e) => r == GvError(e)
      case Got(w, escaped, rest) =>
        r == GvWord(escaped) && word[..cur] == w && ptr < |begin| && begin[ptr + 1..] == rest
    }

    /** get_val */
    method ReadVal(ignoreeq: bool) returns (r: GvResult)
      requires Valid()
      modifies this`ptr, this`word, this`cur
      ensures Valid() && fresh(word) && Returned(GetVal(begin[old(ptr)..], ignoreeq), r)
    {
      word := new char[32](_ => '?');
      cur := 0;
      var st, escaped := WaitVal, false;
      ghost var whole := GetVal(begin[ptr..], ignoreeq);
      assert word[..0] == "";
      assert Turning(whole, ignoreeq, st, escaped);
      hide Scanned, GetVal, Returned;
      while true
        invariant Turning(whole, ignoreeq, st, escaped) && fresh(word)
        decreases |begin| - ptr
      {
        var c := if ptr < |begin| then Some(begin[ptr]) else None;
        var act := Step(st, c, ignoreeq);
        hide *;
        if act.Move? {
          Apply(whole, ignoreeq, st, escaped, act);
          st, escaped := act.st, escaped || act.quote;
        } else {
          r := Leave(whole, ignoreeq, st, escaped, act);
          return;
        }
      }
    }

    ghost predicate Turning(whole: Scan, ignoreeq: bool, st: St, escaped: bool)
      reads this, word
    {
      && ptr <= |begin| && cur < word.Length && (!st.WaitVal? ==> ptr > 0)
      && whole == Scanned(begin[ptr..], ignoreeq, st, word[..cur], escaped)
    }

    /** A turn that moves on. */
    method Apply(ghost whole: Scan, ignoreeq: bool, st: St, escaped: bool, act: Act)
      requires Turning(whole, ignoreeq, st, escaped) && act.Move?
      requires act == Step(st, if ptr < |begin| then Some(begin[ptr]) else None, ignoreeq)
      modifies this`ptr, this`word, this`cur, word
      ensures word == old(word) || fresh(word)
      ensures ptr == old(ptr) + 1 <= |begin| && Turning(whole, ignoreeq, act.st, escaped || act.quote)
    {
      ScanStep(begin, ptr, ignoreeq, st, word[..cur], escaped);
      hide Step, Scanned;
      if act.put {
        Store(begin[ptr]);
      }
      ptr := ptr + 1;
    }

    /** A turn that returns. */
    method Leave(ghost whole: Scan, ignoreeq: bool, st: St, escaped: bool, act: Act) returns (r: GvResult)
      requires Turning(whole, ignoreeq, st, escaped) && !act.Move?
      requires act == Step(st, if ptr < |begin| then Some(begin[ptr]) else None, ignoreeq)
      modifies this`ptr
      ensures ptr <= |begin| && Returned(whole, r)
    {
      ScanStep(begin, ptr, ignoreeq, st, word[..cur], escaped);
      hide Step, Scanned;
      match act
      case NoValue => return GvNone;
      case EndError => return GvError(UnexpectedEnd);
      case EqualsError => return GvError(SyntaxError(begin[ptr..]));
      case Stop(back) =>
        if back {
          ptr := ptr - 1;
        }
        return GvWord(escaped);
    }

    // ----- parse_hstore -----

    /** The reader is in state `st`; while a pair is incomplete its key is in
        the slot after the finished pairs. */
    ghost predicate Parsing(whole: Outcome<seq<Pairs>>, st: Want, key: string)
      reads this, pairs
    {
      && Valid()
      && (st.WEq? || st.WGt? || st.WVal? ==> pcur < pairs.Length && pairs[pcur].key == key)
      && whole == ParseFrom(begin[ptr..], st, pairs[..pcur], key)
    }

    /** Room for one more pair. */
    method Grow()
      requires Valid()
      modifies this`pairs
      ensures Valid() && pcur < pairs.Length && pairs[..pcur] == old(pairs[..pcur])
      ensures pairs == old(pairs) || fresh(pairs)
    {
      if pcur >= pairs.Length {
        var bigger := new Pairs[2 * pairs.Length](_ => Pairs("", "", false, false));
        forall i | 0 <= i < pcur {
          bigger[i] := pairs[i];
        }
        pairs := bigger;
      }
    }

    /** State WKEY: read a key. */
    method KeyTurn(ghost whole: Outcome<seq<Pairs>>, ghost key: string) returns (t: Turn, ghost key': string)
      requires Parsing(whole, WKey, key)
      modifies this, pairs
      ensures pairs == old(pairs) || fresh(pairs)
      ensures t.Go? ==> Parsing(whole, t.st, key') && ptr > old(ptr)
      ensures t.Done? ==> Valid() && whole == Ok(pairs[..pcur])
      ensures t.Fail? ==> whole == Err(t.error)
    {
      key' := key;
      ghost var s := begin[ptr..];
      ParseKey(s, pairs[..pcur], key);
      hide GetVal, ParseFrom;
      var r := ReadVal(false);
      if r.GvNone? {
        return Done, key';
      }
      if r.GvError? {
        return Fail(r.error), key';
      }
      if cur > MAX_LEN {
        return Fail(KeyTooLong), key';
      }
      Grow();
      pairs[pcur] := Pairs(word[..cur], "", false, false);
      key' := word[..cur];
      ptr := ptr + 1;
      return Go(WEq), key';
    }

    /** State WVAL: read a value and finish the pair. */
    method ValTurn(ghost whole: Outcome<seq<Pairs>>, ghost key: string) returns (t: Turn)
      requires Parsing(whole, WVal, key)
      modifies this, pairs
      ensures pairs == old(pairs)
      ensures t.Go? ==> Parsing(whole, t.st, key) && ptr > old(ptr)
      ensures !t.Done? && (t.Fail? ==> whole == Err(t.error))
    {
      ghost var s := begin[ptr..];
      ParseVal(s, pairs[..pcur], key);
      hide GetVal, ParseFrom, IsNullWord;
      var r := ReadVal(true);
      if r.GvNone? {
        return Fail(UnexpectedEnd);
      }
      if r.GvError? {
        return Fail(r.error);
      }
      if cur > MAX_LEN {
        return Fail(ValTooLong);
      }
      pairs[pcur] := Pairs(pairs[pcur].key, word[..cur], !r.escaped && IsNullWord(word[..cur]), true);
      pcur := pcur + 1;
      assert pairs[..pcur] == old(pairs[..pcur]) + [pairs[pcur - 1]];
      ptr := ptr + 1;
      return Go(WDel);
    }

    /** The states that look at one character. */
    method CharTurn(st: Want, ghost whole: Outcome<seq<Pairs>>, ghost key: string) returns (t: Turn)
      requires Parsing(whole, st, key) && !st.WKey? && !st.WVal?
      modifies this`ptr
      ensures t.Go? ==> Parsing(whole, t.st, key) && ptr > old(ptr)
      ensures t.Done? ==> Valid() && whole == Ok(pairs[..pcur])
      ensures t.Fail? ==> whole == Err(t.error)
    {
      ghost var s := begin[ptr..];
      if ptr == |begin| {
        return if st.WDel? then Done else Fail(UnexpectedEnd);
      }
      var c := begin[ptr];
      assert s[0] == c && s[1..] == begin[ptr + 1..];
      if !st.WGt? && IsSpace(c) {
        t := Go(st);
      } else if st.WEq? && c == '=' {
        t := Go(WGt);
      } else if st.WGt? && c == '>' {
        t := Go(WVal);
      } else if st.WDel? && c == ',' {
        t := Go(WKey);
      } else {
        return Fail(SyntaxError(begin[ptr..]));
      }
      ptr := ptr + 1;
    }

    /** parse_hstore: reads all pairs, or reports the error. */
    method ParsePairs() returns (e: Option<ParseError>)
      requires Valid() && ptr == 0 && pcur == 0
      modifies this, pairs
      ensures e.None? ==> pcur <= pairs.Length && Parse(begin) == Ok(pairs[..pcur])
      ensures e.Some? ==> Parse(begin) == Err(e.value)
    {
      ghost var whole, key := Parse(begin), "";
      var st := WKey;
      assert begin[0..] == begin && pairs[..0] == [];
      assert Parsing(whole, st, key);
      hide *;
      while true
        invariant Parsing(whole, st, key) && (pairs == old(pairs) || fresh(pairs))
        invariant ptr <= |begin|
        decreases |begin| - ptr
      {
        var t;
        if st.WKey? {
          t, key := KeyTurn(whole, key);
        } else if st.WVal? {
          t := ValTurn(whole, key);
        } else {
          t := CharTurn(st, whole, key);
        }
        if t.Done? {
          return None;
        }
        if t.Fail? {
          return Some(t.error);
        }
        st := t.st;
      }
    }
  }

  /** One turn of get_val at a position of the text. */
  lemma {:induction false} ScanStep(text: string, ptr: nat, ignoreeq: bool, st: St, word: string, escaped: bool)
    requires ptr <= |text|
    ensures var s := text[ptr..];
            var c := if ptr < |text| then Some(text[ptr]) else None;
            Scanned(s, ignoreeq, st, word, escaped) ==
            match Step(st, c, ignoreeq)
            case NoValue => NoWord
            case EndError => Bad(UnexpectedEnd)
            case EqualsError => Bad(SyntaxError(s))
            case Stop(back) => Got(word, escaped, if back then s else text[ptr + 1..])
            case Move(st', put, quote) =>
              Scanned(text[ptr + 1..], ignoreeq, st', if put then word + [text[ptr]] else word, escaped || quote)
  {
    var s := text[ptr..];
    if ptr < |text| {
      assert s[1..] == text[ptr + 1..] && s[0] == text[ptr];
    }
  }

  /** What hstore_in may answer: which of several pairs with one key survives is
      not promised. */
  ghost predicate InAnswers(text: string, r: Outcome<HStore>) {
    match Parse(text)
    case Err(e) => r == Err(e)
    case Ok(prs) =>
      exists u :: Deduplicates(prs, u) &&
                  r == if CalcDataSize(|u|, |Str(Abs(u))|) <= MAX_ALLOC then Ok(Pack(Abs(u))) else Err(TooLarge)
  }

  /** hstore_in; a C string has no NUL. */
  method HstoreIn(text: string) returns (r: Outcome<HStore>)
    requires '\0' !in text
    ensures InAnswers(text, r)
  {
    hide Parse, Str;
    var p := new HSParser(text);
    var e := p.ParsePairs();
    if e.Some? {
      return Err(e.value);
    }
    var prs := p.pairs[..p.pcur];
    var arr := new Pairs[|prs|](i requires 0 <= i < |prs| => prs[i]);
    assert arr[..] == prs;
    var n, buflen := UniquePairs(arr);
    var d := HstorePairs(arr[..n], buflen);
    r := if d.Some? then Ok(d.value) else Err(TooLarge);
    assert Deduplicates(prs, arr[..n]);
  }

  // ----- the round trip -----

  ghost predicate NoNul(ps: seq<Pair>) {
    forall i :: 0 <= i < |ps| ==> '\0' !in ps[i].key && '\0' !in ValBytes(ps[i].val)
  }

  lemma {:induction false} QuoteNoNul(s: string)
    ensures '\0' in Quote(s) <==> '\0' in s
  {
    if s != "" {
      QuoteNoNul(s[1..]);
      assert s == [s[0]] + s[1..];
    }
  }

  /** The text is a C string exactly when no key or value has a NUL. */
  lemma {:induction false} PrintNoNul(ps: seq<Pair>, i: nat)
    requires i <= |ps|
    ensures '\0' !in PrintFrom(ps, i) <==> NoNul(ps[i..])
    decreases |ps| - i
  {
    if i < |ps| {
      assert ps[i..] == [ps[i]] + ps[i + 1..];
      hide *;
      PrintNoNul(ps, i + 1);
      PairNoNul(ps[i]);
      PrintSplits(ps, i);
      InParts(PrintPair(ps[i]), Separator(ps, i), PrintFrom(ps, i + 1));
      NoNulCons(ps[i], ps[i + 1..]);
    }
  }

  lemma {:induction false} PrintSplits(ps: seq<Pair>, i: nat)
    requires i < |ps|
    ensures PrintFrom(ps, i) == PrintPair(ps[i]) + (Separator(ps, i) + PrintFrom(ps, i + 1))
    ensures '\0' !in Separator(ps, i)
  {
    hide PrintPair;
  }

  lemma {:induction false} InParts(a: string, b: string, c: string)
    ensures '\0' in a + (b + c) <==> '\0' in a || '\0' in b || '\0' in c
  {
  }

  lemma {:induction false} PairNoNul(p: Pair)
    ensures '\0' !in PrintPair(p) <==> '\0' !in p.key && '\0' !in ValBytes(p.val)
  {
    QuoteNoNul(p.key);
    QuoteNoNul(ValBytes(p.val));
    hide Quote;
  }

  lemma {:induction false} NoNulCons(p: Pair, ps: seq<Pair>)
    ensures NoNul([p] + ps) <==> '\0' !in p.key && '\0' !in ValBytes(p.val) && NoNul(ps)
  {
    var qs := [p] + ps;
    if NoNul(qs) {
      assert qs[0] == p;
      assert forall i :: 0 <= i < |ps| ==> qs[i + 1] == ps[i];
    }
  }

  /** Deduplicating a list without duplicates changes nothing. */
  lemma {:induction false} NothingToDrop(s: seq<Pairs>, u: seq<Pairs>)
    requires Canonical(Abs(s)) && Deduplicates(s, u)
    ensures Abs(u) == Abs(s)
  {
    KeysOf(s);
    KeysOf(u);
    hide ToMap, Canonical, Keys;
    forall k | k in ToMap(Abs(u))
      ensures k in ToMap(Abs(s)) && ToMap(Abs(u))[k] == ToMap(Abs(s))[k]
    {
      var i := KeyIndex(Abs(u), k);
      assert u[i] in Elems(u) && u[i] in s;
      var j :| 0 <= j < |s| && s[j] == u[i];
      CanonicalLookup(Abs(s), j);
    }
    CanonicalUnique(Abs(u), Abs(s));
  }

  lemma {:induction false} ShortStored(hs: HStore, ps: seq<Pair>)
    requires Stores(hs, ps)
    ensures Short(ps)
  {
    StoredSize(hs, ps);
    forall i | 0 <= i < |ps|
      ensures |ps[i].key| <= MAX_LEN && |ValBytes(ps[i].val)| <= MAX_LEN
    {
      BytesAt(ps, i);
    }
  }

  /** Whatever hstore_in answers for the text hstore_out prints is the packed form
      of the printed pairs; for a datum without slack, that datum byte for byte. */
  lemma {:induction false} RoundTrip(hs: HStore, r: Outcome<HStore>)
    requires WellFormed(hs) && NoNul(View(hs))
    requires InAnswers(Print(View(hs)), r)
    ensures '\0' !in Print(View(hs)) && r == Ok(Pack(View(hs)))
    ensures Exact(hs) ==> r == Ok(hs)
  {
    var ps := View(hs);
    assert ps[0..] == ps;
    PrintNoNul(ps, 0);
    ShortStored(hs, ps);
    ParsePrinted(ps);
    var prs := ReadAll(ps);
    assert Canonical(ps) && VarSize(hs) <= MAX_ALLOC;
    StoredSize(hs, ps);
    PackLen(ps);
    var u :| Deduplicates(prs, u) &&
             r == if CalcDataSize(|u|, |Str(Abs(u))|) <= MAX_ALLOC then Ok(Pack(Abs(u))) else Err(TooLarge);
    NothingToDrop(prs, u);
  }

  /** hstore_out and then hstore_in: unless the text is too long to be allocated,
      the packed form of its pairs comes back. */
  method PrintAndRead(hs: HStore) returns (text: Option<string>, back: Outcome<HStore>)
    requires WellFormed(hs) && NoNul(View(hs))
    ensures text.Some? <==> View(hs) == [] || BufFrom(View(hs), 0) <= MAX_ALLOC
    ensures text.Some? ==> back == Ok(Pack(View(hs))) && (Exact(hs) ==> back == Ok(hs))
  {
    hide Exact, NoNul, BufFrom, Parse, Str, Pack;
    text := HstoreOut(hs);
    back := Err(TooLarge);
    if text.Some? {
      assert '\0' !in text.value by {
        PrintedIsCString(hs);
      }
      back := HstoreIn(text.value);
      RoundTrip(hs, back);
    }
  }

  lemma {:induction false} PrintedIsCString(hs: HStore)
    requires WellFormed(hs) && NoNul(View(hs))
    ensures '\0' !in Print(View(hs))
  {
    assert View(hs)[0..] == View(hs);
    PrintNoNul(View(hs), 0);
  }

  lemma {:induction false} PackLen(ps: seq<Pair>)
    ensures VarSize(Pack(ps)) == CalcDataSize(|ps|, |Str(ps)|)
  {
  }
}
