/** The order and the hash of data (hstore_cmp, hstore_hash). */
module HStoreOrder {
  import opened Prelude
  import opened HStoreCore
  import opened Lexicographic

  // ----- the rank of a datum -----

  /** The bytes, each raised by one so that 0 marks the end. */
  function Codes(s: string): (r: seq<int>)
    ensures |r| == |s| && forall i :: 0 <= i < |s| ==> r[i] == s[i] as int + 1
  {
    seq(|s|, i requires 0 <= i < |s| => s[i] as int + 1)
  }

  function WordCode(w: Word): int {
    2 * EndPos(w) + if IsNull(w) then 1 else 0
  }

  function EntryCodes(es: seq<Entry>): seq<int> {
    if es == [] then [] else [WordCode(es[0].kw), WordCode(es[0].vw)] + EntryCodes(es[1..])
  }

  /** The bytes in use. */
  function Used(hs: HStore): string
    requires hs.ents != [] && EndPos(hs.ents[|hs.ents| - 1].vw) <= |hs.bytes|
  {
    hs.bytes[..EndPos(hs.ents[|hs.ents| - 1].vw)]
  }

  /** What hstore_cmp compares, in order: the bytes, the number of pairs, and
      the end position and null flag of every entry. */
  function Rank(hs: HStore): seq<int>
    requires hs.ents != [] ==> EndPos(hs.ents[|hs.ents| - 1].vw) <= |hs.bytes|
  {
    if hs.ents == [] then [] else Codes(Used(hs)) + ([0] + ([|hs.ents|] + EntryCodes(hs.ents)))
  }

  lemma {:induction false} UsedIs(hs: HStore)
    requires WellFormed(hs)
    ensures |hs.ents| == |View(hs)|
    ensures hs.ents != [] ==> EndPos(hs.ents[|hs.ents| - 1].vw) <= |hs.bytes| && Used(hs) == Str(View(hs))
  {
    LastEnd(hs, View(hs));
  }

  /** memcmp on the common length, then the lengths, then what follows. */
  lemma {:induction false} LexStrings(s: string, t: string, x: seq<int>, y: seq<int>)
    ensures var n := if |s| < |t| then |s| else |t|;
            var c := MemCmp(s[..n], t[..n]);
            LexCmp(Codes(s) + ([0] + x), Codes(t) + ([0] + y)) ==
            if c != 0 then c else if |s| > |t| then 1 else if |s| < |t| then -1 else LexCmp(x, y)
    decreases |s|
  {
    var a, b := Codes(s) + ([0] + x), Codes(t) + ([0] + y);
    if s == [] || t == [] {
      if s == t {
        assert a == [0] + x && b == [0] + y;
        LexHead(0, x, y);
      }
    } else if s[0] == t[0] {
      assert a[1..] == Codes(s[1..]) + ([0] + x) && b[1..] == Codes(t[1..]) + ([0] + y);
      LexStrings(s[1..], t[1..], x, y);
      TailSlices(s, t);
    }
  }

  lemma {:induction false} TailSlices(s: string, t: string)
    requires s != [] && t != []
    ensures var n := if |s| < |t| then |s| else |t|;
            s[..n][1..] == s[1..][..n - 1] && t[..n][1..] == t[1..][..n - 1]
  {
  }

  /** The lexicographic order of ranks. */
  ghost function Order(hs1: HStore, hs2: HStore): int
    requires WellFormed(hs1) && WellFormed(hs2)
  {
    UsedIs(hs1);
    UsedIs(hs2);
    LexCmp(Rank(hs1), Rank(hs2))
  }

  /** hstore_cmp */
  method Cmp(hs1: HStore, hs2: HStore) returns (res: int)
    requires WellFormed(hs1) && WellFormed(hs2)
    ensures res == Order(hs1, hs2)
  {
    UsedIs(hs1);
    UsedIs(hs2);
    var hcount1, hcount2 := |hs1.ents|, |hs2.ents|;
    if hcount1 == 0 || hcount2 == 0 {
      return if hcount1 > 0 then 1 else if hcount2 > 0 then -1 else 0;
    }
    var str1, str2 := Used(hs1), Used(hs2);
    var n := if |str1| < |str2| then |str1| else |str2|;
    res := MemCmp(str1[..n], str2[..n]);
    LexStrings(str1, str2, [hcount1] + EntryCodes(hs1.ents), [hcount2] + EntryCodes(hs2.ents));
    if hcount1 == hcount2 {
      LexHead(hcount1, EntryCodes(hs1.ents), EntryCodes(hs2.ents));
    }
    hide Codes, EntryCodes, Used, WellFormed;
    if res == 0 {
      if |str1| > |str2| {
        res := 1;
      } else if |str1| < |str2| {
        res := -1;
      } else if hcount1 > hcount2 {
        res := 1;
      } else if hcount2 > hcount1 {
        res := -1;
      } else {
        res := CmpEntries(hs1.ents, hs2.ents);
      }
    }
  }

  /** The loop of hstore_cmp over the entry words. */
  method CmpEntries(e1: seq<Entry>, e2: seq<Entry>) returns (res: int)
    requires |e1| == |e2|
    ensures res == LexCmp(EntryCodes(e1), EntryCodes(e2))
  {
    var i := 0;
    assert e1[0..] == e1 && e2[0..] == e2;
    while i < |e1|
      invariant 0 <= i <= |e1|
      invariant LexCmp(EntryCodes(e1), EntryCodes(e2)) == LexCmp(EntryCodes(e1[i..]), EntryCodes(e2[i..]))
    {
      FirstEntry(e1[i..], e2[i..]);
      assert e1[i..][1..] == e1[i + 1..] && e2[i..][1..] == e2[i + 1..];
      hide LexCmp, EntryCodes, WordCode;
      if Differ(e1[i].kw, e2[i].kw) {
        res := CmpWords(e1[i].kw, e2[i].kw);
        return;
      }
      if Differ(e1[i].vw, e2[i].vw) {
        res := CmpWords(e1[i].vw, e2[i].vw);
        return;
      }
      SameCode(e1[i].kw, e2[i].kw);
      SameCode(e1[i].vw, e2[i].vw);
      i := i + 1;
    }
    res := 0;
  }

  predicate Differ(w1: Word, w2: Word) {
    EndPos(w1) != EndPos(w2) || IsNull(w1) != IsNull(w2)
  }

  lemma {:induction false} SameCode(w1: Word, w2: Word)
    ensures Differ(w1, w2) <==> WordCode(w1) != WordCode(w2)
  {
    hide EndPos, IsNull;
  }

  /** How two different words compare. */
  method CmpWords(w1: Word, w2: Word) returns (res: int)
    requires Differ(w1, w2)
    ensures WordCode(w1) != WordCode(w2) && res == if WordCode(w1) < WordCode(w2) then -1 else 1
  {
    hide EndPos, IsNull;
    res := 0;
    if EndPos(w1) < EndPos(w2) {
      res := -1;
    } else if EndPos(w1) > EndPos(w2) {
      res := 1;
    } else if IsNull(w1) {
      res := 1;
    } else if IsNull(w2) {
      res := -1;
    }
  }

  lemma {:induction false} FirstEntry(e1: seq<Entry>, e2: seq<Entry>)
    requires e1 != [] && e2 != []
    ensures var k1, k2, v1, v2 := WordCode(e1[0].kw), WordCode(e2[0].kw), WordCode(e1[0].vw), WordCode(e2[0].vw);
            LexCmp(EntryCodes(e1), EntryCodes(e2)) ==
            if k1 != k2 then if k1 < k2 then -1 else 1
            else if v1 != v2 then if v1 < v2 then -1 else 1
            else LexCmp(EntryCodes(e1[1..]), EntryCodes(e2[1..]))
  {
    var k1, k2, v1, v2 := WordCode(e1[0].kw), WordCode(e2[0].kw), WordCode(e1[0].vw), WordCode(e2[0].vw);
    var t1, t2 := EntryCodes(e1[1..]), EntryCodes(e2[1..]);
    assert EntryCodes(e1) == [k1] + ([v1] + t1) && EntryCodes(e2) == [k2] + ([v2] + t2);
    hide EntryCodes, WordCode;
    if k1 == k2 {
      LexHead(k1, [v1] + t1, [v2] + t2);
      if v1 == v2 {
        LexHead(v1, t1, t2);
      }
    }
  }

  // ----- the direction of the order -----

  /** The entry words in order: key and value of every pair. */
  function WordAt(es: seq<Entry>, j: nat): Word
    requires j < 2 * |es|
  {
    if j % 2 == 0 then es[j / 2].kw else es[j / 2].vw
  }

  /** The smaller end position comes first, and then what is not null. */
  predicate WordBefore(w1: Word, w2: Word) {
    EndPos(w1) < EndPos(w2) || (EndPos(w1) == EndPos(w2) && !IsNull(w1) && IsNull(w2))
  }

  predicate SmallerAt(s: string, t: string, k: nat) {
    k < |s| && k < |t| && s[..k] == t[..k] && s[k] < t[k]
  }

  predicate WordsSmallerAt(e1: seq<Entry>, e2: seq<Entry>, j: nat)
    requires |e1| == |e2|
  {
    && j < 2 * |e1| && WordBefore(WordAt(e1, j), WordAt(e2, j))
    && forall i: nat :: i < j ==> !Differ(WordAt(e1, i), WordAt(e2, i))
  }

  /** When a datum comes before another: an empty one before all others; then the
      concatenated bytes of keys and values decide, a prefix coming first, then the
      number of pairs, and last the first entry word that differs. */
  ghost predicate Before(a: HStore, b: HStore)
    requires WellFormed(a) && WellFormed(b)
  {
    var s, t := Str(View(a)), Str(View(b));
    && b.ents != []
    && (|| a.ents == []
        || (exists k :: SmallerAt(s, t, k))
        || s < t
        || (s == t && |a.ents| < |b.ents|)
        || (s == t && |a.ents| == |b.ents| && exists j :: WordsSmallerAt(a.ents, b.ents, j)))
  }

  lemma {:induction false} CodesAt(s: string, t: string, k: nat, x: seq<int>, y: seq<int>)
    requires SmallerAt(s, t, k)
    ensures LexCmp(Codes(s) + ([0] + x), Codes(t) + ([0] + y)) == -1
  {
    var a, b := Codes(s) + ([0] + x), Codes(t) + ([0] + y);
    assert a[..k] == b[..k] by {
      assert forall i :: 0 <= i < k ==> s[..k][i] == t[..k][i];
    }
    LexDiffers(a, b, k);
  }

  lemma {:induction false} CodesPrefix(s: string, t: string, x: seq<int>, y: seq<int>)
    requires s < t
    ensures LexCmp(Codes(s) + ([0] + x), Codes(t) + ([0] + y)) == -1
  {
    var a, b, k := Codes(s) + ([0] + x), Codes(t) + ([0] + y), |s|;
    assert a[..k] == b[..k];
    LexDiffers(a, b, k);
  }

  lemma {:induction false} CodesEqual(s: string, n: int, m: int, x: seq<int>, y: seq<int>)
    ensures n < m ==> LexCmp(Codes(s) + ([0] + ([n] + x)), Codes(s) + ([0] + ([m] + y))) == -1
    ensures n == m ==> LexCmp(Codes(s) + ([0] + ([n] + x)), Codes(s) + ([0] + ([m] + y))) == LexCmp(x, y)
  {
    LexStrings(s, s, [n] + x, [m] + y);
    if n == m {
      LexHead(n, x, y);
    }
  }

  lemma {:induction false} CodeAt(es: seq<Entry>, j: nat)
    requires j < 2 * |es|
    ensures |EntryCodes(es)| == 2 * |es| && EntryCodes(es)[j] == WordCode(WordAt(es, j))
  {
    EntryCodesLen(es);
    hide WordCode;
    if j >= 2 {
      CodeAt(es[1..], j - 2);
      assert EntryCodes(es)[2..] == EntryCodes(es[1..]);
    }
  }

  lemma {:induction false} WordsAt(e1: seq<Entry>, e2: seq<Entry>, j: nat)
    requires |e1| == |e2| && WordsSmallerAt(e1, e2, j)
    ensures LexCmp(EntryCodes(e1), EntryCodes(e2)) == -1
  {
    var x, y := EntryCodes(e1), EntryCodes(e2);
    CodeAt(e1, j);
    CodeAt(e2, j);
    hide EntryCodes, WordAt;
    forall i | 0 <= i < j
      ensures x[i] == y[i]
    {
      CodeAt(e1, i);
      CodeAt(e2, i);
      SameCode(WordAt(e1, i), WordAt(e2, i));
    }
    assert x[..j] == y[..j];
    LexDiffers(x, y, j);
  }

  /** The first entry word that differs. */
  lemma {:induction false} FirstWord(e1: seq<Entry>, e2: seq<Entry>, j: nat) returns (k: nat)
    requires |e1| == |e2| && j <= 2 * |e1| && forall i: nat :: i < j ==> !Differ(WordAt(e1, i), WordAt(e2, i))
    ensures k <= 2 * |e1| && forall i: nat :: i < k ==> !Differ(WordAt(e1, i), WordAt(e2, i))
    ensures k < 2 * |e1| ==> Differ(WordAt(e1, k), WordAt(e2, k))
    decreases 2 * |e1| - j
  {
    hide Differ, WordAt;
    if j == 2 * |e1| || Differ(WordAt(e1, j), WordAt(e2, j)) {
      k := j;
    } else {
      k := FirstWord(e1, e2, j + 1);
    }
  }

  lemma {:induction false} BeforeIsLess(a: HStore, b: HStore)
    requires WellFormed(a) && WellFormed(b) && Before(a, b)
    ensures Order(a, b) == -1
  {
    UsedIs(a);
    UsedIs(b);
    var s, t := Str(View(a)), Str(View(b));
    hide WellFormed, Used, EntryCodes, Codes, WordsSmallerAt, SmallerAt, Str;
    if a.ents != [] {
      var x, y := EntryCodes(a.ents), EntryCodes(b.ents);
      if k :| SmallerAt(s, t, k) {
        CodesAt(s, t, k, [|a.ents|] + x, [|b.ents|] + y);
      } else if s < t {
        CodesPrefix(s, t, [|a.ents|] + x, [|b.ents|] + y);
      } else {
        CodesEqual(s, |a.ents|, |b.ents|, x, y);
        if |a.ents| == |b.ents| {
          var j :| WordsSmallerAt(a.ents, b.ents, j);
          WordsAt(a.ents, b.ents, j);
        }
      }
    }
  }

  lemma {:induction false} StringsDecide(s: string, t: string)
    ensures (exists k :: SmallerAt(s, t, k)) || (exists k :: SmallerAt(t, s, k)) || s < t || t < s || s == t
  {
    var k := FirstDifference(s, t);
    assert k < |s| && k < |t| ==> SmallerAt(s, t, k) || SmallerAt(t, s, k);
    assert s[..|s|] == s && t[..|t|] == t;
  }

  lemma {:induction false} WordsDecide(e1: seq<Entry>, e2: seq<Entry>)
    requires |e1| == |e2|
    ensures (exists j :: WordsSmallerAt(e1, e2, j)) || (exists j :: WordsSmallerAt(e2, e1, j))
            || EntryCodes(e1) == EntryCodes(e2)
  {
    var j := FirstWord(e1, e2, 0);
    if j < 2 * |e1| {
      assert WordsSmallerAt(e1, e2, j) || WordsSmallerAt(e2, e1, j);
    } else {
      EntryCodesLen(e1);
      EntryCodesLen(e2);
      hide EntryCodes, WordAt;
      forall i | 0 <= i < j
        ensures EntryCodes(e1)[i] == EntryCodes(e2)[i]
      {
        CodeAt(e1, i);
        CodeAt(e2, i);
        SameCode(WordAt(e1, i), WordAt(e2, i));
      }
    }
  }

  /** Of two data one comes before the other, or they compare as equal. */
  lemma {:induction false} BeforeTotal(a: HStore, b: HStore)
    requires WellFormed(a) && WellFormed(b) && !Before(a, b) && !Before(b, a)
    ensures Order(a, b) == 0
  {
    UsedIs(a);
    UsedIs(b);
    StringsDecide(Str(View(a)), Str(View(b)));
    hide WellFormed, Used, EntryCodes, Codes, WordsSmallerAt, SmallerAt, Str, LexCmp;
    if a.ents != [] && b.ents != [] {
      WordsDecide(a.ents, b.ents);
    }
  }

  /** hstore_cmp is negative exactly when the first datum comes before the second. */
  lemma {:induction false} OrderIsBefore(a: HStore, b: HStore)
    requires WellFormed(a) && WellFormed(b)
    ensures Order(a, b) == -1 <==> Before(a, b)
    ensures Order(a, b) == 1 <==> Before(b, a)
  {
    TotalOrder(a, b, a);
    hide *;
    if Before(a, b) {
      BeforeIsLess(a, b);
    } else if Before(b, a) {
      BeforeIsLess(b, a);
    } else {
      BeforeTotal(a, b);
    }
    OrderRange(a, b);
    if Before(b, a) {
      BeforeIsLess(b, a);
    }
  }

  lemma {:induction false} OrderRange(a: HStore, b: HStore)
    requires WellFormed(a) && WellFormed(b)
    ensures -1 <= Order(a, b) <= 1
  {
  }

  // ----- what the order means -----

  /** A total order ... */
  lemma {:induction false} TotalOrder(a: HStore, b: HStore, c: HStore)
    requires WellFormed(a) && WellFormed(b) && WellFormed(c)
    ensures Order(a, a) == 0 && Order(a, b) == -Order(b, a)
    ensures Order(a, b) <= 0 && Order(b, c) <= 0 ==> Order(a, c) <= 0
  {
    UsedIs(a);
    UsedIs(b);
    UsedIs(c);
    hide WellFormed, Rank;
    LexFlip(Rank(a), Rank(b));
    if Order(a, b) <= 0 && Order(b, c) <= 0 {
      LexTrans(Rank(a), Rank(b), Rank(c));
    }
  }

  lemma {:induction false} EntryCodesLen(es: seq<Entry>)
    ensures |EntryCodes(es)| == 2 * |es|
  {
    if es != [] {
      EntryCodesLen(es[1..]);
    }
  }

  /** Words with the same code differ at most in the mark of the first word. */
  lemma {:induction false} SameWord(w1: Word, w2: Word)
    requires WordCode(w1) == WordCode(w2) && (IsFirst(w1) <==> IsFirst(w2))
    ensures w1 == w2
  {
  }

  lemma {:induction false} SameEntries(e1: seq<Entry>, e2: seq<Entry>)
    requires EntryCodes(e1) == EntryCodes(e2) && |e1| == |e2|
    requires forall i :: 0 <= i < |e1| ==>
      (IsFirst(e1[i].kw) <==> IsFirst(e2[i].kw)) && (IsFirst(e1[i].vw) <==> IsFirst(e2[i].vw))
    ensures e1 == e2
  {
    if e1 != [] {
      var t1, t2 := EntryCodes(e1[1..]), EntryCodes(e2[1..]);
      var h1, h2 := EntryCodes(e1), EntryCodes(e2);
      assert h1[0] == h2[0] && h1[1] == h2[1];
      assert h1[2..] == t1 && h2[2..] == t2;
      hide EntryCodes, WordCode, IsFirst;
      SameWord(e1[0].kw, e2[0].kw);
      SameWord(e1[0].vw, e2[0].vw);
      SameEntries(e1[1..], e2[1..]);
      assert e1 == [e1[0]] + e1[1..] && e2 == [e2[0]] + e2[1..];
    }
  }

  lemma {:induction false} FirstMarks(hs: HStore, ps: seq<Pair>)
    requires Stores(hs, ps)
    ensures forall i :: 0 <= i < |hs.ents| ==> (IsFirst(hs.ents[i].kw) <==> i == 0) && !IsFirst(hs.ents[i].vw)
  {
    StoredSize(hs, ps);
    forall i | 0 <= i < |hs.ents|
      ensures (IsFirst(hs.ents[i].kw) <==> i == 0) && !IsFirst(hs.ents[i].vw)
    {
      EntryAt(ps, i);
    }
  }

  /** Equal ranks come from equal bytes and equal entries. */
  lemma {:induction false} SplitRank(s: string, n: int, es: seq<int>, t: string, m: int, fs: seq<int>)
    requires Codes(s) + ([0] + ([n] + es)) == Codes(t) + ([0] + ([m] + fs))
    ensures s == t && n == m && es == fs
  {
    var x, y := [n] + es, [m] + fs;
    LexStrings(s, t, x, y);
    hide Codes;
    var k := if |s| < |t| then |s| else |t|;
    assert s[..|s|] == s && t[..|t|] == t;
    assert x == y;
    assert x[1..] == es && y[1..] == fs && x[0] == n && y[0] == m;
  }

  lemma {:induction false} SameRank(a: HStore, b: HStore)
    requires WellFormed(a) && WellFormed(b) && Order(a, b) == 0
    ensures a.ents == b.ents && Str(View(a)) == Str(View(b))
  {
    UsedIs(a);
    UsedIs(b);
    FirstMarks(a, View(a));
    FirstMarks(b, View(b));
    assert Rank(a) == Rank(b);
    if a.ents != [] && b.ents != [] {
      hide WellFormed, Used, EntryCodes, Codes, IsFirst, EndPos, LexCmp;
      SplitRank(Used(a), |a.ents|, EntryCodes(a.ents), Used(b), |b.ents|, EntryCodes(b.ents));
      SameEntries(a.ents, b.ents);
    } else {
      NoPairs(a);
      NoPairs(b);
    }
  }

  lemma {:induction false} NoPairs(a: HStore)
    requires WellFormed(a)
    ensures a.ents == [] ==> Str(View(a)) == ""
  {
    UsedIs(a);
  }

  /** ... that is zero exactly when the two denote the same mapping ... */
  lemma {:induction false} ZeroIsSameMap(a: HStore, b: HStore)
    requires WellFormed(a) && WellFormed(b)
    ensures Order(a, b) == 0 <==> MapOf(a) == MapOf(b)
  {
    if Order(a, b) == 0 {
      SameRank(a, b);
      SameStored(a, b);
    }
    if MapOf(a) == MapOf(b) {
      assert Canonical(View(a)) && Canonical(View(b));
      CanonicalUnique(View(a), View(b));
      SameViewRank(a, b);
    }
  }

  lemma {:induction false} SameStored(a: HStore, b: HStore)
    requires WellFormed(a) && WellFormed(b) && a.ents == b.ents && Str(View(a)) == Str(View(b))
    ensures View(a) == View(b) && MapOf(a) == MapOf(b)
  {
    assert Stores(b, View(b));
    assert Stores(b.(bytes := Str(View(b))), View(b)) && Stores(b.(bytes := Str(View(b))), View(a)) by {
      TrimStores(a, View(a));
      TrimStores(b, View(b));
    }
    hide *;
    ViewUnique(b.(bytes := Str(View(b))), View(a), View(b));
    assert MapOf(a) == MapOf(b) by { SameMap(a, b); }
  }

  lemma {:induction false} SameMap(a: HStore, b: HStore)
    requires WellFormed(a) && WellFormed(b) && View(a) == View(b)
    ensures MapOf(a) == MapOf(b)
  {
  }

  lemma {:induction false} TrimStores(hs: HStore, ps: seq<Pair>)
    requires Stores(hs, ps)
    ensures hs.newFormat && Stores(hs.(bytes := Str(ps)), ps)
  {
    hide Str;
  }

  lemma {:induction false} SameViewRank(a: HStore, b: HStore)
    requires WellFormed(a) && WellFormed(b) && View(a) == View(b)
    ensures Order(a, b) == 0
  {
    UsedIs(a);
    UsedIs(b);
    assert a.ents == b.ents;
  }

  /** ... and then the same bytes are hashed: hstore_hash reads the flag and
      count, the entries and the bytes, which is the whole datum. */
  lemma {:induction false} EqualHashEqual(a: HStore, b: HStore)
    requires WellFormed(a) && WellFormed(b) && Exact(a) && Exact(b)
    ensures Order(a, b) == 0 <==> a == b
  {
    if Order(a, b) == 0 {
      SameRank(a, b);
      SameStored(a, b);
    }
  }
}
