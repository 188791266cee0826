/** Reading data of older formats: the validity tests of both formats and the
    conversion in place (hstore_compat.c). */
module HStoreUpgrade {
  import opened Prelude
  import opened HStoreCore

  const FLAG_NEWVERSION := 0x8000_0000
  const COUNT_LIMIT := 0x1000_0000
  const FAST_LIMIT := 32768

  // ----- old entries -----

  /** The fields of an old entry over the two words of a new one: key and value
      length in the halves of the first word, null flag and position in the
      second. */
  function OldKeyLen(e: Entry): nat {
    e.kw % 0x1_0000
  }

  function OldValLen(e: Entry): nat {
    e.kw / 0x1_0000
  }

  predicate OldIsNull(e: Entry) {
    e.vw % 2 == 1
  }

  function OldPos(e: Entry): nat {
    e.vw / 2
  }

  /** The bytes an old entry takes: a null value has none. */
  function OldLen(e: Entry): nat {
    OldKeyLen(e) + if OldIsNull(e) then 0 else OldValLen(e)
  }

  function OldEnd(es: seq<Entry>): nat {
    if es == [] then 0 else OldEnd(es[..|es| - 1]) + OldLen(es[|es| - 1])
  }

  /** Entries follow each other without gaps. */
  ghost predicate Contiguous(es: seq<Entry>) {
    forall i :: 0 <= i < |es| ==> OldPos(es[i]) == OldEnd(es[..i])
  }

  ghost predicate OldKeysGrow(es: seq<Entry>) {
    forall i :: 1 <= i < |es| ==> OldKeyLen(es[i - 1]) <= OldKeyLen(es[i])
  }

  function OldPair(e: Entry, bytes: string): Pair
    requires OldPos(e) + OldLen(e) <= |bytes|
  {
    var mid := OldPos(e) + OldKeyLen(e);
    Pair(bytes[OldPos(e)..mid], if OldIsNull(e) then None else Some(bytes[mid..mid + OldValLen(e)]))
  }

  ghost predicate Fits(es: seq<Entry>, bytes: string) {
    forall i :: 0 <= i < |es| ==> OldPos(es[i]) + OldLen(es[i]) <= |bytes|
  }

  lemma {:induction false} FieldRange(e: Entry)
    ensures OldPos(e) < 0x8000_0000 && OldLen(e) < 0x2_0000
  {
  }

  /** What an old value denotes. */
  ghost function OldPairs(es: seq<Entry>, bytes: string): (ps: seq<Pair>)
    requires Fits(es, bytes)
    ensures |ps| == |es| && forall i :: 0 <= i < |es| ==> ps[i] == OldPair(es[i], bytes)
  {
    seq(|es|, i requires 0 <= i < |es| => OldPair(es[i], bytes))
  }

  lemma {:induction false} OldEndTake(es: seq<Entry>, i: nat)
    requires i < |es|
    ensures OldEnd(es[..i + 1]) == OldEnd(es[..i]) + OldLen(es[i]) <= OldEnd(es)
    decreases |es|
  {
    var n := |es| - 1;
    if i < n {
      OldEndTake(es[..n], i);
      assert es[..n][..i] == es[..i] && es[..n][..i + 1] == es[..i + 1];
    } else {
      assert es[..n + 1] == es;
    }
  }

  lemma {:induction false} ContiguousFits(es: seq<Entry>, bytes: string)
    requires Contiguous(es) && OldEnd(es) <= |bytes|
    ensures Fits(es, bytes)
  {
    forall i | 0 <= i < |es|
      ensures OldPos(es[i]) + OldLen(es[i]) <= |bytes|
    {
      OldEndTake(es, i);
    }
  }

  /** The bytes of the old pairs are the bytes of the value, in place. */
  lemma {:induction false} OldBytes(es: seq<Entry>, bytes: string, i: nat)
    requires Contiguous(es) && OldEnd(es) <= |bytes| && Fits(es, bytes) && i <= |es|
    ensures OldEnd(es[..i]) <= |bytes| && Str(OldPairs(es, bytes)[..i]) == bytes[..OldEnd(es[..i])]
  {
    var ps := OldPairs(es, bytes);
    if i == 0 {
      assert ps[..0] == [] && es[..0] == [];
    } else {
      var k := i - 1;
      OldBytes(es, bytes, k);
      OldEndTake(es, k);
      assert OldPos(es[k]) == OldEnd(es[..k]) && ps[k] == OldPair(es[k], bytes);
      assert OldPos(es[k]) + OldLen(es[k]) <= |bytes|;
      hide *;
      NextBytes(ps, es[k], bytes, k);
    }
  }

  lemma {:induction false} NextBytes(ps: seq<Pair>, e: Entry, bytes: string, k: nat)
    requires k < |ps| && OldPos(e) + OldLen(e) <= |bytes| && ps[k] == OldPair(e, bytes)
    requires Str(ps[..k]) == bytes[..OldPos(e)]
    ensures Str(ps[..k + 1]) == bytes[..OldPos(e) + OldLen(e)]
  {
    hide *;
    OldPairBytes(e, bytes);
    assert ps[..k + 1] == ps[..k] + [ps[k]];
    StrPush(ps[..k], ps[k]);
  }

  lemma {:induction false} OldPairBytes(e: Entry, bytes: string)
    requires OldPos(e) + OldLen(e) <= |bytes|
    ensures var pos, end := OldPos(e), OldPos(e) + OldLen(e);
            bytes[..pos] + PairBytes(OldPair(e, bytes)) == bytes[..end]
    ensures |OldPair(e, bytes).key| == OldKeyLen(e) && (OldPair(e, bytes).val.None? <==> OldIsNull(e))
  {
    hide OldPos, OldKeyLen, OldValLen, OldIsNull;
  }

  // ----- the new entry of an old one -----

  /** What the conversion writes over an old entry. */
  function Converted(e: Entry): Entry {
    Entry(MakeEntry(OldPos(e) + OldKeyLen(e), false), MakeEntry(OldPos(e) + OldLen(e), OldIsNull(e)))
  }

  lemma {:induction false} ConvertedIs(es: seq<Entry>, bytes: string, i: nat)
    requires Contiguous(es) && OldEnd(es) <= |bytes| && Fits(es, bytes) && i < |es|
    ensures Converted(es[i]) == EntryOf(OldPairs(es, bytes), i)
  {
    OldBytes(es, bytes, i);
    OldBytes(es, bytes, i + 1);
    OldEndTake(es, i);
    assert OldPos(es[i]) == OldEnd(es[..i]);
    OldPairBytes(es[i], bytes);
    var ps := OldPairs(es, bytes);
    assert |Str(ps[..i])| == OldPos(es[i]) && |Str(ps[..i + 1])| == OldPos(es[i]) + OldLen(es[i]);
    assert ps[i] == OldPair(es[i], bytes);
    hide *;
    SameEntry(ps, i, es[i]);
  }

  lemma {:induction false} SameEntry(ps: seq<Pair>, i: nat, e: Entry)
    requires i < |ps| && |Str(ps[..i])| == OldPos(e) && |Str(ps[..i + 1])| == OldPos(e) + OldLen(e)
    requires |ps[i].key| == OldKeyLen(e) && (ps[i].val.None? <==> OldIsNull(e))
    ensures Converted(e) == EntryOf(ps, i)
  {
    hide Str, OldPos, OldLen, OldKeyLen, OldIsNull, MakeEntry;
  }

  lemma {:induction false} ConvertedAll(es: seq<Entry>, bytes: string, fs: seq<Entry>)
    requires Contiguous(es) && OldEnd(es) <= |bytes| && Fits(es, bytes) && |fs| == |es|
    requires forall i :: 0 <= i < |es| ==> fs[i] == Converted(es[i])
    ensures fs == Ends(OldPairs(es, bytes))
  {
    forall i | 0 <= i < |es|
      ensures fs[i] == Ends(OldPairs(es, bytes))[i]
    {
      ConvertedIs(es, bytes, i);
    }
  }

  // ----- validity of the new format -----

  /** The words of a row, the first one apart, are unmarked and do not decrease. */
  predicate RowOrdered(es: seq<Entry>, i: nat)
    requires i < |es|
  {
    && !IsFirst(es[i].vw) && EndPos(es[i].kw) <= EndPos(es[i].vw)
    && (i > 0 ==> !IsFirst(es[i].kw) && EndPos(es[i - 1].vw) <= EndPos(es[i].kw))
  }

  ghost predicate NewOrdered(es: seq<Entry>) {
    forall i :: 0 <= i < |es| ==> RowOrdered(es, i)
  }

  function NewKeyLen(es: seq<Entry>, i: nat): int
    requires i < |es|
  {
    if IsFirst(es[i].kw) || i == 0 then EndPos(es[i].kw) else EndPos(es[i].kw) - EndPos(es[i - 1].vw)
  }

  ghost predicate NewKeysGrow(es: seq<Entry>) {
    forall i :: 1 <= i < |es| ==> NewKeyLen(es, i - 1) <= NewKeyLen(es, i) && !IsNull(es[i].kw)
  }

  function LastPos(es: seq<Entry>): nat {
    if es == [] then 0 else EndPos(es[|es| - 1].vw)
  }

  /** hstoreValidNewFormat on a value without the flag: 0 is invalid, 1 valid
      with unused bytes, 2 exact. */
  ghost function NewVerdict(es: seq<Entry>, bytes: string): int {
    if es == [] then 2
    else if !IsFirst(es[0].kw) || LastPos(es) > |bytes| || !NewOrdered(es) || !NewKeysGrow(es) then 0
    else if LastPos(es) != |bytes| then 1 else 2
  }

  ghost function OldVerdict(es: seq<Entry>, bytes: string): int {
    if es == [] then 2
    else if !OldKeysGrow(es) || !Contiguous(es) || OldEnd(es) > |bytes| then 0
    else if OldEnd(es) != |bytes| then 1 else 2
  }

  /** Packing gives an exactly valid value when key lengths do not decrease. */
  lemma {:induction false} PackValid(ps: seq<Pair>)
    requires |Str(ps)| < POS_LIMIT
    requires forall i :: 1 <= i < |ps| ==> |ps[i - 1].key| <= |ps[i].key|
    ensures NewVerdict(Pack(ps).ents, Pack(ps).bytes) == 2
  {
    var es := Pack(ps).ents;
    if ps != [] {
      forall i | 0 <= i < |ps|
        ensures EntryReads(ps, es, i)
      {
        EntryRead(ps, i);
      }
      PackEnd(ps);
      assert IsFirst(es[0].kw) by { assert EntryReads(ps, es, 0); }
      assert Pack(ps).bytes == Str(ps);
      hide Str, EndPos, IsFirst, IsNull, Ends, MarkFirst, EntryReads, LastPos, Pack;
      PackOrdered(ps, es);
      PackKeys(ps, es);
    }
  }

  lemma {:induction false} PackOrdered(ps: seq<Pair>, es: seq<Entry>)
    requires |ps| == |es| && forall i :: 0 <= i < |ps| ==> EntryReads(ps, es, i)
    ensures NewOrdered(es)
  {
    hide Str, EndPos, IsFirst, IsNull;
    forall i | 0 <= i < |es|
      ensures RowOrdered(es, i)
    {
      assert EntryReads(ps, es, i);
    }
  }

  lemma {:induction false} PackKeys(ps: seq<Pair>, es: seq<Entry>)
    requires |ps| == |es| && forall i :: 0 <= i < |ps| ==> EntryReads(ps, es, i)
    requires forall i :: 1 <= i < |ps| ==> |ps[i - 1].key| <= |ps[i].key|
    ensures NewKeysGrow(es)
  {
    hide EntryReads, NewKeyLen, IsNull;
    forall i | 0 <= i < |ps|
      ensures NewKeyLen(es, i) == |ps[i].key| && !IsNull(es[i].kw)
    {
      PackKey(ps, es, i);
    }
  }

  lemma {:induction false} PackKey(ps: seq<Pair>, es: seq<Entry>, i: nat)
    requires i < |ps| == |es| && EntryReads(ps, es, i)
    ensures NewKeyLen(es, i) == |ps[i].key| && !IsNull(es[i].kw)
  {
    if i == 0 {
      assert ps[..0] == [];
      EmptyStr();
    }
    hide Str, EndPos, IsFirst, IsNull;
  }

  lemma {:induction false} EmptyStr()
    ensures |Str([])| == 0
  {
  }

  /** What the entry of pair `i` says, and where it stands. */
  ghost predicate EntryReads(ps: seq<Pair>, es: seq<Entry>, i: nat)
    requires i < |ps| == |es|
  {
    && EndPos(es[i].kw) == |Str(ps[..i])| + |ps[i].key| <= EndPos(es[i].vw) == |Str(ps[..i + 1])|
    && (IsFirst(es[i].kw) <==> i == 0) && !IsFirst(es[i].vw) && !IsNull(es[i].kw)
    && (i > 0 ==> EndPos(es[i - 1].vw) == |Str(ps[..i])|)
  }

  lemma {:induction false} EntryRead(ps: seq<Pair>, i: nat)
    requires i < |ps| && |Str(ps)| < POS_LIMIT
    ensures |Pack(ps).ents| == |ps| && EntryReads(ps, Pack(ps).ents, i)
  {
    EntryAt(ps, i);
    BytesAt(ps, i);
    if i > 0 {
      EntryAt(ps, i - 1);
    }
    assert !IsNull(Pack(ps).ents[i].kw) by { assert Ends(ps)[i] == EntryOf(ps, i); }
    hide Str, EndPos, IsFirst, IsNull, Ends, MarkFirst;
  }

  // ----- a value as it is read -----

  /** The last outcome: the length word is set to `len` bytes of keys and values,
      more than the value holds. */
  datatype Outcome = Kept | MarkedNew | WasOld | InvalidValue | Overrun(len: nat)

  /** What a C int holds. */
  function Int32(x: nat): int {
    if x < 0x8000_0000 then x else x - 0x1_0000_0000
  }

  function Unsigned(x: int): nat {
    x % 0x1_0000_0000
  }

  /** The size computed from a position that has wrapped and compared as an unsigned
      number is the size. */
  lemma {:induction false} SizeUnsigned(count: nat, end: nat)
    requires CalcDataSize(count, 0) <= MAX_ALLOC && end < 0x8002_0000
    ensures Unsigned(CalcDataSize(count, 0) + Int32(end)) == CalcDataSize(count, end)
  {
  }

  lemma {:induction false} SizeOrder(count: nat, len: nat, more: nat)
    ensures CalcDataSize(count, len) > CalcDataSize(count, more) <==> len > more
    ensures CalcDataSize(count, len) == CalcDataSize(count, more) <==> len == more
  {
  }

  lemma {:induction false} EmptyIsOld(bytes: string)
    ensures OldVerdict([], bytes) == 2
  {
  }

  class Value {
    var size: Word           // the flag and count word
    var rows: array<Entry>   // two words per pair
    var bytes: string        // the rest of the varlena

    ghost predicate Valid()
      reads this
    {
      rows.Length == size % COUNT_LIMIT && (size % FLAG_NEWVERSION != 0 ==> rows.Length > 0) && VarLen() <= MAX_ALLOC
    }

    predicate HasFlag()
      reads this
    {
      size >= FLAG_NEWVERSION
    }

    function VarLen(): nat
      reads this
    {
      CalcDataSize(rows.Length, |bytes|)
    }

    /** hstoreValidNewFormat */
    method ValidNewFormat() returns (v: int)
      requires Valid()
      ensures v == if HasFlag() then 2 else NewVerdict(rows[..], bytes)
    {
      if HasFlag() || rows.Length == 0 {
        return 2;
      }
      ghost var es := rows[..];
      var buflen := EndPos(rows[rows.Length - 1].vw);
      hide EndPos, IsFirst, IsNull;
      if !IsFirst(rows[0].kw) || CalcDataSize(rows.Length, buflen) > VarLen() {
        return 0;
      }
      var ordered := CheckOrdered();
      if !ordered {
        return 0;
      }
      var grow := CheckKeys();
      if !grow {
        return 0;
      }
      return if CalcDataSize(rows.Length, buflen) != VarLen() then 1 else 2;
    }

    method CheckOrdered() returns (ok: bool)
      ensures ok <==> NewOrdered(rows[..])
    {
      ghost var es := rows[..];
      hide EndPos, IsFirst;
      for i := 0 to rows.Length
        invariant forall k :: 0 <= k < i ==> RowOrdered(es, k)
      {
        assert es[i] == rows[i] && (i > 0 ==> es[i - 1] == rows[i - 1]);
        if (i > 0 && (IsFirst(rows[i].kw) || EndPos(rows[i].kw) < EndPos(rows[i - 1].vw))) ||
           IsFirst(rows[i].vw) || EndPos(rows[i].vw) < EndPos(rows[i].kw) {
          assert !RowOrdered(es, i);
          return false;
        }
      }
      return true;
    }

    method CheckKeys() returns (ok: bool)
      ensures ok <==> NewKeysGrow(rows[..])
    {
      ghost var es := rows[..];
      hide EndPos, IsFirst, IsNull, NewKeyLen;
      var i := 1;
      while i < rows.Length
        invariant 1 <= i
        invariant forall k :: 1 <= k < i && k < |es| ==> NewKeyLen(es, k - 1) <= NewKeyLen(es, k) && !IsNull(es[k].kw)
      {
        if NewKeyLen(rows[..], i) < NewKeyLen(rows[..], i - 1) || IsNull(rows[i].kw) {
          return false;
        }
        i := i + 1;
      }
      return true;
    }

    /** hstoreValidOldFormat */
    method ValidOldFormat() returns (v: int)
      requires Valid()
      ensures v == if HasFlag() || size >= COUNT_LIMIT then 0 else OldVerdict(rows[..], bytes)
    {
      hide CalcDataSize, OldEnd, Contiguous, OldKeysGrow, Unsigned, Int32;
      EmptyIsOld(bytes);
      SizeOrder(rows.Length, 0, |bytes|);
      SizeOrder(rows.Length, OldEnd(rows[..]), |bytes|);
      if HasFlag() {
        return 0;
      }
      if size == 0 {
        return 2;
      }
      if size >= COUNT_LIMIT {
        return 0;
      }
      var grow := CheckOldKeys();
      if !grow {
        return 0;
      }
      var contiguous, lastpos := CheckContiguous();
      if !contiguous {
        return 0;
      }
      SizeUnsigned(rows.Length, OldEnd(rows[..]));
      var vsize := Unsigned(CalcDataSize(rows.Length, 0) + lastpos);
      if vsize > VarLen() {
        return 0;
      }
      return if vsize != VarLen() then 1 else 2;
    }

    method CheckOldKeys() returns (ok: bool)
      ensures ok <==> OldKeysGrow(rows[..])
    {
      ghost var es := rows[..];
      hide OldKeyLen;
      var i := 1;
      while i < rows.Length
        invariant 1 <= i
        invariant forall k :: 1 <= k < i && k < |es| ==> OldKeyLen(es[k - 1]) <= OldKeyLen(es[k])
      {
        if OldKeyLen(rows[i]) < OldKeyLen(rows[i - 1]) {
          assert es[i] == rows[i] && es[i - 1] == rows[i - 1];
          return false;
        }
        i := i + 1;
      }
      return true;
    }

    /** The running position is a C int. It may wrap, but only behind the last
        entry: a position that has wrapped is negative and no entry has it. */
    method CheckContiguous() returns (ok: bool, lastpos: int)
      ensures ok <==> Contiguous(rows[..])
      ensures ok ==> OldEnd(rows[..]) < 0x8002_0000 && lastpos == Int32(OldEnd(rows[..]))
    {
      ghost var es := rows[..];
      lastpos := 0;
      hide OldPos, OldLen;
      for i := 0 to rows.Length
        invariant OldEnd(es[..i]) < 0x8002_0000 && lastpos == Int32(OldEnd(es[..i]))
        invariant forall k :: 0 <= k < i ==> OldPos(es[k]) == OldEnd(es[..k])
      {
        OldEndTake(es, i);
        FieldRange(rows[i]);
        if OldPos(rows[i]) != lastpos {
          return false, lastpos;
        }
        lastpos := Int32(lastpos + OldLen(rows[i]));
      }
      assert es[..|es|] == es;
      return true, lastpos;
    }

    /** HS_SETCOUNT and HS_FIXSIZE. */
    method Mark()
      requires LastPos(rows[..]) <= |bytes| && rows.Length < COUNT_LIMIT
      modifies this
      ensures rows == old(rows) && size == FLAG_NEWVERSION + rows.Length && bytes == old(bytes)[..LastPos(rows[..])]
    {
      size := FLAG_NEWVERSION + rows.Length;
      var bl := if rows.Length == 0 then 0 else EndPos(rows[rows.Length - 1].vw);
      bytes := bytes[..bl];
    }

    /** The test of hstoreUpgrade for values it takes as new without checking. */
    predicate FastNew()
      requires Valid()
      reads this, rows
    {
      size == 0 || (!HasFlag() && VarLen() < FAST_LIMIT && IsFirst(rows[0].kw))
    }

    ghost predicate IsOld()
      reads this, rows
    {
      size < COUNT_LIMIT && OldVerdict(rows[..], bytes) != 0
    }

    /** hstoreUpgrade. A value taken as new without checking keeps its entries, and
        its length word is set to what they say, even if that is more than the value
        holds. A value converted from the old format becomes the packed form of
        the pairs it denoted, and passes the new validity test exactly. */
    method Upgrade() returns (o: Outcome)
      requires Valid()
      modifies this, rows
      ensures rows == old(rows)
      ensures o.Kept? <==> old(HasFlag())
      ensures o.MarkedNew? || o.Overrun? <==>
              (!old(HasFlag()) && (old(FastNew()) || (!old(IsOld()) && old(NewVerdict(rows[..], bytes)) != 0)))
      ensures o.Overrun? <==> !old(HasFlag()) && old(FastNew()) && old(LastPos(rows[..])) > |old(bytes)|
      ensures o.Overrun? ==> size == FLAG_NEWVERSION + rows.Length && rows[..] == old(rows[..]) && bytes == old(bytes)
                             && o.len == LastPos(rows[..])
      ensures o.WasOld? <==> (!old(HasFlag()) && !old(FastNew()) && old(IsOld()))
      ensures o.Kept? || o.InvalidValue? ==> size == old(size) && rows[..] == old(rows[..]) && bytes == old(bytes)
      ensures o.MarkedNew? ==> size == FLAG_NEWVERSION + rows.Length && rows[..] == old(rows[..])
                               && bytes == old(bytes)[..LastPos(rows[..])]
      ensures o.WasOld? ==> size == FLAG_NEWVERSION + rows.Length && old(Fits(rows[..], bytes))
                            && HStore(true, rows[..], bytes) == Pack(old(OldPairs(rows[..], bytes)))
                            && NewVerdict(rows[..], bytes) == 2
    {
      if HasFlag() {
        return Kept;
      }
      if FastNew() {
        var bl := if rows.Length == 0 then 0 else EndPos(rows[rows.Length - 1].vw);
        if bl > |bytes| {
          size := FLAG_NEWVERSION + rows.Length;
          return Overrun(bl);
        }
        Mark();
        return MarkedNew;
      }
      var validNew := ValidNewFormat();
      var validOld := ValidOldFormat();
      if validOld == 0 {
        if validNew != 0 {
          Mark();
          return MarkedNew;
        }
        return InvalidValue;
      }
      ContiguousFits(rows[..], bytes);
      Convert();
      return WasOld;
    }

    /** The conversion in place. */
    method Convert()
      requires Valid() && !HasFlag() && rows.Length > 0
      requires OldVerdict(rows[..], bytes) != 0 && Fits(rows[..], bytes)
      modifies this, rows
      ensures rows == old(rows) && size == FLAG_NEWVERSION + rows.Length
      ensures HStore(true, rows[..], bytes) == Pack(old(OldPairs(rows[..], bytes)))
      ensures NewVerdict(rows[..], bytes) == 2
    {
      ghost var es := rows[..];
      ConvertRows(es);
      ghost var fs := rows[..];
      rows[0] := rows[0].(kw := SetFirst(rows[0].kw));
      assert rows[..] == MarkFirst(fs);
      ConvertDone(es, bytes, fs);
      hide *;
      Mark();
    }

    method ConvertRows(ghost es: seq<Entry>)
      requires rows[..] == es
      modifies rows
      ensures forall i :: 0 <= i < |es| ==> rows[i] == Converted(es[i])
    {
      hide Converted, OldPos, OldKeyLen, OldValLen, OldIsNull, MakeEntry;
      for i := 0 to rows.Length
        invariant forall k :: 0 <= k < i ==> rows[k] == Converted(es[k])
        invariant forall k :: i <= k < rows.Length ==> rows[k] == es[k]
      {
        var e := ConvertRow(rows[i]);
        rows[i] := e;
      }
    }

    method ConvertRow(e: Entry) returns (f: Entry)
      ensures f == Converted(e)
    {
      var pos, keylen, vallen, isnull := OldPos(e), OldKeyLen(e), OldValLen(e), OldIsNull(e);
      if isnull {
        vallen := 0;
      }
      f := Entry(MakeEntry(pos + keylen, false), MakeEntry(pos + keylen + vallen, isnull));
    }
  }

  /** What the converted rows are, once the first is marked. */
  lemma {:induction false} ConvertDone(es: seq<Entry>, bytes: string, fs: seq<Entry>)
    requires es != [] && OldVerdict(es, bytes) != 0 && Fits(es, bytes) && |bytes| < POS_LIMIT && |fs| == |es|
    requires forall i :: 0 <= i < |es| ==> fs[i] == Converted(es[i])
    ensures var ps := OldPairs(es, bytes);
            && Pack(ps) == HStore(true, MarkFirst(fs), bytes[..OldEnd(es)])
            && LastPos(MarkFirst(fs)) == OldEnd(es) <= |bytes|
            && NewVerdict(MarkFirst(fs), bytes[..OldEnd(es)]) == 2
  {
    var ps := OldPairs(es, bytes);
    ConvertedAll(es, bytes, fs);
    OldBytes(es, bytes, |es|);
    assert ps[..|es|] == ps && es[..|es|] == es;
    GrowingKeys(es, bytes);
    assert Pack(ps) == HStore(true, MarkFirst(fs), bytes[..OldEnd(es)]);
    assert Pack(ps).bytes == Str(ps);
    hide *;
    PackValid(ps);
    PackEnd(ps);
  }

  lemma {:induction false} GrowingKeys(es: seq<Entry>, bytes: string)
    requires Fits(es, bytes) && OldKeysGrow(es)
    ensures var ps := OldPairs(es, bytes); forall i :: 1 <= i < |ps| ==> |ps[i - 1].key| <= |ps[i].key|
  {
    forall i | 0 <= i < |es|
      ensures |OldPair(es[i], bytes).key| == OldKeyLen(es[i])
    {
      OldPairBytes(es[i], bytes);
    }
  }

  lemma {:induction false} PackEnd(ps: seq<Pair>)
    requires ps != [] && |Str(ps)| < POS_LIMIT
    ensures LastPos(Pack(ps).ents) == |Str(ps)|
  {
    EntryAt(ps, |ps| - 1);
    assert ps[..|ps|] == ps;
  }

  /** A converted value whose keys were in order is well formed and denotes the
      mapping the old value denoted. */
  lemma {:induction false} ConvertedMeaning(es: seq<Entry>, bytes: string)
    requires OldVerdict(es, bytes) != 0 && Fits(es, bytes) && CalcDataSize(|es|, |bytes|) <= MAX_ALLOC
    requires Canonical(OldPairs(es, bytes))
    ensures var hs := Pack(OldPairs(es, bytes));
            WellFormed(hs) && Exact(hs) && MapOf(hs) == ToMap(OldPairs(es, bytes))
  {
    var ps := OldPairs(es, bytes);
    OldBytes(es, bytes, |es|);
    assert ps[..|es|] == ps && es[..|es|] == es;
    assert VarSize(Pack(ps)) <= MAX_ALLOC;
    hide *;
    PackStores(ps);
  }

  /** Short old values are not mistaken for new ones, except when the first
      value is null and its unused length field is 32768 or more. */
  lemma {:induction false} OldTakenAsNew(es: seq<Entry>, bytes: string)
    requires es != [] && OldVerdict(es, bytes) != 0 && CalcDataSize(|es|, |bytes|) < FAST_LIMIT
    ensures IsFirst(es[0].kw) <==> OldIsNull(es[0]) && OldValLen(es[0]) >= 0x8000
  {
    OldEndTake(es, 0);
  }

  /** Such a value: the null under the key "a" becomes an empty string. */
  lemma {:induction false} NullMisread()
    ensures var es, bytes := [Entry(0x8000_0001, 1)], "a";
            && OldVerdict(es, bytes) != 0 && CalcDataSize(|es|, |bytes|) < FAST_LIMIT && IsFirst(es[0].kw)
            && Fits(es, bytes) && OldPairs(es, bytes) == [Pair("a", None)]
            && HStore(true, es, bytes[..LastPos(es)]) == Pack([Pair("a", Some(""))])
  {
    var es, bytes, p := [Entry(0x8000_0001, 1)], "a", Pair("a", Some(""));
    OldEndTake(es, 0);
    assert es[..1] == es && es[..0] == [];
    StrPush([], p);
    EndsPush([], p);
    assert [] + [p] == [p] && PairBytes(p) == "a" && Str([]) == "" && Ends([]) == [];
  }

  /** And one whose length word is set beyond its end. */
  lemma {:induction false} MisreadOverruns()
    ensures var es, bytes := [Entry(0x8000_0000, 1)], "";
            && OldVerdict(es, bytes) != 0 && CalcDataSize(|es|, |bytes|) < FAST_LIMIT && IsFirst(es[0].kw)
            && LastPos(es) > |bytes|
  {
    var es := [Entry(0x8000_0000, 1)];
    OldEndTake(es, 0);
    assert es[..1] == es && es[..0] == [];
  }
}
