/** Which values of the two formats pass the validity tests: those that spell out
    some list of pairs. */
module HStoreFormats {
  import opened Prelude
  import opened HStoreCore
  import opened HStoreOrder
  import opened HStoreUpgrade

  ghost predicate KeysGrow(ps: seq<Pair>) {
    forall i :: 1 <= i < |ps| ==> |ps[i - 1].key| <= |ps[i].key|
  }

  // ----- the old format -----

  /** Where the fields of an old entry lie. */
  lemma {:induction false} OldFields(keylen: nat, vallen: nat, isnull: bool, pos: nat)
    requires keylen < 0x1_0000 && vallen < 0x1_0000 && pos < 0x8000_0000
    ensures var e := Entry(keylen + 0x1_0000 * vallen, 2 * pos + if isnull then 1 else 0);
            OldKeyLen(e) == keylen && OldValLen(e) == vallen && OldIsNull(e) == isnull && OldPos(e) == pos
  {
  }

  /** An old entry stands for a pair whose bytes start at `pos`; the value length of
      a null may be anything. */
  ghost predicate OldStands(e: Entry, p: Pair, pos: nat) {
    && OldKeyLen(e) == |p.key| && OldPos(e) == pos && (OldIsNull(e) <==> p.val.None?)
    && (p.val.Some? ==> OldValLen(e) == |p.val.value|)
  }

  ghost predicate OldForm(es: seq<Entry>, ps: seq<Pair>) {
    |es| == |ps| && forall i :: 0 <= i < |es| ==> OldStands(es[i], ps[i], |Str(ps[..i])|)
  }

  ghost predicate OldSpells(es: seq<Entry>, bytes: string, ps: seq<Pair>) {
    OldForm(es, ps) && KeysGrow(ps) && Str(ps) <= bytes
  }

  /** The old format test accepts exactly the values that spell out pairs with key
      lengths that never decrease, and says whether bytes are left over. */
  lemma {:induction false} OldMeans(es: seq<Entry>, bytes: string)
    ensures OldVerdict(es, bytes) != 0 <==> exists ps :: OldSpells(es, bytes, ps)
    ensures es != [] ==> (OldVerdict(es, bytes) == 2 <==> exists ps :: OldSpells(es, bytes, ps) && Str(ps) == bytes)
  {
    if OldVerdict(es, bytes) != 0 {
      var ps := ReadOld(es, bytes);
    }
    forall ps | OldSpells(es, bytes, ps)
      ensures OldVerdict(es, bytes) != 0
      ensures es != [] && Str(ps) == bytes ==> OldVerdict(es, bytes) == 2
    {
      SpelledOld(es, bytes, ps);
    }
  }

  lemma {:induction false} ReadOld(es: seq<Entry>, bytes: string) returns (ps: seq<Pair>)
    requires OldVerdict(es, bytes) != 0
    ensures OldSpells(es, bytes, ps) && (es != [] && OldVerdict(es, bytes) == 2 ==> Str(ps) == bytes)
  {
    if es == [] {
      ps := [];
    } else {
      ContiguousFits(es, bytes);
      ps := OldPairs(es, bytes);
      OldBytes(es, bytes, |es|);
      assert es[..|es|] == es && ps[..|es|] == ps;
      forall i | 0 <= i < |es|
        ensures OldStands(es[i], ps[i], |Str(ps[..i])|)
      {
        assert OldPos(es[i]) == OldEnd(es[..i]) && ps[i] == OldPair(es[i], bytes);
        assert OldPos(es[i]) + OldLen(es[i]) <= |bytes|;
        hide *;
        OldBytes(es, bytes, i);
        OldStandsFor(es[i], bytes);
      }
      hide Str, OldEnd, Contiguous;
    }
  }

  lemma {:induction false} OldStandsFor(e: Entry, bytes: string)
    requires OldPos(e) + OldLen(e) <= |bytes|
    ensures OldStands(e, OldPair(e, bytes), OldPos(e))
  {
    hide OldPos, OldKeyLen, OldValLen, OldIsNull;
  }

  lemma {:induction false} SpelledOld(es: seq<Entry>, bytes: string, ps: seq<Pair>)
    requires OldSpells(es, bytes, ps)
    ensures OldVerdict(es, bytes) != 0
    ensures es != [] && Str(ps) == bytes ==> OldVerdict(es, bytes) == 2
  {
    forall i | 0 <= i <= |es|
      ensures OldEnd(es[..i]) == |Str(ps[..i])|
    {
      EndIs(es, ps, i);
    }
    assert es[..|es|] == es && ps[..|es|] == ps;
    hide Str, OldEnd, OldPos, OldKeyLen, OldValLen, OldIsNull;
    forall i | 0 <= i < |es|
      ensures OldPos(es[i]) == OldEnd(es[..i]) && OldKeyLen(es[i]) == |ps[i].key|
    {
      assert OldStands(es[i], ps[i], |Str(ps[..i])|);
    }
  }

  lemma {:induction false} EndIs(es: seq<Entry>, ps: seq<Pair>, i: nat)
    requires OldForm(es, ps) && i <= |es|
    ensures OldEnd(es[..i]) == |Str(ps[..i])|
  {
    hide *;
    if i == 0 {
      NoneYet(es, ps);
    } else {
      EndIs(es, ps, i - 1);
      NextEnd(es, ps, i - 1);
    }
  }

  lemma {:induction false} NoneYet(es: seq<Entry>, ps: seq<Pair>)
    ensures OldEnd(es[..0]) == |Str(ps[..0])|
  {
  }

  lemma {:induction false} NextEnd(es: seq<Entry>, ps: seq<Pair>, k: nat)
    requires OldForm(es, ps) && k < |es| && OldEnd(es[..k]) == |Str(ps[..k])|
    ensures OldEnd(es[..k + 1]) == |Str(ps[..k + 1])|
  {
    hide *;
    FormAt(es, ps, k);
    OldEndTake(es, k);
    StandsLen(es[k], ps[k], |Str(ps[..k])|);
    assert ps[..k + 1] == ps[..k] + [ps[k]];
    StrPush(ps[..k], ps[k]);
  }

  lemma {:induction false} FormAt(es: seq<Entry>, ps: seq<Pair>, k: nat)
    requires OldForm(es, ps) && k < |es|
    ensures |es| == |ps| && OldStands(es[k], ps[k], |Str(ps[..k])|)
  {
    hide OldStands, Str;
  }

  lemma {:induction false} StandsLen(e: Entry, p: Pair, pos: nat)
    requires OldStands(e, p, pos)
    ensures OldLen(e) == |PairBytes(p)|
  {
    hide OldKeyLen, OldValLen, OldIsNull, OldPos;
  }

  // ----- the new format -----

  /** The first key is not null, which the code does not look at, and null values have no bytes. */
  ghost predicate PlainNulls(es: seq<Entry>) {
    && (es != [] ==> !IsNull(es[0].kw))
    && forall i :: 0 <= i < |es| && IsNull(es[i].vw) ==> EndPos(es[i].vw) == EndPos(es[i].kw)
  }

  ghost predicate NewSpells(es: seq<Entry>, bytes: string, ps: seq<Pair>) {
    es == Pack(ps).ents && |Str(ps)| < POS_LIMIT && KeysGrow(ps) && Str(ps) <= bytes
  }

  /** So does the new format test, apart from nulls. */
  lemma {:induction false} NewMeans(es: seq<Entry>, bytes: string)
    ensures NewVerdict(es, bytes) != 0 && PlainNulls(es) <==> exists ps :: NewSpells(es, bytes, ps)
    ensures es != [] && PlainNulls(es) ==>
              (NewVerdict(es, bytes) == 2 <==> exists ps :: NewSpells(es, bytes, ps) && Str(ps) == bytes)
  {
    if NewVerdict(es, bytes) != 0 && PlainNulls(es) {
      var ps := ReadNew(es, bytes);
    }
    forall ps | NewSpells(es, bytes, ps)
      ensures NewVerdict(es, bytes) != 0 && PlainNulls(es)
      ensures es != [] && Str(ps) == bytes ==> NewVerdict(es, bytes) == 2
    {
      SpelledNew(es, bytes, ps);
    }
  }

  lemma {:induction false} SpelledNew(es: seq<Entry>, bytes: string, ps: seq<Pair>)
    requires NewSpells(es, bytes, ps)
    ensures NewVerdict(es, bytes) != 0 && PlainNulls(es)
    ensures es != [] && Str(ps) == bytes ==> NewVerdict(es, bytes) == 2
  {
    PackValid(ps);
    if ps != [] {
      PackEnd(ps);
    }
    forall i | 0 <= i < |es|
      ensures i == 0 ==> !IsNull(es[0].kw)
      ensures IsNull(es[i].vw) ==> EndPos(es[i].vw) == EndPos(es[i].kw)
    {
      EntryRead(ps, i);
      NullIsEmpty(ps, i);
    }
    assert Pack(ps).bytes == Str(ps) && |es| == |ps|;
    hide Str, EndPos, IsNull, IsFirst, Pack, NewOrdered, NewKeysGrow;
  }

  lemma {:induction false} NullIsEmpty(ps: seq<Pair>, i: nat)
    requires i < |ps| && |Str(ps)| < POS_LIMIT
    ensures IsNull(Pack(ps).ents[i].vw) ==> EndPos(Pack(ps).ents[i].vw) == EndPos(Pack(ps).ents[i].kw)
  {
    EntryAt(ps, i);
    BytesAt(ps, i);
    hide Str, EndPos, IsFirst, IsNull;
  }

  /** The bytes of an entry start where those of the one before end. */
  function StartOf(es: seq<Entry>, i: nat): nat
    requires i <= |es|
  {
    if i == 0 then 0 else EndPos(es[i - 1].vw)
  }

  lemma {:induction false} StartGrows(es: seq<Entry>, i: nat, j: nat)
    requires NewOrdered(es) && (es != [] ==> IsFirst(es[0].kw)) && i <= j <= |es|
    ensures StartOf(es, i) <= StartOf(es, j)
    decreases j - i
  {
    hide EndPos, IsFirst;
    if i < j {
      StartGrows(es, i, j - 1);
      assert RowOrdered(es, j - 1);
    }
  }

  /** The pair an entry of the new format spells out. */
  function NewPair(es: seq<Entry>, bytes: string, i: nat): Pair
    requires i < |es| && StartOf(es, i) <= EndPos(es[i].kw) <= EndPos(es[i].vw) <= |bytes|
  {
    var mid := EndPos(es[i].kw);
    Pair(bytes[StartOf(es, i)..mid], if IsNull(es[i].vw) then None else Some(bytes[mid..EndPos(es[i].vw)]))
  }

  ghost predicate InPlace(es: seq<Entry>, bytes: string) {
    forall i :: 0 <= i < |es| ==> StartOf(es, i) <= EndPos(es[i].kw) <= EndPos(es[i].vw) <= |bytes|
  }

  lemma {:induction false} OrderedInPlace(es: seq<Entry>, bytes: string)
    requires NewOrdered(es) && (es != [] ==> IsFirst(es[0].kw)) && LastPos(es) <= |bytes|
    ensures InPlace(es, bytes)
  {
    hide EndPos, IsFirst;
    forall i | 0 <= i < |es|
      ensures StartOf(es, i) <= EndPos(es[i].kw) <= EndPos(es[i].vw) <= |bytes|
    {
      assert RowOrdered(es, i);
      StartGrows(es, i + 1, |es|);
    }
  }

  ghost function NewPairs(es: seq<Entry>, bytes: string): (ps: seq<Pair>)
    requires InPlace(es, bytes)
    ensures |ps| == |es| && forall i :: 0 <= i < |es| ==> ps[i] == NewPair(es, bytes, i)
  {
    seq(|es|, i requires 0 <= i < |es| => NewPair(es, bytes, i))
  }

  lemma {:induction false} NewBytes(es: seq<Entry>, bytes: string, i: nat)
    requires InPlace(es, bytes) && PlainNulls(es) && i <= |es|
    ensures StartOf(es, i) <= |bytes| && Str(NewPairs(es, bytes)[..i]) == bytes[..StartOf(es, i)]
  {
    hide *;
    var ps := NewPairs(es, bytes);
    if i == 0 {
      NoBytes(es, bytes, ps);
    } else {
      NewBytes(es, bytes, i - 1);
      PlaceAt(es, bytes, i - 1);
      NextNew(ps, es, bytes, i - 1);
    }
  }

  lemma {:induction false} NoBytes(es: seq<Entry>, bytes: string, ps: seq<Pair>)
    ensures StartOf(es, 0) == 0 && Str(ps[..0]) == bytes[..0]
  {
  }

  lemma {:induction false} PlaceAt(es: seq<Entry>, bytes: string, k: nat)
    requires InPlace(es, bytes) && k < |es|
    ensures StartOf(es, k) <= EndPos(es[k].kw) <= EndPos(es[k].vw) <= |bytes|
    ensures NewPairs(es, bytes)[k] == NewPair(es, bytes, k)
  {
    hide EndPos, StartOf, NewPair;
  }

  lemma {:induction false} NextNew(ps: seq<Pair>, es: seq<Entry>, bytes: string, k: nat)
    requires k < |es| == |ps| && PlainNulls(es)
    requires StartOf(es, k) <= EndPos(es[k].kw) <= EndPos(es[k].vw) <= |bytes|
    requires ps[k] == NewPair(es, bytes, k) && Str(ps[..k]) == bytes[..StartOf(es, k)]
    ensures StartOf(es, k + 1) <= |bytes| && Str(ps[..k + 1]) == bytes[..StartOf(es, k + 1)]
  {
    hide *;
    assert ps[..k + 1] == ps[..k] + [ps[k]];
    StrPush(ps[..k], ps[k]);
    PairIsSlice(es, bytes, k);
    JoinSlices(bytes, StartOf(es, k), EndPos(es[k].vw));
    StartIs(es, k + 1);
  }

  lemma {:induction false} JoinSlices(bytes: string, lo: nat, hi: nat)
    requires lo <= hi <= |bytes|
    ensures bytes[..lo] + bytes[lo..hi] == bytes[..hi]
  {
  }

  lemma {:induction false} StartIs(es: seq<Entry>, i: nat)
    requires 0 < i <= |es|
    ensures StartOf(es, i) == EndPos(es[i - 1].vw)
  {
  }

  lemma {:induction false} PairIsSlice(es: seq<Entry>, bytes: string, k: nat)
    requires k < |es| && StartOf(es, k) <= EndPos(es[k].kw) <= EndPos(es[k].vw) <= |bytes| && PlainNulls(es)
    ensures PairBytes(NewPair(es, bytes, k)) == bytes[StartOf(es, k)..EndPos(es[k].vw)]
    ensures |NewPair(es, bytes, k).key| == EndPos(es[k].kw) - StartOf(es, k)
    ensures NewPair(es, bytes, k).val.None? <==> IsNull(es[k].vw)
  {
    hide EndPos, IsNull, StartOf;
  }

  lemma {:induction false} ReadNew(es: seq<Entry>, bytes: string) returns (ps: seq<Pair>)
    requires NewVerdict(es, bytes) != 0 && PlainNulls(es)
    ensures NewSpells(es, bytes, ps) && (es != [] && NewVerdict(es, bytes) == 2 ==> Str(ps) == bytes)
  {
    if es == [] {
      ps := [];
      assert Pack(ps).ents == [];
    } else {
      OrderedInPlace(es, bytes);
      ps := NewPairs(es, bytes);
      NewBytes(es, bytes, |es|);
      assert ps[..|es|] == ps && StartOf(es, |es|) == LastPos(es);
      assert LastPos(es) < POS_LIMIT;
      SameEnts(es, bytes, ps);
      GrowNew(es, bytes, ps);
      hide Str, NewOrdered, NewKeysGrow, EndPos, IsFirst, IsNull, Pack, InPlace, PlainNulls;
    }
  }

  lemma {:induction false} GrowNew(es: seq<Entry>, bytes: string, ps: seq<Pair>)
    requires es != [] && IsFirst(es[0].kw) && NewOrdered(es) && NewKeysGrow(es) && PlainNulls(es) && InPlace(es, bytes)
    requires ps == NewPairs(es, bytes)
    ensures KeysGrow(ps)
  {
    hide EndPos, IsNull, IsFirst, PlainNulls;
    forall i | 0 <= i < |es|
      ensures |ps[i].key| == NewKeyLen(es, i)
    {
      PairIsSlice(es, bytes, i);
      assert RowOrdered(es, i);
    }
  }

  lemma {:induction false} SameEnts(es: seq<Entry>, bytes: string, ps: seq<Pair>)
    requires es != [] && IsFirst(es[0].kw) && NewOrdered(es) && NewKeysGrow(es) && PlainNulls(es) && InPlace(es, bytes)
    requires ps == NewPairs(es, bytes) && |Str(ps)| < POS_LIMIT
    ensures es == Pack(ps).ents
  {
    hide Pack, NewOrdered, NewKeysGrow, PlainNulls, InPlace, Str;
    PackLenIs(ps);
    forall i | 0 <= i < |es|
      ensures es[i] == Pack(ps).ents[i]
    {
      SameEnt(es, bytes, ps, i);
    }
  }

  lemma {:induction false} PackLenIs(ps: seq<Pair>)
    ensures |Pack(ps).ents| == |ps|
  {
  }

  lemma {:induction false} SameEnt(es: seq<Entry>, bytes: string, ps: seq<Pair>, i: nat)
    requires es != [] && IsFirst(es[0].kw) && NewOrdered(es) && NewKeysGrow(es) && PlainNulls(es) && InPlace(es, bytes)
    requires ps == NewPairs(es, bytes) && |Str(ps)| < POS_LIMIT && i < |es|
    ensures |Pack(ps).ents| == |ps| && es[i] == Pack(ps).ents[i]
  {
    NewBytes(es, bytes, i);
    NewBytes(es, bytes, i + 1);
    EntryRead(ps, i);
    EntryAt(ps, i);
    assert RowOrdered(es, i) && StartOf(es, i) <= EndPos(es[i].kw);
    PairIsSlice(es, bytes, i);
    assert ps[i] == NewPair(es, bytes, i);
    assert !IsNull(es[i].kw) && (IsFirst(es[i].kw) <==> i == 0);
    StartIs(es, i + 1);
    var f := Pack(ps).ents[i];
    hide Str, EndPos, IsNull, IsFirst, Pack, NewOrdered, NewKeysGrow, PlainNulls, InPlace, StartOf;
    SameWord(es[i].kw, f.kw);
    SameWord(es[i].vw, f.vw);
  }
}
