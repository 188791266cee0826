/** Building a datum in one block of memory, as HS_COPYITEM, HS_ADDITEM and
    HS_FINALIZE do: entries are written at the front, bytes behind the room
    reserved for all entries, and the bytes are moved down at the end when
    fewer entries were written than room was reserved for. */
module HStoreBuild {
  import opened Prelude
  import opened HStoreCore

  /** One place of the block: an entry (eight bytes) or a byte. */
  datatype Cell = Slot(e: Entry) | Raw(c: char)

  function SlotIn(cell: Cell): Entry {
    if cell.Slot? then cell.e else Entry(0, 0)
  }

  function CharIn(cell: Cell): char {
    if cell.Raw? then cell.c else '\0'
  }

  /** A block that holds `es` at the front and `s` behind room for `count`
      entries. */
  ghost predicate Image(mem: seq<Cell>, count: nat, es: seq<Entry>, s: string) {
    && |es| <= count && count + |s| <= |mem|
    && (forall i :: 0 <= i < |es| ==> mem[i] == Slot(es[i]))
    && (forall j :: 0 <= j < |s| ==> mem[count + j] == Raw(s[j]))
  }

  /** The entry and the bytes that one more pair adds to a datum. */
  lemma {:induction false} Pushed(out: seq<Pair>, p: Pair, src: string, klen: nat, vlen: nat, vnull: bool)
    requires src == PairBytes(p) && klen == |p.key| && klen + vlen == |src| && vnull == p.val.None?
    ensures Str(out + [p]) == Str(out) + src
    ensures var d := |Str(out)| + klen + vlen;
            Ends(out + [p]) == Ends(out) + [Entry(MakeEntry(d - vlen, false), MakeEntry(d, vnull))]
  {
    StrPush(out, p);
    EndsPush(out, p);
  }

  class Builder {
    var mem: array<Cell>
    var count: nat  // entries room is reserved for
    var dent: nat   // entries written
    var dptr: nat   // bytes written
    ghost var out: seq<Pair>

    constructor (count: nat, room: nat)
      ensures Valid() && fresh(mem) && out == [] && this.count == count && mem.Length == count + room
    {
      mem := new Cell[count + room](_ => Raw('\0'));
      this.count, dent, dptr, out := count, 0, 0, [];
    }

    ghost predicate Valid()
      reads this, mem
    {
      dent == |out| && dptr == |Str(out)| && Image(mem[..], count, Ends(out), Str(out))
    }

    /** HS_COPYITEM: `src` holds a key and its value, one after the other. */
    method CopyItem(src: string, klen: nat, vlen: nat, vnull: bool, ghost p: Pair)
      requires Valid() && dent < count && count + dptr + |src| <= mem.Length
      requires src == PairBytes(p) && klen == |p.key| && klen + vlen == |src| && vnull == p.val.None?
      modifies this, mem
      ensures Valid() && mem == old(mem) && count == old(count) && out == old(out) + [p]
    {
      hide Image, Str, Ends, PairBytes, MakeEntry, LastEntry;
      Pushed(out, p, src, klen, vlen, vnull);
      ghost var es, s := Ends(out), Str(out);
      PutBytes(src, es, s);
      dptr := dptr + klen + vlen;
      PutEntry(Entry(MakeEntry(dptr - vlen, false), MakeEntry(dptr, vnull)), es, s + src);
      dent := dent + 1;
      out := out + [p];
    }

    /** memcpy behind the bytes written so far. */
    method PutBytes(src: string, ghost es: seq<Entry>, ghost s: string)
      requires Image(mem[..], count, es, s) && dptr == |s| && count + dptr + |src| <= mem.Length
      modifies mem
      ensures Image(mem[..], count, es, s + src)
    {
      var a := count + dptr;
      forall j | 0 <= j < |src| {
        mem[a + j] := Raw(src[j]);
      }
    }

    method PutEntry(e: Entry, ghost es: seq<Entry>, ghost s: string)
      requires Image(mem[..], count, es, s) && dent == |es| < count
      modifies mem
      ensures Image(mem[..], count, es + [e], s)
    {
      mem[dent] := Slot(e);
    }

    /** HS_ADDITEM. */
    method AddItem(key: string, val: string, isnull: bool, ghost p: Pair)
      requires Valid() && dent < count && count + dptr + |PairBytes(p)| <= mem.Length
      requires p == Pair(key, if isnull then None else Some(val))
      modifies this, mem
      ensures Valid() && mem == old(mem) && count == old(count) && out == old(out) + [p]
    {
      assert key + "" == key;
      CopyItem(if isnull then key else key + val, |key|, if isnull then 0 else |val|, isnull, p);
    }

    /** HS_FINALIZE: marks the first entry, moves the bytes down to the end of
        the entries that were written, and gives the datum its exact size. */
    method Finalize() returns (hs: HStore)
      requires Valid()
      modifies this, mem
      ensures hs == Pack(out) && out == old(out)
    {
      ghost var es, s := MarkFirst(Ends(out)), Str(out);
      if dent > 0 {
        var e := SlotIn(mem[0]);
        mem[0] := Slot(e.(kw := SetFirst(e.kw)));
      }
      assert Image(mem[..], count, es, s);
      if dent != count {
        var from := count;
        count := dent;
        forall j | 0 <= j < dptr {
          mem[count + j] := mem[from + j];
        }
      }
      assert Image(mem[..], count, es, s);
      hs := Freeze();
      hide Ends, Str, MarkFirst;
      assert hs.ents == es && hs.bytes == s;
    }

    /** The datum the block holds. */
    method Freeze() returns (hs: HStore)
      requires count + dptr <= mem.Length
      ensures hs.newFormat && |hs.ents| == count && |hs.bytes| == dptr
      ensures forall i :: 0 <= i < count ==> hs.ents[i] == SlotIn(mem[i])
      ensures forall j :: 0 <= j < dptr ==> hs.bytes[j] == CharIn(mem[count + j])
    {
      var m, n, len := mem[..], count, dptr;
      hs := HStore(true,
                   seq(n, i requires 0 <= i < n => SlotIn(m[i])),
                   seq(len, j requires 0 <= j < len => CharIn(m[n + j])));
    }
  }
}
