/** Inserts that shrink the buffer before they move its bytes (lines 632-638 of
    src/redis_zip_list.c): what becomes of the last entry, and when the insert is right. */
module ZiplistShrink {
  import opened Bytes
  import opened ZiplistCodec
  import opened ZiplistLayout
  import opened ZiplistOps
  import opened ZiplistBytes
  import opened ZiplistCascade
  import opened ZiplistEdits

  // ------------------------------------------------------------ the last byte

  function LastByte(item: Item): (b: byte) { Body(item)[|Body(item)| - 1] }

  /** The item whose last byte has become the end marker. */
  function Clobbered(item: Item): (r: Item) {
    match item
    case Str(data) => if data == [] then Int(ZIP_END, 0) else Str(data[..|data| - 1] + [ZIP_END])
    case Int(e, v) =>
      var n := IntSize(e);
      if n == 0 then Int(ZIP_END, 0) else Int(e, Signed(FromLE(LE(v, n)[..n - 1] + [ZIP_END]), n))
  }

  lemma ClobberedBody(item: Item)
    requires ItemOk(item)
    ensures ItemOk(Clobbered(item))
    ensures |Body(Clobbered(item))| == |Body(item)|
    ensures Body(Clobbered(item)) == Body(item)[..|Body(item)| - 1] + [ZIP_END]
  {
    hide LE, FromLE;
    match item
    case Str(data) =>
      if data != [] {
        var h := StrHeader(|data|);
        assert (h + data)[..|h + data| - 1] == h + data[..|data| - 1];
      }
    case Int(e, v) =>
      var n := IntSize(e);
      if n > 0 {
        var p := LE(v, n)[..n - 1] + [ZIP_END];
        LESignedOf(p);
        assert ([e] + LE(v, n))[..n] == [e] + LE(v, n)[..n - 1];
      } else {
        assert [e] + LE(v, 0) == [e] by { assert |LE(v, 0)| == 0; }
        assert |LE(0, 0)| == 0;
      }
  }

  lemma ClobberedIdle(item: Item)
    requires ItemOk(item)
    ensures Clobbered(item) == item <==> LastByte(item) == ZIP_END
  {
    hide LE, FromLE, ItemOk, Signed, StrHeader, Body, Clobbered;
    ClobberedBody(item);
    if LastByte(item) == ZIP_END {
      match item
      case Str(data) => StrIdle(data);
      case Int(e, v) => IntIdle(e, v);
    }
  }

  lemma StrIdle(data: seq<byte>)
    requires LastByte(Str(data)) == ZIP_END
    ensures Clobbered(Str(data)) == Str(data)
  {
    if data != [] {
      assert Body(Str(data))[|Body(Str(data))| - 1] == data[|data| - 1];
      assert data[..|data| - 1] + [data[|data| - 1]] == data;
    }
  }

  lemma IntIdle(e: byte, v: int)
    requires ItemOk(Int(e, v)) && LastByte(Int(e, v)) == ZIP_END
    ensures Clobbered(Int(e, v)) == Int(e, v)
  {
    hide LE, FromLE, Signed;
    var n := IntSize(e);
    var b := LE(v, n);
    if n > 0 {
      LESigned(v, n);
      assert ([e] + b)[n] == b[n - 1];
      assert b[..n - 1] + [b[n - 1]] == b;
    } else {
      assert [e] + b == [e];
    }
  }

  // ------------------------------------------------------------ the last entry

  /** The list whose last byte before the end marker has become one. */
  function Clobber(es: seq<Entry>): (r: seq<Entry>)
    requires es != []
    ensures |r| == |es|
  {
    var last := es[|es| - 1];
    es[..|es| - 1] + [last.(item := Clobbered(last.item))]
  }

  /** Only that byte differs. */
  lemma ClobberLayout(es: seq<Entry>, zllen: nat)
    requires es != [] && Fits(0, es)
    ensures Fits(0, Clobber(es))
    ensures var s := Layout(es, zllen);
            && |s| > START + 2
            && Layout(Clobber(es), zllen) == s[..|s| - 2] + [ZIP_END, ZIP_END]
            && s[|s| - 2] == LastByte(es[|es| - 1].item)
  {
    hide Ser, Size, Fits, Body, LE, PrevField, Clobbered, ItemOk, Layout, Prefix;
    var a, e := es[..|es| - 1], es[|es| - 1];
    var e' := e.(item := Clobbered(e.item));
    SplitLast(es);
    SplitLast(Clobber(es));
    FitsAt(a, e, []);
    ClobberedBody(e.item);
    FitsAt(a, e', []);
    FitsNone(RawLen(e));
    LayoutLast(a, e, zllen);
    LayoutLast(a, e', zllen);
    LastTwo(HEADER_SIZE + Size(a), Prefix(a, zllen) + PrevField(e.wide, LastLen(0, a)), Body(e.item));
  }

  lemma FitsNone(n: nat)
    ensures Fits(n, []) && Ser(n, []) == []
  {
  }

  lemma LayoutLast(a: seq<Entry>, e: Entry, zllen: nat)
    ensures Layout(a + [e] + [], zllen)
            == Frame(HEADER_SIZE + Size(a), Prefix(a, zllen) + PrevField(e.wide, LastLen(0, a)) + Body(e.item))
  {
    hide Ser, Size, Body, LE, PrevField, Layout, Prefix, Frame;
    LayoutAt(a, e, [], zllen);
    FitsNone(RawLen(e));
    Regroup(Prefix(a, zllen), PrevField(e.wide, LastLen(0, a)), Body(e.item), []);
    assert Body(e.item) + [] == Body(e.item);
  }

  lemma LastTwo(t: nat, x: seq<byte>, b: seq<byte>)
    requires b != []
    ensures var s := Frame(t, x + b);
            && s[|s| - 2] == b[|b| - 1]
            && Frame(t, x + (b[..|b| - 1] + [ZIP_END])) == s[..|s| - 2] + [ZIP_END, ZIP_END]
  {
    hide LE;
    var h := LE(START + |x + b| + 1, 4) + LE(t, 4);
    assert |x + (b[..|b| - 1] + [ZIP_END])| == |x + b|;
    assert h + (x + b) + [ZIP_END] == (h + x + b[..|b| - 1]) + [b[|b| - 1], ZIP_END];
  }

  /** The list that an insert which resizes the buffer by diff bytes goes on with: when
      the buffer loses a byte, the new end marker has overwritten the last one. */
  function Shrunk(es: seq<Entry>, diff: int): (r: seq<Entry>)
    ensures |r| == |es|
  {
    if diff >= 0 || es == [] then es else Clobber(es)
  }

  /** The resize cannot tell the two lists apart, and loses nothing of the second. */
  lemma ShrunkKeeps(es: seq<Entry>, zllen: nat, diff: int, s1: seq<byte>)
    requires es != [] && Fits(0, es) && diff >= -1
    requires |s1| == |Layout(es, zllen)| + diff && Resized(Layout(es, zllen), s1, |s1|)
    ensures Fits(0, Shrunk(es, diff)) && |Layout(Shrunk(es, diff), zllen)| == |Layout(es, zllen)|
    ensures Resized(Layout(Shrunk(es, diff), zllen), s1, |s1|) && Keeps(Layout(Shrunk(es, diff), zllen), |s1|)
  {
    hide Layout, Fits, Clobber, LE;
    ClobberLayout(es, zllen);
    var s, s' := Layout(es, zllen), Layout(Clobber(es), zllen);
    SamePrefix(s', s, |s| - 2, 4, |s| - 2);
  }

  /** Everything in front of the last entry is as before, and so are all pointers. */
  lemma ShrunkAt(es: seq<Entry>, k: nat, diff: int)
    requires k < |es|
    ensures var es' := Shrunk(es, diff);
            es' == es[..k] + [es'[k]] + es'[k + 1..] && es'[..k] == es[..k] && es'[k].wide == es[k].wide
  {
    hide Clobbered;
  }

  lemma ShrunkFits(es: seq<Entry>, diff: int)
    requires Fits(0, es)
    ensures Fits(0, Shrunk(es, diff)) && Size(Shrunk(es, diff)) == Size(es)
  {
    hide Layout, Fits, Clobber, LE, Size;
    if es != [] {
      ClobberLayout(es, 0);
      StoredLenIs(es, 0);
      StoredLenIs(Clobber(es), 0);
    }
  }

  lemma ShrunkReads(a: seq<Entry>, e: Entry, rest: seq<Entry>, e': Entry, rest': seq<Entry>, diff: int)
    requires Fits(0, a + [e] + rest) && Shrunk(a + [e] + rest, diff) == a + [e'] + rest'
    ensures EntryOk(LastLen(0, a), e') && Fits(RawLen(e'), rest')
    ensures RawLen(e') + Size(rest') == RawLen(e) + Size(rest) && |rest'| == |rest|
  {
    hide *;
    ShrunkFits(a + [e] + rest, diff);
    FitsAt(a, e', rest');
    ShrunkSize(a, e, rest, e', rest', diff);
  }

  lemma ShrunkSize(a: seq<Entry>, e: Entry, rest: seq<Entry>, e': Entry, rest': seq<Entry>, diff: int)
    requires Fits(0, a + [e] + rest) && Shrunk(a + [e] + rest, diff) == a + [e'] + rest'
    ensures RawLen(e') + Size(rest') == RawLen(e) + Size(rest) && |rest'| == |rest|
  {
    hide *;
    ShrunkFits(a + [e] + rest, diff);
    SizeAt(a, e, rest);
    SizeAt(a, e', rest');
  }

  lemma SizeAt(a: seq<Entry>, e: Entry, rest: seq<Entry>)
    ensures Size(a + [e] + rest) == Size(a) + RawLen(e) + Size(rest) && |a + [e] + rest| == |a| + 1 + |rest|
  {
    hide *;
    SizeAppend(a + [e], rest);
    SizeAppend(a, [e]);
    SizeOne(e);
  }

  lemma GrowthBefore(es: seq<Entry>, k: nat, item: Item)
    requires k < |es|
    ensures var len := RawLen(NewEntry(LastLen(0, es[..k]), item));
            Growth(es, k, item) == len + PrevSize(len >= ZIP_BIGLEN) - PrevSize(es[k].wide)
  {
  }

  lemma GrowthLast(es: seq<Entry>, item: Item)
    ensures Shrunk(es, Growth(es, |es|, item)) == es
  {
  }

  // ------------------------------------------------------ when the insert is right

  /** The move of line 638 stays inside the resized buffer. */
  predicate InsertInside(es: seq<Entry>, k: nat, item: Item)
    requires k <= |es|
  {
    Growth(es, k, item) >= -1
  }

  /** The buffer does not shrink, or it shrinks by one byte that was an end marker already. */
  predicate InsertRight(es: seq<Entry>, k: nat, item: Item)
    requires k <= |es|
  {
    Growth(es, k, item) >= 0 ||
    (Growth(es, k, item) == -1 && k < |es| && LastByte(es[|es| - 1].item) == ZIP_END)
  }

  /** What __ziplistInsert makes of the entries whenever its move stays inside the buffer. */
  function Inserted(es: seq<Entry>, k: nat, item: Item): (r: seq<Entry>)
    requires k <= |es|
    ensures |r| == |es| + 1
  {
    InsertEntry(Shrunk(es, Growth(es, k, item)), k, item)
  }

  lemma ClobberCons(e: Entry, rest: seq<Entry>)
    requires rest != []
    ensures Clobber([e] + rest) == [e] + Clobber(rest)
  {
    hide Clobbered;
  }

  /** Pointers depend on lengths only, so the cascade commutes with the overwrite. */
  lemma {:induction false} CascadeClobber(rawlen: nat, rest: seq<Entry>)
    requires rest != []
    ensures Cascade(rawlen, Clobber(rest)) == Clobber(Cascade(rawlen, rest))
    decreases |rest|
  {
    hide Clobbered, Body;
    if !(rest[0].wide || rawlen < ZIP_BIGLEN) {
      var e := rest[0].(wide := true);
      if |rest| == 1 {
        assert rest[1..] == [] && Clobber(rest)[1..] == [];
      } else {
        assert rest == [rest[0]] + rest[1..];
        ClobberCons(rest[0], rest[1..]);
        CascadeClobber(RawLen(e), rest[1..]);
        ClobberCons(e, Cascade(RawLen(e), rest[1..]));
      }
    }
  }

  lemma RelinkClobber(prev: nat, es: seq<Entry>)
    requires es != []
    ensures Relink(prev, Clobber(es)) == Clobber(Relink(prev, es))
  {
    hide Clobbered, Body, Cascade;
    var next := es[0].(wide := prev >= ZIP_BIGLEN);
    if |es| == 1 {
      assert es[1..] == [] && Clobber(es)[1..] == [];
      CascadeNone(RawLen(next));
      CascadeNone(RawLen(Clobber(es)[0].(wide := prev >= ZIP_BIGLEN)));
    } else {
      assert es == [es[0]] + es[1..];
      ClobberCons(es[0], es[1..]);
      CascadeClobber(RawLen(next), es[1..]);
      ClobberCons(next, Cascade(RawLen(next), es[1..]));
    }
  }

  lemma CascadeNone(rawlen: nat)
    ensures Cascade(rawlen, []) == []
  {
  }

  /** The overwrite stays on the last entry, wherever in front of it the insert happens. */
  lemma InsertClobber(es: seq<Entry>, k: nat, item: Item)
    requires k < |es|
    ensures InsertEntry(Clobber(es), k, item) == Clobber(InsertEntry(es, k, item))
  {
    hide Clobbered, Body, Relink;
    var e := NewEntry(LastLen(0, es[..k]), item);
    assert Clobber(es)[..k] == es[..k] && Clobber(es)[k..] == Clobber(es[k..]);
    RelinkClobber(RawLen(e), es[k..]);
    ClobberAppend(es[..k] + [e], Relink(RawLen(e), es[k..]));
  }

  lemma ClobberAppend(a: seq<Entry>, b: seq<Entry>)
    requires b != []
    ensures Clobber(a + b) == a + Clobber(b)
  {
    hide Clobbered;
  }

  lemma ClobberIdle(es: seq<Entry>)
    requires es != [] && Fits(0, es)
    ensures Clobber(es) == es <==> LastByte(es[|es| - 1].item) == ZIP_END
  {
    hide Fits, Body, Clobbered, ItemOk;
    var a, e := es[..|es| - 1], es[|es| - 1];
    SplitLast(es);
    FitsAt(a, e, []);
    ClobberedIdle(e.item);
    assert Clobber(es)[|es| - 1].item == Clobbered(e.item);
  }

  /** The bytes that two such lists leave differ exactly in the overwritten one. */
  lemma ClobberShows(es: seq<Entry>, zllen: nat)
    requires es != [] && Fits(0, es)
    ensures Layout(Clobber(es), zllen) == Layout(es, zllen) <==> LastByte(es[|es| - 1].item) == ZIP_END
  {
    hide Layout, Fits, Clobber, LastByte;
    ClobberLayout(es, zllen);
    ClobberIdle(es);
    assert Layout(Clobber(es), zllen)[|Layout(es, zllen)| - 2] == ZIP_END;
  }

  /** The move of line 638 reads the bytes from p - nextdiff up to the old end marker: it stays
      inside the resized buffer unless a two-byte entry goes in front of a five-byte pointer. */
  lemma InsideIff(es: seq<Entry>, k: nat, item: Item, zllen: nat)
    requires k < |es|
    ensures var reqlen := RawLen(NewEntry(LastLen(0, es[..k]), item));
            var nextdiff := PrevSize(reqlen >= ZIP_BIGLEN) - PrevSize(es[k].wide);
            var curlen, p := |Layout(es, zllen)|, Offset(es, k);
            var from, n, size := p - nextdiff, curlen - p - 1 + nextdiff, curlen + reqlen + nextdiff;
            && (from + n <= size <==> InsertInside(es, k, item))
            && (Growth(es, k, item) == -2 <==> reqlen == 2 && es[k].wide)
            && (Growth(es, k, item) == -1 <==> reqlen == 3 && es[k].wide)
  {
    hide Layout, Offset, LastLen, Body;
  }

  /** The move stays inside the buffer and leaves the bytes of the list with the item
      inserted, exactly when the buffer does not shrink or loses one byte that was an end
      marker anyway. */
  lemma RightIff(es: seq<Entry>, k: nat, item: Item, zllen: nat)
    requires k <= |es| && Fits(0, es) && ItemOk(item) && Room(es, |Body(item)| + 9)
    ensures InsertInside(es, k, item) && Layout(Inserted(es, k, item), zllen) == Layout(InsertEntry(es, k, item), zllen)
            <==> InsertRight(es, k, item)
    ensures InsertRight(es, k, item) ==> Inserted(es, k, item) == InsertEntry(es, k, item)
  {
    hide Layout, Fits, Body, Room, Clobber, InsertEntry, LastByte, ItemOk, Growth, Items, Size;
    if Growth(es, k, item) == -1 {
      InsertClobber(es, k, item);
      InsertRefines(es, k, item);
      LastKept(es, k, item);
      ClobberShows(InsertEntry(es, k, item), zllen);
      ClobberIdle(es);
    }
  }

  lemma LastKept(es: seq<Entry>, k: nat, item: Item)
    requires k < |es| && Fits(0, es) && ItemOk(item) && Room(es, |Body(item)| + 9)
    ensures InsertEntry(es, k, item)[|es|].item == es[|es| - 1].item
  {
    hide Fits, Body, Room, ItemOk, InsertEntry;
    InsertRefines(es, k, item);
    var r := InsertEntry(es, k, item);
    assert Items(r)[|es|] == Items(es)[|es| - 1];
  }
}
