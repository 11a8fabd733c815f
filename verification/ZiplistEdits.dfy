/** From the layout of a list to the byte states inside insert and delete, and back. */
module ZiplistEdits {
  import opened Bytes
  import opened ZiplistCodec
  import opened ZiplistLayout
  import opened ZiplistOps
  import opened ZiplistBytes
  import opened ZiplistCascade

  /** zllen and the entries a. */
  function Prefix(a: seq<Entry>, zllen: nat): (s: seq<byte>)
  {
    LE(zllen, 2) + Ser(0, a)
  }

  lemma PrefixSize(a: seq<Entry>, zllen: nat)
    ensures START + |Prefix(a, zllen)| == HEADER_SIZE + Size(a)
  {
    SerSize(0, a);
  }

  lemma LayoutFrame(es: seq<Entry>, zllen: nat)
    ensures Layout(es, zllen) == Frame(TailOffset(es), Prefix(es, zllen))
  {
    hide LE, TailOffset, Ser;
    SerSize(0, es);
    LayoutGroup(LE(HEADER_SIZE + Size(es) + 1, 4), LE(TailOffset(es), 4), LE(zllen, 2), Ser(0, es), [ZIP_END]);
  }

  lemma LayoutGroup<T>(a: seq<T>, b: seq<T>, c: seq<T>, d: seq<T>, e: seq<T>)
    ensures a + b + c + d + e == a + b + (c + d) + e
  {
  }

  /** Where the last entry of a + [e] + rest begins. */
  lemma TailOf(a: seq<Entry>, e: Entry, rest: seq<Entry>)
    ensures TailOffset(a + [e] + rest) == TailFrom(HEADER_SIZE + Size(a), e, rest)
  {
    hide RawLen, Body, Size;
    if rest == [] {
      InitLast(a, e);
    } else {
      InitAppend(a + [e], rest);
      SizeAppend(a + [e], rest[..|rest| - 1]);
      SizeAppend(a, [e]);
      SizeOne(e);
    }
  }

  lemma SizeOne(e: Entry)
    ensures Size([e]) == RawLen(e)
  {
    assert [e][1..] == [];
  }

  lemma InitLast<T>(a: seq<T>, e: T)
    ensures (a + [e] + [])[..|a|] == a && a + [e] + [] == a + [e]
  {
  }

  lemma InitAppend<T>(a: seq<T>, b: seq<T>)
    requires b != []
    ensures (a + b)[..|a + b| - 1] == a + b[..|b| - 1]
  {
  }

  /** A list cut at one of its entries, as a frame. */
  lemma LayoutAt(a: seq<Entry>, e: Entry, rest: seq<Entry>, zllen: nat)
    ensures Layout(a + [e] + rest, zllen)
            == Frame(TailFrom(HEADER_SIZE + Size(a), e, rest),
                     Prefix(a, zllen) + Raw(LastLen(0, a), e) + Ser(RawLen(e), rest))
  {
    hide LE, TailOffset, TailFrom, Frame, Raw, Size, Layout;
    var es := a + [e] + rest;
    LayoutFrame(es, zllen);
    TailOf(a, e, rest);
    SerAppend(0, a + [e], rest);
    SerAppend(0, a, [e]);
    SerOne(LastLen(0, a), e);
    LayoutAtGroup(LE(zllen, 2), Ser(0, a), Raw(LastLen(0, a), e), Ser(RawLen(e), rest));
  }

  lemma LayoutAtGroup<T>(a: seq<T>, b: seq<T>, c: seq<T>, d: seq<T>)
    ensures a + (b + c + d) == (a + b) + c + d
  {
  }

  lemma SerOne(prev: nat, e: Entry)
    ensures Ser(prev, [e]) == Raw(prev, e)
  {
    hide LE, Raw;
    assert [e][1..] == [];
    assert Ser(RawLen(e), [e][1..]) == [];
    assert Raw(prev, e) + [] == Raw(prev, e);
  }

  lemma FitsAt(a: seq<Entry>, e: Entry, rest: seq<Entry>)
    ensures Fits(0, a + [e] + rest) <==> Fits(0, a) && EntryOk(LastLen(0, a), e) && Fits(RawLen(e), rest)
  {
    hide LE, Raw;
    FitsAppend(0, a + [e], rest);
    FitsAppend(0, a, [e]);
    assert [e][1..] == [];
  }

  /** The move of lines 632-641, on the list a + [e] + rest with p in front of e. */
  lemma GapBefore(s0: seq<byte>, s1: seq<byte>, a: seq<Entry>, e: Entry, rest: seq<Entry>, zllen: nat, len: nat)
    requires s0 == Layout(a + [e] + rest, zllen)
    requires var w := PrevSize(len >= ZIP_BIGLEN);
             && |s1| == |s0| + len + w - PrevSize(e.wide)
             && Resized(s0, s1, |s1|) && Keeps(s0, |s1|)
    ensures var p := HEADER_SIZE + Size(a);
            var next := e.(wide := len >= ZIP_BIGLEN);
            var w := PrevSize(next.wide);
            && |s0| == p + RawLen(e) + Size(rest) + 1
            && |s1| == p + len + RawLen(next) + Size(rest) + 1
            && p == START + |Prefix(a, zllen)|
            && var s3 := Blit(Moved(s1, p + len, p + PrevSize(e.wide) - w, |s0| - p - 1 + w - PrevSize(e.wide)),
                              p + len, PrevField(next.wide, len));
               s3 == Frame(TailFrom(p, e, rest),
                           Prefix(a, zllen) + s3[p..p + len] + Raw(len, next) + Ser(RawLen(e), rest))
  {
    hide LE, Ser, Size, TailFrom, Frame, Moved, Blit, Body, PrevField, Prefix, Layout;
    var p := HEADER_SIZE + Size(a);
    var x := Prefix(a, zllen);
    var next := e.(wide := len >= ZIP_BIGLEN);
    var f, f' := PrevField(e.wide, LastLen(0, a)), PrevField(next.wide, len);
    var z := Ser(RawLen(e), rest);
    var b := Body(e.item);
    PrefixSize(a, zllen);
    SerSize(RawLen(e), rest);
    LayoutAt(a, e, rest, zllen);
    Regroup(x, f, b, z);
    OpenGap(s0, s1, TailFrom(p, e, rest), x, f, f', b + z, len);
    var s3 := Blit(Moved(s1, p + len, p + |f| - |f'|, |b + z| + |f'|), p + len, f');
    Regroup(x + s3[p..p + len], f', b, z);
  }

  /** The tail offset after the insertion moved e and everything behind it. */
  lemma TailMoved(p: nat, e: Entry, rest: seq<Entry>, len: nat, wide: bool)
    ensures var next := e.(wide := wide);
            TailFrom(p + len, next, rest)
            == TailFrom(p, e, rest) + len + (if rest == [] then 0 else PrevSize(wide) - PrevSize(e.wide))
  {
  }

  /** Every entry of a list can be read in place. */
  lemma LayoutReads(s: seq<byte>, a: seq<Entry>, e: Entry, rest: seq<Entry>, zllen: nat)
    requires s == Layout(a + [e] + rest, zllen) && Fits(0, a + [e] + rest) && |s| < TWO32
    ensures var p := HEADER_SIZE + Size(a);
            && HEADER_SIZE <= |s| && p + RawLen(e) < |s|
            && ReadsAs(s, p, LastLen(0, a), e)
            && |s| == p + RawLen(e) + Size(rest) + 1
            && StoredTail(s) == TailFrom(p, e, rest) < |s|
            && (s[p + RawLen(e)] == ZIP_END <==> rest == [])
    ensures EntryOk(LastLen(0, a), e) && Fits(RawLen(e), rest)
  {
    hide LE, FromLE, Ser, Raw, Size, TailFrom, Frame, Body, Layout, Prefix;
    FitsAt(a, e, rest);
    PrefixSize(a, zllen);
    SerSize(RawLen(e), rest);
    LayoutAt(a, e, rest, zllen);
    TailFromBound(HEADER_SIZE + Size(a), e, rest);
    MovedReads(s, TailFrom(HEADER_SIZE + Size(a), e, rest), Prefix(a, zllen), LastLen(0, a), e, RawLen(e), rest);
  }

  lemma MovedReads(s: seq<byte>, t: nat, m: seq<byte>, prev: nat, e: Entry, stale: nat, rest: seq<Entry>)
    requires s == Frame(t, m + Raw(prev, e) + Ser(stale, rest)) && |s| < TWO32 && t < TWO32
    requires EntryOk(prev, e) && Fits(stale, rest)
    ensures var p := START + |m|;
            && |s| >= HEADER_SIZE && p + RawLen(e) < |s|
            && ReadsAs(s, p, prev, e)
            && StoredTail(s) == t
            && (s[p + RawLen(e)] == ZIP_END <==> rest == [])
  {
    hide LE, FromLE, Ser, Raw, Frame, Body, Fits;
    FrameReads(s, t, m, prev, e, stale, rest);
    FrameReadsNext(s, t, m, prev, e, stale, rest);
    FrameFields(t, m + Raw(prev, e) + Ser(stale, rest));
  }

  lemma StoredLenIs(es: seq<Entry>, zllen: nat)
    requires zllen <= UINT16_MAX
    ensures |Layout(es, zllen)| == HEADER_SIZE + Size(es) + 1
    ensures StoredLen(Layout(es, zllen)) == zllen
  {
    hide LE, FromLE, Ser, Size, TailOffset;
    SerSize(0, es);
    Pow256Values();
    LEUnsigned(zllen, 2);
    assert Layout(es, zllen)[8..10] == LE(zllen, 2);
  }

  lemma LenField(t: nat, zllen: nat, y: seq<byte>)
    requires zllen <= UINT16_MAX
    ensures StoredLen(Frame(t, LE(zllen, 2) + y)) == zllen
  {
    hide LE, FromLE;
    Pow256Values();
    LEUnsigned(zllen, 2);
    assert Frame(t, LE(zllen, 2) + y)[8..10] == LE(zllen, 2);
  }

  lemma LenRewritten(t: nat, zllen: nat, zllen': nat, y: seq<byte>)
    ensures Blit(Frame(t, LE(zllen, 2) + y), 8, LE(zllen', 2)) == Frame(t, LE(zllen', 2) + y)
  {
    hide LE;
    assert [] + LE(zllen, 2) + y == LE(zllen, 2) + y;
    assert [] + LE(zllen', 2) + y == LE(zllen', 2) + y;
    FrameBlit(t, [], LE(zllen, 2), LE(zllen', 2), y);
  }

  /** Lines 668-675: the new entry written into the gap completes the list. */
  lemma InsertDone(a: seq<Entry>, e: Entry, next: Entry, r: seq<Entry>, zllen: nat)
    ensures Frame(TailFrom(HEADER_SIZE + Size(a) + RawLen(e), next, r),
                  Prefix(a, zllen) + Raw(LastLen(0, a), e) + (Raw(RawLen(e), next) + Ser(RawLen(next), r)))
            == Layout(a + [e] + ([next] + r), zllen)
  {
    hide LE, Raw, Size, TailFrom, Frame, Layout, Prefix, LastLen;
    LayoutAt(a, e, [next] + r, zllen);
    TailShift(HEADER_SIZE + Size(a), e, next, r);
    SerCons(RawLen(e), next, r);
  }

  lemma SerCons(prev: nat, e: Entry, r: seq<Entry>)
    ensures Ser(prev, [e] + r) == Raw(prev, e) + Ser(RawLen(e), r)
  {
    hide LE, Raw;
    assert ([e] + r)[1..] == r;
  }

  lemma AppendDone(a: seq<Entry>, e: Entry, zllen: nat)
    ensures Frame(HEADER_SIZE + Size(a), Prefix(a, zllen) + Raw(LastLen(0, a), e) + [])
            == Layout(a + [e] + [], zllen)
  {
    hide LE, Raw, Size, Frame, Layout, Prefix, LastLen;
    LayoutAt(a, e, [], zllen);
  }

  /** Growing at the end of the list a. */
  lemma GapAtEnd(s0: seq<byte>, s1: seq<byte>, a: seq<Entry>, zllen: nat, len: nat)
    requires s0 == Layout(a, zllen) && Resized(s0, s1, |s0| + len)
    ensures var p := HEADER_SIZE + Size(a);
            p + len < |s1| && s1 == Frame(TailOffset(a), Prefix(a, zllen) + s1[p..p + len] + [])
  {
    hide LE, Ser, Size, TailOffset, Frame, Layout, Prefix, Moved, Blit;
    var x := Prefix(a, zllen);
    var p := START + |x|;
    LayoutFrame(a, zllen);
    PrefixSize(a, zllen);
    assert x + [] + [] == x;
    OpenGap(s0, s1, TailOffset(a), x, [], [], [], len);
    MoveNothing(s1, p + len, p);
    assert x + s1[p..p + len] + [] + [] == x + s1[p..p + len] + [];
  }

  lemma MoveNothing(s: seq<byte>, dst: nat, src: nat)
    requires dst <= |s| && src <= |s|
    ensures Blit(Moved(s, dst, src, 0), dst, []) == s
  {
  }

  /** The end of the list: the end marker, and the tail entry in front of it. */
  lemma LayoutEndReads(s: seq<byte>, a: seq<Entry>, zllen: nat)
    requires s == Layout(a, zllen) && Fits(0, a) && |s| < TWO32
    ensures HEADER_SIZE + Size(a) == |s| - 1 && s[HEADER_SIZE + Size(a)] == ZIP_END
    ensures var t := StoredTail(s);
            t < |s| && (s[t] == ZIP_END <==> a == []) &&
            (a != [] ==> Readable(s, t) && RawEntryLength(s, t) == LastLen(0, a))
  {
    hide LE, FromLE, Ser, Size, Frame, Layout, Prefix, Readable, RawEntryLength, Fits, RawLen, TailOffset, LastLen;
    LayoutFrame(a, zllen);
    PrefixSize(a, zllen);
    if a == [] {
      EmptyTail();
      FrameFields(HEADER_SIZE, Prefix(a, zllen));
    } else {
      SplitLast(a);
      LayoutLastReads(s, a[..|a| - 1], a[|a| - 1], zllen);
      FrameEnd(TailOffset(a), Prefix(a, zllen));
    }
  }

  lemma EmptyTail()
    ensures TailOffset([]) == HEADER_SIZE && Size([]) == 0
  {
  }

  lemma FrameEnd(t: nat, x: seq<byte>)
    ensures Frame(t, x)[START + |x|] == ZIP_END
  {
    hide LE;
  }

  lemma SplitLast<T>(a: seq<T>)
    requires a != []
    ensures a == a[..|a| - 1] + [a[|a| - 1]] + []
  {
  }

  lemma LayoutLastReads(s: seq<byte>, a: seq<Entry>, e: Entry, zllen: nat)
    requires s == Layout(a + [e] + [], zllen) && Fits(0, a + [e] + []) && |s| < TWO32
    ensures |s| >= HEADER_SIZE
    ensures var t := StoredTail(s);
            t < |s| && s[t] != ZIP_END && Readable(s, t) && RawEntryLength(s, t) == LastLen(0, a + [e] + [])
  {
    hide LE, FromLE, Ser, Frame, Layout, Prefix, Readable, RawEntryLength, Fits, RawLen, Size;
    LayoutReads(s, a, e, [], zllen);
  }

  lemma SplitAt<T>(s: seq<T>, k: nat)
    requires k < |s|
    ensures s == s[..k] + [s[k]] + s[k + 1..]
  {
  }

  /** Where the field of the entry behind the deleted bytes d is rewritten (lines 549-551):
      f' ends where f ended, so it may reach back into d or leave some of f behind. */
  lemma Overlap(t: nat, x: seq<byte>, d: seq<byte>, f: seq<byte>, f': seq<byte>, y: seq<byte>)
    requires |f'| <= |d| + |f|
    ensures var d' := (d + f)[..|d| + |f| - |f'|];
            Blit(Frame(t, x + d + f + y), START + |x| + |d'|, f') == Frame(t, x + d' + f' + y)
  {
    hide LE, Frame, Blit;
    var n := |d| + |f| - |f'|;
    var d', g := (d + f)[..n], (d + f)[n..];
    Halves(d + f, n);
    assert x + d + f + y == (x + d') + g + y by {
      Assoc3(x, d, f);
      Assoc3(x, d', g);
    }
    FrameBlit(t, x + d', g, f', y);
  }

  /** Offsets around the deleted entries b, and why the rewritten pointer has room. */
  lemma DeleteFacts(a: seq<Entry>, b: seq<Entry>, c: Entry, rest: seq<Entry>, zllen: nat)
    requires Fits(0, a + b + [c] + rest) && b != []
    ensures var prev := LastLen(0, a);
            && EntryOk(prev, c.(wide := prev >= ZIP_BIGLEN))
            && HEADER_SIZE + Size(a) == START + |Prefix(a, zllen)|
            && Size(a + b) == Size(a) + Size(b)
            && |Ser(prev, b)| == Size(b) >= PrevSize(prev >= ZIP_BIGLEN)
    ensures Fits(RawLen(c), rest)
  {
    hide LE, Ser, Size, Prefix, RawLen, Body;
    FitsAt(a + b, c, rest);
    FitsAppend(0, a, b);
    SizeAppend(a, b);
    SerSize(LastLen(0, a), b);
    FirstFits(LastLen(0, a), b);
    PrefixSize(a, zllen);
  }

  /** Lines 549-551 on the list a + b + [c] + rest, b being deleted; d' is what is
      left between a and the rewritten entry. */
  lemma DeleteField(s: seq<byte>, a: seq<Entry>, b: seq<Entry>, c: Entry, rest: seq<Entry>, zllen: nat)
    returns (d': seq<byte>)
    requires s == Layout(a + b + [c] + rest, zllen) && Fits(0, a + b + [c] + rest) && b != []
    ensures var prev := LastLen(0, a);
            var next := c.(wide := prev >= ZIP_BIGLEN);
            var p, q := HEADER_SIZE + Size(a), HEADER_SIZE + Size(a + b);
            && |d'| == q - p + PrevSize(c.wide) - PrevSize(next.wide)
            && p + |d'| + PrevSize(next.wide) <= |s|
            && Blit(s, p + |d'|, PrevField(next.wide, prev))
               == Frame(TailFrom(q, c, rest), Prefix(a, zllen) + d' + Raw(prev, next) + Ser(RawLen(c), rest))
  {
    hide LE, Ser, Size, TailFrom, Frame, Blit, Body, PrevField, Layout, Prefix, LastLen, Fits;
    var prev := LastLen(0, a);
    var next := c.(wide := prev >= ZIP_BIGLEN);
    var x, d := Prefix(a, zllen), Ser(prev, b);
    var f, f' := PrevField(c.wide, LastLen(0, a + b)), PrevField(next.wide, prev);
    var h, z := Body(c.item), Ser(RawLen(c), rest);
    var t := TailFrom(HEADER_SIZE + Size(a + b), c, rest);
    DeleteFacts(a, b, c, rest, zllen);
    LayoutAt(a + b, c, rest, zllen);
    PrefixAppend(a, b, zllen);
    Regroup(x + d, f, h, z);
    d' := (d + f)[..|d| + |f| - |f'|];
    Overlap(t, x, d, f, f', h + z);
    Regroup(x + d', f', h, z);
    FrameLonger(t, x + d, f, h + z);
  }

  lemma FrameLonger(t: nat, x: seq<byte>, f: seq<byte>, y: seq<byte>)
    ensures START + |x| + |f| <= |Frame(t, x + f + y)|
  {
  }

  lemma PrefixAppend(a: seq<Entry>, b: seq<Entry>, zllen: nat)
    ensures Prefix(a + b, zllen) == Prefix(a, zllen) + Ser(LastLen(0, a), b)
  {
    hide LE, Ser, LastLen;
    SerAppend(0, a, b);
    Assoc3(LE(zllen, 2), Ser(0, a), Ser(LastLen(0, a), b));
  }

  /** A back pointer that needs five bytes was stored in the first deleted entry. */
  lemma FirstFits(prev: nat, b: seq<Entry>)
    requires Fits(prev, b) && b != []
    ensures Size(b) >= PrevSize(prev >= ZIP_BIGLEN) && prev < TWO32
  {
  }

  /** The tail of what is left when the entries from a's end on are deleted. */
  lemma TailBefore(a: seq<Entry>)
    ensures TailOffset(a) == HEADER_SIZE + Size(a) - LastLen(0, a)
  {
    hide RawLen, Body, Size;
    if a != [] {
      var n := |a| - 1;
      SplitLast(a);
      assert a[..n] + [a[n]] == a;
      SizeAppend(a[..n], [a[n]]);
      SizeOne(a[n]);
    } else {
      EmptyTail();
    }
  }

  /** The tail offset once c, made wide or narrow, has moved from q up to p. */
  lemma TailPulled(p: nat, q: nat, c: Entry, rest: seq<Entry>, wide: bool)
    requires p <= q
    ensures TailFrom(q, c, rest) >= q
    ensures TailFrom(p, c.(wide := wide), rest)
            == TailFrom(q, c, rest) - (q - p) + (if rest == [] then 0 else PrevSize(wide) - PrevSize(c.wide))
  {
  }

  lemma PrefixIs(a: seq<Entry>, zllen: nat, y: seq<byte>)
    ensures LE(zllen, 2) + (Ser(0, a) + y) == Prefix(a, zllen) + y
  {
    hide LE, Ser;
    Assoc3(LE(zllen, 2), Ser(0, a), y);
  }

  lemma TruncateReady(t: nat, x: seq<byte>, d: seq<byte>)
    ensures Frame(t, x + d)[4..START + |x|] == LE(t, 4) + x
  {
    hide LE;
  }

  lemma PrefixLen(a: seq<Entry>, zllen: nat)
    ensures Prefix(a, zllen) == LE(zllen, 2) + Ser(0, a)
  {
  }

  /** Entry k of a list is found at its offset, and behind it entry k + 1 or the end. */
  lemma EntryReads(s: seq<byte>, es: seq<Entry>, zllen: nat, k: nat)
    requires s == Layout(es, zllen) && Fits(0, es) && |s| < TWO32 && k < |es|
    ensures ReadsAs(s, Offset(es, k), LastLen(0, es[..k]), es[k])
    ensures Offset(es, k + 1) == Offset(es, k) + RawLen(es[k]) < |s|
    ensures s[Offset(es, k + 1)] == ZIP_END <==> k + 1 == |es|
  {
    hide LE, FromLE, Ser, Size, Layout, LastLen, Fits, RawLen, TailFrom, ReadsAs, Offset;
    OffsetStep(es, k);
    OffsetIs(es, k);
    var a, e, rest := es[..k], es[k], es[k + 1..];
    assert es == a + [e] + rest by { SplitAt(es, k); }
    LayoutReads(s, a, e, rest, zllen);
  }

  lemma OffsetIs(es: seq<Entry>, k: nat)
    requires k <= |es|
    ensures Offset(es, k) == HEADER_SIZE + Size(es[..k])
  {
  }

  lemma EmptyLayout()
    ensures Layout([], 0) == Header(HEADER_SIZE + 1, HEADER_SIZE, 0) + [ZIP_END]
  {
    hide LE;
    assert Header(HEADER_SIZE + 1, HEADER_SIZE, 0) + [] == Header(HEADER_SIZE + 1, HEADER_SIZE, 0);
  }

  /** The list around the deleted entries, in the forms the two cases of the delete use. */
  lemma SplitDeleted(es: seq<Entry>, k: nat, m: nat)
    requires 0 < m && k + m <= |es|
    ensures es[..k] + es[k..k + m] == es[..k + m] && es[k..k + m] != []
    ensures es == es[..k] + es[k..]
    ensures k + m < |es| ==> es == es[..k] + es[k..k + m] + [es[k + m]] + es[k + m + 1..]
                             && es[k + m..] == [es[k + m]] + es[k + m + 1..]
    ensures k + m == |es| ==> es[k..k + m] == es[k..] && es[k + m..] == []
    ensures HEADER_SIZE + Size(es[..k + m]) == Offset(es, k + m) && HEADER_SIZE + Size(es[..k]) == Offset(es, k)
    ensures Size(es[..k + m]) == Size(es[..k]) + Size(es[k..k + m])
    ensures LastLen(0, es[..k]) <= Size(es[..k])
  {
    hide Size, LastLen;
    PrefixSplit(es, k, m);
    SizeAppend(es[..k], es[k..k + m]);
    LastLenBound(es[..k]);
    if k + m < |es| {
      SplitAt(es, k + m);
      SplitTail(es, k + m);
    }
  }

  lemma PrefixSplit<T>(s: seq<T>, k: nat, m: nat)
    requires k + m <= |s|
    ensures s[..k] + s[k..k + m] == s[..k + m] && s == s[..k] + s[k..]
  {
  }

  /** What the code finds at position k, 0 <= k <= |es|: entry k or the end marker. */
  lemma PositionReads(s: seq<byte>, es: seq<Entry>, zllen: nat, k: nat)
    requires s == Layout(es, zllen) && Fits(0, es) && |s| < TWO32 && k <= |es|
    ensures Offset(es, k) < |s| && (s[Offset(es, k)] == ZIP_END <==> k == |es|)
    ensures k < |es| ==> && Readable(s, Offset(es, k))
                         && RawEntryLength(s, Offset(es, k)) == RawLen(es[k])
                         && ZipEntry(s, Offset(es, k)).prevLen == LastLen(0, es[..k])
                         && Offset(es, k + 1) == Offset(es, k) + RawLen(es[k]) < |s|
                         && (s[Offset(es, k + 1)] == ZIP_END <==> k + 1 == |es|)
  {
    hide LE, FromLE, Ser, Size, Layout, LastLen, Fits, RawLen, Offset;
    if k < |es| {
      EntryReads(s, es, zllen, k);
    } else {
      OffsetEnd(es);
      LayoutEndReads(s, es, zllen);
    }
  }

  lemma TailReads(s: seq<byte>, es: seq<Entry>, zllen: nat)
    requires s == Layout(es, zllen) && Fits(0, es) && |s| < TWO32
    ensures |s| >= HEADER_SIZE && StoredTail(s) < |s|
    ensures es == [] ==> s[StoredTail(s)] == ZIP_END
    ensures es != [] ==> s[StoredTail(s)] != ZIP_END && StoredTail(s) == Offset(es, |es| - 1)
  {
    hide LE, FromLE, Ser, Size, Layout, LastLen, Fits, RawLen, Offset, Frame, Prefix;
    LayoutEndReads(s, es, zllen);
    LayoutFrame(es, zllen);
    PrefixSize(es, zllen);
    TailBound(es);
    FrameFields(TailOffset(es), Prefix(es, zllen));
  }

  lemma TailBound(es: seq<Entry>)
    ensures TailOffset(es) <= HEADER_SIZE + Size(es)
  {
    hide Size, Offset;
    if es != [] {
      OffsetBound(es, |es| - 1, |es|);
      OffsetEnd(es);
    }
  }

  lemma OffsetZero(es: seq<Entry>)
    ensures Offset(es, 0) == HEADER_SIZE
  {
  }

  lemma PrevStep(es: seq<Entry>, k: nat)
    requires 0 < k <= |es|
    ensures Offset(es, k - 1) == Offset(es, k) - LastLen(0, es[..k])
  {
    hide Offset, RawLen;
    assert es[..k][k - 1] == es[k - 1];
    OffsetStep(es, k - 1);
  }

  lemma ItemReads(s: seq<byte>, es: seq<Entry>, zllen: nat, k: nat)
    requires s == Layout(es, zllen) && Fits(0, es) && |s| < TWO32 && k < |es|
    ensures Readable(s, Offset(es, k)) && Offset(es, k) + RawEntryLength(s, Offset(es, k)) <= |s|
    ensures LoadItem(s, Offset(es, k)) == es[k].item
  {
    hide LE, FromLE, Ser, Size, Layout, LastLen, Raw, RawLen, Body, Frame, Prefix, TailFrom, Offset,
         LoadItem, ReadsAs, RawEntryLength, Readable;
    var a, e, rest := es[..k], es[k], es[k + 1..];
    assert es == a + [e] + rest by { SplitAt(es, k); }
    OffsetIs(es, k);
    FitsAt(a, e, rest);
    LayoutAt(a, e, rest, zllen);
    PrefixSize(a, zllen);
    FrameSlice(TailFrom(HEADER_SIZE + Size(a), e, rest), Prefix(a, zllen), Raw(LastLen(0, a), e), Ser(RawLen(e), rest));
    ItemDecodes(s, Offset(es, k), LastLen(0, a), e);
  }

  lemma LayoutSize(a: seq<Entry>, e: Entry, rest: seq<Entry>, zllen: nat)
    ensures |Layout(a + [e] + rest, zllen)| == HEADER_SIZE + Size(a) + RawLen(e) + Size(rest) + 1
  {
    hide LE, Ser, Size, TailFrom, Layout, Prefix, Raw;
    PrefixSize(a, zllen);
    SerSize(RawLen(e), rest);
    LayoutAt(a, e, rest, zllen);
  }
}
