/** The state of the buffer while __ziplistCascadeUpdate walks it: everything up
    to and including the entry e at p is final, and the entries behind it are
    linked among themselves, but the first of them still records the length that
    e had before (stale). */
module ZiplistCascade {
  import opened Bytes
  import opened ZiplistCodec
  import opened ZiplistLayout
  import opened ZiplistOps
  import opened ZiplistBytes

  /** Offset of the last entry when e sits at p and rest follows it. */
  function TailFrom(p: nat, e: Entry, rest: seq<Entry>): (t: nat) {
    if rest == [] then p else p + RawLen(e) + Size(rest[..|rest| - 1])
  }

  ghost predicate Walking(s: seq<byte>, p: nat, m: seq<byte>, prev: nat, e: Entry, stale: nat, rest: seq<Entry>) {
    && p == START + |m|
    && s == Frame(TailFrom(p, e, rest), m + Raw(prev, e) + Ser(stale, rest))
    && EntryOk(prev, e) && Fits(stale, rest)
    && |s| + 4 * |rest| < TWO32
  }

  /** What the cascade must leave: the same entries, linked, pointers widened. */
  ghost predicate Settled(s: seq<byte>, p: nat, m: seq<byte>, prev: nat, e: Entry, rest: seq<Entry>) {
    var r := Cascade(RawLen(e), rest);
    s == Frame(TailFrom(p, e, r), m + Raw(prev, e) + Ser(RawLen(e), r))
  }

  lemma FrameSlice(t: nat, a: seq<byte>, b: seq<byte>, c: seq<byte>)
    ensures Frame(t, a + b + c)[START + |a|..START + |a| + |b|] == b
    ensures Frame(t, a + b + c)[START + |a| + |b|..] == c + [ZIP_END]
  {
    hide LE;
  }

  lemma {:induction false} TailFromBound(p: nat, e: Entry, rest: seq<Entry>)
    ensures TailFrom(p, e, rest) + 2 <= p + RawLen(e) + Size(rest)
  {
    if rest != [] {
      var n := |rest| - 1;
      assert rest == rest[..n] + [rest[n]];
      SizeAppend(rest[..n], [rest[n]]);
      RawLenBound(0, rest[n]);
    }
  }

  lemma WalkingSize(s: seq<byte>, p: nat, m: seq<byte>, prev: nat, e: Entry, stale: nat, rest: seq<Entry>)
    requires Walking(s, p, m, prev, e, stale, rest)
    ensures |s| == p + RawLen(e) + Size(rest) + 1
  {
    SerSize(stale, rest);
  }

  /** What the code reads at p and behind it, whatever tail offset the header holds. */
  lemma FrameReads(s: seq<byte>, t: nat, m: seq<byte>, prev: nat, e: Entry, stale: nat, rest: seq<Entry>)
    requires s == Frame(t, m + Raw(prev, e) + Ser(stale, rest)) && EntryOk(prev, e)
    ensures var p := START + |m|;
            ReadsAs(s, p, prev, e)
  {
    hide LE, Ser, Raw, RawEntryLength, Readable, Body;
    FrameSlice(t, m, Raw(prev, e), Ser(stale, rest));
    HeaderDecodes(s, START + |m|, prev, e);
  }

  /** What the code reads behind e: the end marker, or an entry recording stale. */
  lemma FrameReadsNext(s: seq<byte>, t: nat, m: seq<byte>, prev: nat, e: Entry, stale: nat, rest: seq<Entry>)
    requires s == Frame(t, m + Raw(prev, e) + Ser(stale, rest)) && Fits(stale, rest)
    ensures var q := START + |m| + RawLen(e);
            && q < |s|
            && (rest == [] ==> s[q] == ZIP_END)
            && (rest != [] ==> s[q] != ZIP_END && Readable(s, q) && ZipEntry(s, q).prevLen == stale
                               && ZipEntry(s, q).prevSize == PrevSize(rest[0].wide))
  {
    hide LE, Raw, ZipEntry, RawEntryLength, Readable, Body;
    FrameSlice(t, m, Raw(prev, e), Ser(stale, rest));
    if rest != [] {
      var q := START + |m| + RawLen(e);
      var r := Raw(stale, rest[0]);
      assert s[q..] == r + Ser(RawLen(rest[0]), rest[1..]) + [ZIP_END];
      SubSlice(s, q, |s|, 0, |r|);
      assert s[q..][0..|r|] == r;
      HeaderDecodes(s, q, stale, rest[0]);
    }
  }

  lemma WalkingReads(s: seq<byte>, p: nat, m: seq<byte>, prev: nat, e: Entry, stale: nat, rest: seq<Entry>)
    requires Walking(s, p, m, prev, e, stale, rest)
    ensures p == START + |m| && ReadsAs(s, p, prev, e)
  {
    hide LE, Ser, Raw, Fits, ZipEntry, RawEntryLength, Readable, Size, Body, TailFrom;
    FrameReads(s, TailFrom(p, e, rest), m, prev, e, stale, rest);
  }

  lemma WalkingReadsNext(s: seq<byte>, p: nat, m: seq<byte>, prev: nat, e: Entry, stale: nat, rest: seq<Entry>)
    requires Walking(s, p, m, prev, e, stale, rest)
    ensures var q := p + RawLen(e);
            && q < |s|
            && (rest == [] ==> s[q] == ZIP_END)
            && (rest != [] ==> s[q] != ZIP_END && Readable(s, q) && ZipEntry(s, q).prevLen == stale
                               && ZipEntry(s, q).prevSize == PrevSize(rest[0].wide))
  {
    hide LE, Raw, Fits, ZipEntry, RawEntryLength, Readable, Size, Body, TailFrom;
    FrameReadsNext(s, TailFrom(p, e, rest), m, prev, e, stale, rest);
  }

  /** The first entry of rest, taken apart: its back pointer and all that follows. */
  lemma SerHead(x: seq<byte>, prev: nat, rest: seq<Entry>)
    requires rest != []
    ensures x + Ser(prev, rest) == x + PrevField(rest[0].wide, prev) + Behind(rest)
  {
    hide LE, Body, PrevField;
    Regroup(x, PrevField(rest[0].wide, prev), Body(rest[0].item), Ser(RawLen(rest[0]), rest[1..]));
    assert Ser(prev, rest) == Raw(prev, rest[0]) + Ser(RawLen(rest[0]), rest[1..]);
    Assoc3(x, Raw(prev, rest[0]), Ser(RawLen(rest[0]), rest[1..]));
  }

  /** The bytes of rest behind its first back pointer. */
  function Behind(rest: seq<Entry>): (s: seq<byte>)
    requires rest != []
  {
    Body(rest[0].item) + Ser(RawLen(rest[0]), rest[1..])
  }

  /** Widening next (lines 491-508), for whatever tail offset the buffer carries. */
  lemma WidenNext(s: seq<byte>, s1: seq<byte>, t: nat, x: seq<byte>, rawlen: nat, stale: nat, rest: seq<Entry>)
    requires rest != [] && !rest[0].wide
    requires s == Frame(t, x + Ser(stale, rest)) && Resized(s, s1, |s| + 4)
    ensures var q := START + |x|;
            q + 2 <= |s| &&
            Blit(Moved(s1, q + 5, q + 1, |s| - q - 2), q, PrevField(true, rawlen))
            == Frame(t, x + Raw(rawlen, rest[0].(wide := true)) + Ser(RawLen(rest[0]), rest[1..]))
  {
    hide LE, Fits, Size, Ser, Frame, PrevField, Body, Moved, Blit;
    var f, f' := PrevField(false, stale), PrevField(true, rawlen);
    SerHead(x, stale, rest);
    GrowField(s, s1, t, x, f, f', Behind(rest));
    Regroup(x, f', Body(rest[0].item), Ser(RawLen(rest[0]), rest[1..]));
  }

  lemma Regroup<T>(a: seq<T>, b: seq<T>, c: seq<T>, d: seq<T>)
    ensures a + b + (c + d) == a + (b + c) + d
  {
  }

  /** The tail offset moves by four exactly when next is not the last entry. */
  lemma WidenTail(p: nat, e: Entry, rest: seq<Entry>)
    requires rest != [] && !rest[0].wide
    ensures var q := p + RawLen(e);
            var t, t' := TailFrom(p, e, rest), TailFrom(q, rest[0].(wide := true), rest[1..]);
            t' == if t != q then t + 4 else t
  {
    if |rest| > 1 {
      var init := rest[..|rest| - 1];
      assert init[1..] == rest[1..][..|rest| - 2];
      assert Size(init) == RawLen(rest[0]) + Size(rest[1..][..|rest| - 2]);
    } else {
      assert rest[..0] == [];
    }
  }

  /** After widening next, the walk continues from it and aims at the same end. */
  lemma WidenWalks(s': seq<byte>, p: nat, m: seq<byte>, prev: nat, e: Entry, stale: nat, rest: seq<Entry>)
    requires EntryOk(prev, e) && Fits(stale, rest) && RawLen(e) >= ZIP_BIGLEN
    requires rest != [] && !rest[0].wide && p == START + |m|
    requires p + RawLen(e) + Size(rest) + 1 + 4 * |rest| < TWO32
    requires var q := p + RawLen(e);
             var next := rest[0].(wide := true);
             s' == Frame(TailFrom(q, next, rest[1..]),
                         m + Raw(prev, e) + Raw(RawLen(e), next) + Ser(RawLen(rest[0]), rest[1..]))
    ensures Walking(s', p + RawLen(e), m + Raw(prev, e), RawLen(e), rest[0].(wide := true), RawLen(rest[0]), rest[1..])
  {
    hide LE, TailFrom, Raw, Body;
    SerSize(RawLen(rest[0]), rest[1..]);
  }

  /** Facts the widening step relies on, gathered from the walk. */
  lemma WidenReady(s: seq<byte>, p: nat, m: seq<byte>, prev: nat, e: Entry, stale: nat, rest: seq<Entry>)
    requires Walking(s, p, m, prev, e, stale, rest) && rest != [] && !rest[0].wide
    ensures var q := p + RawLen(e);
            var x := m + Raw(prev, e) + Ser(stale, rest);
            var t, t' := TailFrom(p, e, rest), TailFrom(q, rest[0].(wide := true), rest[1..]);
            && START < |s| && s == Frame(t, x) && p == START + |m| && q == START + |m + Raw(prev, e)|
            && q + 2 <= |s| && FromLE(LE(t, 4)) == t && t' == (if t != q then t + 4 else t)
            && |s| + 4 * |rest| < TWO32 && EntryOk(prev, e) && Fits(stale, rest)
            && |s| == q + Size(rest) + 1
  {
    hide LE, Fits, Size, Ser, Body, TailFrom;
    WalkingSize(s, p, m, prev, e, stale, rest);
    NextFits(rest);
    TailFromBound(p, e, rest);
    Pow256Values();
    LEUnsigned(TailFrom(p, e, rest), 4);
    WidenTail(p, e, rest);
  }

  lemma SettledFurther(s': seq<byte>, p: nat, m: seq<byte>, prev: nat, e: Entry, rest: seq<Entry>)
    requires RawLen(e) >= ZIP_BIGLEN && rest != [] && !rest[0].wide && p == START + |m|
    requires Settled(s', p + RawLen(e), m + Raw(prev, e), RawLen(e), rest[0].(wide := true), rest[1..])
    ensures Settled(s', p, m, prev, e, rest)
  {
    hide LE, Raw, Body, Frame;
    var next := rest[0].(wide := true);
    var r := Cascade(RawLen(next), rest[1..]);
    assert Cascade(RawLen(e), rest) == [next] + r;
    assert ([next] + r)[1..] == r;
    var x := m + Raw(prev, e);
    assert x + Raw(RawLen(e), next) + Ser(RawLen(next), r) == x + Ser(RawLen(e), [next] + r);
    TailShift(p, e, next, r);
  }

  lemma TailShift(p: nat, e: Entry, next: Entry, r: seq<Entry>)
    ensures TailFrom(p + RawLen(e), next, r) == TailFrom(p, e, [next] + r)
  {
    hide RawLen, Size;
    if r != [] {
      InitCons(next, r);
      SizeCons(next, r[..|r| - 1]);
    } else {
      assert ([next] + r)[..0] == [];
      SizeNone();
    }
  }

  lemma InitCons<T>(x: T, r: seq<T>)
    requires r != []
    ensures ([x] + r)[..|[x] + r| - 1] == [x] + r[..|r| - 1]
  {
  }

  lemma SizeCons(e: Entry, r: seq<Entry>)
    ensures Size([e] + r) == RawLen(e) + Size(r)
  {
    assert ([e] + r)[1..] == r;
  }

  lemma SizeNone()
    ensures Size([]) == 0
  {
  }

  /** Nothing behind e, or next already records e's length: already settled. */
  lemma SettledAlready(s: seq<byte>, p: nat, m: seq<byte>, prev: nat, e: Entry, stale: nat, rest: seq<Entry>)
    requires Walking(s, p, m, prev, e, stale, rest)
    requires rest == [] || stale == RawLen(e)
    ensures Settled(s, p, m, prev, e, rest)
  {
    hide LE, Raw, Body, Size, Frame, TailFrom;
    if rest != [] {
      CascadeIdle(stale, rest);
    }
  }

  /** Rewriting next's pointer in the width it has settles the list. */
  lemma RewriteNext(s: seq<byte>, p: nat, m: seq<byte>, prev: nat, e: Entry, stale: nat, rest: seq<Entry>)
    requires Walking(s, p, m, prev, e, stale, rest)
    requires rest != [] && (rest[0].wide || RawLen(e) < ZIP_BIGLEN)
    ensures p + RawLen(e) + PrevSize(rest[0].wide) <= |s|
    ensures Settled(Blit(s, p + RawLen(e), PrevField(rest[0].wide, RawLen(e))), p, m, prev, e, rest)
  {
    hide LE, TailFrom, Fits, Size, Frame, Ser, PrevField, Body, Blit;
    WalkingSize(s, p, m, prev, e, stale, rest);
    NextFits(rest);
    var x := m + Raw(prev, e);
    var w := rest[0].wide;
    SerHead(x, stale, rest);
    FrameBlit(TailFrom(p, e, rest), x, PrevField(w, stale), PrevField(w, RawLen(e)), Behind(rest));
    SerHead(x, RawLen(e), rest);
  }

  lemma NextFits(rest: seq<Entry>)
    requires rest != []
    ensures Size(rest) >= RawLen(rest[0])
  {
  }
}
