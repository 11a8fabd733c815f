/** The ziplist of src/redis_zip_list.c: one byte buffer that is reallocated,
    moved and rewritten in place. The ghost field entries says what it holds;
    Valid() ties every byte of the buffer to it. */
module Ziplist {
  import opened Bytes
  import opened ZiplistCodec
  import opened ZiplistLayout
  import opened ZiplistOps
  import opened ZiplistBytes
  import opened ZiplistCascade
  import opened ZiplistEdits
  import opened ZiplistShrink

  class Ziplist {
    var zl: array<byte>
    ghost var entries: seq<Entry>

    /** zlbytes, zltail and zllen are right, the entries tile the space up to the
        end marker, and every back pointer is the raw length of its predecessor. */
    ghost predicate Valid()
      reads this, zl
    {
      && HEADER_SIZE < zl.Length < TWO32
      && Fits(0, entries)
      && (StoredLen(zl[..]) == |entries| || StoredLen(zl[..]) == UINT16_MAX)
      && zl[..] == Layout(entries, StoredLen(zl[..]))
    }

    /** ziplistNew */
    constructor ()
      ensures Valid() && fresh(zl) && entries == []
    {
      hide LE, FromLE, Header, Layout;
      var h := Header(HEADER_SIZE + 1, HEADER_SIZE, 0) + [ZIP_END];
      var a := new byte[HEADER_SIZE + 1](i requires 0 <= i < |h| => h[i]);
      assert a[..] == h;
      zl, entries := a, [];
      EmptyLayout();
      StoredLenIs([], 0);
    }

    /** realloc to len bytes, then rewrite zlbytes and the end marker. */
    method Resize(len: nat)
      requires START < len && START < zl.Length
      modifies this`zl
      ensures fresh(zl) && Resized(old(zl[..]), zl[..], len)
    {
      var src := zl;
      var dst := new byte[len];
      var m := if src.Length < len then src.Length else len;
      forall i | 0 <= i < m {
        dst[i] := src[i];
      }
      var size := LE(len, 4);
      forall i | 0 <= i < 4 {
        dst[i] := size[i];
      }
      dst[len - 1] := ZIP_END;
      ghost var kept := if src.Length < len then src.Length else len - 1;
      assert forall i | 4 <= i < kept :: dst[i] == src[i];
      assert dst[..][4..kept] == src[..][4..kept];
      assert dst[..][..4] == size;
      zl := dst;
    }

    /** Lines 489-512: the pointer of the entry behind p grows from 1 to 5 bytes. */
    method WidenPointer(p: nat, rawlen: nat, ghost m: seq<byte>, ghost prev: nat, ghost e: Entry,
                        ghost stale: nat, ghost rest: seq<Entry>)
      requires Walking(zl[..], p, m, prev, e, stale, rest)
      requires rest != [] && !rest[0].wide && rawlen == RawLen(e) >= ZIP_BIGLEN
      modifies this`zl
      ensures fresh(zl)
      ensures Walking(zl[..], p + rawlen, m + Raw(prev, e), rawlen, rest[0].(wide := true), RawLen(rest[0]), rest[1..])
    {
      hide LE, FromLE, Ser, Raw, Body, Fits, Size, Frame, Walking, TailFrom, Moved, Blit, Resized;
      ghost var s := zl[..];
      ghost var x := m + Raw(prev, e) + Ser(stale, rest);
      ghost var next := rest[0].(wide := true);
      ghost var t, t' := TailFrom(p, e, rest), TailFrom(p + rawlen, next, rest[1..]);
      WidenReady(s, p, m, prev, e, stale, rest);

      var curlen := zl.Length;
      var np := p + rawlen;
      Resize(curlen + 4);
      ghost var s1 := zl[..];
      TailStored(s, s1, t, t', x, |s| + 4);
      var tail := FromLE(zl[4..8]);
      if tail != np {
        Memcpy(zl, 4, LE(tail + 4, 4));
      }
      assert zl[..] == Blit(s1, 4, LE(t', 4));
      Memmove(zl, np + 5, np + 1, curlen - np - 1 - 1);
      Memcpy(zl, np, PrevField(true, rawlen));
      WidenNext(Frame(t', x), Blit(s1, 4, LE(t', 4)), t', m + Raw(prev, e), rawlen, stale, rest);
      WidenWalks(zl[..], p, m, prev, e, stale, rest);
    }

    /** __ziplistCascadeUpdate: afterwards every later entry records the length of
        its predecessor again, zltail is right, and no payload has changed. */
    method CascadeUpdate(at: nat, ghost m0: seq<byte>, ghost prev0: nat, ghost e0: Entry,
                         ghost stale0: nat, ghost rest0: seq<Entry>)
      requires at < zl.Length
      requires zl[at] != ZIP_END ==> Walking(zl[..], at, m0, prev0, e0, stale0, rest0)
      modifies this`zl, zl
      ensures zl == old(zl) || fresh(zl)
      ensures old(zl[at]) != ZIP_END ==> Settled(zl[..], at, m0, prev0, e0, rest0)
      ensures old(zl[at]) == ZIP_END ==> zl[..] == old(zl[..])
    {
      hide LE, FromLE, Ser, Raw, Body, Fits, Size, Frame, Walking, Settled, TailFrom, Moved, Blit,
           Resized, Readable, ZipEntry, Cascade;
      var p: nat := at;
      ghost var m, e, rest := m0, e0, rest0;
      ghost var prev: nat, stale: nat := prev0, stale0;
      while zl[p] != ZIP_END
        invariant zl == old(zl) || fresh(zl)
        invariant p < zl.Length
        invariant old(zl[at]) == ZIP_END ==> p == at && zl[..] == old(zl[..])
        invariant old(zl[at]) != ZIP_END ==> Walking(zl[..], p, m, prev, e, stale, rest)
        invariant forall s' :: Settled(s', p, m, prev, e, rest) ==> Settled(s', at, m0, prev0, e0, rest0)
        decreases |rest|
      {
        WalkingReads(zl[..], p, m, prev, e, stale, rest);
        WalkingReadsNext(zl[..], p, m, prev, e, stale, rest);
        var rawlen := RawEntryLength(zl[..], p);
        var rawlensize := PrevSize(rawlen >= ZIP_BIGLEN);
        if zl[p + rawlen] == ZIP_END {
          SettledAlready(zl[..], p, m, prev, e, stale, rest);
          return;
        }
        var next := ZipEntry(zl[..], p + rawlen);
        if next.prevLen == rawlen {
          SettledAlready(zl[..], p, m, prev, e, stale, rest);
          return;
        }
        if next.prevSize < rawlensize {
          WidenPointer(p, rawlen, m, prev, e, stale, rest);
          forall s' | Settled(s', p + rawlen, m + Raw(prev, e), rawlen, rest[0].(wide := true), rest[1..])
            ensures Settled(s', p, m, prev, e, rest)
          {
            SettledFurther(s', p, m, prev, e, rest);
          }
          m, prev, e, stale, rest := m + Raw(prev, e), rawlen, rest[0].(wide := true), RawLen(rest[0]), rest[1..];
          p := p + rawlen;
          WalkingReads(zl[..], p, m, prev, e, stale, rest);
        } else {
          RewriteNext(zl[..], p, m, prev, e, stale, rest);
          if next.prevSize > rawlensize {
            Memcpy(zl, p + rawlen, PrevField(true, rawlen));
          } else {
            Memcpy(zl, p + rawlen, PrevField(rawlen >= ZIP_BIGLEN, rawlen));
          }
          return;
        }
      }
      if old(zl[at]) != ZIP_END {
        WalkingReads(zl[..], p, m, prev, e, stale, rest);
      }
    }

    /** Lines 643-654 (and 553-564 in the delete): shift the tail offset by delta, and
        by nextdiff as well when the entry at q, whose size changed, is not the last. */
    method ShiftTail(q: nat, delta: int, nextdiff: int, ghost t: nat, ghost m: seq<byte>, ghost prev: nat,
                     ghost e: Entry, ghost stale: nat, ghost rest: seq<Entry>)
      requires zl[..] == Frame(t, m + Raw(prev, e) + Ser(stale, rest)) && q == START + |m|
      requires EntryOk(prev, e) && Fits(stale, rest)
      requires zl.Length < TWO32 && t < TWO32 && 0 <= t + delta < TWO32
      requires rest != [] ==> 0 <= t + delta + nextdiff
      modifies zl
      ensures zl[..] == Frame(if rest == [] then t + delta else t + delta + nextdiff,
                              m + Raw(prev, e) + Ser(stale, rest))
    {
      hide LE, FromLE, Ser, Raw, Body, Fits, Frame, Blit, Readable, ZipEntry;
      ghost var x := m + Raw(prev, e) + Ser(stale, rest);
      MovedReads(zl[..], t, m, prev, e, stale, rest);
      var tail := StoredTail(zl[..]);
      Memcpy(zl, 4, LE(tail + delta, 4));
      FrameTail(t, t + delta, x);
      MovedReads(zl[..], t + delta, m, prev, e, stale, rest);
      if zl[q + RawEntryLength(zl[..], q)] != ZIP_END {
        tail := StoredTail(zl[..]);
        Memcpy(zl, 4, LE(tail + nextdiff, 4));
        FrameTail(t + delta, t + delta + nextdiff, x);
      }
    }

    /** Lines 628-641: open reqlen bytes in front of the entry e at p and give e a back
        pointer that says reqlen; the tail offset is still the old one. When the resize takes
        a byte away, the entries are from then on those of the Shrunk list. */
    method OpenRoom(p: nat, reqlen: nat, nextdiff: int, ghost a: seq<Entry>, ghost e: Entry, ghost rest: seq<Entry>,
                    ghost e': Entry, ghost rest': seq<Entry>, ghost zllen: nat)
      returns (ghost gap: seq<byte>)
      requires zl[..] == Layout(a + [e] + rest, zllen) && Fits(0, a + [e] + rest)
      requires p == HEADER_SIZE + Size(a)
      requires nextdiff == PrevSize(reqlen >= ZIP_BIGLEN) - PrevSize(e.wide) && reqlen + nextdiff >= -1
      requires Shrunk(a + [e] + rest, reqlen + nextdiff) == a + [e'] + rest' && e'.wide == e.wide
      modifies this`zl
      ensures fresh(zl) && zl.Length == old(zl.Length) + reqlen + nextdiff
      ensures |gap| == reqlen && p == START + |Prefix(a, zllen)|
      ensures zl.Length == p + reqlen + RawLen(e') + nextdiff + Size(rest') + 1
      ensures zl[..] == Frame(TailFrom(p, e', rest'),
                              Prefix(a, zllen) + gap + Raw(reqlen, e'.(wide := reqlen >= ZIP_BIGLEN))
                              + Ser(RawLen(e'), rest'))
    {
      hide LE, FromLE, Ser, Raw, Body, Size, Frame, TailFrom, Moved, Blit, Layout, Prefix, PrevField, Fits, Shrunk,
           Resized, Keeps;
      ghost var s0 := zl[..];
      PrefixSize(a, zllen);
      LayoutSize(a, e, rest, zllen);
      var curlen := zl.Length;
      Resize(curlen + reqlen + nextdiff);
      ShrunkKeeps(a + [e] + rest, zllen, reqlen + nextdiff, zl[..]);
      GapBefore(Layout(a + [e'] + rest', zllen), zl[..], a, e', rest', zllen, reqlen);
      Memmove(zl, p + reqlen, p - nextdiff, curlen - p - 1 + nextdiff);
      Memcpy(zl, p + reqlen, PrevField(reqlen >= ZIP_BIGLEN, reqlen));
      gap := zl[p..p + reqlen];
    }

    /** Lines 625-654: open room in front of the entry e at p and correct the tail offset. */
    method MakeRoom(p: nat, reqlen: nat, ghost a: seq<Entry>, ghost e: Entry, ghost rest: seq<Entry>,
                    ghost e': Entry, ghost rest': seq<Entry>, ghost zllen: nat)
      returns (nextdiff: int, ghost gap: seq<byte>)
      requires zl[..] == Layout(a + [e] + rest, zllen) && Fits(0, a + [e] + rest)
      requires p == HEADER_SIZE + Size(a)
      requires var diff := reqlen + PrevSize(reqlen >= ZIP_BIGLEN) - PrevSize(e.wide);
               diff >= -1 && Shrunk(a + [e] + rest, diff) == a + [e'] + rest' && e'.wide == e.wide
      requires zl.Length + reqlen + 4 + 4 * |rest| < TWO32
      modifies this`zl
      ensures fresh(zl)
      ensures nextdiff == PrevSize(reqlen >= ZIP_BIGLEN) - PrevSize(e.wide)
      ensures |gap| == reqlen
      ensures Walking(zl[..], p + reqlen, Prefix(a, zllen) + gap, reqlen,
                      e'.(wide := reqlen >= ZIP_BIGLEN), RawLen(e'), rest')
    {
      hide LE, FromLE, Ser, Raw, Body, Fits, Size, Frame, TailFrom, Layout, Prefix, PrevField, Shrunk;
      LayoutReads(zl[..], a, e, rest, zllen);
      ShrunkReads(a, e, rest, e', rest', reqlen + PrevSize(reqlen >= ZIP_BIGLEN) - PrevSize(e.wide));
      TailFromBound(p, e', rest');
      ghost var t0 := TailFrom(p, e', rest');
      ghost var next := e'.(wide := reqlen >= ZIP_BIGLEN);
      nextdiff := PrevSize(reqlen >= ZIP_BIGLEN) - DecodePrevSize(zl[p]);
      gap := OpenRoom(p, reqlen, nextdiff, a, e, rest, e', rest', zllen);
      TailMoved(p, e', rest', reqlen, next.wide);
      ShiftTail(p + reqlen, reqlen, nextdiff, t0, Prefix(a, zllen) + gap, reqlen, next, RawLen(e'), rest');
    }

    /** Lines 668-675: back pointer, then encoding header and payload, into the gap. */
    method WriteEntry(p: nat, prevlen: nat, body: seq<byte>, ghost t: nat, ghost x: seq<byte>,
                      ghost gap: seq<byte>, ghost z: seq<byte>)
      requires zl[..] == Frame(t, x + gap + z) && p == START + |x|
      requires |gap| == PrevSize(prevlen >= ZIP_BIGLEN) + |body|
      modifies zl
      ensures zl[..] == Frame(t, x + (PrevField(prevlen >= ZIP_BIGLEN, prevlen) + body) + z)
    {
      hide LE, Frame, Blit, PrevField;
      var field := PrevField(prevlen >= ZIP_BIGLEN, prevlen);
      ghost var n := |field|;
      ghost var g1, g2 := gap[..n], gap[n..];
      Regroup(x, g1, g2, z);
      assert g1 + g2 == gap;
      FrameBlit(t, x, g1, field, g2 + z);
      Memcpy(zl, p, field);
      Assoc3(x + field, g2, z);
      FrameBlit(t, x + field, g2, body, z);
      Memcpy(zl, p + |field|, body);
      Assoc3(x, field, body);
    }

    /** ZIPLIST_INCR_LENGTH: the counter sticks once it has reached 65535. */
    method IncrLength(incr: int, ghost t: nat, ghost zllen: nat, ghost y: seq<byte>)
      requires zl[..] == Frame(t, LE(zllen, 2) + y) && zllen <= UINT16_MAX
      requires zllen < UINT16_MAX ==> 0 <= zllen + incr <= UINT16_MAX
      modifies zl
      ensures zl[..] == Frame(t, LE(if zllen < UINT16_MAX then zllen + incr else zllen, 2) + y)
    {
      hide LE, FromLE, Frame, Blit;
      LenField(t, zllen, y);
      var len := StoredLen(zl[..]);
      if len < UINT16_MAX {
        LenRewritten(t, zllen, zllen + incr, y);
        Memcpy(zl, 8, LE(len + incr, 2));
      }
    }

    /** Lines 601-609: the raw length of the entry that will precede position p. */
    method PrevLenAt(p: nat, ghost k: nat) returns (prevlen: nat)
      requires Valid() && k <= |entries| && p == Offset(entries, k)
      ensures prevlen == LastLen(0, entries[..k])
      ensures p < zl.Length && (zl[p] == ZIP_END <==> k == |entries|)
    {
      hide LE, FromLE, Ser, Size, Layout, Fits, Readable, ZipEntry, RawEntryLength, RawLen;
      ghost var n := StoredLen(zl[..]);
      if k == |entries| {
        OffsetEnd(entries);
        LayoutEndReads(zl[..], entries, n);
        assert entries[..k] == entries;
      } else {
        SplitAt(entries, k);
        LayoutReads(zl[..], entries[..k], entries[k], entries[k + 1..], n);
      }
      prevlen := 0;
      if zl[p] != ZIP_END {
        prevlen := ZipEntry(zl[..], p).prevLen;
      } else {
        var ptail := StoredTail(zl[..]);
        if zl[ptail] != ZIP_END {
          prevlen := RawEntryLength(zl[..], ptail);
        }
      }
    }

    /** Lines 625-675 in front of an entry: room, cascade, then the new entry. */
    method InsertBefore(p: nat, prevlen: nat, item: Item, ghost a: seq<Entry>, ghost c: Entry, ghost rest: seq<Entry>,
                        ghost c': Entry, ghost rest': seq<Entry>, ghost zllen: nat)
      requires zl[..] == Layout(a + [c] + rest, zllen) && Fits(0, a + [c] + rest)
      requires p == HEADER_SIZE + Size(a) && prevlen == LastLen(0, a) && ItemOk(item)
      requires zl.Length + |Body(item)| + 9 + 4 * |rest| < TWO32
      requires var len := RawLen(NewEntry(prevlen, item));
               var diff := len + PrevSize(len >= ZIP_BIGLEN) - PrevSize(c.wide);
               diff >= -1 && Shrunk(a + [c] + rest, diff) == a + [c'] + rest' && c'.wide == c.wide
      modifies this`zl, zl
      ensures fresh(zl)
      ensures var e := NewEntry(prevlen, item); zl[..] == Layout(a + [e] + Relink(RawLen(e), [c'] + rest'), zllen)
    {
      hide LE, FromLE, Ser, Body, Fits, Size, Frame, Layout, Prefix, PrevField, Walking, Cascade, TailFrom, Shrunk;
      var body := Body(item);
      var reqlen := PrevSize(prevlen >= ZIP_BIGLEN) + |body|;
      ghost var e := NewEntry(prevlen, item);
      ghost var next := c'.(wide := reqlen >= ZIP_BIGLEN);
      ghost var r := Cascade(RawLen(next), rest');
      var nextdiff, gap := MakeRoom(p, reqlen, a, c, rest, c', rest', zllen);
      ghost var m := Prefix(a, zllen) + gap;
      WalkingReads(zl[..], p + reqlen, m, reqlen, next, RawLen(c'), rest');
      if nextdiff != 0 {
        CascadeUpdate(p + reqlen, m, reqlen, next, RawLen(c'), rest');
      } else {
        SettledAlready(zl[..], p + reqlen, m, reqlen, next, RawLen(c'), rest');
      }
      ghost var t := TailFrom(p + reqlen, next, r);
      ghost var z := Raw(reqlen, next) + Ser(RawLen(next), r);
      Assoc3(m, Raw(reqlen, next), Ser(RawLen(next), r));
      PrefixSize(a, zllen);
      WriteEntry(p, prevlen, body, t, Prefix(a, zllen), gap, z);
      InsertDone(a, e, next, r, zllen);
      RelinkCons(RawLen(e), c', rest');
    }

    /** Lines 631-632 and 656-675 at the end of the list. */
    method InsertLast(p: nat, prevlen: nat, item: Item, ghost a: seq<Entry>, ghost zllen: nat)
      requires zl[..] == Layout(a, zllen)
      requires p == HEADER_SIZE + Size(a) && prevlen == LastLen(0, a)
      modifies this`zl
      ensures fresh(zl)
      ensures zl[..] == Layout(a + [NewEntry(prevlen, item)] + [], zllen)
    {
      hide LE, FromLE, Ser, Body, Size, Frame, Layout, Prefix, PrevField, Resized, TailOffset;
      ghost var s0 := zl[..];
      var body := Body(item);
      var reqlen := PrevSize(prevlen >= ZIP_BIGLEN) + |body|;
      PrefixSize(a, zllen);
      LayoutFrame(a, zllen);
      Resize(zl.Length + reqlen);
      GapAtEnd(s0, zl[..], a, zllen, reqlen);
      ghost var gap := zl[p..p + reqlen];
      FrameTail(TailOffset(a), p, Prefix(a, zllen) + gap + []);
      Memcpy(zl, 4, LE(p, 4));
      WriteEntry(p, prevlen, body, p, Prefix(a, zllen), gap, []);
      AppendDone(a, NewEntry(prevlen, item), zllen);
    }

    /** __ziplistInsert: the element for the string s goes in front of entry k. */
    method Insert(p: nat, s: seq<byte>, strtoll: seq<byte> -> Option<int>, ghost k: nat)
      requires Valid() && k <= |entries| && p == Offset(entries, k)
      requires ItemOk(ItemOf(strtoll, s)) && Room(entries, |Body(ItemOf(strtoll, s))| + 9)
      requires InsertInside(entries, k, ItemOf(strtoll, s))
      modifies this, zl
      ensures Valid() && fresh(zl)
      ensures entries == Inserted(old(entries), k, ItemOf(strtoll, s))
      ensures StoredLen(zl[..])
              == if old(StoredLen(zl[..])) < UINT16_MAX then old(StoredLen(zl[..])) + 1 else UINT16_MAX
    {
      hide LE, FromLE, Ser, Body, Fits, Size, Layout, Frame, Relink, ItemOf, LastLen, Shrunk, Growth, RawLen;
      ghost var es, n := entries, StoredLen(zl[..]);
      var item := ItemOf(strtoll, s);
      ghost var es' := Shrunk(es, Growth(es, k, item));
      ShrunkFits(es, Growth(es, k, item));
      InsertRefines(es', k, item);
      StoredLenIs(es, n);
      var prevlen := PrevLenAt(p, k);
      if zl[p] != ZIP_END {
        SplitAt(es, k);
        ShrunkAt(es, k, Growth(es, k, item));
        SplitTail(es', k);
        GrowthBefore(es, k, item);
        LayoutReads(zl[..], es[..k], es[k], es[k + 1..], n);
        InsertBefore(p, prevlen, item, es[..k], es[k], es[k + 1..], es'[k], es'[k + 1..], n);
      } else {
        GrowthLast(es, item);
        WholeSlice(es);
        RelinkNone(RawLen(NewEntry(prevlen, item)));
        InsertLast(p, prevlen, item, es, n);
      }
      entries := InsertEntry(es', k, item);
      LayoutFrame(entries, n);
      IncrLength(1, TailOffset(entries), n, Ser(0, entries));
      LayoutFrame(entries, if n < UINT16_MAX then n + 1 else n);
      StoredLenIs(entries, if n < UINT16_MAX then n + 1 else n);
    }

    /** Lines 566-568 and 575-577: move the bytes y from q down to p, then give up the space. */
    method PullUp(p: nat, q: nat, newlen: nat, ghost t: nat, ghost x: seq<byte>, ghost d: seq<byte>, ghost y: seq<byte>)
      requires zl[..] == Frame(t, x + d + y) && p == START + |x| && q == p + |d| && newlen == START + |x| + |y| + 1
      modifies this`zl, zl
      ensures fresh(zl) && zl[..] == Frame(t, x + y)
    {
      hide LE, FromLE, Frame, Moved, Resized;
      CloseGap(zl[..], t, x, d, y);
      Memmove(zl, p, q, zl.Length - q - 1);
      ghost var s := zl[..];
      Resize(newlen);
      Truncate(s, zl[..], t, x + y);
    }

    /** Lines 544-584 when entries follow the deleted ones: b goes, c and rest move up. */
    method DeleteInner(p: nat, q: nat, prevlen: nat, deleted: nat, ghost a: seq<Entry>, ghost b: seq<Entry>,
                       ghost c: Entry, ghost rest: seq<Entry>, ghost zllen: nat)
      requires zl[..] == Layout(a + b + [c] + rest, zllen) && Fits(0, a + b + [c] + rest) && b != []
      requires zl.Length + 4 * |rest| < TWO32
      requires p == HEADER_SIZE + Size(a) && q == HEADER_SIZE + Size(a + b) && prevlen == LastLen(0, a)
      requires zllen <= UINT16_MAX && (zllen < UINT16_MAX ==> deleted <= zllen)
      modifies this`zl, zl
      ensures fresh(zl)
      ensures zl[..] == Layout(a + Relink(prevlen, [c] + rest), if zllen < UINT16_MAX then zllen - deleted else zllen)
    {
      hide LE, FromLE, Ser, Body, Fits, Size, Frame, Layout, Prefix, PrevField, Raw, Walking, Settled,
           Cascade, TailFrom, Blit, Moved, Resized, LastLen;
      ghost var next := c.(wide := prevlen >= ZIP_BIGLEN);
      DeleteFacts(a, b, c, rest, zllen);
      LayoutReads(zl[..], a + b, c, rest, zllen);
      ghost var d := DeleteField(zl[..], a, b, c, rest, zllen);
      var totlen := q - p;
      var nextdiff := PrevSize(prevlen >= ZIP_BIGLEN) - DecodePrevSize(zl[q]);
      var q' := q - nextdiff;
      Memcpy(zl, q', PrevField(prevlen >= ZIP_BIGLEN, prevlen));

      ghost var x := Prefix(a, zllen);
      ghost var y := Raw(prevlen, next) + Ser(RawLen(c), rest);
      ghost var t := TailFrom(q, c, rest);
      ghost var t' := TailFrom(p, next, rest);
      TailPulled(p, q, c, rest, next.wide);
      ShiftTail(q', -totlen, nextdiff, t, x + d, prevlen, next, RawLen(c), rest);
      Assoc3(x + d, Raw(prevlen, next), Ser(RawLen(c), rest));
      SerSize(RawLen(c), rest);
      PullUp(p, q', zl.Length - totlen + nextdiff, t', x, d, y);

      Assoc3(LE(zllen, 2), Ser(0, a), y);
      ghost var n := if zllen < UINT16_MAX then zllen - deleted else zllen;
      PrefixIs(a, zllen, y);
      PrefixIs(a, n, y);
      var removed: int := deleted;
      IncrLength(-removed, t', zllen, Ser(0, a) + y);
      Relinked(p, nextdiff, a, c, rest, n);
    }

    /** Lines 581-584: what follows a has a new predecessor; cascade if c changed size. */
    method Relinked(p: nat, nextdiff: int, ghost a: seq<Entry>, ghost c: Entry, ghost rest: seq<Entry>,
                    ghost zllen: nat)
      requires var prev := LastLen(0, a);
               var next := c.(wide := prev >= ZIP_BIGLEN);
               && zl[..] == Frame(TailFrom(p, next, rest), Prefix(a, zllen) + (Raw(prev, next) + Ser(RawLen(c), rest)))
               && nextdiff == PrevSize(next.wide) - PrevSize(c.wide)
               && EntryOk(prev, next)
      requires p == HEADER_SIZE + Size(a) && Fits(RawLen(c), rest) && zl.Length + 4 * |rest| < TWO32
      modifies this`zl, zl
      ensures zl == old(zl) || fresh(zl)
      ensures zl[..] == Layout(a + Relink(LastLen(0, a), [c] + rest), zllen)
    {
      hide LE, FromLE, Ser, Body, Fits, Size, Frame, Layout, Prefix, PrevField, Raw, Cascade, TailFrom, LastLen;
      ghost var prev := LastLen(0, a);
      ghost var next := c.(wide := prev >= ZIP_BIGLEN);
      ghost var x := Prefix(a, zllen);
      PrefixSize(a, zllen);
      Assoc3(x, Raw(prev, next), Ser(RawLen(c), rest));
      WalkingReads(zl[..], p, x, prev, next, RawLen(c), rest);
      if nextdiff != 0 {
        CascadeUpdate(p, x, prev, next, RawLen(c), rest);
      } else {
        SettledAlready(zl[..], p, x, prev, next, RawLen(c), rest);
      }
      ghost var r := Cascade(RawLen(next), rest);
      LayoutAt(a, next, r, zllen);
      RelinkCons(prev, c, rest);
      Assoc3(a, [next], r);
    }

    /** Lines 570-578 when everything behind a is deleted. */
    method DeleteTail(p: nat, prevlen: nat, totlen: nat, deleted: nat, ghost a: seq<Entry>, ghost b: seq<Entry>,
                      ghost zllen: nat)
      requires zl[..] == Layout(a + b, zllen)
      requires p == HEADER_SIZE + Size(a) && prevlen == LastLen(0, a) && totlen == Size(b) && prevlen <= p
      requires zllen <= UINT16_MAX && (zllen < UINT16_MAX ==> deleted <= zllen)
      modifies this`zl, zl
      ensures fresh(zl)
      ensures zl[..] == Layout(a, if zllen < UINT16_MAX then zllen - deleted else zllen)
    {
      hide LE, FromLE, Ser, Size, Frame, Layout, Prefix, Blit, Resized, LastLen, TailOffset;
      ghost var x, d := Prefix(a, zllen), Ser(prevlen, b);
      ghost var n := if zllen < UINT16_MAX then zllen - deleted else zllen;
      LayoutFrame(a + b, zllen);
      PrefixAppend(a, b, zllen);
      PrefixSize(a, zllen);
      SerSize(prevlen, b);
      TailBefore(a);
      FrameTail(TailOffset(a + b), p - prevlen, x + d);
      Memcpy(zl, 4, LE(p - prevlen, 4));
      TruncateReady(p - prevlen, x, d);
      ghost var s := zl[..];
      Resize(zl.Length - totlen);
      Truncate(s, zl[..], p - prevlen, x);
      PrefixLen(a, zllen);
      PrefixLen(a, n);
      var removed: int := deleted;
      IncrLength(-removed, p - prevlen, zllen, Ser(0, a));
      LayoutFrame(a, n);
    }

    /** Lines 537-540: the position behind num entries, or the end marker. */
    method SkipEntries(p: nat, num: nat, ghost k: nat) returns (q: nat, deleted: nat)
      requires Valid() && k < |entries| && p == Offset(entries, k)
      ensures deleted == if num <= |entries| - k then num else |entries| - k
      ensures q == Offset(entries, k + deleted) < zl.Length
      ensures zl[q] == ZIP_END <==> k + deleted == |entries|
    {
      hide LE, FromLE, Ser, Body, Fits, Size, Layout, LastLen, Offset;
      ghost var n := StoredLen(zl[..]);
      EntryReads(zl[..], entries, n, k);
      q, deleted := p, 0;
      while zl[q] != ZIP_END && deleted < num
        invariant deleted <= num && k + deleted <= |entries| && q == Offset(entries, k + deleted) < zl.Length
        invariant zl[q] == ZIP_END <==> k + deleted == |entries|
        decreases num - deleted
      {
        EntryReads(zl[..], entries, n, k + deleted);
        q := q + RawEntryLength(zl[..], q);
        deleted := deleted + 1;
      }
    }

    /** __ziplistDelete: num entries from entry k on go away, or as many as there are. */
    method Delete(p: nat, num: nat, ghost k: nat)
      requires Valid() && k < |entries| && p == Offset(entries, k) && Room(entries, 0)
      modifies this, zl
      ensures Valid() && (zl == old(zl) || fresh(zl))
      ensures var m := if num <= |old(entries)| - k then num else |old(entries)| - k;
              && entries == DeleteEntries(old(entries), k, m)
              && StoredLen(zl[..])
                 == (if old(StoredLen(zl[..])) < UINT16_MAX then old(StoredLen(zl[..])) - m else UINT16_MAX)
    {
      hide LE, FromLE, Ser, Body, Fits, Size, Layout, Frame, Relink, LastLen, Offset;
      ghost var es, n := entries, StoredLen(zl[..]);
      EntryReads(zl[..], es, n, k);
      var prevlen := ZipEntry(zl[..], p).prevLen;
      var q, deleted := SkipEntries(p, num, k);
      OffsetBound(es, k, k + deleted);
      var totlen := q - p;
      if totlen > 0 {
        DeleteRefines(es, k, deleted);
        SplitDeleted(es, k, deleted);
        StoredLenIs(es, n);
        if zl[q] != ZIP_END {
          DeleteInner(p, q, prevlen, deleted, es[..k], es[k..k + deleted], es[k + deleted], es[k + deleted + 1..], n);
        } else {
          DeleteTail(p, prevlen, totlen, deleted, es[..k], es[k..], n);
          RelinkNone(LastLen(0, es[..k]));
          assert es[..k] + [] == es[..k];
        }
        entries := DeleteEntries(es, k, deleted);
        StoredLenIs(entries, if n < UINT16_MAX then n - deleted else n);
      }
    }

    // ------------------------------------------------------------ traversal

    /** ziplistNext; None stands for NULL. */
    method Next(p: nat, ghost k: nat) returns (r: Option<nat>)
      requires Valid() && k <= |entries| && p == Offset(entries, k)
      ensures r == if k + 1 < |entries| then Some(Offset(entries, k + 1)) else None
    {
      hide LE, FromLE, Ser, Body, Fits, Size, Layout, LastLen, Offset, ReadsAs;
      PositionReads(zl[..], entries, StoredLen(zl[..]), k);
      if zl[p] == ZIP_END {
        return None;
      }
      var q := p + RawEntryLength(zl[..], p);
      if zl[q] == ZIP_END {
        return None;
      }
      return Some(q);
    }

    /** ziplistPrev */
    method Prev(p: nat, ghost k: nat) returns (r: Option<nat>)
      requires Valid() && k <= |entries| && p == Offset(entries, k)
      ensures r == if k > 0 then Some(Offset(entries, k - 1)) else None
    {
      hide LE, FromLE, Ser, Body, Fits, Size, Layout, LastLen, Offset, ReadsAs;
      PositionReads(zl[..], entries, StoredLen(zl[..]), k);
      TailReads(zl[..], entries, StoredLen(zl[..]));
      OffsetZero(entries);
      if zl[p] == ZIP_END {
        var t := StoredTail(zl[..]);
        return if zl[t] == ZIP_END then None else Some(t);
      } else if p == HEADER_SIZE {
        if k > 0 { OffsetBound(entries, 0, k); }
        return None;
      } else {
        if k > 0 { PrevStep(entries, k); }
        return Some(p - ZipEntry(zl[..], p).prevLen);
      }
    }

    /** ziplistGet: what is stored at p. */
    method Get(p: nat, ghost k: nat) returns (r: Option<Item>)
      requires Valid() && k <= |entries| && p == Offset(entries, k)
      ensures r == if k < |entries| then Some(entries[k].item) else None
    {
      hide LE, FromLE, Ser, Body, Fits, Size, Layout, LastLen, Offset, ReadsAs, LoadItem;
      PositionReads(zl[..], entries, StoredLen(zl[..]), k);
      if zl[p] == ZIP_END {
        return None;
      }
      ItemReads(zl[..], entries, StoredLen(zl[..]), k);
      return Some(LoadItem(zl[..], p));
    }

    /** ziplistIndex for index >= 0. */
    method IndexFromHead(index: nat) returns (r: Option<nat>)
      requires Valid()
      ensures r == PositionOf(entries, index)
    {
      hide LE, FromLE, Ser, Body, Fits, Size, Layout, LastLen, Offset;
      OffsetZero(entries);
      PositionReads(zl[..], entries, StoredLen(zl[..]), 0);
      var i: int, p: nat := index, HEADER_SIZE;
      ghost var k: nat := 0;
      while zl[p] != ZIP_END
        invariant k <= |entries| && p == Offset(entries, k) < zl.Length
        invariant zl[p] == ZIP_END <==> k == |entries|
        invariant i == index - k >= 0
        decreases |entries| - k
      {
        PositionReads(zl[..], entries, StoredLen(zl[..]), k);
        var more := i != 0;
        i := i - 1;
        if !more {
          break;
        }
        p := p + RawEntryLength(zl[..], p);
        k := k + 1;
      }
      return if zl[p] == ZIP_END || i > 0 then None else Some(p);
    }

    /** ziplistIndex for index < 0, following back pointers from the tail. */
    method IndexFromTail(index: int) returns (r: Option<nat>)
      requires Valid() && index < 0
      ensures r == PositionOf(entries, index)
    {
      hide LE, FromLE, Ser, Body, Fits, Size, Layout, Offset;
      TailReads(zl[..], entries, StoredLen(zl[..]));
      var i: int, p: nat := -index - 1, StoredTail(zl[..]);
      if zl[p] != ZIP_END {
        ghost var k: nat := |entries| - 1;
        PositionReads(zl[..], entries, StoredLen(zl[..]), k);
        var prev := ZipEntry(zl[..], p).prevLen;
        while prev > 0
          invariant k < |entries| && p == Offset(entries, k) < zl.Length && zl[p] != ZIP_END
          invariant prev == LastLen(0, entries[..k])
          invariant i == k - index - |entries| >= 0
          decreases k
        {
          var more := i != 0;
          i := i - 1;
          if !more {
            break;
          }
          PrevStep(entries, k);
          p, k := p - prev, k - 1;
          PositionReads(zl[..], entries, StoredLen(zl[..]), k);
          prev := ZipEntry(zl[..], p).prevLen;
        }
      }
      return if zl[p] == ZIP_END || i > 0 then None else Some(p);
    }

    /** ziplistIndex; the C index is an int, and INT_MIN has no negation. */
    method Index(index: int) returns (r: Option<nat>)
      requires Valid() && -0x8000_0000 < index < 0x8000_0000
      ensures r == PositionOf(entries, index)
    {
      if index < 0 {
        r := IndexFromTail(index);
      } else {
        r := IndexFromHead(index);
      }
    }

    /** ziplistLen: the stored count, or a walk when the counter is stuck. */
    method Len() returns (len: nat)
      requires Valid()
      modifies zl
      ensures Valid() && entries == old(entries) && len == |entries|
      ensures StoredLen(zl[..]) == if len < UINT16_MAX then len else UINT16_MAX
    {
      hide LE, FromLE, Ser, Body, Fits, Size, Layout, LastLen, Offset, Frame;
      ghost var n := StoredLen(zl[..]);
      if StoredLen(zl[..]) < UINT16_MAX {
        len := StoredLen(zl[..]);
      } else {
        len := CountEntries();
        if len < UINT16_MAX {
          LayoutFrame(entries, n);
          LenRewritten(TailOffset(entries), n, len, Ser(0, entries));
          Memcpy(zl, 8, LE(len, 2));
          LayoutFrame(entries, len);
          StoredLenIs(entries, len);
        }
      }
    }

    method CountEntries() returns (len: nat)
      requires Valid()
      ensures len == |entries|
    {
      hide LE, FromLE, Ser, Body, Fits, Size, Layout, LastLen, Offset;
      OffsetZero(entries);
      PositionReads(zl[..], entries, StoredLen(zl[..]), 0);
      var p: nat := HEADER_SIZE;
      len := 0;
      while zl[p] != ZIP_END
        invariant len <= |entries| && p == Offset(entries, len) < zl.Length
        invariant zl[p] == ZIP_END <==> len == |entries|
        decreases |entries| - len
      {
        PositionReads(zl[..], entries, StoredLen(zl[..]), len);
        p := p + RawEntryLength(zl[..], p);
        len := len + 1;
      }
    }
  }
}
