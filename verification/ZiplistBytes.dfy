/** The byte moves of the ziplist operations, on a buffer seen as
    zlbytes, zltail, contents, end marker. */
module ZiplistBytes {
  import opened Bytes
  import opened ZiplistCodec

  /** Offset of zllen: the contents start behind zlbytes and zltail. */
  const START := 8

  /** A buffer whose zlbytes is its true size and whose last byte is the end marker. */
  function Frame(tail: nat, x: seq<byte>): (s: seq<byte>)
    ensures |s| == START + |x| + 1
  {
    LE(START + |x| + 1, 4) + LE(tail, 4) + x + [ZIP_END]
  }

  /** ziplistResize: s1 is s0 reallocated to n bytes, with zlbytes and the end
      marker rewritten; bytes beyond the old size are unspecified. */
  ghost predicate Resized(s0: seq<byte>, s1: seq<byte>, n: nat) {
    && START < n == |s1|
    && START < |s0|
    && s1[..4] == LE(n, 4)
    && s1[n - 1] == ZIP_END
    && var m := if |s0| < n then |s0| else n - 1;
       s1[4..m] == s0[4..m]
  }

  /** No byte in front of the old end marker is lost by a resize to n: the buffer
      grows, or the one byte that goes is replaced by an equal one. */
  predicate Keeps(s0: seq<byte>, n: nat) {
    |s0| <= n || (|s0| == n + 1 > 1 && s0[n - 1] == ZIP_END)
  }

  lemma ResizedKeeps(s0: seq<byte>, s1: seq<byte>, n: nat)
    requires Resized(s0, s1, n) && Keeps(s0, n)
    ensures s1[4..|s0| - 1] == s0[4..|s0| - 1]
  {
    hide LE;
    if |s0| == n + 1 {
      assert s1[4..n] == s1[4..n - 1] + [ZIP_END];
      assert s0[4..n] == s0[4..n - 1] + [ZIP_END];
    } else if |s0| < n {
      SubSlice(s1, 4, |s0|, 0, |s0| - 5);
      SubSlice(s0, 4, |s0|, 0, |s0| - 5);
    }
  }

  lemma FrameTail(t: nat, t': nat, x: seq<byte>)
    ensures Blit(Frame(t, x), 4, LE(t', 4)) == Frame(t', x)
  {
    hide LE;
  }

  lemma FrameBlit(t: nat, x: seq<byte>, f: seq<byte>, f': seq<byte>, y: seq<byte>)
    requires |f| == |f'|
    ensures Blit(Frame(t, x + f + y), START + |x|, f') == Frame(t, x + f' + y)
  {
    hide LE;
    var a := LE(START + |x + f + y| + 1, 4) + LE(t, 4) + x;
    assert Frame(t, x + f + y) == a + f + (y + [ZIP_END]);
    assert Frame(t, x + f' + y) == a + f' + (y + [ZIP_END]);
    BlitMid(a, f, f', y + [ZIP_END]);
  }

  /** Reading back the three header fields. */
  lemma FrameFields(t: nat, x: seq<byte>)
    requires START + |x| + 1 < TWO32 && t < TWO32
    ensures FromLE(Frame(t, x)[..4]) == START + |x| + 1
    ensures FromLE(Frame(t, x)[4..8]) == t
    ensures |x| >= 2 ==> Frame(t, x)[8..10] == x[..2]
    ensures Frame(t, x)[START + |x|] == ZIP_END
  {
    hide LE;
    Pow256Values();
    LEUnsigned(START + |x| + 1, 4);
    LEUnsigned(t, 4);
    assert Frame(t, x)[..4] == LE(START + |x| + 1, 4);
    assert Frame(t, x)[4..8] == LE(t, 4);
  }

  lemma FrameRest(t: nat, t': nat, x: seq<byte>, m: nat)
    requires START <= m <= |Frame(t, x)|
    ensures Frame(t', x)[4..m] == LE(t', 4) + Frame(t, x)[8..m]
  {
    hide LE;
    var a, c := LE(START + |x| + 1, 4), x + [ZIP_END];
    Assoc3(a + LE(t, 4), x, [ZIP_END]);
    Assoc3(a + LE(t', 4), x, [ZIP_END]);
    MiddleSlice(a, LE(t, 4), c, m);
    MiddleSlice(a, LE(t', 4), c, m);
  }

  lemma MiddleSlice<T>(a: seq<T>, b: seq<T>, c: seq<T>, m: nat)
    requires |a + b| <= m <= |a + b + c|
    ensures (a + b + c)[|a + b|..m] == c[..m - |a + b|]
    ensures (a + b + c)[|a|..m] == b + c[..m - |a + b|]
  {
  }

  /** Rewriting zltail right after growing: as if the old buffer had had that tail. */
  lemma TailStored(s0: seq<byte>, s1: seq<byte>, t: nat, t': nat, x: seq<byte>, n: nat)
    requires s0 == Frame(t, x) && Resized(s0, s1, n) && |s0| <= n
    ensures s1[4..8] == LE(t, 4)
    ensures Resized(Frame(t', x), Blit(s1, 4, LE(t', 4)), n)
    ensures Blit(s1, 4, LE(t, 4)) == s1
  {
    hide LE, Blit;
    var m := if |s0| < n then |s0| else n - 1;
    var s2 := Blit(s1, 4, LE(t', 4));
    SubSlice(s1, 4, m, 0, 4);
    SubSlice(s0, 4, m, 0, 4);
    SubSlice(s1, 4, m, 4, m - 4);
    SubSlice(s0, 4, m, 4, m - 4);
    assert s0[4..8] == LE(t, 4);
    BlitField(s1, m, LE(t', 4));
    FrameRest(t, t', x, m);
    BlitIdle(s1, 4, LE(t, 4));
  }

  lemma BlitField(s: seq<byte>, m: nat, f: seq<byte>)
    requires |f| == 4 && START <= m <= |s|
    ensures Blit(s, 4, f)[..4] == s[..4] && Blit(s, 4, f)[4..m] == f + s[8..m]
    ensures m < |s| ==> Blit(s, 4, f)[|s| - 1] == s[|s| - 1]
  {
  }

  lemma BlitIdle(s: seq<byte>, at: nat, f: seq<byte>)
    requires at + |f| <= |s| && s[at..at + |f|] == f
    ensures Blit(s, at, f) == s
  {
  }

  /** A buffer is a frame as soon as its parts are in place. */
  lemma FrameParts(s: seq<byte>, t: nat, x: seq<byte>)
    requires |s| == START + |x| + 1
    requires s[..4] == LE(|s|, 4) && s[4..8] == LE(t, 4)
    requires s[START..|s| - 1] == x && s[|s| - 1] == ZIP_END
    ensures s == Frame(t, x)
  {
    hide LE;
    assert s == s[..4] + s[4..8] + s[START..|s| - 1] + [s[|s| - 1]];
  }

  /** The cascade's step: the field f (1 byte) in front of y grows into f' (5 bytes). */
  lemma GrowField(s0: seq<byte>, s1: seq<byte>, t: nat, x: seq<byte>, f: seq<byte>, f': seq<byte>, y: seq<byte>)
    requires s0 == Frame(t, x + f + y) && |f| <= |f'| && Resized(s0, s1, |s0| + |f'| - |f|)
    ensures Blit(Moved(s1, START + |x| + |f'|, START + |x| + |f|, |y|), START + |x|, f') == Frame(t, x + f' + y)
  {
    hide LE, Moved, Blit, Frame;
    var p := START + |x|;
    var e := p + |f| + |y|;
    var s3 := Blit(Moved(s1, p + |f'|, p + |f|, |y|), p, f');
    GrownContents(s0, s1, t, x, f, y);
    GrowParts(s1, p, p + |f|, f', e);
    GapFilled(s1, s3, t, x, [], f', y);
    assert x + [] + f' + y == x + f' + y;
  }

  /** What the move and the store leave where: s1 up to p, f', and s1[from..to] behind it. */
  lemma GrowParts(s1: seq<byte>, p: nat, from: nat, f': seq<byte>, to: nat)
    requires p <= from <= to <= |s1| && p + |f'| + (to - from) + 1 == |s1|
    ensures var s3 := Blit(Moved(s1, p + |f'|, from, to - from), p, f');
            && s3[..p] == s1[..p]
            && s3[p..p + |f'|] == f'
            && s3[p + |f'|..|s1| - 1] == s1[from..to]
            && s3[|s1| - 1] == s1[|s1| - 1]
  {
    var s2 := Moved(s1, p + |f'|, from, to - from);
    assert s2[p + |f'|..|s1| - 1] == s1[from..to];
  }

  /** Everything between zlbytes and the end marker. */
  lemma FrameInner(t: nat, x: seq<byte>)
    ensures Frame(t, x)[4..START + |x|] == LE(t, 4) + x
  {
    hide LE;
  }

  /** The contents x + f + y of a grown buffer, still where they were. */
  lemma GrownContents(s0: seq<byte>, s1: seq<byte>, t: nat, x: seq<byte>, f: seq<byte>, y: seq<byte>)
    requires s0 == Frame(t, x + f + y) && Resized(s0, s1, |s1|) && Keeps(s0, |s1|)
    ensures var p := START + |x|;
            && s1[4..8] == LE(t, 4) && s1[START..p] == x && s1[p + |f|..p + |f| + |y|] == y
            && s1[..4] == LE(|s1|, 4) && s1[|s1| - 1] == ZIP_END
  {
    hide LE, Frame;
    FrameInner(t, x + f + y);
    ResizedKeeps(s0, s1, |s1|);
    var e := START + |x| + |f| + |y|;
    assert LE(t, 4) + (x + f + y) == LE(t, 4) + (x + f) + y;
    SliceParts(s1, 4, e, LE(t, 4), x + f, y);
    assert x + f + [] == x + f;
    SliceParts(s1, START, START + |x + f|, x, f, []);
  }

  /** The insert's move: len bytes open up between x and the entries behind it,
      whose first field f is replaced by f' on the way. */
  lemma OpenGap(s0: seq<byte>, s1: seq<byte>, t: nat, x: seq<byte>, f: seq<byte>, f': seq<byte>, y: seq<byte>,
                len: nat)
    requires s0 == Frame(t, x + f + y) && |s1| == |s0| + len + |f'| - |f|
    requires |f'| - |f| <= START + |x|
    requires Resized(s0, s1, |s1|) && Keeps(s0, |s1|)
    ensures var p := START + |x|;
            var s2 := Moved(s1, p + len, p + |f| - |f'|, |y| + |f'|);
            var s3 := Blit(s2, p + len, f');
            s3 == Frame(t, x + s3[p..p + len] + f' + y)
  {
    hide LE, Moved, Blit, Frame;
    var p := START + |x|;
    var s3 := Blit(Moved(s1, p + len, p + |f| - |f'|, |y| + |f'|), p + len, f');
    var e := p + |f| + |y|;
    GrownContents(s0, s1, t, x, f, y);
    OpenGapParts(s1, p, len, p + |f|, f', e);
    GapFilled(s1, s3, t, x, s3[p..p + len], f', y);
  }

  /** What the move and the store leave where: s1 up to p, f', and s1[from..to] behind it. */
  lemma OpenGapParts(s1: seq<byte>, p: nat, len: nat, from: nat, f': seq<byte>, to: nat)
    requires |f'| <= from <= to && to <= |s1|
    requires p + len + |f'| + (to - from) + 1 == |s1|
    ensures var s3 := Blit(Moved(s1, p + len, from - |f'|, |f'| + to - from), p + len, f');
            && s3[..p] == s1[..p]
            && s3[p + len..p + len + |f'|] == f'
            && s3[p + len + |f'|..|s1| - 1] == s1[from..to]
            && s3[|s1| - 1] == s1[|s1| - 1]
  {
    var s2 := Moved(s1, p + len, from - |f'|, |f'| + to - from);
    var q := p + len + |f'|;
    assert s2[q..|s1| - 1] == s1[from..to];
  }

  lemma GapFilled(s1: seq<byte>, s3: seq<byte>, t: nat, x: seq<byte>, gap: seq<byte>, f': seq<byte>, y: seq<byte>)
    requires |s1| == |s3| == START + |x + gap + f' + y| + 1
    requires s1[..4] == LE(|s1|, 4) && s1[4..8] == LE(t, 4) && s1[START..START + |x|] == x
    requires s3[..START + |x|] == s1[..START + |x|]
    requires s3[START + |x|..START + |x + gap|] == gap
    requires s3[START + |x + gap|..START + |x + gap + f'|] == f'
    requires s3[START + |x + gap + f'|..|s3| - 1] == y && s3[|s3| - 1] == ZIP_END
    ensures s3 == Frame(t, x + gap + f' + y)
  {
    hide LE;
    var p := START + |x|;
    SamePrefix(s3, s1, p, 0, 4);
    SamePrefix(s3, s1, p, 4, 8);
    SamePrefix(s3, s1, p, START, p);
    Join4(s3, START, x, gap, f', y);
    FrameParts(s3, t, x + gap + f' + y);
  }

  lemma SamePrefix<T>(s: seq<T>, t: seq<T>, p: nat, i: nat, j: nat)
    requires i <= j <= p <= |s| && p <= |t| && s[..p] == t[..p]
    ensures s[i..j] == t[i..j]
  {
    SubSlice(s, 0, p, i, j);
    SubSlice(t, 0, p, i, j);
  }

  lemma Join4<T>(s: seq<T>, at: nat, a: seq<T>, b: seq<T>, c: seq<T>, d: seq<T>)
    requires at + |a + b + c + d| <= |s|
    requires s[at..at + |a|] == a && s[at + |a|..at + |a + b|] == b
    requires s[at + |a + b|..at + |a + b + c|] == c && s[at + |a + b + c|..at + |a + b + c + d|] == d
    ensures s[at..at + |a + b + c + d|] == a + b + c + d
  {
    assert s[at..at + |a + b|] == s[at..at + |a|] + s[at + |a|..at + |a + b|];
    assert s[at..at + |a + b + c|] == s[at..at + |a + b|] + s[at + |a + b|..at + |a + b + c|];
    assert s[at..at + |a + b + c + d|] == s[at..at + |a + b + c|] + s[at + |a + b + c|..at + |a + b + c + d|];
  }

  /** The delete's move: d goes away; what is behind the new end does not matter yet. */
  lemma CloseGap(s: seq<byte>, t: nat, x: seq<byte>, d: seq<byte>, y: seq<byte>)
    requires s == Frame(t, x + d + y)
    ensures var p := START + |x|;
            Moved(s, p, p + |d|, |y|)[4..p + |y|] == LE(t, 4) + (x + y)
  {
    hide LE, Moved;
    var p := START + |x|;
    assert s[4..p] == LE(t, 4) + x;
    assert s[p + |d|..p + |d| + |y|] == y;
    MovedPrefix(s, 4, p, p + |d|, |y|);
    Assoc3(LE(t, 4), x, y);
  }

  lemma MovedPrefix(s: seq<byte>, lo: nat, dst: nat, src: nat, n: nat)
    requires lo <= dst && dst + n <= |s| && src + n <= |s|
    ensures Moved(s, dst, src, n)[lo..dst + n] == s[lo..dst] + s[src..src + n]
  {
  }

  /** Shrinking to the n bytes that end right behind x. */
  lemma Truncate(s0: seq<byte>, s1: seq<byte>, t: nat, x: seq<byte>)
    requires |s0| > START + |x| && s0[4..START + |x|] == LE(t, 4) + x
    requires Resized(s0, s1, START + |x| + 1)
    ensures s1 == Frame(t, x)
  {
    hide LE;
    assert s1[4..START + |x|] == LE(t, 4) + x;
    assert LE(t, 4) + x + [] == LE(t, 4) + x;
    SliceParts(s1, 4, START + |x|, LE(t, 4), x, []);
    FrameParts(s1, t, x);
  }
}
