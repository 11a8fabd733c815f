/** The contents array of src/redis_intset.c: sorted integers in fields of one width. */
module IntsetLayout {
  import opened Bytes

  const ENC_INT16 := 2
  const ENC_INT32 := 4
  const ENC_INT64 := 8

  predicate IsEncoding(enc: nat) { enc == ENC_INT16 || enc == ENC_INT32 || enc == ENC_INT64 }

  predicate IsInt64(v: int) { -0x8000_0000_0000_0000 <= v < 0x8000_0000_0000_0000 }

  /** _intsetValueEncoding: the narrowest width that holds v. */
  function ValueEncoding(v: int): (enc: nat)
    ensures IsEncoding(enc)
  {
    if v < -0x8000_0000 || v > 0x7fff_ffff then ENC_INT64
    else if v < -0x8000 || v > 0x7fff then ENC_INT32
    else ENC_INT16
  }

  predicate Fits(v: int, enc: nat) { IsInt64(v) && ValueEncoding(v) <= enc }

  /** The widths compared by what their bytes can hold. */
  lemma NarrowestWidth(v: int, enc: nat)
    requires IsInt64(v) && IsEncoding(enc)
    ensures Fits(v, enc) <==> -Pow256(enc) <= 2 * v < Pow256(enc)
  {
    Pow256Values();
  }

  ghost predicate AllFit(vs: seq<int>, enc: nat) {
    forall i | 0 <= i < |vs| :: Fits(vs[i], enc)
  }

  ghost predicate Increasing(vs: seq<int>) {
    forall i, j | 0 <= i < j < |vs| :: vs[i] < vs[j]
  }

  /** Byte offset of element pos. */
  function At(pos: nat, enc: nat): (n: nat) { pos * enc }

  lemma AtStep(pos: nat, enc: nat)
    ensures At(pos + 1, enc) == At(pos, enc) + enc
  {
  }

  lemma AtOrder(i: nat, j: nat, enc: nat, enc': nat)
    requires i <= j && enc <= enc'
    ensures At(i, enc) <= At(j, enc')
  {
    assert i * enc <= j * enc;
    assert j * enc <= j * enc';
  }

  lemma AtSum(i: nat, j: nat, enc: nat)
    ensures At(i + j, enc) == At(i, enc) + At(j, enc) && At(0, enc) == 0 && At(1, enc) == enc
  {
  }

  /** The elements one after another. */
  function Pack(vs: seq<int>, enc: nat): (s: seq<byte>) {
    if vs == [] then [] else Pack(vs[..|vs| - 1], enc) + LE(vs[|vs| - 1], enc)
  }

  lemma {:induction false} PackSize(vs: seq<int>, enc: nat)
    ensures |Pack(vs, enc)| == At(|vs|, enc)
  {
    hide At;
    AtSum(0, 0, enc);
    if vs != [] {
      PackSize(vs[..|vs| - 1], enc);
      AtStep(|vs| - 1, enc);
    }
  }

  lemma {:induction false} PackAppend(a: seq<int>, b: seq<int>, enc: nat)
    ensures Pack(a + b, enc) == Pack(a, enc) + Pack(b, enc)
    decreases |b|
  {
    hide LE;
    if b == [] {
      assert a + b == a;
    } else {
      var b', v := b[..|b| - 1], b[|b| - 1];
      PackAppend(a, b', enc);
      LastOf(a, b);
      Assoc3(Pack(a, enc), Pack(b', enc), LE(v, enc));
    }
  }

  lemma LastOf<T>(a: seq<T>, b: seq<T>)
    requires b != []
    ensures (a + b)[|a + b| - 1] == b[|b| - 1] && (a + b)[..|a + b| - 1] == a + b[..|b| - 1]
  {
  }

  lemma PackOne(v: int, enc: nat)
    ensures Pack([v], enc) == LE(v, enc)
  {
    assert [v][..0] == [];
    assert [] + LE(v, enc) == LE(v, enc);
  }

  /** _intsetGetEncoded */
  function Load(s: seq<byte>, pos: nat, enc: nat): (v: int)
    requires At(pos, enc) + enc <= |s|
  {
    Signed(FromLE(s[At(pos, enc)..At(pos, enc) + enc]), enc)
  }

  /** A value that fits survives its field. */
  lemma FieldLoads(v: int, enc: nat)
    requires IsEncoding(enc) && Fits(v, enc)
    ensures Signed(FromLE(LE(v, enc)), enc) == v
  {
    Pow256Values();
    LESigned(v, enc);
  }

  /** The packed elements around position k. */
  lemma PackAround(vs: seq<int>, k: nat, enc: nat)
    requires k < |vs|
    ensures Pack(vs, enc) == Pack(vs[..k], enc) + LE(vs[k], enc) + Pack(vs[k + 1..], enc)
    ensures |Pack(vs[..k], enc)| == At(k, enc)
  {
    hide LE, At, Pack;
    PackAppend(vs[..k] + [vs[k]], vs[k + 1..], enc);
    PackAppend(vs[..k], [vs[k]], enc);
    PackOne(vs[k], enc);
    PackSize(vs[..k], enc);
    assert vs[..k] + [vs[k]] + vs[k + 1..] == vs;
  }

  /** Reading element k of a packed sequence. */
  lemma PackLoads(vs: seq<int>, k: nat, enc: nat)
    requires k < |vs| && IsEncoding(enc) && Fits(vs[k], enc)
    ensures At(k, enc) + enc <= |Pack(vs, enc)| && Load(Pack(vs, enc), k, enc) == vs[k]
  {
    hide LE, At, Pack, FromLE, Fits;
    PackAround(vs, k, enc);
    FieldLoads(vs[k], enc);
    var a, f, c := Pack(vs[..k], enc), LE(vs[k], enc), Pack(vs[k + 1..], enc);
    assert (a + f + c)[|a|..|a| + |f|] == f;
  }

  /** Elements of a sorted sequence are told apart by position. */
  lemma MemberAt(vs: seq<int>, v: int, pos: nat)
    requires Increasing(vs) && pos <= |vs|
    requires (forall i | 0 <= i < pos :: vs[i] < v) && (forall i | pos <= i < |vs| :: vs[i] > v)
    ensures v !in vs
  {
  }

  // -------------------------------------------------------- in-place widening

  /** The array while it is widened from the back: the first len elements are still in
      fields of width cur, and the others are already where they belong in width new. */
  ghost predicate Widening(s: seq<byte>, vs: seq<int>, len: nat, cur: nat, wide: nat, shift: nat) {
    && len <= |vs| && cur < wide && shift <= 1
    && |s| == At(|vs| + 1, wide)
    && At(len, cur) <= |s| && s[..At(len, cur)] == Pack(vs[..len], cur)
    && At(len + shift, wide) <= At(|vs| + shift, wide) <= |s|
    && s[At(len + shift, wide)..At(|vs| + shift, wide)] == Pack(vs[len..], wide)
  }

  /** Reading the next element to move. */
  lemma WideningLoads(s: seq<byte>, vs: seq<int>, len: nat, cur: nat, wide: nat, shift: nat)
    requires Widening(s, vs, len, cur, wide, shift) && len > 0 && IsEncoding(cur) && Fits(vs[len - 1], cur)
    ensures At(len - 1, cur) + cur <= |s| && Load(s, len - 1, cur) == vs[len - 1]
  {
    hide LE, At, Pack, FromLE, Fits;
    var a := vs[..len];
    PackLoads(a, len - 1, cur);
    AtStep(len - 1, cur);
    SubSlice(s, 0, At(len, cur), At(len - 1, cur), At(len, cur));
    assert s[0..At(len, cur)] == s[..At(len, cur)];
  }

  /** Writing it in its wide field destroys nothing that is still to be read. */
  lemma WideningStep(s: seq<byte>, vs: seq<int>, len: nat, cur: nat, wide: nat, shift: nat)
    requires Widening(s, vs, len, cur, wide, shift) && len > 0
    ensures At(len - 1 + shift, wide) + wide <= |s|
    ensures Widening(Blit(s, At(len - 1 + shift, wide), LE(vs[len - 1], wide)), vs, len - 1, cur, wide, shift)
  {
    hide LE, At, Pack, FromLE;
    var k := len - 1;
    var p := At(k + shift, wide);
    AtStep(k + shift, wide);
    AtOrder(k, k + shift, cur, wide);
    AtOrder(k, len, cur, cur);
    AtOrder(len + shift, |vs| + shift, wide, wide);
    AtOrder(|vs| + shift, |vs| + 1, wide, wide);
    var f := LE(vs[k], wide);
    var t := Blit(s, p, f);
    PackSplitLast(vs, len, cur);
    PackSplitFirst(vs, k, wide);
    BlitPrefix(s, p, f, At(k, cur));
    assert s[..At(k, cur)] == s[..At(len, cur)][..At(k, cur)];
    BlitSlice(s, p, f, At(|vs| + shift, wide));
  }

  lemma BlitPrefix<T>(s: seq<T>, p: nat, f: seq<T>, n: nat)
    requires n <= p && p + |f| <= |s|
    ensures Blit(s, p, f)[..n] == s[..n]
  {
  }

  lemma BlitSlice<T>(s: seq<T>, p: nat, f: seq<T>, e: nat)
    requires p + |f| <= e <= |s|
    ensures Blit(s, p, f)[p..e] == f + s[p + |f|..e]
  {
  }

  lemma PackSplitLast(vs: seq<int>, len: nat, enc: nat)
    requires 0 < len <= |vs|
    ensures Pack(vs[..len], enc) == Pack(vs[..len - 1], enc) + LE(vs[len - 1], enc)
    ensures |Pack(vs[..len - 1], enc)| == At(len - 1, enc)
  {
    hide LE, At;
    assert vs[..len][..len - 1] == vs[..len - 1];
    PackSize(vs[..len - 1], enc);
  }

  lemma PackSplitFirst(vs: seq<int>, k: nat, enc: nat)
    requires k < |vs|
    ensures Pack(vs[k..], enc) == LE(vs[k], enc) + Pack(vs[k + 1..], enc)
  {
    hide LE, At, Pack;
    PackAppend([vs[k]], vs[k + 1..], enc);
    PackOne(vs[k], enc);
    assert [vs[k]] + vs[k + 1..] == vs[k..];
  }

  /** A value that needs more width lies outside everything that does not. */
  lemma Outlier(v: int, w: int, enc: nat)
    requires IsEncoding(enc) && Fits(w, enc) && ValueEncoding(v) > enc
    ensures if v < 0 then v < w else v > w
  {
  }

  /** Wider fields hold everything narrower ones do. */
  lemma FitWider(vs: seq<int>, enc: nat, wide: nat)
    requires AllFit(vs, enc) && enc <= wide
    ensures AllFit(vs, wide)
  {
  }

  lemma StartWidening(vs: seq<int>, s: seq<byte>, cur: nat, wide: nat, shift: nat)
    requires cur < wide && shift <= 1 && |s| == At(|vs| + 1, wide)
    requires var n := if At(|vs|, cur) < |s| then At(|vs|, cur) else |s|;
             |Pack(vs, cur)| >= n && s[..n] == Pack(vs, cur)[..n]
    ensures Widening(s, vs, |vs|, cur, wide, shift)
  {
    hide LE, At, Pack;
    PackSize(vs, cur);
    AtOrder(|vs|, |vs| + 1, cur, wide);
    AtOrder(|vs| + shift, |vs| + 1, wide, wide);
    WholeSlice(vs);
    PackNone(wide);
    assert Pack(vs, cur)[..At(|vs|, cur)] == Pack(vs, cur);
  }

  lemma PackNone(enc: nat)
    ensures Pack([], enc) == []
  {
  }

  /** With every element moved, the free field is at the front or at the end. */
  lemma FinishWidening(s: seq<byte>, vs: seq<int>, cur: nat, wide: nat, shift: nat, v: int)
    requires Widening(s, vs, 0, cur, wide, shift)
    ensures var pos := if shift == 1 then 0 else |vs|;
            && At(pos, wide) + wide <= |s|
            && Blit(s, At(pos, wide), LE(v, wide)) == Pack(if shift == 1 then [v] + vs else vs + [v], wide)
  {
    hide LE, At, Pack;
    AtStep(|vs|, wide);
    AtSum(0, 0, wide);
    PackOne(v, wide);
    assert vs[0..] == vs;
    var f, p := LE(v, wide), Pack(vs, wide);
    PackSize(vs, wide);
    if shift == 1 {
      PackAppend([v], vs, wide);
      BlitSlice(s, 0, f, |s|);
      assert Blit(s, 0, f)[0..|s|] == Blit(s, 0, f);
    } else {
      PackAppend(vs, [v], wide);
      assert s == s[..|p|] + s[|p|..];
      BlitMid(p, s[|p|..], f, []);
      assert p + s[|p|..] + [] == s && p + f + [] == p + f;
    }
  }

  lemma UpgradeSorted(vs: seq<int>, enc: nat, v: int)
    requires IsEncoding(enc) && AllFit(vs, enc) && Increasing(vs) && IsInt64(v) && ValueEncoding(v) > enc
    ensures var r := if v < 0 then [v] + vs else vs + [v];
            Increasing(r) && AllFit(r, ValueEncoding(v))
  {
    hide ValueEncoding;
    FitWider(vs, enc, ValueEncoding(v));
    forall i | 0 <= i < |vs|
      ensures if v < 0 then v < vs[i] else v > vs[i]
    {
      Outlier(v, vs[i], enc);
    }
  }

  // -------------------------------------------------------- insertion and removal

  lemma OutsideAll(vs: seq<int>, enc: nat, v: int)
    requires AllFit(vs, enc) && ValueEncoding(v) > enc
    ensures v !in vs
  {
  }

  /** An array s with one spare field after the elements, once the tail has moved up by one
      field and v has been written at pos. */
  ghost function Inserted(s: seq<byte>, n: nat, pos: nat, v: int, enc: nat): (r: seq<byte>)
    requires pos <= n && |s| == At(n + 1, enc)
  {
    AtStep(n, enc);
    AtStep(pos, enc);
    AtSum(pos, n - pos, enc);
    var t := if pos < n then Moved(s, At(pos + 1, enc), At(pos, enc), At(n - pos, enc)) else s;
    Blit(t, At(pos, enc), LE(v, enc))
  }

  lemma InsertedPacks(vs: seq<int>, pos: nat, v: int, enc: nat, s: seq<byte>)
    requires pos <= |vs| && |s| == At(|vs| + 1, enc)
    requires At(|vs|, enc) <= |s| && s[..At(|vs|, enc)] == Pack(vs, enc)
    ensures Inserted(s, |vs|, pos, v, enc) == Pack(vs[..pos] + [v] + vs[pos..], enc)
  {
    hide LE, At, Pack, Moved, Blit;
    AtStep(|vs|, enc);
    AtStep(pos, enc);
    AtSum(pos, |vs| - pos, enc);
    PackSize(vs[..pos], enc);
    PackSize(vs[pos..], enc);
    PackSplit(vs, pos, enc);
    PackAppend(vs[..pos] + [v], vs[pos..], enc);
    PackAppend(vs[..pos], [v], enc);
    PackOne(v, enc);
    var a, c, f := Pack(vs[..pos], enc), Pack(vs[pos..], enc), LE(v, enc);
    var g := s[At(|vs|, enc)..];
    Halves(s, At(|vs|, enc));
    if pos < |vs| {
      ShiftUp(a, c, g, f);
    } else {
      PackNone(enc);
      assert vs[pos..] == [];
      BlitMid(a, g, f, []);
      assert a + c + g == a + g + [] && a + f + [] == a + f + c;
    }
  }

  lemma PackSplit(vs: seq<int>, pos: nat, enc: nat)
    requires pos <= |vs|
    ensures Pack(vs, enc) == Pack(vs[..pos], enc) + Pack(vs[pos..], enc)
  {
    hide LE, Pack;
    PackAppend(vs[..pos], vs[pos..], enc);
    Halves(vs, pos);
  }

  /** Opening a gap of one field in front of c, by a move that overlaps itself. */
  lemma ShiftUp<T>(a: seq<T>, c: seq<T>, g: seq<T>, f: seq<T>)
    requires |g| == |f|
    ensures Blit(Moved(a + c + g, |a| + |f|, |a|, |c|), |a|, f) == a + f + c
  {
    var s := a + c + g;
    var t := Moved(s, |a| + |f|, |a|, |c|);
    assert s[|a|..|a| + |c|] == c;
    assert t == s[..|a| + |f|] + c;
    assert t[..|a|] == a;
    assert t[|a| + |f|..] == c;
  }

  /** The bytes left of a packed sequence when the element at pos is removed: the tail moved
      down over it, then the last field cut off. */
  ghost function Removed(vs: seq<int>, pos: nat, enc: nat): (r: seq<byte>)
    requires pos < |vs| && |Pack(vs, enc)| == At(|vs|, enc)
  {
    AtStep(|vs| - 1, enc);
    AtStep(pos, enc);
    AtSum(pos, |vs| - (pos + 1), enc);
    AtSum(pos + 1, |vs| - (pos + 1), enc);
    var s := Pack(vs, enc);
    var t := if pos < |vs| - 1 then Moved(s, At(pos, enc), At(pos + 1, enc), At(|vs| - (pos + 1), enc)) else s;
    t[..At(|vs| - 1, enc)]
  }

  lemma RemovedPacks(vs: seq<int>, pos: nat, enc: nat)
    requires pos < |vs| && |Pack(vs, enc)| == At(|vs|, enc)
    ensures Removed(vs, pos, enc) == Pack(vs[..pos] + vs[pos + 1..], enc)
  {
    hide LE, At, Pack, Moved;
    AtStep(|vs| - 1, enc);
    AtStep(pos, enc);
    AtSum(pos, |vs| - (pos + 1), enc);
    AtSum(pos + 1, |vs| - (pos + 1), enc);
    PackAround(vs, pos, enc);
    PackSize(vs[pos + 1..], enc);
    PackAppend(vs[..pos], vs[pos + 1..], enc);
    var a, f, c := Pack(vs[..pos], enc), LE(vs[pos], enc), Pack(vs[pos + 1..], enc);
    if pos == |vs| - 1 {
      PackNone(enc);
      assert vs[pos + 1..] == [];
      assert (a + f + c)[..|a|] == a + c;
    } else {
      ShiftDown(a, f, c);
    }
  }

  lemma ShiftDown<T>(a: seq<T>, f: seq<T>, c: seq<T>)
    ensures Moved(a + f + c, |a|, |a| + |f|, |c|)[..|a| + |c|] == a + c
  {
    var s := a + f + c;
    assert s[|a| + |f|..|a| + |f| + |c|] == c;
  }

  lemma InsertSorted(vs: seq<int>, pos: nat, v: int, enc: nat)
    requires pos <= |vs| && AllFit(vs, enc) && Increasing(vs) && Fits(v, enc)
    requires (forall i | 0 <= i < pos :: vs[i] < v) && (forall i | pos <= i < |vs| :: vs[i] > v)
    ensures var r := vs[..pos] + [v] + vs[pos..];
            Increasing(r) && AllFit(r, enc) && (set x | x in r) == (set x | x in vs) + {v}
  {
    hide Fits;
    var r := vs[..pos] + [v] + vs[pos..];
    assert forall i | 0 <= i < |r| :: r[i] == if i < pos then vs[i] else if i == pos then v else vs[i - 1];
    forall x
      ensures x in r <==> x in vs || x == v
    {
      if x in vs {
        var i :| 0 <= i < |vs| && vs[i] == x;
        assert r[if i < pos then i else i + 1] == x;
      }
      assert r[pos] == v;
    }
  }

  lemma RemoveSorted(vs: seq<int>, pos: nat, enc: nat)
    requires pos < |vs| && AllFit(vs, enc) && Increasing(vs)
    ensures var r := vs[..pos] + vs[pos + 1..];
            Increasing(r) && AllFit(r, enc) && (set x | x in r) == (set x | x in vs) - {vs[pos]}
  {
    hide Fits;
    var r := vs[..pos] + vs[pos + 1..];
    assert forall i | 0 <= i < |r| :: r[i] == if i < pos then vs[i] else vs[i + 1];
    forall x
      ensures x in r <==> x in vs && x != vs[pos]
    {
      if x in vs && x != vs[pos] {
        var i :| 0 <= i < |vs| && vs[i] == x;
        assert r[if i < pos then i else i - 1] == x;
      }
    }
  }

  lemma {:induction false} CountIncreasing(vs: seq<int>)
    requires Increasing(vs)
    ensures |set v | v in vs| == |vs|
  {
    if vs == [] {
      assert (set v | v in vs) == {};
    } else {
      var w := vs[..|vs| - 1];
      CountIncreasing(w);
      assert vs == w + [vs[|vs| - 1]];
      assert (set v | v in vs) == (set v | v in w) + {vs[|vs| - 1]};
    }
  }
}
