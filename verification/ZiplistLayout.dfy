/** The whole ziplist as bytes: <zlbytes><zltail><zllen><entry>*<zlend>, for a
    given sequence of entries, and what the list operations do to that sequence. */
module ZiplistLayout {
  import opened Bytes
  import opened ZiplistCodec

  const HEADER_SIZE := 10
  const UINT16_MAX := 65535

  /** Raw length of the last entry of es, or prev when es is empty. */
  function LastLen(prev: nat, es: seq<Entry>): (n: nat) {
    if es == [] then prev else RawLen(es[|es| - 1])
  }

  /** The entries one after another; prev is the raw length before the first. */
  function Ser(prev: nat, es: seq<Entry>): (s: seq<byte>)
    decreases |es|
  {
    if es == [] then [] else Raw(prev, es[0]) + Ser(RawLen(es[0]), es[1..])
  }

  /** Bytes taken by the entries, whatever their back pointers hold. */
  function Size(es: seq<Entry>): (n: nat)
    ensures es == [] <==> n == 0
  {
    if es == [] then 0 else RawLen(es[0]) + Size(es[1..])
  }

  /** Every item is representable and every back pointer fits its width. */
  predicate Fits(prev: nat, es: seq<Entry>)
    decreases |es|
  {
    es == [] || (EntryOk(prev, es[0]) && Fits(RawLen(es[0]), es[1..]))
  }

  /** Offset of entry k from the start of the ziplist. */
  function Offset(es: seq<Entry>, k: nat): (n: nat)
    requires k <= |es|
  {
    HEADER_SIZE + Size(es[..k])
  }

  function TailOffset(es: seq<Entry>): (n: nat) {
    if es == [] then HEADER_SIZE else Offset(es, |es| - 1)
  }

  function Header(bytes: nat, tail: nat, len: nat): (s: seq<byte>)
    ensures |s| == HEADER_SIZE
  {
    LE(bytes, 4) + LE(tail, 4) + LE(len, 2)
  }

  function Head(es: seq<Entry>, zllen: nat): (s: seq<byte>)
    ensures |s| == HEADER_SIZE
  {
    Header(HEADER_SIZE + Size(es) + 1, TailOffset(es), zllen)
  }

  /** The bytes of a well-formed ziplist holding es. */
  function Layout(es: seq<Entry>, zllen: nat): (s: seq<byte>) {
    Head(es, zllen) + Ser(0, es) + [ZIP_END]
  }

  /** ZIPLIST_TAIL_OFFSET. */
  function StoredTail(s: seq<byte>): (n: nat)
    requires |s| >= HEADER_SIZE
  {
    FromLE(s[4..8])
  }

  /** ZIPLIST_LENGTH. */
  function StoredLen(s: seq<byte>): (n: nat)
    requires |s| >= HEADER_SIZE
    ensures n <= UINT16_MAX
  {
    Pow256Values();
    FromLEBound(s[8..10]);
    FromLE(s[8..10])
  }

  function Items(es: seq<Entry>): (r: seq<Item>)
    ensures |r| == |es|
    ensures forall i | 0 <= i < |es| :: r[i] == es[i].item
  {
    seq(|es|, i requires 0 <= i < |es| => es[i].item)
  }

  // ------------------------------------------------ concatenation and offsets

  lemma {:induction false} SizeAppend(a: seq<Entry>, b: seq<Entry>)
    ensures Size(a + b) == Size(a) + Size(b)
  {
    if a == [] {
      assert a + b == b;
    } else {
      assert (a + b)[1..] == a[1..] + b;
      SizeAppend(a[1..], b);
    }
  }

  lemma {:induction false} SerAppend(prev: nat, a: seq<Entry>, b: seq<Entry>)
    ensures Ser(prev, a + b) == Ser(prev, a) + Ser(LastLen(prev, a), b)
    decreases |a|
  {
    hide Raw, RawLen;
    if a == [] {
      assert a + b == b;
    } else {
      assert (a + b)[1..] == a[1..] + b;
      SerAppend(RawLen(a[0]), a[1..], b);
      assert LastLen(RawLen(a[0]), a[1..]) == LastLen(prev, a);
    }
  }

  lemma {:induction false} FitsAppend(prev: nat, a: seq<Entry>, b: seq<Entry>)
    ensures Fits(prev, a + b) <==> Fits(prev, a) && Fits(LastLen(prev, a), b)
    decreases |a|
  {
    if a == [] {
      assert a + b == b;
    } else {
      assert (a + b)[1..] == a[1..] + b;
      FitsAppend(RawLen(a[0]), a[1..], b);
      assert LastLen(RawLen(a[0]), a[1..]) == LastLen(prev, a);
    }
  }

  lemma {:induction false} SerSize(prev: nat, es: seq<Entry>)
    ensures |Ser(prev, es)| == Size(es)
    decreases |es|
  {
    if es != [] {
      SerSize(RawLen(es[0]), es[1..]);
    }
  }

  /** Entry k ends where entry k + 1 (or the end marker) begins. */
  lemma OffsetStep(es: seq<Entry>, k: nat)
    requires k < |es|
    ensures Offset(es, k + 1) == Offset(es, k) + RawLen(es[k])
  {
    assert es[..k + 1] == es[..k] + [es[k]];
    SizeAppend(es[..k], [es[k]]);
  }

  lemma OffsetEnd(es: seq<Entry>)
    ensures Offset(es, |es|) == HEADER_SIZE + Size(es)
  {
    assert es[..|es|] == es;
  }

  lemma {:induction false} OffsetBound(es: seq<Entry>, j: nat, k: nat)
    requires j <= k <= |es|
    ensures Offset(es, j) + 2 * (k - j) <= Offset(es, k)
    decreases k - j
  {
    if j < k {
      OffsetStep(es, j);
      OffsetBound(es, j + 1, k);
    }
  }

  /** The position of element i, counted from the head, or from the tail when negative. */
  ghost function PositionOf(es: seq<Entry>, i: int): (p: Option<nat>) {
    if 0 <= i < |es| then Some(Offset(es, i))
    else if -|es| <= i < 0 then Some(Offset(es, |es| + i))
    else None
  }

  /** The list of 2 and 5, byte by byte. */
  lemma Example()
    ensures Layout([Entry(false, Int(IntEncoding(2), 2)), Entry(false, Int(IntEncoding(5), 5))], 2)
            == [0x0f, 0, 0, 0, 0x0c, 0, 0, 0, 2, 0, 0, 0xf3, 2, 0xf6, 0xff]
  {
    hide LE, Ser, Size, Raw, Body, RawLen, TailOffset;
    ExampleEntries();
    SmallField(15, 3);
    SmallField(12, 3);
    SmallField(2, 1);
  }

  lemma ExampleEntries()
    ensures var es := [Entry(false, Int(0xf3, 2)), Entry(false, Int(0xf6, 5))];
            Size(es) == 4 && TailOffset(es) == 12 && Ser(0, es) == [0, 0xf3, 2, 0xf6]
  {
    var a, b := Entry(false, Int(0xf3, 2)), Entry(false, Int(0xf6, 5));
    var es := [a, b];
    assert es[1..] == [b] && [b][1..] == [] && es[..1] == [a] && [a][1..] == [];
    ExampleEntry(0, 0xf3, 2);
    ExampleEntry(2, 0xf6, 5);
    assert Ser(2, [b]) == [2, 0xf6] by { assert Ser(RawLen(b), []) == []; }
  }

  lemma ExampleEntry(prev: byte, e: byte, v: int)
    requires IntSize(e) == 0
    ensures var x := Entry(false, Int(e, v));
            Raw(prev, x) == [prev, e] && RawLen(x) == 2
  {
  }

  /** A small number in k + 1 bytes. */
  lemma {:induction false} SmallField(v: byte, k: nat)
    requires k == 1 || k == 3
    ensures LE(v, k + 1) == if k == 1 then [v, 0] else [v, 0, 0, 0]
  {
    assert LE(0, 0) == [] && LE(0, 1) == [0];
    assert k == 3 ==> LE(0, 2) == [0, 0] && LE(0, 3) == [0, 0, 0];
  }
}
