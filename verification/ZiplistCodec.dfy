/** The entry format of src/redis_zip_list.c: a back pointer (the raw length of
    the preceding entry, in 1 or 5 bytes), an encoding header, and a payload. */
module ZiplistCodec {
  import opened Bytes

  const ZIP_END: byte := 255
  const ZIP_BIGLEN := 254
  const ZIP_STR_MASK := 0xc0
  const ZIP_INT_16B: byte := 0xc0
  const ZIP_INT_32B: byte := 0xd0
  const ZIP_INT_64B: byte := 0xe0
  const ZIP_INT_24B: byte := 0xf0
  const ZIP_INT_8B: byte := 0xfe
  const ZIP_INT_IMM_MIN: byte := 0xf1
  const ZIP_INT_IMM_MAX: byte := 0xfd

  /** What one list element is: a byte string, or an integer with the header byte it is
      stored under. */
  datatype Item = Str(data: seq<byte>) | Int(encoding: byte, value: int)

  /** An integer fits its encoding; a header byte without payload says its value itself. */
  predicate ItemOk(item: Item) {
    match item
    case Str(data) => |data| < TWO32
    case Int(e, v) =>
      && e >= ZIP_STR_MASK
      && if IntSize(e) > 0 then -Pow256(IntSize(e)) <= 2 * v < Pow256(IntSize(e)) else v == Immediate(e)
  }

  /** An element together with the width of its back pointer (5 bytes when wide). */
  datatype Entry = Entry(wide: bool, item: Item)

  // ---------------------------------------------------------------- writing

  function IntSize(encoding: byte): (n: nat) {
    if encoding == ZIP_INT_8B then 1
    else if encoding == ZIP_INT_16B then 2
    else if encoding == ZIP_INT_24B then 3
    else if encoding == ZIP_INT_32B then 4
    else if encoding == ZIP_INT_64B then 8
    else 0
  }

  /** The number in a header byte without payload; 0 where there is none, which the source
      has an assertion for. */
  function Immediate(encoding: byte): (v: int) {
    if ZIP_INT_IMM_MIN <= encoding <= ZIP_INT_IMM_MAX then encoding % 16 - 1 else 0
  }

  /** zipTryEncoding's choice of the smallest encoding that holds v. */
  function IntEncoding(v: int): (e: byte)
    ensures e >= ZIP_STR_MASK && e != ZIP_END
    ensures IntSize(e) == 0 ==> Immediate(e) == v
  {
    if 0 <= v <= 12 then ZIP_INT_IMM_MIN + v
    else if -0x80 <= v <= 0x7f then ZIP_INT_8B
    else if -0x8000 <= v <= 0x7fff then ZIP_INT_16B
    else if -0x80_0000 <= v <= 0x7f_ffff then ZIP_INT_24B
    else if -0x8000_0000 <= v <= 0x7fff_ffff then ZIP_INT_32B
    else ZIP_INT_64B
  }

  /** zipEncodeLength for strings. */
  function StrHeader(n: nat): (h: seq<byte>)
    ensures |h| == if n <= 0x3f then 1 else if n <= 0x3fff then 2 else 5
  {
    if n <= 0x3f then [n]
    else if n <= 0x3fff then [0x40 + n / 256, n % 256]
    else [0x80, n / 0x100_0000 % 256, n / 0x1_0000 % 256, n / 256 % 256, n % 256]
  }

  /** Encoding header followed by the payload. */
  function Body(item: Item): (s: seq<byte>)
    ensures |s| >= 1
  {
    match item
    case Str(data) => StrHeader(|data|) + data
    case Int(e, v) => [e] + LE(v, IntSize(e))
  }

  /** zipTryEncoding: the element stored for the string s, where strtoll says
      whether the whole of s reads as an integer. */
  function ItemOf(strtoll: seq<byte> -> Option<int>, s: seq<byte>): (item: Item)
    ensures item.Int? <==> 0 < |s| <= 21 && strtoll(s).Some?
    ensures item.Int? ==> strtoll(s) == Some(item.value) && item.encoding == IntEncoding(item.value)
    ensures item.Str? ==> item.data == s
  {
    if |s| == 0 || |s| > 21 then Str(s)
    else match strtoll(s) {
      case Some(v) => Int(IntEncoding(v), v)
      case None => Str(s)
    }
  }

  function PrevSize(wide: bool): (n: nat) { if wide then 5 else 1 }

  /** The back pointer in the given width. */
  function PrevField(wide: bool, prev: nat): (s: seq<byte>)
    ensures |s| == PrevSize(wide)
  {
    if wide then [ZIP_BIGLEN] + LE(prev, 4) else [prev % 256]
  }

  function RawLen(e: Entry): (n: nat)
    ensures n >= 2
  {
    PrevSize(e.wide) + |Body(e.item)|
  }

  function Raw(prev: nat, e: Entry): (s: seq<byte>)
    ensures |s| == RawLen(e)
  {
    PrevField(e.wide, prev) + Body(e.item)
  }

  // ---------------------------------------------------------------- reading

  datatype ZlEntry = ZlEntry(prevSize: nat, prevLen: nat, lenSize: nat, len: nat, encoding: byte)

  function DecodePrevSize(b: byte): (n: nat) { if b < ZIP_BIGLEN then 1 else 5 }

  function DecodeLenSize(b: byte): (n: nat) {
    if b < 0x40 then 1 else if b < 0x80 then 2 else if b < ZIP_STR_MASK then 5 else 1
  }

  /** The header of an entry at p lies inside s. */
  predicate Readable(s: seq<byte>, p: nat) {
    p < |s| && p + DecodePrevSize(s[p]) < |s| &&
    p + DecodePrevSize(s[p]) + DecodeLenSize(s[p + DecodePrevSize(s[p])]) <= |s|
  }

  /** ZIP_DECODE_LENGTH at q: payload length and encoding. */
  function DecodeLen(s: seq<byte>, q: nat): (n: nat)
    requires q < |s| && q + DecodeLenSize(s[q]) <= |s|
  {
    var b := s[q];
    if b < 0x40 then b
    else if b < 0x80 then (b - 0x40) * 256 + s[q + 1]
    else if b < ZIP_STR_MASK then s[q + 1] * 0x100_0000 + s[q + 2] * 0x1_0000 + s[q + 3] * 256 + s[q + 4]
    else IntSize(b)
  }

  /** zipEntry. */
  function ZipEntry(s: seq<byte>, p: nat): (e: ZlEntry)
    requires Readable(s, p)
  {
    var ps := DecodePrevSize(s[p]);
    var prev := if ps == 1 then s[p] else FromLE(s[p + 1..p + 5]);
    var b := s[p + ps];
    ZlEntry(ps, prev, DecodeLenSize(b), DecodeLen(s, p + ps), if b < ZIP_STR_MASK then b - b % 64 else b)
  }

  /** zipRawEntryLength. */
  function RawEntryLength(s: seq<byte>, p: nat): (n: nat)
    requires Readable(s, p)
  {
    var e := ZipEntry(s, p);
    e.prevSize + e.lenSize + e.len
  }

  /** zipLoadInteger. */
  function LoadInteger(s: seq<byte>, q: nat, encoding: byte): (v: int)
    requires q + IntSize(encoding) <= |s|
  {
    if IntSize(encoding) > 0 then Signed(FromLE(s[q..q + IntSize(encoding)]), IntSize(encoding))
    else Immediate(encoding)
  }

  /** ziplistGet on a position that holds an entry. */
  function LoadItem(s: seq<byte>, p: nat): (item: Item)
    requires Readable(s, p)
    requires p + RawEntryLength(s, p) <= |s|
  {
    var e := ZipEntry(s, p);
    var q := p + e.prevSize + e.lenSize;
    if e.encoding < ZIP_STR_MASK then Str(s[q..q + e.len]) else Int(e.encoding, LoadInteger(s, q, e.encoding))
  }

  // ------------------------------------------------------------- round trip

  /** Raw(prev, e) sits in s at p. */
  ghost predicate Holds(s: seq<byte>, p: nat, prev: nat, e: Entry) {
    p + RawLen(e) <= |s| && s[p..p + RawLen(e)] == Raw(prev, e)
  }

  predicate EntryOk(prev: nat, e: Entry) {
    ItemOk(e.item) && prev < TWO32 && (e.wide || prev < ZIP_BIGLEN)
  }

  lemma BigEndianDigits(n: nat)
    requires n < TWO32
    ensures n == n / 0x100_0000 % 256 * 0x100_0000 + n / 0x1_0000 % 256 * 0x1_0000 + n / 256 % 256 * 256 + n % 256
  {
    assert n / 0x1_0000 == n / 256 / 256;
    assert n / 0x100_0000 == n / 0x1_0000 / 256;
    assert n / 0x100_0000 < 256;
  }

  lemma StrHeaderDecodes(n: nat, s: seq<byte>, q: nat)
    requires n < TWO32
    requires q + |StrHeader(n)| <= |s| && s[q..q + |StrHeader(n)|] == StrHeader(n)
    ensures s[q] < ZIP_STR_MASK && DecodeLenSize(s[q]) == |StrHeader(n)| && DecodeLen(s, q) == n
  {
    BigEndianDigits(n);
    var h := StrHeader(n);
    var t := s[q..q + |h|];
    assert s[q] == t[0];
    if 0x3f < n <= 0x3fff {
      assert s[q + 1] == t[1];
    } else if n > 0x3fff {
      assert s[q + 1] == t[1] && s[q + 2] == t[2] && s[q + 3] == t[3] && s[q + 4] == t[4];
    }
  }

  /** Any string of less than 4 GiB can be stored: the encoding chosen for a 64-bit integer
      holds it. */
  lemma Storable(strtoll: seq<byte> -> Option<int>, s: seq<byte>)
    requires |s| < TWO32
    requires strtoll(s).Some? ==> -0x8000_0000_0000_0000 <= strtoll(s).value < 0x8000_0000_0000_0000
    ensures ItemOk(ItemOf(strtoll, s))
  {
    Pow256Values();
  }

  /** No encoding that holds v is smaller than the one chosen, and 0 to 12 are their own
      header bytes. */
  lemma SmallestEncoding(e: byte, v: int)
    requires ItemOk(Int(e, v))
    ensures IntSize(IntEncoding(v)) <= IntSize(e)
    ensures 0 <= v <= 12 ==> IntEncoding(v) == ZIP_INT_IMM_MIN + v
  {
    Pow256Values();
  }

  /** No string header that can say n is smaller than the one chosen. */
  lemma SmallestHeader(n: nat)
    requires n < TWO32
    ensures |StrHeader(n)| == 1 <==> n < 0x40
    ensures |StrHeader(n)| <= 2 <==> n < 0x4000
    ensures StrHeader(n)[0] / 0x40 == if n < 0x40 then 0 else if n < 0x4000 then 1 else 2
  {
  }

  lemma IntLoads(e: byte, v: int)
    requires ItemOk(Int(e, v))
    ensures if IntSize(e) > 0 then Signed(FromLE(LE(v, IntSize(e))), IntSize(e)) == v else Immediate(e) == v
  {
    if IntSize(e) > 0 {
      LESigned(v, IntSize(e));
    }
  }

  /** The header and payload written for item decode to item, wherever they sit. */
  lemma BodyDecodes(item: Item, s: seq<byte>, q: nat)
    requires ItemOk(item)
    requires q + |Body(item)| <= |s| && s[q..q + |Body(item)|] == Body(item)
    ensures q + DecodeLenSize(s[q]) <= |s|
    ensures DecodeLenSize(s[q]) + DecodeLen(s, q) == |Body(item)|
    ensures item.Str? ==> s[q] < ZIP_STR_MASK && DecodeLenSize(s[q]) <= |Body(item)| &&
                          s[q + DecodeLenSize(s[q])..q + |Body(item)|] == item.data
    ensures item.Int? ==> s[q] == item.encoding >= ZIP_STR_MASK && IntSize(s[q]) + 1 == |Body(item)| &&
                          LoadInteger(s, q + 1, s[q]) == item.value
  {
    var b := Body(item);
    match item
    case Str(data) =>
      var h := StrHeader(|data|);
      assert h + data + [] == b;
      SliceParts(s, q, q + |b|, h, data, []);
      StrHeaderDecodes(|data|, s, q);
    case Int(e, v) =>
      var p := LE(v, IntSize(e));
      assert [e] + p + [] == b;
      SliceParts(s, q, q + |b|, [e], p, []);
      assert s[q] == s[q..q + 1][0];
      IntLoads(e, v);
  }

  lemma PrevFieldDecodes(wide: bool, prev: nat, s: seq<byte>, p: nat)
    requires prev < TWO32 && (wide || prev < ZIP_BIGLEN)
    requires p + PrevSize(wide) <= |s| && s[p..p + PrevSize(wide)] == PrevField(wide, prev)
    ensures s[p] != ZIP_END && DecodePrevSize(s[p]) == PrevSize(wide)
    ensures prev == if wide then FromLE(s[p + 1..p + 5]) else s[p]
  {
    var f := PrevField(wide, prev);
    assert s[p] == s[p..p + PrevSize(wide)][0] == f[0];
    if wide {
      assert [f[0]] + LE(prev, 4) + [] == f;
      SliceParts(s, p, p + 5, [f[0]], LE(prev, 4), []);
      Pow256Values();
      LEUnsigned(prev, 4);
    }
  }

  lemma HoldsParts(s: seq<byte>, p: nat, prev: nat, e: Entry)
    requires Holds(s, p, prev, e)
    ensures var n := PrevSize(e.wide);
            && s[p..p + n] == PrevField(e.wide, prev)
            && s[p + n..p + n + |Body(e.item)|] == Body(e.item)
  {
    hide LE, PrevField, Body;
    var f, b := PrevField(e.wide, prev), Body(e.item);
    assert f + b + [] == f + b;
    SliceParts(s, p, p + RawLen(e), f, b, []);
  }

  /** The code finds the entry e, recording prev, at p; something follows it. */
  predicate ReadsAs(s: seq<byte>, p: nat, prev: nat, e: Entry) {
    && p + RawLen(e) < |s| && s[p] != ZIP_END && Readable(s, p) && RawEntryLength(s, p) == RawLen(e)
    && ZipEntry(s, p).prevLen == prev && DecodePrevSize(s[p]) == ZipEntry(s, p).prevSize == PrevSize(e.wide)
  }

  /** Reading an entry's header gives back the pointer and raw length Raw wrote;
      the first byte is never the end marker. */
  lemma HeaderDecodes(s: seq<byte>, p: nat, prev: nat, e: Entry)
    requires EntryOk(prev, e) && Holds(s, p, prev, e)
    ensures s[p] != ZIP_END && Readable(s, p)
    ensures RawEntryLength(s, p) == RawLen(e)
    ensures ZipEntry(s, p).prevLen == prev && ZipEntry(s, p).prevSize == PrevSize(e.wide)
  {
    HoldsParts(s, p, prev, e);
    PrevFieldDecodes(e.wide, prev, s, p);
    BodyDecodes(e.item, s, p + PrevSize(e.wide));
  }

  /** Reading an entry's payload gives back the item. */
  lemma ItemDecodes(s: seq<byte>, p: nat, prev: nat, e: Entry)
    requires EntryOk(prev, e) && Holds(s, p, prev, e)
    ensures Readable(s, p) && p + RawEntryLength(s, p) <= |s|
    ensures LoadItem(s, p) == e.item
  {
    hide LE, FromLE, Body, PrevField;
    HeaderDecodes(s, p, prev, e);
    HoldsParts(s, p, prev, e);
    BodyDecodes(e.item, s, p + PrevSize(e.wide));
  }
}
