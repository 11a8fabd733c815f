/** CircularBuffer of src/net/buffer.h: a power-of-two ring with masked positions,
    seen as a bounded queue of at most capacity - 1 bytes. */
module Ring {
  import opened Bytes
  import opened Mask

  const MAX_CAPACITY := 0x8000_0000_0000_0000

  /** One iovec: len bytes of the ring's storage from base on. */
  datatype Segment = Segment(base: nat, len: nat)

  /** n bytes of the ring storage b from position p on, wrapping at the end. */
  function Window(b: seq<byte>, p: nat, n: nat): (s: seq<byte>)
    requires p < |b| && n <= |b|
    ensures |s| == n
  {
    (b + b)[p..p + n]
  }

  /** p moved forward by d around a ring of n bytes. */
  function Forward(p: nat, d: nat, n: nat): (q: nat)
    requires p < n && d <= n
    ensures q < n
  {
    if p + d < n then p + d else p + d - n
  }

  predicate Inside(segs: seq<Segment>, n: nat) {
    forall j | 0 <= j < |segs| :: segs[j].base + segs[j].len <= n
  }

  function Piece(b: seq<byte>, g: Segment): (s: seq<byte>)
    requires g.base + g.len <= |b|
  {
    b[g.base..g.base + g.len]
  }

  /** The bytes a list of segments describes. */
  function Gather(b: seq<byte>, segs: seq<Segment>): (s: seq<byte>)
    requires Inside(segs, |b|)
  {
    if segs == [] then [] else Gather(b, segs[..|segs| - 1]) + Piece(b, segs[|segs| - 1])
  }

  // --------------------------------------------------------- windows compose

  /** A window is one stretch of the storage, or its end followed by its beginning. */
  lemma WindowPieces(b: seq<byte>, p: nat, n: nat)
    requires p < |b| && n <= |b|
    ensures Window(b, p, n) == if p + n <= |b| then b[p..p + n] else b[p..] + b[..p + n - |b|]
  {
  }

  lemma WrapAround(b: seq<byte>, q: nat, n: nat)
    requires |b| <= q && q + n <= 2 * |b|
    ensures (b + b)[q..q + n] == (b + b)[q - |b|..q - |b| + n]
  {
  }

  lemma WindowSplit(b: seq<byte>, p: nat, m: nat, n: nat)
    requires p < |b| && m + n <= |b|
    ensures Window(b, p, m + n) == Window(b, p, m) + Window(b, Forward(p, m, |b|), n)
  {
    SliceJoin(b + b, p, p + m, p + m + n);
    if p + m >= |b| {
      WrapAround(b, p + m, n);
    }
  }

  lemma WindowSlice(b: seq<byte>, p: nat, total: nat, from: nat, n: nat)
    requires p < |b| && from + n <= total <= |b|
    ensures Window(b, Forward(p, from, |b|), n) == Window(b, p, total)[from..from + n]
  {
    hide Window;
    WindowSplit(b, p, from, total - from);
    WindowSplit(b, Forward(p, from, |b|), n, total - from - n);
    var w := Window(b, Forward(p, from, |b|), total - from);
    assert Window(b, p, total)[from..] == w;
    assert w[..n] == Window(b, p, total)[from..from + n];
  }

  lemma GatherNone(b: seq<byte>)
    ensures Gather(b, []) == []
  {
  }

  /** The window of n > 0 bytes from p on, as segments. */
  function Pieces(k: nat, p: nat, n: nat): (segs: seq<Segment>)
    requires p < k && 0 < n <= k
    ensures |segs| <= 2 && Inside(segs, k) && forall j | 0 <= j < |segs| :: segs[j].len > 0
  {
    if p + n <= k then [Segment(p, n)] else [Segment(p, k - p), Segment(0, p + n - k)]
  }

  lemma GatherPieces(b: seq<byte>, p: nat, n: nat)
    requires p < |b| && 0 < n <= |b|
    ensures Gather(b, Pieces(|b|, p, n)) == Window(b, p, n)
  {
    hide Window, Gather, Piece;
    WindowPieces(b, p, n);
    if p + n <= |b| {
      assert Pieces(|b|, p, n) == [Segment(p, n)];
      GatherOne(b, Segment(p, n));
      PieceIs(b, p, n);
    } else {
      var m := p + n - |b|;
      assert Pieces(|b|, p, n) == [Segment(p, |b| - p), Segment(0, m)];
      GatherTwo(b, Segment(p, |b| - p), Segment(0, m));
      PieceIs(b, p, |b| - p);
      PieceIs(b, 0, m);
    }
  }

  lemma PieceIs(b: seq<byte>, p: nat, n: nat)
    requires p + n <= |b|
    ensures Piece(b, Segment(p, n)) == b[p..p + n]
    ensures p == 0 ==> Piece(b, Segment(p, n)) == b[..n]
    ensures p + n == |b| ==> Piece(b, Segment(p, n)) == b[p..]
  {
  }

  lemma GatherOne(b: seq<byte>, g: Segment)
    requires g.base + g.len <= |b|
    ensures Gather(b, [g]) == Piece(b, g)
  {
    hide Piece;
    assert [g][..0] == [];
    assert [] + Piece(b, g) == Piece(b, g);
  }

  lemma GatherTwo(b: seq<byte>, g: Segment, h: Segment)
    requires g.base + g.len <= |b| && h.base + h.len <= |b|
    ensures Gather(b, [g, h]) == Piece(b, g) + Piece(b, h)
  {
    hide Piece;
    assert [g, h][..1] == [g];
    GatherOne(b, g);
  }

  /** RoundUp2Power: the least power of two that is not below size. */
  method RoundUp2Power(size: nat) returns (r: nat)
    requires size <= MAX_CAPACITY
    ensures size == 0 ==> r == 0
    ensures size > 0 ==> PowerOf2(r) && size <= r <= MAX_CAPACITY && (r == 1 || r < 2 * size)
  {
    hide Pow2;
    if size == 0 {
      return 0;
    }
    r := 1;
    ghost var k: nat := 0;
    Pow2Zero();
    while r < size
      invariant r == Pow2(k) && (r == 1 || r < 2 * size) && r <= MAX_CAPACITY
      decreases 2 * size - r
    {
      Pow2Step(k);
      NextPower(k, size);
      r, k := 2 * r, k + 1;
    }
  }

  lemma Pow2Zero()
    ensures Pow2(0) == 1
  {
  }

  lemma Pow2Step(k: nat)
    ensures Pow2(k + 1) == 2 * Pow2(k)
  {
  }

  lemma NextPower(k: nat, size: nat)
    requires Pow2(k) < size <= MAX_CAPACITY
    ensures 2 * Pow2(k) <= MAX_CAPACITY
  {
    Pow2Is64();
    assert Pow2(64) == 2 * Pow2(63);
    hide Pow2;
    if k >= 63 {
      if k > 63 { Pow2Increases(63, k); }
    } else if k + 1 < 63 {
      Pow2Increases(k + 1, 63);
      Pow2Step(k);
    } else {
      Pow2Step(k);
    }
  }

  // ---------------------------------------------------------------- writing

  /** Distance from q forward to i around a ring of n bytes. */
  function Ahead(q: nat, i: nat, n: nat): (d: nat)
    requires q < n && i < n
    ensures d < n
  {
    if q <= i then i - q else i + n - q
  }

  /** b' is b with data stored from q on, wrapping at the end. */
  ghost predicate Written(b: seq<byte>, b': seq<byte>, q: nat, data: seq<byte>) {
    && |b'| == |b| && q < |b| && |data| <= |b|
    && forall i | 0 <= i < |b| :: b'[i] == if Ahead(q, i, |b|) < |data| then data[Ahead(q, i, |b|)] else b[i]
  }

  lemma WrittenOnce(b: seq<byte>, q: nat, data: seq<byte>)
    requires q < |b| && q + |data| <= |b|
    ensures Written(b, Blit(b, q, data), q, data)
  {
  }

  lemma WrittenTwice(b: seq<byte>, q: nat, data: seq<byte>)
    requires q < |b| && |data| <= |b| < q + |data|
    ensures Written(b, Blit(Blit(b, q, data[..|b| - q]), 0, data[|b| - q..]), q, data)
  {
  }

  lemma WrittenWhere(b: seq<byte>, b': seq<byte>, q: nat, data: seq<byte>)
    requires Written(b, b', q, data)
    ensures Window(b', q, |data|) == data
  {
    forall j | 0 <= j < |data|
      ensures Window(b', q, |data|)[j] == data[j]
    {
      var i := Forward(q, j, |b|);
      assert Ahead(q, i, |b|) == j;
      assert b'[i] == data[j];
    }
  }

  /** The rest of the ring is untouched. */
  lemma WrittenElsewhere(b: seq<byte>, b': seq<byte>, q: nat, data: seq<byte>, p: nat, n: nat)
    requires Written(b, b', q, data) && p < |b| && n <= |b|
    requires n == 0 || (|data| <= Ahead(q, p, |b|) && Ahead(q, p, |b|) + n <= |b|)
    ensures Window(b', p, n) == Window(b, p, n)
  {
    forall j | 0 <= j < n
      ensures Window(b', p, n)[j] == Window(b, p, n)[j]
    {
      var i := Forward(p, j, |b|);
      assert Ahead(q, i, |b|) == Ahead(q, p, |b|) + j;
      assert b'[i] == b[i];
    }
  }

  class CircularBuffer {
    var buffer: array<byte>
    var readPos: nat
    var writePos: nat

    ghost predicate Valid()
      reads this
    {
      && PowerOf2(buffer.Length) && buffer.Length <= MAX_CAPACITY
      && readPos < buffer.Length && writePos < buffer.Length
    }

    ghost function Used(): (n: nat)
      reads this
      requires Valid()
      ensures n < buffer.Length
    {
      Ahead(readPos, writePos, buffer.Length)
    }

    /** The queued bytes, oldest first. */
    ghost function Contents(): (s: seq<byte>)
      reads this, buffer
      requires Valid()
      ensures |s| == Used()
    {
      Window(buffer[..], readPos, Used())
    }

    constructor (size: nat)
      requires 0 < size <= MAX_CAPACITY
      ensures Valid() && fresh(buffer) && Contents() == []
      ensures size <= buffer.Length && (buffer.Length == 1 || buffer.Length < 2 * size)
    {
      var n := RoundUp2Power(size);
      buffer := new byte[n];
      readPos, writePos := 0, 0;
    }

    method ReadableSize() returns (n: nat)
      requires Valid()
      ensures n == |Contents()|
    {
      hide And, PowerOf2;
      MaskedDifference(writePos, readPos, buffer.Length);
      return And(WrapSub(writePos, readPos), buffer.Length - 1);
    }

    method WritableSize() returns (n: nat)
      requires Valid()
      ensures n == buffer.Length - 1 - |Contents()|
    {
      var used := ReadableSize();
      return buffer.Length - used - 1;
    }

    method IsEmpty() returns (b: bool)
      requires Valid()
      ensures b <==> Contents() == []
    {
      return writePos == readPos;
    }

    /** Full means capacity - 1 bytes. */
    method IsFull() returns (b: bool)
      requires Valid()
      ensures b <==> |Contents()| == buffer.Length - 1
    {
      hide And, PowerOf2;
      MaskedSum(writePos, 1, buffer.Length);
      return And(writePos + 1, buffer.Length - 1) == readPos;
    }

    /** Bytes written ahead of the write position become part of the queue. */
    method AdjustWritePtr(size: nat)
      requires Valid() && |Contents()| + size < buffer.Length
      modifies this`writePos
      ensures Valid()
      ensures Contents() == old(Contents()) + Window(buffer[..], old(writePos), size)
    {
      hide And, PowerOf2, Window;
      MaskedSum(writePos, size, buffer.Length);
      WindowSplit(buffer[..], readPos, Used(), size);
      writePos := And(writePos + size, buffer.Length - 1);
    }

    method AdjustReadPtr(size: nat)
      requires Valid() && size <= |Contents()|
      modifies this`readPos
      ensures Valid() && Contents() == old(Contents())[size..]
    {
      hide And, PowerOf2, Window;
      MaskedSum(readPos, size, buffer.Length);
      WindowSlice(buffer[..], readPos, Used(), size, Used() - size);
      ghost var was := Contents();
      assert was[size..|was|] == was[size..];
      readPos := And(readPos + size, buffer.Length - 1);
    }

    method Store(at: nat, data: seq<byte>)
      requires at + |data| <= buffer.Length
      modifies buffer
      ensures buffer[..] == Blit(old(buffer[..]), at, data)
    {
      forall i | 0 <= i < |data| {
        buffer[at + i] := data[i];
      }
    }

    /** The memcpy calls of lines 206-222: one piece, or two when the data wraps. */
    method StoreWrapped(at: nat, data: seq<byte>)
      requires Valid() && at < buffer.Length && |data| <= buffer.Length
      requires readPos > at ==> at + |data| < readPos
      modifies buffer
      ensures Written(old(buffer[..]), buffer[..], at, data)
    {
      hide Blit;
      ghost var b := buffer[..];
      if readPos > at {
        Store(at, data);
        WrittenOnce(b, at, data);
      } else {
        var avail1 := buffer.Length - at;
        if avail1 >= |data| + 1 {
          Store(at, data);
          WrittenOnce(b, at, data);
        } else {
          Store(at, data[..avail1]);
          var left := |data| - avail1;
          if left > 0 {
            Store(0, data[avail1..]);
            WrittenTwice(b, at, data);
          } else {
            assert data[..avail1] == data;
            WrittenOnce(b, at, data);
          }
        }
      }
    }

    /** PushDataAt: data goes into the free space, offset bytes behind the queue's end. */
    method PushDataAt(data: seq<byte>, offset: nat) returns (ok: bool)
      requires Valid()
      modifies buffer
      ensures Valid() && Contents() == old(Contents())
      ensures ok <==> data == [] || offset + |data| <= buffer.Length - 1 - |Contents()|
      ensures ok && data != [] ==> Window(buffer[..], Forward(writePos, offset, buffer.Length), |data|) == data
      ensures offset <= buffer.Length ==>
                Window(buffer[..], writePos, offset) == old(Window(buffer[..], writePos, offset))
    {
      hide And, PowerOf2, Window, Written;
      if data == [] {
        return true;
      }
      var free := WritableSize();
      if offset + |data| > free {
        return false;
      }
      MaskedSum(writePos, offset, buffer.Length);
      var at := And(writePos + offset, buffer.Length - 1);
      ghost var b := buffer[..];
      StoreWrapped(at, data);
      WrittenWhere(b, buffer[..], at, data);
      WrittenElsewhere(b, buffer[..], at, data, readPos, Used());
      WrittenElsewhere(b, buffer[..], at, data, writePos, offset);
      return true;
    }

    /** PushData: all of data is queued, or nothing changes. */
    method PushData(data: seq<byte>) returns (ok: bool)
      requires Valid()
      modifies this`writePos, buffer
      ensures Valid()
      ensures ok <==> |old(Contents())| + |data| < buffer.Length
      ensures Contents() == if ok then old(Contents()) + data else old(Contents())
    {
      hide And, PowerOf2, Window;
      ok := PushDataAt(data, 0);
      if !ok {
        return;
      }
      AdjustWritePtr(|data|);
    }

    /** PeekDataAt: a copy of nSize queued bytes, offset bytes behind the oldest. */
    method PeekDataAt(nSize: nat, offset: nat) returns (ok: bool, data: seq<byte>)
      requires Valid()
      ensures ok <==> nSize == 0 || nSize + offset <= |Contents()|
      ensures data == if ok && nSize > 0 then Contents()[offset..offset + nSize] else []
    {
      hide And, PowerOf2, Window;
      if nSize == 0 {
        return true, [];
      }
      var used := ReadableSize();
      if nSize + offset > used {
        return false, [];
      }
      MaskedSum(readPos, offset, buffer.Length);
      var from := And(readPos + offset, buffer.Length - 1);
      WindowSlice(buffer[..], readPos, Used(), offset, nSize);
      WindowPieces(buffer[..], from, nSize);
      if from < writePos {
        data := buffer[from..from + nSize];
      } else {
        var avail1 := buffer.Length - from;
        if avail1 >= nSize {
          data := buffer[from..from + nSize];
        } else {
          data := buffer[from..] + buffer[..nSize - avail1];
        }
      }
      return true, data;
    }

    /** PeekData: take nSize bytes off the front, or nothing when there are fewer. */
    method PeekData(nSize: nat) returns (ok: bool, data: seq<byte>)
      requires Valid()
      modifies this`readPos
      ensures Valid()
      ensures ok <==> nSize <= |old(Contents())|
      ensures ok ==> old(Contents()) == data + Contents() && |data| == nSize
      ensures !ok ==> Contents() == old(Contents())
    {
      hide And, PowerOf2, Window, Contents;
      ok, data := PeekDataAt(nSize, 0);
      if ok {
        Halves(Contents(), nSize);
        AdjustReadPtr(nSize);
      }
    }

    /** GetDatum: the one or two segments that hold maxSize queued bytes from offset on,
        or as many as there are. */
    method GetDatum(maxSize: nat, offset: nat) returns (segs: seq<Segment>)
      requires Valid()
      ensures |segs| <= 2 && Inside(segs, buffer.Length) && forall j | 0 <= j < |segs| :: segs[j].len > 0
      ensures Gather(buffer[..], segs)
              == if offset >= |Contents()| then []
                 else Contents()[offset..if maxSize <= |Contents()| - offset then offset + maxSize else |Contents()|]
    {
      hide And, PowerOf2, Window, Gather;
      var used := ReadableSize();
      if maxSize == 0 || offset >= used {
        GatherNone(buffer[..]);
        return [];
      }
      MaskedSum(readPos, offset, buffer.Length);
      var from := And(readPos + offset, buffer.Length - 1);
      ghost var n := if maxSize <= used - offset then maxSize else used - offset;
      WindowSlice(buffer[..], readPos, Used(), offset, n);
      GatherPieces(buffer[..], from, n);
      if from < writePos {
        var len := if maxSize < writePos - from then maxSize else writePos - from;
        return [Segment(from, len)];
      } else {
        var left := if maxSize > buffer.Length - from then buffer.Length - from else maxSize;
        var first := Segment(from, left);
        left := maxSize - left;
        if left > 0 && writePos > 0 {
          left := if left > writePos then writePos else left;
          return [first, Segment(0, left)];
        }
        return [first];
      }
    }

    /** GetSpace: the segments of the free space, offset bytes behind the queue's end; a
        single remaining byte is not offered. */
    method GetSpace(offset: nat) returns (segs: seq<Segment>)
      requires Valid()
      ensures |segs| <= 2 && Inside(segs, buffer.Length) && forall j | 0 <= j < |segs| :: segs[j].len > 0
      ensures var free := buffer.Length - 1 - |Contents()|;
              segs == if free <= offset + 1 then []
                      else Pieces(buffer.Length, Forward(writePos, offset, buffer.Length), free - offset)
      ensures forall j, i | 0 <= j < |segs| && segs[j].base <= i < segs[j].base + segs[j].len ::
                Ahead(readPos, i, buffer.Length) >= |Contents()|
      ensures var free := buffer.Length - 1 - |Contents()|;
              Gather(buffer[..], segs)
              == if free <= offset + 1 then []
                 else Window(buffer[..], Forward(writePos, offset, buffer.Length), free - offset)
    {
      hide And, PowerOf2, Window, Gather;
      var free := WritableSize();
      if free <= offset + 1 {
        GatherNone(buffer[..]);
        return [];
      }
      MaskedSum(writePos, offset, buffer.Length);
      var at := And(writePos + offset, buffer.Length - 1);
      GatherPieces(buffer[..], at, free - offset);
      if readPos > at {
        return [Segment(at, readPos - at - 1)];
      } else {
        var len := buffer.Length - at;
        if readPos == 0 {
          len := len - 1;
        } else if readPos > 1 {
          return [Segment(at, len), Segment(0, readPos - 1)];
        }
        return [Segment(at, len)];
      }
    }
  }
}
