/** AsyncBuffer of src/net/async_buffer.cc: bytes go from a ring, with an overflow buffer
    behind it, to the writer, with the swapped-out overflow in front. Each call is one step. */
module Async {
  import opened Bytes
  import opened Mask
  import opened Ring
  import opened Unbounded

  /** What ProcessBuffer hands to the writer. */
  datatype Chunks = Nothing | FromTmp | FromRing(segs: seq<Segment>)

  class AsyncBuffer {
    const ring: CircularBuffer
    const tmpBuf: UnboundedBuffer
    const backBuf: UnboundedBuffer
    var backBytes: nat
    /** Every byte ever written, and how many of them have been skipped. */
    ghost var written: seq<byte>
    ghost var skipped: nat

    ghost predicate Separate()
      reads this, ring, tmpBuf, backBuf
    {
      && tmpBuf != backBuf
      && ring.buffer != tmpBuf.buffer && ring.buffer != backBuf.buffer && tmpBuf.buffer != backBuf.buffer
    }

    /** The three stages in order hold exactly the written bytes not skipped yet. */
    ghost predicate Valid()
      reads this, ring, tmpBuf, backBuf, ring.buffer, tmpBuf.buffer, backBuf.buffer
    {
      && Separate() && ring.Valid() && tmpBuf.Valid() && backBuf.Valid()
      && backBytes == |backBuf.Contents()|
      && skipped <= |written| && Pending() == written[skipped..]
    }

    ghost function Pending(): (s: seq<byte>)
      reads this, ring, tmpBuf, backBuf, ring.buffer, tmpBuf.buffer, backBuf.buffer
      requires ring.Valid() && tmpBuf.Valid() && backBuf.Valid()
    {
      tmpBuf.Contents() + ring.Contents() + backBuf.Contents()
    }

    constructor (size: nat)
      requires 0 < size <= MAX_CAPACITY
      ensures Valid() && Pending() == [] && written == [] && skipped == 0
      ensures fresh(ring) && fresh(tmpBuf) && fresh(backBuf)
      ensures fresh(ring.buffer) && fresh(tmpBuf.buffer) && fresh(backBuf.buffer)
    {
      ring := new CircularBuffer(size);
      tmpBuf := new UnboundedBuffer();
      backBuf := new UnboundedBuffer();
      backBytes := 0;
      written, skipped := [], 0;
    }

    /** Lines 41-46: the whole sequence goes to the overflow buffer. */
    method PushBack(data: seq<seq<byte>>)
      requires Separate() && backBuf.Valid() && |backBuf.Contents()| + |Flat(data)| <= MAX_BUFFER_SIZE
      modifies backBuf, backBuf.buffer
      ensures backBuf.Valid() && (backBuf.buffer == old(backBuf.buffer) || fresh(backBuf.buffer))
      ensures backBuf.Contents() == old(backBuf.Contents()) + Flat(data)
    {
      hide Flat;
      var i: nat := 0;
      FlatNone(data);
      assert backBuf.Contents() + [] == backBuf.Contents();
      while i < |data|
        invariant i <= |data| && backBuf.Valid() && (backBuf.buffer == old(backBuf.buffer) || fresh(backBuf.buffer))
        invariant backBuf.Contents() == old(backBuf.Contents()) + Flat(data[..i])
      {
        FlatStep(data, i);
        FlatPrefix(data, i + 1);
        Assoc3(old(backBuf.Contents()), Flat(data[..i]), data[i]);
        var n := backBuf.PushData(data[i]);
        assert data[i][..n] == data[i];
        i := i + 1;
      }
      assert data[..i] == data;
    }

    /** Lines 54-56: the whole sequence goes to the ring, which has room for it. */
    method PushRing(data: seq<seq<byte>>)
      requires Separate() && ring.Valid() && |ring.Contents()| + |Flat(data)| < ring.buffer.Length
      modifies ring`writePos, ring.buffer
      ensures ring.Valid() && ring.Contents() == old(ring.Contents()) + Flat(data)
    {
      hide Flat;
      var i: nat := 0;
      FlatNone(data);
      assert ring.Contents() + [] == ring.Contents();
      while i < |data|
        invariant i <= |data| && ring.Valid()
        invariant ring.Contents() == old(ring.Contents()) + Flat(data[..i])
      {
        FlatStep(data, i);
        FlatPrefix(data, i + 1);
        Assoc3(old(ring.Contents()), Flat(data[..i]), data[i]);
        var ok := ring.PushData(data[i]);
        i := i + 1;
      }
      assert data[..i] == data;
    }

    method TotalBytes(data: seq<seq<byte>>) returns (n: nat)
      ensures n == |Flat(data)|
    {
      n := 0;
      var i: nat := 0;
      FlatNone(data);
      while i < |data|
        invariant i <= |data| && n == |Flat(data[..i])|
      {
        FlatStep(data, i);
        n, i := n + |data[i]|, i + 1;
      }
      assert data[..i] == data;
    }

    /** Write: the bytes go behind everything pending. */
    method Write(data: seq<seq<byte>>)
      requires Valid() && |backBuf.Contents()| + |Flat(data)| <= MAX_BUFFER_SIZE
      modifies this`backBytes, this`written, ring`writePos, ring.buffer, backBuf, backBuf.buffer
      ensures Valid() && written == old(written) + Flat(data) && skipped == old(skipped)
      ensures backBuf.buffer == old(backBuf.buffer) || fresh(backBuf.buffer)
    {
      hide Flat, Window, PowerOf2;
      ghost var t, r, b := tmpBuf.Contents(), ring.Contents(), backBuf.Contents();
      var len := TotalBytes(data);
      var free := ring.WritableSize();
      if backBytes > 0 || free < len {
        PushBack(data);
        backBytes := backBytes + len;
        Assoc3(t + r, b, Flat(data));
      } else {
        PushRing(data);
        InsertLast(t, r, b, Flat(data));
      }
      Extend(written, skipped, Flat(data));
      written := written + Flat(data);
    }

    /** ProcessBuffer: the front of what is pending; the overflow is swapped to the front
        when nothing is before it. */
    method ProcessBuffer() returns (chunks: Chunks)
      requires Valid()
      modifies this`backBytes, tmpBuf, backBuf
      ensures Valid() && written == old(written) && skipped == old(skipped)
      ensures Pending() == old(Pending())
      ensures Handed(chunks) <= Pending() && (Handed(chunks) == [] ==> Pending() == [])
      ensures Handed(chunks) == if tmpBuf.Contents() != [] then tmpBuf.Contents() else ring.Contents()
    {
      hide Gather, Window, PowerOf2;
      if tmpBuf.ReadableSize() != 0 {
        assert Pending() == tmpBuf.Contents() + (ring.Contents() + backBuf.Contents());
        return FromTmp;
      }
      var none := ring.IsEmpty();
      if !none {
        var n := ring.ReadableSize();
        var segs := ring.GetDatum(n, 0);
        assert Pending() == ring.Contents() + backBuf.Contents();
        return FromRing(segs);
      }
      if backBytes > 0 {
        backBytes := 0;
        tmpBuf.Swap(backBuf);
        assert tmpBuf.Contents() + [] + [] == tmpBuf.Contents();
        return FromTmp;
      }
      return Nothing;
    }

    /** The bytes the chunks describe. */
    ghost function Handed(chunks: Chunks): (s: seq<byte>)
      reads this, ring, tmpBuf, ring.buffer, tmpBuf.buffer
      requires tmpBuf.Valid()
    {
      match chunks
      case Nothing => []
      case FromTmp => tmpBuf.Contents()
      case FromRing(segs) => if InRing(segs) then Gather(ring.buffer[..], segs) else []
    }

    ghost predicate InRing(segs: seq<Segment>)
      reads this, ring
    {
      Inside(segs, ring.buffer.Length)
    }

    /** Skip: size bytes at the front are done with, at most as many as were handed out. */
    method Skip(size: nat)
      requires Valid()
      requires size <= if tmpBuf.Contents() != [] then |tmpBuf.Contents()| else |ring.Contents()|
      modifies this`skipped, tmpBuf`readPos, ring`readPos
      ensures Valid() && written == old(written) && skipped == old(skipped) + size
      ensures Pending() == old(Pending())[size..]
    {
      hide Window, PowerOf2;
      ghost var t, r, b := tmpBuf.Contents(), ring.Contents(), backBuf.Contents();
      if tmpBuf.ReadableSize() != 0 {
        tmpBuf.AdjustReadPtr(size);
        DropFirst(t, r, b, size);
      } else {
        ring.AdjustReadPtr(size);
        DropSecond(t, r, b, size);
      }
      DropTwice(written, skipped, size);
      skipped := skipped + size;
    }
  }

  lemma Extend(w: seq<byte>, k: nat, d: seq<byte>)
    requires k <= |w|
    ensures (w + d)[k..] == w[k..] + d
  {
  }

  lemma DropFirst<T>(t: seq<T>, r: seq<T>, b: seq<T>, n: nat)
    requires n <= |t|
    ensures (t + r + b)[n..] == t[n..] + r + b
  {
  }

  lemma DropSecond<T>(t: seq<T>, r: seq<T>, b: seq<T>, n: nat)
    requires t == [] && n <= |r|
    ensures (t + r + b)[n..] == t + r[n..] + b
  {
  }

  lemma InsertLast<T>(t: seq<T>, r: seq<T>, b: seq<T>, d: seq<T>)
    requires b == []
    ensures t + (r + d) + b == t + r + b + d
  {
  }
}
