/** UnboundedBuffer of src/net/unbounded_buffer.cc: a queue of bytes in one vector that
    grows by half and slides its contents back to the front. */
module Unbounded {
  import opened Bytes

  const MAX_BUFFER_SIZE := 0x7fff_ffff_ffff_ffff

  class UnboundedBuffer {
    var buffer: array<byte>
    var readPos: nat
    var writePos: nat

    ghost predicate Valid()
      reads this
    {
      readPos <= writePos <= buffer.Length
    }

    /** The queued bytes, oldest first. */
    ghost function Contents(): (s: seq<byte>)
      reads this, buffer
      requires Valid()
    {
      buffer[readPos..writePos]
    }

    constructor ()
      ensures Valid() && fresh(buffer) && Contents() == []
    {
      buffer := new byte[0];
      readPos, writePos := 0, 0;
    }

    function ReadableSize(): (n: nat)
      reads this
      requires Valid()
      ensures n == |Contents()|
    {
      writePos - readPos
    }

    function WritableSize(): (n: nat)
      reads this
      requires Valid()
    {
      buffer.Length - writePos
    }

    /** std::vector::resize to at least the current size; new bytes are zero. */
    method Resize(n: nat)
      requires Valid() && buffer.Length <= n
      modifies this`buffer
      ensures Valid() && fresh(buffer) && buffer.Length == n
      ensures Contents() == old(Contents())
    {
      var b := new byte[n](_ => 0);
      forall i | 0 <= i < buffer.Length {
        b[i] := buffer[i];
      }
      buffer := b;
    }

    /** assureSpace: grow until everything fits once the contents are at the front, then
        slide them there. */
    method AssureSpace(nSize: nat)
      requires Valid() && |Contents()| + nSize <= MAX_BUFFER_SIZE
      modifies this, buffer
      ensures Valid() && (buffer == old(buffer) || fresh(buffer))
      ensures Contents() == old(Contents()) && nSize <= WritableSize()
    {
      if nSize <= WritableSize() {
        return;
      }
      var maxSize := buffer.Length;
      while nSize > WritableSize() + readPos
        invariant Valid() && (buffer == old(buffer) || fresh(buffer)) && maxSize == buffer.Length
        invariant readPos == old(readPos) && writePos == old(writePos) && Contents() == old(Contents())
        decreases nSize + writePos - readPos - buffer.Length
      {
        if maxSize < 64 {
          maxSize := 64;
        } else if maxSize <= MAX_BUFFER_SIZE {
          maxSize := maxSize + maxSize / 2;
        } else {
          break;
        }
        Resize(maxSize);
      }
      if readPos > 0 {
        SlideToFront();
      }
    }

    /** Lines 85-91: memmove the contents to the front. */
    method SlideToFront()
      requires Valid()
      modifies this`readPos, this`writePos, buffer
      ensures Valid() && readPos == 0 && Contents() == old(Contents())
    {
      var dataSize := ReadableSize();
      ghost var s := Contents();
      forall i | 0 <= i < dataSize {
        buffer[i] := buffer[readPos + i];
      }
      readPos, writePos := 0, dataSize;
      assert forall i | 0 <= i < dataSize :: buffer[i] == s[i];
    }

    /** PushDataAt: the number of bytes stored behind the contents, offset bytes further. */
    method PushDataAt(data: seq<byte>, offset: nat) returns (n: nat)
      requires Valid()
      requires data != [] && |Contents()| != MAX_BUFFER_SIZE ==> |Contents()| + offset + |data| <= MAX_BUFFER_SIZE
      modifies this, buffer
      ensures Valid() && (buffer == old(buffer) || fresh(buffer))
      ensures Contents() == old(Contents())
      ensures n == if data == [] || |Contents()| == MAX_BUFFER_SIZE then 0 else |data|
      ensures n > 0 ==> writePos + offset + n <= buffer.Length
                        && buffer[writePos + offset..writePos + offset + n] == data
    {
      hide Blit;
      if data == [] {
        return 0;
      }
      if ReadableSize() == MAX_BUFFER_SIZE {
        return 0;
      }
      AssureSpace(|data| + offset);
      var at := writePos + offset;
      BlitBehind(buffer[..], readPos, writePos, at, data);
      ghost var s := buffer[..];
      assert s[readPos..writePos] == Contents();
      Memcpy(buffer, at, data);
      assert buffer[..][readPos..writePos] == Contents() && buffer[..][at..at + |data|] == buffer[at..at + |data|];
      return |data|;
    }

    /** PushData: everything is queued, unless the buffer is at its maximum. */
    method PushData(data: seq<byte>) returns (n: nat)
      requires Valid()
      requires data != [] && |Contents()| != MAX_BUFFER_SIZE ==> |Contents()| + |data| <= MAX_BUFFER_SIZE
      modifies this, buffer
      ensures Valid() && (buffer == old(buffer) || fresh(buffer))
      ensures n == if |old(Contents())| == MAX_BUFFER_SIZE then 0 else |data|
      ensures Contents() == old(Contents()) + data[..n]
    {
      n := PushDataAt(data, 0);
      ghost var s, w := Contents(), writePos;
      AdjustWritePtr(n);
      assert Contents() == s + buffer[w..w + n];
      assert data[..n] == if n == 0 then [] else data;
    }

    method AdjustWritePtr(n: nat)
      requires Valid() && writePos + n <= buffer.Length
      modifies this`writePos
      ensures Valid() && writePos == old(writePos) + n
    {
      writePos := writePos + n;
    }

    /** PeekDataAt: a copy of up to nSize bytes, offset bytes behind the oldest. */
    method PeekDataAt(nSize: nat, offset: nat) returns (data: seq<byte>)
      requires Valid()
      ensures data == if nSize == 0 || |Contents()| <= offset then []
                      else Contents()[offset..if nSize + offset > |Contents()| then |Contents()| else nSize + offset]
    {
      var dataSize := ReadableSize();
      if nSize == 0 || dataSize <= offset {
        return [];
      }
      var n := if nSize + offset > dataSize then dataSize - offset else nSize;
      data := buffer[readPos + offset..readPos + offset + n];
      SubSlice(buffer[..], readPos, writePos, offset, offset + n);
      assert Contents() == buffer[..][readPos..writePos];
      assert data == buffer[..][readPos + offset..readPos + offset + n];
    }

    /** PeekData: take up to nSize bytes off the front. */
    method PeekData(nSize: nat) returns (data: seq<byte>)
      requires Valid()
      modifies this`readPos
      ensures Valid() && old(Contents()) == data + Contents()
      ensures |data| == if nSize < |old(Contents())| then nSize else |old(Contents())|
    {
      data := PeekDataAt(nSize, 0);
      AdjustReadPtr(|data|);
    }

    method AdjustReadPtr(n: nat)
      requires Valid() && n <= |Contents()|
      modifies this`readPos
      ensures Valid() && Contents() == old(Contents())[n..]
    {
      readPos := readPos + n;
    }

    /** Shrink: reallocate to exactly the contents; unless tight, only when at most half
        the space is used. */
    method Shrink(tight: bool)
      requires Valid()
      modifies this
      ensures Valid() && (buffer == old(buffer) || fresh(buffer)) && Contents() == old(Contents())
      ensures tight || |Contents()| <= old(buffer.Length) / 2 ==> buffer.Length == |Contents()|
    {
      if buffer.Length == 0 {
        return;
      }
      var dataSize := ReadableSize();
      if !tight && dataSize > buffer.Length / 2 {
        return;
      }
      var tmp := new byte[dataSize];
      forall i | 0 <= i < dataSize {
        tmp[i] := buffer[readPos + i];
      }
      assert tmp[..] == buffer[readPos..writePos];
      buffer, readPos, writePos := tmp, 0, dataSize;
    }

    method Clear()
      modifies this`readPos, this`writePos
      ensures Valid() && Contents() == []
    {
      readPos, writePos := 0, 0;
    }

    method Swap(other: UnboundedBuffer)
      requires Valid() && other.Valid() && other != this
      modifies this, other
      ensures Valid() && other.Valid() && buffer == old(other.buffer) && other.buffer == old(buffer)
      ensures Contents() == old(other.Contents()) && other.Contents() == old(Contents())
    {
      buffer, other.buffer := other.buffer, buffer;
      readPos, other.readPos := other.readPos, readPos;
      writePos, other.writePos := other.writePos, writePos;
    }
  }
}
