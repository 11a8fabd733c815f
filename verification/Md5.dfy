/** MD5 of src/std/pstd_hash.cc as a streaming hash. */
module Md5 {
  import opened Bytes
  import opened BlockHash

  const TWO29 := 0x2000_0000

  /** The padded message of sections 3.1 and 3.2 of RFC 1321: the low 64 bits of the length
      in bits, least significant byte first. */
  function Padded(msg: seq<byte>): (r: seq<byte>) {
    Padded56(msg) + LE(8 * |msg| % TWO64, 8)
  }

  /** The two 32-bit halves count bits modulo 2^64. */
  ghost predicate Counts(lo: nat, hi: nat, n: nat) {
    lo < TWO32 && hi < TWO32 && lo + TWO32 * hi == 8 * n % TWO64
  }

  /** count[0] / 8 % 64 */
  lemma CountIndex(lo: nat, hi: nat, n: nat)
    requires Counts(lo, hi, n)
    ensures lo / 8 % BLOCK == n % BLOCK
  {
    var q := 8 * n / TWO64;
    var k := 0x80_0000_0000_0000 * q + 0x80_0000 * hi;
    var a := n - BLOCK * k;
    assert lo == 8 * a;
    assert lo / 8 == a;
    DivModUnique(n, BLOCK, k + a / BLOCK, a % BLOCK);
  }

  /** Lines 516-519: adding the bits of len more bytes, with the carry. */
  method AddBits(lo: nat, hi: nat, len: nat, ghost n: nat) returns (lo': nat, hi': nat)
    requires Counts(lo, hi, n) && len < TWO32
    ensures Counts(lo', hi', n + len)
  {
    var x := len * 8 % TWO32;
    lo' := (lo + x) % TWO32;
    hi' := hi;
    if lo' < x {
      hi' := (hi' + 1) % TWO32;
    }
    hi' := (hi' + len / TWO29) % TWO32;
    Carry(lo, hi, len, n, lo', hi');
  }

  lemma Carry(lo: nat, hi: nat, len: nat, n: nat, lo': nat, hi': nat)
    requires Counts(lo, hi, n) && len < TWO32
    requires var x := len * 8 % TWO32;
             lo' == (lo + x) % TWO32 && hi' == ((if lo' < x then (hi + 1) % TWO32 else hi) + len / TWO29) % TWO32
    ensures Counts(lo', hi', n + len)
  {
    var x, y := len * 8 % TWO32, len / TWO29;
    Halved(len);
    CarryBit(lo, x);
    var c := if lo' < x then 1 else 0;
    ModSum(hi + c, y);
    SumHalves(lo, hi, n, x, y, len, c);
  }

  /** The bits of len bytes, as two halves. */
  lemma Halved(len: nat)
    ensures 8 * len == len * 8 % TWO32 + TWO32 * (len / TWO29)
  {
    var y, r := len / TWO29, len % TWO29;
    assert 8 * len == TWO32 * y + 8 * r;
    DivModUnique(8 * len, TWO32, y, 8 * r);
  }

  /** A sum of two halves wrapped exactly if it is below either. */
  lemma CarryBit(a: nat, x: nat)
    requires a < TWO32 && x < TWO32
    ensures var s := (a + x) % TWO32;
            a + x == s + TWO32 * if s < x then 1 else 0
  {
    if a + x < TWO32 {
      DivModUnique(a + x, TWO32, 0, a + x);
    } else {
      DivModUnique(a + x, TWO32, 1, a + x - TWO32);
    }
  }

  lemma SumHalves(lo: nat, hi: nat, n: nat, x: nat, y: nat, len: nat, c: nat)
    requires Counts(lo, hi, n) && 8 * len == x + TWO32 * y && TWO32 * c <= lo + x < TWO32 * c + TWO32
    ensures Counts(lo + x - TWO32 * c, (hi + c + y) % TWO32, n + len)
  {
    var q, top := 8 * n / TWO64, hi + c + y;
    var k, h := top / TWO32, top % TWO32;
    assert top == TWO32 * k + h;
    assert 8 * n == TWO64 * q + lo + TWO32 * hi;
    DivModUnique(8 * (n + len), TWO64, q + k, lo + x - TWO32 * c + TWO32 * h);
  }

  lemma TailSize(s: seq<byte>)
    ensures |s| - |Tail(s)| == BLOCK * (|s| / BLOCK) && |Tail(s)| < BLOCK
  {
  }

  lemma SliceBehind(s: seq<byte>, first: nat, i: nat)
    requires first + i + BLOCK <= |s|
    ensures s[first..][i..i + BLOCK] == s[first + i..first + i + BLOCK]
  {
  }

  lemma WholeBlocks(k: nat)
    ensures BLOCK * k % BLOCK == 0
  {
  }

  /** i + blocksize, in 32 bits. */
  function NextOffset(i: nat): (n: nat) { (i + BLOCK) % TWO32 }

  lemma NoWrap(i: nat)
    requires i + BLOCK < TWO32
    ensures NextOffset(i) == i + BLOCK
  {
  }

  class Md5<S(!new)> {
    const compress: (S, seq<byte>) -> S
    const initial: S
    var finalized: bool
    const buffer: array<byte>
    var lo: nat
    var hi: nat
    var state: S
    var digest: S
    ghost var msg: seq<byte>

    /** The fields depend on the bytes given so far, not on how they were given. */
    ghost predicate Valid()
      reads this, buffer
    {
      && !finalized && buffer.Length == BLOCK && buffer[..|Tail(msg)|] == Tail(msg)
      && Counts(lo, hi, |msg|) && state == Fold(compress, initial, msg)
    }

    constructor (t: (S, seq<byte>) -> S, initial: S)
      ensures compress == t && this.initial == initial
      ensures fresh(buffer) && msg == []
      ensures Valid()
    {
      compress, this.initial := t, initial;
      finalized, lo, hi, state, digest := false, 0, 0, initial, initial;
      buffer := new byte[BLOCK];
      msg := [];
    }

    /** Lines 533-535: transform chunks of 64 bytes; the sum in the guard is a 32-bit one. */
    method TransformChunks(input: seq<byte>, first: nat) returns (i: nat)
      requires first <= |input| && |input| - |Tail(input[first..])| + BLOCK < TWO32
      modifies this`state
      ensures first <= i <= |input| && |input| - i == |Tail(input[first..])| && input[i..] == Tail(input[first..])
      ensures state == Fold(compress, old(state), input[first..])
    {
      hide Fold, Tail, NextOffset;
      ghost var rest := input[first..];
      ghost var k: nat, blocks := 0, |rest| / BLOCK;
      TailSize(rest);
      i := first;
      assert rest[..0] == [];
      FoldShort(compress, state, []);
      NoWrap(i);
      while NextOffset(i) <= |input|
        invariant k <= blocks && i == first + BLOCK * k && NextOffset(i) == i + BLOCK
        invariant state == Fold(compress, old(state), rest[..BLOCK * k])
      {
        WholeBlocks(k);
        FoldStep(compress, old(state), rest, BLOCK * k);
        SliceBehind(input, first, BLOCK * k);
        state := compress(state, input[i..i + BLOCK]);
        i, k := i + BLOCK, k + 1;
        NoWrap(i);
      }
      WholeBlocks(k);
      FoldWhole(compress, old(state), rest, BLOCK * k);
      DropTwice(input, first, BLOCK * k);
    }

    /** update */
    method Update(input: seq<byte>)
      requires Valid() && |input| - |Tail(msg + input)| + BLOCK < TWO32
      modifies this, buffer
      ensures Valid() && msg == old(msg) + input
    {
      hide Fold, Tail, Counts, Blit;
      CountIndex(lo, hi, |msg|);
      var index := lo / 8 % BLOCK;
      var l, u := AddBits(lo, hi, |input|, |msg|);
      lo, hi := l, u;
      var firstPart := BLOCK - index;
      ghost var tail := Tail(msg);
      var i: nat := 0;
      if |input| >= firstPart {
        Absorb(compress, initial, msg, input);
        TailAbsorb(msg, input);
        FillBlock(index, input[..firstPart], tail);
        state := compress(state, buffer[..]);
        i := TransformChunks(input, firstPart);
        index := 0;
        StoreTail(0, input[i..], []);
        assert buffer[..|Tail(msg + input)|] == Tail(msg + input);
      } else {
        TailExtend(msg, input);
        FoldExtend(compress, initial, msg, input);
        assert input[i..] == input;
        StoreTail(index, input[i..], tail);
        assert buffer[..|Tail(msg + input)|] == Tail(msg + input);
      }
      msg := msg + input;
    }

    method FillBlock(index: nat, data: seq<byte>, ghost tail: seq<byte>)
      requires buffer.Length == BLOCK == index + |data| && index == |tail| && buffer[..index] == tail
      modifies buffer
      ensures buffer[..] == tail + data
    {
      Memcpy(buffer, index, data);
    }

    /** Line 543: buffer the remaining input. */
    method StoreTail(index: nat, data: seq<byte>, ghost tail: seq<byte>)
      requires buffer.Length == BLOCK && index == |tail| && index + |data| < BLOCK && buffer[..index] == tail
      modifies buffer
      ensures buffer[..index + |data|] == tail + data
    {
      Memcpy(buffer, index, data);
    }

    /** finalize: the digest is that of the padded message; a second call changes nothing. */
    method Finalize()
      requires finalized || Valid()
      modifies this, buffer
      ensures finalized && (!old(finalized) ==> lo == 0 && hi == 0)
      ensures !old(finalized) ==> digest == Fold(compress, initial, Padded(old(msg)))
      ensures old(finalized) ==> unchanged(this) && unchanged(buffer)
    {
      hide Fold, LE, Zeros;
      if !finalized {
        ghost var m := msg;
        var bits := LE(lo, 4) + LE(hi, 4);
        Pow256Values();
        LEJoin(lo, hi, 4, 4);
        CountIndex(lo, hi, |msg|);
        var index := lo / 8 % BLOCK;
        var padLen := if index < 56 then 56 - index else 120 - index;
        PadLength(|msg|);
        Update([0x80] + Zeros(padLen - 1));
        Assoc3(m, [0x80], Zeros(padLen - 1));
        Update(bits);
        digest := state;
        forall i | 0 <= i < BLOCK {
          buffer[i] := 0;
        }
        lo, hi, finalized := 0, 0, true;
      }
    }
  }

  lemma PadLength(n: nat)
    ensures var index := n % BLOCK;
            (if index < 56 then 56 - index else 120 - index) == (119 - n % BLOCK) % BLOCK + 1
  {
  }

  /** However the message is cut into updates, the digest is that of the padded whole. */
  method HashAll<S(!new)>(compress: (S, seq<byte>) -> S, initial: S, chunks: seq<seq<byte>>) returns (digest: S)
    requires forall i | 0 <= i < |chunks| :: |chunks[i]| + BLOCK < TWO32
    ensures digest == Fold(compress, initial, Padded(Flat(chunks)))
  {
    hide Fold, Padded, Flat, Tail, Counts;
    FlatNone(chunks);
    var s := new Md5(compress, initial);
    for i := 0 to |chunks|
      invariant fresh(s) && s.Valid() && s.compress == compress && s.initial == initial
      invariant fresh(s.buffer) && s.msg == Flat(chunks[..i])
    {
      FlatStep(chunks, i);
      s.Update(chunks[i]);
    }
    WholeSlice(chunks);
    s.Finalize();
    digest := s.digest;
  }
}
