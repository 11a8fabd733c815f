/** SHA256 of src/std/pstd_hash.cc as a streaming hash. */
module Sha256 {
  import opened Bytes
  import opened BlockHash

  /** What final hashes: only the low 32 bits of the length are stored. */
  function Padded(msg: seq<byte>): (r: seq<byte>) {
    Padded56(msg) + Zeros(4) + BE(8 * |msg| % TWO32, 4)
  }

  /** The padded message of section 5.1.1 of FIPS 180-2. */
  function FipsPadded(msg: seq<byte>): (r: seq<byte>) {
    Padded56(msg) + BE(8 * |msg|, 8)
  }

  /** final follows the standard exactly for messages below 2^29 bytes. */
  lemma PaddingStandard(msg: seq<byte>)
    requires |msg| < 0x2000_0000_0000_0000
    ensures Padded(msg) == FipsPadded(msg) <==> |msg| < 0x2000_0000
  {
    hide BE, Padded56;
    Pow256Values();
    var v, w := 8 * |msg|, 8 * |msg| % TWO32;
    BEHigh(w, 8, 4);
    Assoc3(Padded56(msg), Zeros(4), BE(w, 4));
    BERoundTrip(v, 8);
    BERoundTrip(w, 8);
    if Padded(msg) == FipsPadded(msg) {
      DropHead(Padded56(msg), BE(w, 8), BE(v, 8));
    }
  }

  /** The bytes final adds to the tail of the message, for a message of whole blocks and len
      more bytes. */
  lemma LastBlocks(msg: seq<byte>, len: nat, bits: nat)
    requires len == |Tail(msg)| && bits == 8 * |msg| % TWO32
    ensures var pm := if BLOCK - 9 < len then 2 * BLOCK else BLOCK;
            msg[..|msg| - len] + (Tail(msg) + [0x80] + Zeros(pm - len - 5) + BE(bits, 4)) == Padded(msg)
  {
    hide BE, Zeros, Tail;
    var z := (119 - |msg| % BLOCK) % BLOCK;
    PadCount(|msg|);
    ZerosJoin(z, 4);
    assert msg == msg[..|msg| - len] + Tail(msg) by { WholeAndTail(msg); }
    Regroup6(msg[..|msg| - len], Tail(msg), [0x80], Zeros(z), Zeros(4), BE(bits, 4));
  }

  lemma PadCount(n: nat)
    ensures var len := n % BLOCK;
            (if BLOCK - 9 < len then 2 * BLOCK else BLOCK) - len - 5 == (119 - n % BLOCK) % BLOCK + 4
  {
  }

  lemma ZerosJoin(a: nat, b: nat)
    ensures Zeros(a + b) == Zeros(a) + Zeros(b)
  {
  }

  /** The block after the three stores of final. */
  lemma FinalBlock(s: seq<byte>, len: nat, pm: nat, be: seq<byte>)
    requires len + 5 <= pm <= |s| && |be| == 4
    ensures Blit(Blit(Blit(s, len, Zeros(pm - len)), len, [0x80]), pm - 4, be)[..pm]
            == s[..len] + [0x80] + Zeros(pm - len - 5) + be
  {
    var s1 := Blit(s, len, Zeros(pm - len));
    var s2 := Blit(s1, len, [0x80]);
    assert s1[..len] == s[..len] && s1[len + 1..pm - 4] == Zeros(pm - len - 5);
    assert s2[..pm - 4] == s[..len] + [0x80] + s1[len + 1..pm - 4];
    assert Blit(s2, pm - 4, be)[..pm] == s2[..pm - 4] + be;
  }

  /** len_b: the bits of all bytes so far, modulo 2^32. */
  lemma BitCount(n: nat, len: nat, totLen: nat)
    requires len <= n && totLen == (n - len) % TWO32
    ensures (totLen + len) * 8 % TWO32 == 8 * n % TWO32
  {
    ModSum(n - len, len);
    ModTimes(totLen + len);
    ModTimes(n);
  }

  lemma ModTimes(n: nat)
    ensures n % TWO32 * 8 % TWO32 == 8 * n % TWO32
  {
  }

  lemma Regroup6<T>(a: seq<T>, b: seq<T>, c: seq<T>, d: seq<T>, e: seq<T>, f: seq<T>)
    ensures a + (b + c + (d + e) + f) == a + b + c + d + e + f
  {
  }

  lemma FoldPadded<S>(t: (S, seq<byte>) -> S, h: S, msg: seq<byte>, last: seq<byte>)
    ensures Fold(t, Fold(t, h, msg), last) == Fold(t, h, msg[..|msg| - |Tail(msg)|] + last)
  {
    hide Fold;
    var n := |msg| - |Tail(msg)|;
    FoldWhole(t, h, msg, n);
    FoldAppend(t, h, msg[..n], last);
  }

  /** m_tot_len counts all but the last m_len of n bytes, modulo 2^32. */
  ghost predicate Totals(totLen: nat, len: nat, n: nat) {
    len <= n && totLen == (n - len) % TWO32
  }

  lemma NoTotals()
    ensures Totals(0, 0, 0)
  {
  }

  /** Of the n blocks of one call, all lie behind the start of the message exactly if they
      are no more than 2^31 bytes. */
  lemma OffsetsFit(n: nat)
    requires n * BLOCK < TWO32
    ensures (forall i | 0 <= i < n :: Int32(i * BLOCK) == i * BLOCK) <==> n * BLOCK <= TWO31
  {
    if n * BLOCK > TWO31 {
      var i := n - 1;
      assert TWO31 <= i * BLOCK < TWO32;
      assert Int32(i * BLOCK) < 0;
    }
  }

  class Sha256<S(!new)> {
    const compress: (S, seq<byte>) -> S
    const initial: S
    var totLen: nat
    var len: nat
    const block: array<byte>
    var h: S
    ghost var msg: seq<byte>

    /** The fields depend on the bytes given so far, not on how they were given. */
    ghost predicate Valid()
      reads this, block
    {
      && block.Length == 2 * BLOCK && len == |Tail(msg)| && block[..len] == Tail(msg)
      && h == Fold(compress, initial, msg) && Totals(totLen, len, |msg|)
    }

    constructor (t: (S, seq<byte>) -> S, initial: S)
      ensures compress == t && this.initial == initial && fresh(block) && block.Length == 2 * BLOCK
    {
      compress, this.initial := t, initial;
      h := initial;
      block := new byte[2 * BLOCK];
    }

    /** init */
    method Init()
      requires block.Length == 2 * BLOCK
      modifies this
      ensures Valid() && msg == []
    {
      hide Fold, Tail, Totals;
      h, len, totLen, msg := initial, 0, 0, [];
      NothingYet(compress, initial);
      NoTotals();
    }

    /** transform: n blocks of data, found at offsets that are ints. */
    method Transform(data: seq<byte>, n: nat)
      requires n * BLOCK <= |data| && n * BLOCK <= TWO31
      modifies this`h
      ensures h == Fold(compress, old(h), data[..n * BLOCK])
    {
      hide Fold;
      assert data[..0] == [];
      FoldShort(compress, h, []);
      for i := 0 to n
        invariant h == Fold(compress, old(h), data[..i * BLOCK])
      {
        var at := Int32(i * BLOCK);
        FoldStep(compress, old(h), data, at);
        h := compress(h, data[at..at + BLOCK]);
      }
    }

    /** update */
    method Update(message: seq<byte>)
      requires Valid() && len + |message| < TWO31 + 2 * BLOCK
      modifies this, block
      ensures Valid() && msg == old(msg) + message
    {
      hide Fold, Tail;
      var tmpLen := BLOCK - len;
      var remLen := if |message| < tmpLen then |message| else tmpLen;
      ghost var tail, data := Tail(msg), message;
      Memcpy(block, len, message[..remLen]);
      assert block[..len + remLen] == tail + message[..remLen];
      if len + |message| < BLOCK {
        TailExtend(msg, message);
        FoldExtend(compress, initial, msg, message);
        len := len + |message|;
        msg := msg + message;
        return;
      }
      var newLen := |message| - remLen;
      var blockNb := newLen / BLOCK;
      Absorb(compress, initial, msg, message);
      TailAbsorb(msg, message);
      Transform(block[..BLOCK], 1);
      FoldOne(compress, old(h), block[..BLOCK]);
      assert block[..BLOCK][..1 * BLOCK] == block[..BLOCK];
      TransformRest(message[remLen..], blockNb);
      ModSum(|msg| - old(len), (blockNb + 1) * BLOCK);
      totLen := (totLen + (blockNb + 1) * BLOCK) % TWO32;
      msg := msg + message;
    }

    /** Lines 252-255: the whole blocks of what follows, and the bytes left over. */
    method TransformRest(shifted: seq<byte>, blockNb: nat)
      requires blockNb == |shifted| / BLOCK && block.Length == 2 * BLOCK && |shifted| < TWO31 + BLOCK
      modifies this`h, this`len, block
      ensures h == Fold(compress, old(h), shifted) && len == |Tail(shifted)| && block[..len] == Tail(shifted)
    {
      hide Fold, Tail;
      FoldWhole(compress, h, shifted, blockNb * BLOCK);
      Transform(shifted, blockNb);
      var rem := |shifted| % BLOCK;
      Memcpy(block, 0, shifted[blockNb * BLOCK..blockNb * BLOCK + rem]);
      assert block[..rem] == shifted[blockNb * BLOCK..];
      len := rem;
    }

    /** Lines 267-269: the end of the padded message. */
    method PadBlock(pmLen: nat, bits: nat)
      requires len + 5 <= pmLen <= block.Length
      modifies block
      ensures block[..pmLen] == old(block[..len]) + [0x80] + Zeros(pmLen - len - 5) + BE(bits, 4)
    {
      hide BE, Zeros, Blit;
      FinalBlock(block[..], len, pmLen, BE(bits, 4));
      assert block[..len] == block[..][..len];
      Memcpy(block, len, Zeros(pmLen - len));
      Memcpy(block, len, [0x80]);
      Memcpy(block, pmLen - 4, BE(bits, 4));
      assert block[..pmLen] == block[..][..pmLen];
    }

    /** final: the state is that of the padded message. */
    method Final() returns (digest: S)
      requires Valid()
      modifies this`h, block
      ensures digest == Fold(compress, initial, Padded(msg))
    {
      hide Fold, BE, Padded56, Zeros, Padded, Tail;
      var blockNb := if BLOCK - 9 < len % BLOCK then 2 else 1;
      var bits := (totLen + len) * 8 % TWO32;
      var pmLen := blockNb * BLOCK;
      BitCount(|msg|, len, totLen);
      LastBlocks(msg, len, bits);
      PadBlock(pmLen, bits);
      FoldPadded(compress, initial, msg, block[..pmLen]);
      Transform(block[..pmLen], blockNb);
      WholeSlice(block[..pmLen]);
      digest := h;
    }
  }

  /** However the message is cut into updates, the digest is that of the padded whole. */
  method HashAll<S(!new)>(compress: (S, seq<byte>) -> S, initial: S, chunks: seq<seq<byte>>) returns (digest: S)
    requires forall i | 0 <= i < |chunks| :: |chunks[i]| < TWO31 + BLOCK
    ensures digest == Fold(compress, initial, Padded(Flat(chunks)))
  {
    hide Fold, Padded, Flat, Tail, Totals;
    FlatNone(chunks);
    var s := new Sha256(compress, initial);
    s.Init();
    for i := 0 to |chunks|
      invariant fresh(s) && s.Valid() && s.compress == compress && s.initial == initial
      invariant fresh(s.block) && s.msg == Flat(chunks[..i])
    {
      FlatStep(chunks, i);
      s.Update(chunks[i]);
    }
    WholeSlice(chunks);
    digest := s.Final();
  }
}
