/** Messages hashed in blocks of 64 bytes. The compression function of one block is left
    uninterpreted: t(h, block) is the state after the block. */
module BlockHash {
  import opened Bytes

  const BLOCK := 64

  /** The state after every whole block of the message; a shorter rest is not used. */
  function Fold<S>(t: (S, seq<byte>) -> S, h: S, msg: seq<byte>): (r: S) {
    if |msg| < BLOCK then h else Fold(t, t(h, msg[..BLOCK]), msg[BLOCK..])
  }

  /** The bytes behind the last whole block. */
  function Tail(msg: seq<byte>): (r: seq<byte>)
    ensures |r| == |msg| % BLOCK
  {
    msg[|msg| - |msg| % BLOCK..]
  }

  lemma {:induction false} FoldAppend<S>(t: (S, seq<byte>) -> S, h: S, a: seq<byte>, b: seq<byte>)
    requires |a| % BLOCK == 0
    ensures Fold(t, h, a + b) == Fold(t, Fold(t, h, a), b)
    decreases |a|
  {
    if |a| < BLOCK {
      assert a == [] && a + b == b;
    } else {
      assert (a + b)[..BLOCK] == a[..BLOCK];
      assert (a + b)[BLOCK..] == a[BLOCK..] + b;
      FoldAppend(t, t(h, a[..BLOCK]), a[BLOCK..], b);
    }
  }

  lemma WholeAndTail(msg: seq<byte>)
    ensures msg == msg[..|msg| - |Tail(msg)|] + Tail(msg) && (|msg| - |Tail(msg)|) % BLOCK == 0
  {
  }

  /** A block completed by new bytes. */
  lemma Absorb<S>(t: (S, seq<byte>) -> S, h: S, msg: seq<byte>, x: seq<byte>)
    requires |Tail(msg)| + |x| >= BLOCK
    ensures var r := BLOCK - |Tail(msg)|;
            Fold(t, h, msg + x) == Fold(t, t(Fold(t, h, msg), Tail(msg) + x[..r]), x[r..])
  {
    hide Fold, Tail;
    var r := BLOCK - |Tail(msg)|;
    var w := msg[..|msg| - |Tail(msg)|];
    var block := Tail(msg) + x[..r];
    WholeAndTail(msg);
    FoldAppend(t, h, w, Tail(msg));
    FoldShort(t, Fold(t, h, w), Tail(msg));
    FoldAppend(t, h, w, block + x[r..]);
    FoldAppend(t, Fold(t, h, w), block, x[r..]);
    FoldOne(t, Fold(t, h, w), block);
    Completed(msg, w, x, r);
  }

  lemma Completed(msg: seq<byte>, w: seq<byte>, x: seq<byte>, r: nat)
    requires msg == w + Tail(msg) && r <= |x|
    ensures msg + x == w + (Tail(msg) + x[..r] + x[r..])
  {
    Halves(x, r);
    Assoc3(w, Tail(msg), x);
    Assoc3(Tail(msg), x[..r], x[r..]);
  }

  lemma FoldShort<S>(t: (S, seq<byte>) -> S, h: S, b: seq<byte>)
    requires |b| < BLOCK
    ensures Fold(t, h, b) == h
  {
  }

  lemma NothingYet<S>(t: (S, seq<byte>) -> S, h: S)
    ensures Fold(t, h, []) == h && Tail([]) == []
  {
  }

  lemma FoldOne<S>(t: (S, seq<byte>) -> S, h: S, b: seq<byte>)
    requires |b| == BLOCK
    ensures Fold(t, h, b) == t(h, b)
  {
    assert b[..BLOCK] == b && b[BLOCK..] == [];
  }

  /** One more block at the end. */
  lemma FoldStep<S>(t: (S, seq<byte>) -> S, h: S, msg: seq<byte>, i: nat)
    requires i % BLOCK == 0 && i + BLOCK <= |msg|
    ensures Fold(t, h, msg[..i + BLOCK]) == t(Fold(t, h, msg[..i]), msg[i..i + BLOCK])
  {
    assert msg[..i + BLOCK] == msg[..i] + msg[i..i + BLOCK];
    FoldAppend(t, h, msg[..i], msg[i..i + BLOCK]);
    FoldOne(t, Fold(t, h, msg[..i]), msg[i..i + BLOCK]);
  }

  lemma Remainder(len: nat, n: nat)
    requires n % BLOCK == 0 && n <= len < n + BLOCK
    ensures len % BLOCK == len - n
  {
  }

  /** Bytes behind the last whole block change nothing. */
  lemma FoldWhole<S>(t: (S, seq<byte>) -> S, h: S, msg: seq<byte>, n: nat)
    requires n % BLOCK == 0 && n <= |msg| < n + BLOCK
    ensures Fold(t, h, msg) == Fold(t, h, msg[..n]) && Tail(msg) == msg[n..]
  {
    hide Fold;
    Halves(msg, n);
    FoldAppend(t, h, msg[..n], msg[n..]);
    FoldShort(t, Fold(t, h, msg[..n]), msg[n..]);
    Remainder(|msg|, n);
  }

  /** The tail of a message extended past the end of its block. */
  lemma TailAbsorb(msg: seq<byte>, x: seq<byte>)
    requires |Tail(msg)| + |x| >= BLOCK
    ensures Tail(msg + x) == Tail(x[BLOCK - |Tail(msg)|..])
  {
    var r := BLOCK - |Tail(msg)|;
    assert |msg + x| % BLOCK == |x[r..]| % BLOCK;
    var k := |x[r..]| % BLOCK;
    assert (msg + x)[|msg + x| - k..] == x[|x| - k..];
    assert x[r..][|x[r..]| - k..] == x[|x| - k..];
  }

  lemma TailExtend(msg: seq<byte>, x: seq<byte>)
    requires |Tail(msg)| + |x| < BLOCK
    ensures Tail(msg + x) == Tail(msg) + x
  {
    assert |msg + x| % BLOCK == |Tail(msg)| + |x|;
  }

  lemma FoldExtend<S>(t: (S, seq<byte>) -> S, h: S, msg: seq<byte>, x: seq<byte>)
    requires |Tail(msg)| + |x| < BLOCK
    ensures Fold(t, h, msg + x) == Fold(t, h, msg)
  {
    hide Fold;
    var n := |msg| - |Tail(msg)|;
    FoldWhole(t, h, msg, n);
    FoldWhole(t, h, msg + x, n);
    assert (msg + x)[..n] == msg[..n];
  }

  // ------------------------------------------------------------ padding

  function Zeros(n: nat): (s: seq<byte>)
    ensures |s| == n
  {
    seq(n, _ => 0)
  }

  /** The message, a one bit, and zero bits up to 56 bytes of the last block: section 3.1 of
      RFC 1321 and section 5.1.1 of FIPS 180-2. */
  function Padded56(msg: seq<byte>): (r: seq<byte>) {
    msg + [0x80] + Zeros((119 - |msg| % BLOCK) % BLOCK)
  }

  /** A number that fits in k bytes has zeros in the others. */
  lemma {:induction false} BEHigh(v: nat, n: nat, k: nat)
    requires v < Pow256(k) && k <= n
    ensures BE(v, n) == Zeros(n - k) + BE(v, k)
    decreases n
  {
    if k == 0 {
      if n > 0 {
        BEHigh(v / 256, n - 1, 0);
        assert Zeros(n) == Zeros(n - 1) + [0];
      }
    } else {
      BEHigh(v / 256, n - 1, k - 1);
      Assoc3(Zeros(n - k), BE(v / 256, k - 1), [v % 256]);
    }
  }

  lemma LEStep(v: int, q: int, r: byte, n: nat)
    requires v == 256 * q + r && n > 0
    ensures LE(v, n) == [r] + LE(q, n - 1)
  {
    DivModUnique(v, 256, q, r);
  }

  lemma LENone(v: int)
    ensures LE(v, 0) == []
  {
  }

  lemma TimesAssoc(a: int, b: int, c: int)
    ensures (a * b) * c == a * (b * c)
  {
  }

  /** A sum can be reduced before the last step or only after it. */
  lemma ModSum(a: int, b: int)
    ensures (a % TWO32 + b) % TWO32 == (a + b) % TWO32
  {
  }

  /** Two numbers side by side. */
  lemma {:induction false} LEJoin(a: int, b: int, n: nat, m: nat)
    requires 0 <= a < Pow256(n)
    ensures LE(a + Pow256(n) * b, n + m) == LE(a, n) + LE(b, m)
    decreases n
  {
    if n > 0 {
      hide LE;
      var p, q, r := Pow256(n - 1), a / 256, a % 256;
      var w := p * b;
      assert Pow256(n) * b == 256 * w by { TimesAssoc(256, p, b); }
      LEStep(a + 256 * w, q + w, r, n + m);
      LEStep(a, q, r, n);
      LEJoin(q, b, n - 1, m);
      Assoc3([r], LE(q, n - 1), LE(b, m));
    } else {
      LENone(a);
      assert [] + LE(b, m) == LE(b, m);
    }
  }
}
