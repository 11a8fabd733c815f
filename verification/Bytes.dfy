/** Bytes, fixed-width little-endian integers and the two memory primitives
    (store a block, move a block) that the packed formats are built from. */
module Bytes {

  type byte = b: int | 0 <= b < 256

  const TWO31 := 0x8000_0000
  const TWO32 := 0x1_0000_0000
  const TWO64 := 0x1_0000_0000_0000_0000

  datatype Option<+T> = None | Some(value: T)

  /** 256 to the n-th power: the number of values an n-byte field can hold. */
  function Pow256(n: nat): (p: int)
    ensures p > 0
  {
    if n == 0 then 1 else 256 * Pow256(n - 1)
  }

  lemma Pow256Values()
    ensures Pow256(1) == 0x100 && Pow256(2) == 0x1_0000 && Pow256(3) == 0x100_0000
    ensures Pow256(4) == 0x1_0000_0000 && Pow256(8) == 0x1_0000_0000_0000_0000
  {
    assert Pow256(1) == 256 * Pow256(0);
    assert Pow256(2) == 256 * Pow256(1);
    assert Pow256(3) == 256 * Pow256(2);
    assert Pow256(4) == 256 * Pow256(3);
    assert Pow256(5) == 256 * Pow256(4);
    assert Pow256(6) == 256 * Pow256(5);
    assert Pow256(7) == 256 * Pow256(6);
    assert Pow256(8) == 256 * Pow256(7);
  }

  /** The low n bytes of v in two's complement, least significant first. */
  function LE(v: int, n: nat): (s: seq<byte>)
    ensures |s| == n
    decreases n
  {
    if n == 0 then [] else [v % 256] + LE(v / 256, n - 1)
  }

  function FromLE(s: seq<byte>): (v: nat)
  {
    if s == [] then 0 else s[0] + 256 * FromLE(s[1..])
  }

  /** The unsigned n-byte value v read as a two's complement number. */
  function Signed(v: nat, n: nat): (r: int)
  {
    if 2 * v >= Pow256(n) then v - Pow256(n) else v
  }

  lemma MulAtLeast(d: int, k: int)
    requires d > 0 && k >= 1
    ensures d * k >= d
  {
    assert d * k == d + d * (k - 1);
    assert d * (k - 1) >= 0;
  }

  lemma QuotientOrder(d: int, q: int, r: int, q': int, r': int)
    requires 0 <= r < d && 0 <= r' < d && d * q + r == d * q' + r'
    ensures q' <= q
  {
    assert d * (q' - q) == d * q' - d * q;
    if q < q' {
      MulAtLeast(d, q' - q);
    }
  }

  lemma DivModUnique(x: int, d: int, q: int, r: int)
    requires 0 <= r < d && x == d * q + r
    ensures x / d == q && x % d == r
  {
    QuotientOrder(d, q, r, x / d, x % d);
    QuotientOrder(d, x / d, x % d, q, r);
  }

  lemma LowDigit(v: int, p: int)
    requires p > 0
    ensures v % (256 * p) == v % 256 + 256 * (v / 256 % p)
  {
    var q, r := v / 256, v % 256;
    var a, b := q / p, q % p;
    assert q == p * a + b;
    assert 256 * (p * a) == (256 * p) * a;
    DivModUnique(v, 256 * p, a, 256 * b + r);
  }

  /** Reading an n-byte field back gives the stored value modulo 256^n. */
  lemma {:induction false} LERoundTrip(v: int, n: nat)
    ensures FromLE(LE(v, n)) == v % Pow256(n)
    decreases n
  {
    if n > 0 {
      LERoundTrip(v / 256, n - 1);
      assert LE(v, n)[1..] == LE(v / 256, n - 1);
      LowDigit(v, Pow256(n - 1));
    }
  }

  lemma {:induction false} FromLEBound(s: seq<byte>)
    ensures FromLE(s) < Pow256(|s|)
  {
    if s != [] {
      FromLEBound(s[1..]);
    }
  }

  lemma {:induction false} LEUnsigned(v: int, n: nat)
    requires 0 <= v < Pow256(n)
    ensures FromLE(LE(v, n)) == v
  {
    LERoundTrip(v, n);
    DivModUnique(v, Pow256(n), 0, v);
  }

  /** A signed value that fits in n bytes survives being stored and reloaded. */
  lemma LESigned(v: int, n: nat)
    requires -Pow256(n) <= 2 * v < Pow256(n)
    ensures Signed(FromLE(LE(v, n)), n) == v
  {
    LERoundTrip(v, n);
    if v < 0 {
      DivModUnique(v, Pow256(n), -1, v + Pow256(n));
    } else {
      DivModUnique(v, Pow256(n), 0, v);
    }
  }

  /** An int: arithmetic wraps as two's complement, and a wider value is narrowed. */
  function Int32(v: int): (r: int)
    ensures -TWO31 <= v < TWO31 ==> r == v
    ensures -TWO31 <= r < TWO31 && (v >= 0 ==> r <= v)
  {
    (v + TWO31) % (2 * TWO31) - TWO31
  }

  /** Storing a field that was read gives its bytes back. */
  lemma {:induction false} LEOfFrom(s: seq<byte>)
    ensures LE(FromLE(s), |s|) == s
  {
    if s != [] {
      LEOfFrom(s[1..]);
      DivModUnique(FromLE(s), 256, FromLE(s[1..]), s[0]);
      assert s == [s[0]] + s[1..];
    }
  }

  /** The low n bytes do not change with the multiple of 256^n above them. */
  lemma {:induction false} LEPeriod(v: int, n: nat)
    ensures LE(v - Pow256(n), n) == LE(v, n)
    decreases n
  {
    if n > 0 {
      var p := Pow256(n - 1);
      DivModUnique(v - 256 * p, 256, v / 256 - p, v % 256);
      LEPeriod(v / 256, n - 1);
    }
  }

  lemma LESignedOf(s: seq<byte>)
    ensures var v := Signed(FromLE(s), |s|);
            LE(v, |s|) == s && -Pow256(|s|) <= 2 * v < Pow256(|s|)
  {
    hide LE, FromLE;
    LEOfFrom(s);
    FromLEBound(s);
    LEPeriod(FromLE(s), |s|);
  }

  /** The low n bytes of v, most significant first. */
  function BE(v: nat, n: nat): (s: seq<byte>)
    ensures |s| == n
    decreases n
  {
    if n == 0 then [] else BE(v / 256, n - 1) + [v % 256]
  }

  function FromBE(s: seq<byte>): (v: nat) {
    if s == [] then 0 else 256 * FromBE(s[..|s| - 1]) + s[|s| - 1]
  }

  lemma {:induction false} BERoundTrip(v: nat, n: nat)
    requires v < Pow256(n)
    ensures FromBE(BE(v, n)) == v
    decreases n
  {
    if n > 0 {
      BERoundTrip(v / 256, n - 1);
      assert BE(v, n)[..n - 1] == BE(v / 256, n - 1);
    }
  }

  /** s with the block data stored at offset at. */
  function Blit<T>(s: seq<T>, at: nat, data: seq<T>): (r: seq<T>)
    requires at + |data| <= |s|
    ensures |r| == |s|
  {
    s[..at] + data + s[at + |data|..]
  }

  /** s after memmove(s + dst, s + src, n). */
  function Moved<T>(s: seq<T>, dst: nat, src: nat, n: nat): (r: seq<T>)
    requires dst + n <= |s| && src + n <= |s|
    ensures |r| == |s|
  {
    s[..dst] + s[src..src + n] + s[dst + n..]
  }

  /** memmove within one array */
  method Memmove(a: array<byte>, dst: nat, src: nat, n: nat)
    requires dst + n <= a.Length && src + n <= a.Length
    modifies a
    ensures a[..] == Moved(old(a[..]), dst, src, n)
  {
    forall i | 0 <= i < n {
      a[dst + i] := a[src + i];
    }
  }

  /** memcpy into an array */
  method Memcpy(a: array<byte>, at: nat, data: seq<byte>)
    requires at + |data| <= a.Length
    modifies a
    ensures a[..] == Blit(old(a[..]), at, data)
  {
    forall i | 0 <= i < |data| {
      a[at + i] := data[i];
    }
  }

  lemma WholeSlice<T>(s: seq<T>)
    ensures s[..|s|] == s && s[|s|..] == []
  {
  }

  lemma DropSlice<T>(s: seq<T>, i: nat)
    requires i <= |s|
    ensures s[i..|s|] == s[i..]
  {
  }

  /** A store leaves everything in front of it alone. */
  lemma BlitBehind<T>(s: seq<T>, lo: nat, hi: nat, at: nat, data: seq<T>)
    requires lo <= hi <= at && at + |data| <= |s|
    ensures Blit(s, at, data)[lo..hi] == s[lo..hi] && Blit(s, at, data)[at..at + |data|] == data
  {
  }

  lemma Halves<T>(s: seq<T>, i: nat)
    requires i <= |s|
    ensures s == s[..i] + s[i..]
  {
  }

  lemma SubSlice<T>(s: seq<T>, a: nat, b: nat, i: nat, j: nat)
    requires a <= b <= |s| && i <= j <= b - a
    ensures s[a..b][i..j] == s[a + i..a + j]
  {
    var l, r := s[a..b][i..j], s[a + i..a + j];
    forall k | 0 <= k < j - i
      ensures l[k] == r[k]
    {
      assert l[k] == s[a..b][i + k];
    }
  }

  lemma SliceJoin<T>(s: seq<T>, a: nat, b: nat, c: nat)
    requires a <= b <= c <= |s|
    ensures s[a..c] == s[a..b] + s[b..c]
  {
  }

  lemma Assoc3<T>(a: seq<T>, b: seq<T>, c: seq<T>)
    ensures a + b + c == a + (b + c)
  {
  }

  lemma Thirds<T>(s: seq<T>, i: nat, j: nat)
    requires i <= j <= |s|
    ensures s == s[..i] + s[i..j] + s[j..]
  {
  }

  lemma BlitMid<T>(a: seq<T>, f: seq<T>, f': seq<T>, b: seq<T>)
    requires |f| == |f'|
    ensures Blit(a + f + b, |a|, f') == a + f' + b
  {
    assert (a + f + b)[..|a|] == a;
    assert (a + f + b)[|a| + |f|..] == b;
  }

  /** A slice that is a concatenation of three parts holds each of them in place. */
  lemma SliceParts<T>(s: seq<T>, lo: nat, hi: nat, a: seq<T>, b: seq<T>, c: seq<T>)
    requires lo <= hi <= |s| && s[lo..hi] == a + b + c
    ensures lo + |a| + |b| + |c| == hi
    ensures s[lo..lo + |a|] == a && s[lo + |a|..lo + |a| + |b|] == b && s[lo + |a| + |b|..hi] == c
  {
    var t, n := s[lo..hi], hi - lo;
    SubSlice(s, lo, hi, 0, |a|);
    SubSlice(s, lo, hi, |a|, |a| + |b|);
    SubSlice(s, lo, hi, |a| + |b|, n);
    assert t[0..|a|] == a && t[|a|..|a| + |b|] == b && t[|a| + |b|..n] == c;
  }

  lemma DropTwice<T>(s: seq<T>, i: nat, j: nat)
    requires i + j <= |s|
    ensures s[i..][j..] == s[i + j..]
  {
  }

  lemma DropHead<T>(a: seq<T>, b: seq<T>, c: seq<T>)
    requires a + b == a + c
    ensures b == c
  {
    assert b == (a + b)[|a|..];
    assert c == (a + c)[|a|..];
  }

  /** The bytes of several pieces, one after another. */
  function Flat<T>(data: seq<seq<T>>): (s: seq<T>) {
    if data == [] then [] else Flat(data[..|data| - 1]) + data[|data| - 1]
  }

  lemma FlatNone<T>(data: seq<seq<T>>)
    ensures Flat(data[..0]) == []
  {
  }

  lemma FlatStep<T>(data: seq<seq<T>>, i: nat)
    requires i < |data|
    ensures Flat(data[..i + 1]) == Flat(data[..i]) + data[i]
  {
    assert data[..i + 1][..i] == data[..i];
  }

  lemma {:induction false} FlatPrefix<T>(data: seq<seq<T>>, i: nat)
    requires i <= |data|
    ensures Flat(data[..i]) <= Flat(data)
    decreases |data| - i
  {
    if i < |data| {
      FlatStep(data, i);
      FlatPrefix(data, i + 1);
    } else {
      assert data[..i] == data;
    }
  }

  lemma OneFewer<K, V>(m: map<K, V>, k: K)
    requires k in m
    ensures |m| == |m - {k}| + 1
  {
    assert m == (m - {k})[k := m[k]];
  }
}
