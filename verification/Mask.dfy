/** Bit masks on machine words: x & (2^k - 1) keeps the low k bits. */
module Mask {
  import opened Bytes

  function Pow2(k: nat): (p: nat)
    ensures p > 0
  {
    if k == 0 then 1 else 2 * Pow2(k - 1)
  }

  ghost predicate PowerOf2(n: nat) {
    exists k: nat :: n == Pow2(k)
  }

  /** The bitwise and of two naturals. */
  function And(x: nat, y: nat): (r: nat)
    decreases y
  {
    if y == 0 then 0 else 2 * And(x / 2, y / 2) + x % 2 * (y % 2)
  }

  /** Masking with a power of two minus one is the remainder. */
  lemma {:induction false} MaskIsMod(x: nat, k: nat)
    ensures And(x, Pow2(k) - 1) == x % Pow2(k)
    decreases k
  {
    if k == 0 {
      assert x % 1 == 0;
    } else {
      hide And;
      var p := Pow2(k - 1);
      AndOdd(x, p);
      MaskIsMod(x / 2, k - 1);
      LowBit(x, p);
    }
  }

  lemma AndOdd(x: nat, p: nat)
    requires p > 0
    ensures And(x, 2 * p - 1) == 2 * And(x / 2, p - 1) + x % 2
  {
    assert (2 * p - 1) / 2 == p - 1 && (2 * p - 1) % 2 == 1;
    assert And(x, 2 * p - 1) == 2 * And(x / 2, (2 * p - 1) / 2) + x % 2 * ((2 * p - 1) % 2);
  }

  lemma LowBit(x: nat, p: nat)
    requires p > 0
    ensures x % (2 * p) == 2 * (x / 2 % p) + x % 2
  {
    var q, r := x / 2 / p, x / 2 % p;
    assert x / 2 == p * q + r;
    assert 2 * (p * q) == (2 * p) * q;
    DivModUnique(x, 2 * p, q, 2 * r + x % 2);
  }

  /** A size_t difference, which wraps, masked to a ring index. */
  function WrapSub(a: nat, b: nat): (r: nat)
    requires a < TWO64 && b < TWO64
    ensures r < TWO64
  {
    (a - b) % TWO64
  }

  lemma {:induction false} Pow2Divides(k: nat, n: nat)
    requires k <= n
    ensures Pow2(n) == Pow2(k) * Pow2(n - k)
    decreases n
  {
    if k < n {
      Pow2Divides(k, n - 1);
      assert Pow2(n) == 2 * (Pow2(k) * Pow2(n - 1 - k)) == Pow2(k) * (2 * Pow2(n - 1 - k));
    } else {
      assert Pow2(0) == 1;
    }
  }

  lemma {:induction false} Pow2Increases(k: nat, n: nat)
    requires k < n
    ensures Pow2(k) < Pow2(n)
    decreases n
  {
    if k < n - 1 {
      Pow2Increases(k, n - 1);
    }
  }

  lemma Pow2Is64()
    ensures Pow2(64) == TWO64
  {
    Pow2Is16();
    hide Pow2;
    Pow2Divides(32, 64);
    Pow2Divides(16, 32);
  }

  lemma Pow2Is16()
    ensures Pow2(16) == 0x1_0000
  {
    Pow2Divides(8, 16);
    Pow2Divides(4, 8);
    assert Pow2(1) == 2 * Pow2(0);
    assert Pow2(2) == 2 * Pow2(1);
    assert Pow2(3) == 2 * Pow2(2);
    assert Pow2(4) == 2 * Pow2(3);
  }

  /** (a - b) & (n - 1) for ring positions a and b. */
  lemma MaskedDifference(a: nat, b: nat, n: nat)
    requires PowerOf2(n) && n <= TWO64 && a < n && b < n
    ensures And(WrapSub(a, b), n - 1) == if b <= a then a - b else a - b + n
  {
    hide Pow2, And;
    var k: nat :| n == Pow2(k);
    Pow2Is64();
    if k > 64 {
      Pow2Increases(64, k);
    }
    Pow2Divides(k, 64);
    MaskIsMod(WrapSub(a, b), k);
    WrappedMod(a, b, n, Pow2(64 - k));
  }

  lemma WrappedMod(a: nat, b: nat, n: nat, m: nat)
    requires a < n && b < n && n * m == TWO64
    ensures n <= TWO64 && WrapSub(a, b) % n == if b <= a then a - b else a - b + n
  {
    if m > 0 {
      MulAtLeast(n, m);
    }
    if b <= a {
      DivModUnique(a - b, TWO64, 0, a - b);
      DivModUnique(a - b, n, 0, a - b);
    } else {
      DivModUnique(a - b, TWO64, -1, a - b + TWO64);
      assert n * (m - 1) == n * m - n;
      DivModUnique(a - b + TWO64, n, m - 1, a - b + n);
    }
  }

  /** (a + d) & (n - 1): a step forward around the ring. */
  lemma MaskedSum(a: nat, d: nat, n: nat)
    requires PowerOf2(n) && a < n && d <= n
    ensures And(a + d, n - 1) == if a + d < n then a + d else a + d - n
  {
    var k: nat :| n == Pow2(k);
    MaskIsMod(a + d, k);
    if a + d < n {
      DivModUnique(a + d, n, 0, a + d);
    } else if a + d < 2 * n {
      DivModUnique(a + d, n, 1, a + d - n);
    }
  }
}
