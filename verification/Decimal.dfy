/** Decimal text: the digit strings themselves, and the conversions of
    src/std/pstd_string.cc between 64-bit integers and text. */
module Decimal {
  import opened Bytes

  const ULLONG_MAX := 0xffff_ffff_ffff_ffff
  const LLONG_MAX := 0x7fff_ffff_ffff_ffff
  const LLONG_MIN := -0x8000_0000_0000_0000
  const ZERO: byte := 48
  const MINUS: byte := 45

  predicate IsDigit(c: byte) { ZERO <= c <= 57 }

  /** The digits of n, most significant first, without leading zeros. */
  function Digits(n: nat): (s: seq<byte>)
    ensures |s| > 0
  {
    if n < 10 then [ZERO + n] else Digits(n / 10) + [ZERO + n % 10]
  }

  /** The canonical text of an integer. */
  function Text(v: int): (s: seq<byte>)
    ensures |s| > 0
  {
    if v < 0 then [MINUS] + Digits(-v) else Digits(v)
  }

  predicate AllDigits(s: seq<byte>) {
    forall i | 0 <= i < |s| :: IsDigit(s[i])
  }

  function Value(s: seq<byte>): (n: nat)
    requires AllDigits(s)
  {
    if s == [] then 0 else 10 * Value(s[..|s| - 1]) + (s[|s| - 1] - ZERO)
  }

  /** -?[0-9]+ */
  predicate IsNumber(s: seq<byte>) {
    if s != [] && s[0] == MINUS then |s| > 1 && AllDigits(s[1..]) else s != [] && AllDigits(s)
  }

  function NumberValue(s: seq<byte>): (v: int)
    requires IsNumber(s)
  {
    if s[0] == MINUS then -(Value(s[1..]) as int) else Value(s)
  }

  // ------------------------------------------------------------ digit strings

  lemma {:induction false} ValueOfDigits(n: nat)
    ensures AllDigits(Digits(n)) && Value(Digits(n)) == n
  {
    if n >= 10 {
      ValueOfDigits(n / 10);
      var s := Digits(n);
      assert s[..|s| - 1] == Digits(n / 10);
    }
  }

  lemma TextIsNumber(v: int)
    ensures IsNumber(Text(v)) && NumberValue(Text(v)) == v
  {
    if v < 0 {
      ValueOfDigits(-v);
      assert Text(v)[1..] == Digits(-v);
    } else {
      ValueOfDigits(v);
      assert IsDigit(Digits(v)[0]);
    }
  }

  function Pow10(k: nat): (p: nat)
    ensures p > 0
  {
    if k == 0 then 1 else 10 * Pow10(k - 1)
  }

  /** n has k digits exactly when it lies between 10^(k-1) and 10^k. */
  lemma {:induction false} DigitCount(n: nat, k: nat)
    requires k >= 1 && n < Pow10(k) && (k == 1 || n >= Pow10(k - 1))
    ensures |Digits(n)| == k
    decreases k
  {
    assert Pow10(k) == 10 * Pow10(k - 1);
    if k > 1 {
      assert Pow10(k - 1) == 10 * Pow10(k - 2);
      DigitCount(n / 10, k - 1);
    } else {
      assert Pow10(0) == 1;
    }
  }

  /** Dropping the last k digits of a number that has more of them. */
  lemma {:induction false} DropDigits(n: nat, k: nat)
    requires n >= Pow10(k)
    ensures |Digits(n)| == k + |Digits(n / Pow10(k))|
    decreases k
  {
    if k > 0 {
      assert Pow10(k) == 10 * Pow10(k - 1);
      DropDigits(n / 10, k - 1);
      DivTwice(n, Pow10(k - 1));
    } else {
      assert n / 1 == n;
    }
  }

  lemma DivTwice(n: nat, p: nat)
    requires p > 0
    ensures n / 10 / p == n / (10 * p)
  {
    var q, r := n / 10 / p, n / 10 % p;
    assert n / 10 == p * q + r;
    assert 10 * (p * q) == (10 * p) * q;
    DivModUnique(n, 10 * p, q, 10 * r + n % 10);
  }

  lemma PowersOfTen()
    ensures Pow10(1) == 10 && Pow10(2) == 100 && Pow10(3) == 1000 && Pow10(4) == 1_0000
    ensures Pow10(5) == 10_0000 && Pow10(6) == 100_0000 && Pow10(7) == 1000_0000 && Pow10(8) == 1_0000_0000
    ensures Pow10(9) == 10_0000_0000 && Pow10(10) == 100_0000_0000
    ensures Pow10(11) == 1000_0000_0000 && Pow10(12) == 1_0000_0000_0000
  {
    assert Pow10(1) == 10 * Pow10(0);
    assert Pow10(2) == 10 * Pow10(1);
    assert Pow10(3) == 10 * Pow10(2);
    assert Pow10(4) == 10 * Pow10(3);
    assert Pow10(5) == 10 * Pow10(4);
    assert Pow10(6) == 10 * Pow10(5);
    assert Pow10(7) == 10 * Pow10(6);
    assert Pow10(8) == 10 * Pow10(7);
    assert Pow10(9) == 10 * Pow10(8);
    assert Pow10(10) == 10 * Pow10(9);
    assert Pow10(11) == 10 * Pow10(10);
    assert Pow10(12) == 10 * Pow10(11);
  }

  // ------------------------------------------------------------ conversions

  /** digits10, a balanced tree of comparisons that recurses above 10^12. */
  function Digits10(v: nat): (n: nat)
  {
    if v < 10 then 1
    else if v < 100 then 2
    else if v < 1000 then 3
    else if v < 1_0000_0000_0000 then
      if v < 1_0000_0000 then
        if v < 100_0000 then
          if v < 1_0000 then 4 else 5 + (if v >= 10_0000 then 1 else 0)
        else 7 + (if v >= 1000_0000 then 1 else 0)
      else if v < 100_0000_0000 then 9 + (if v >= 10_0000_0000 then 1 else 0)
      else 11 + (if v >= 1000_0000_0000 then 1 else 0)
    else 12 + Digits10(v / 1_0000_0000_0000)
  }

  /** It is the exact digit count of every number. */
  lemma {:induction false} Digits10Exact(v: nat)
    ensures Digits10(v) == |Digits(v)|
    decreases v
  {
    hide Digits, Pow10;
    PowersOfTen();
    if v < 1_0000_0000_0000 {
      Digits10Bounds(v);
      Pow10Zero();
      DigitCount(v, Digits10(v));
    } else {
      Digits10Exact(v / 1_0000_0000_0000);
      DropDigits(v, 12);
    }
  }

  lemma {:induction false} DigitsAtMost(n: nat, k: nat)
    requires k >= 1 && n < Pow10(k)
    ensures |Digits(n)| <= k
    decreases k
  {
    assert Pow10(k) == 10 * Pow10(k - 1);
    if k > 1 {
      DigitsAtMost(n / 10, k - 1);
    } else {
      assert Pow10(0) == 1;
    }
  }

  /** A 64-bit integer has at most 19 digits. */
  lemma TextSize(v: int)
    requires LLONG_MIN <= v <= LLONG_MAX
    ensures |Text(v)| <= 20
  {
    hide Digits, Pow10;
    PowersOfTen();
    var n: nat := if v < 0 then -v else v;
    if n >= Pow10(12) {
      DropDigits(n, 12);
      DigitsAtMost(n / Pow10(12), 7);
    } else {
      DigitsAtMost(n, 12);
    }
  }

  lemma Pow10Zero()
    ensures Pow10(0) == 1
  {
  }

  lemma Digits10Bounds(v: nat)
    requires v < 1_0000_0000_0000
    ensures 1 <= Digits10(v) <= 12 && v < Pow10(Digits10(v))
    ensures Digits10(v) == 1 || v >= Pow10(Digits10(v) - 1)
  {
    hide Pow10;
    PowersOfTen();
  }

  lemma LastTwoDigits(v: nat)
    requires v >= 100
    ensures Digits(v) == Digits(v / 100) + [ZERO + v % 100 / 10, ZERO + v % 100 % 10]
  {
    assert v / 10 >= 10 && v / 10 / 10 == v / 100;
    assert Digits(v) == Digits(v / 10) + [ZERO + v % 10];
    assert Digits(v / 10) == Digits(v / 100) + [ZERO + v / 10 % 10];
    assert v / 10 % 10 == v % 100 / 10 && v % 10 == v % 100 % 10;
  }

  /** ll2string: the canonical text and a NUL, or nothing when it does not fit. */
  method Ll2String(dst: array<byte>, dstlen: nat, svalue: int) returns (n: nat)
    requires dstlen <= dst.Length && LLONG_MIN <= svalue <= LLONG_MAX
    modifies dst
    ensures |Text(svalue)| < dstlen ==> n == |Text(svalue)| && dst[..n] == Text(svalue) && dst[n] == 0
    ensures |Text(svalue)| < dstlen ==> dst[n + 1..] == old(dst[n + 1..])
    ensures |Text(svalue)| >= dstlen ==> n == 0 && dst[..] == old(dst[..])
  {
    hide Digits;
    var value: nat := if svalue >= 0 then svalue else if svalue != LLONG_MIN then -svalue else LLONG_MAX + 1;
    var negative := if svalue < 0 then 1 else 0;
    Digits10Exact(value);
    var length := Digits10(value) + negative;
    if length >= dstlen {
      return 0;
    }
    dst[length] := 0;
    ghost var rest := dst[length + 1..];
    WriteDigits(dst, length, negative, value);
    assert dst[length + 1..] == dst[length..][1..] == rest;
    if negative != 0 {
      dst[0] := MINUS;
    }
    return length;
  }

  /** Lines 317-335: the digits of value right-aligned in dst[from..length]. */
  method WriteDigits(dst: array<byte>, length: nat, from: nat, value0: nat)
    requires length == from + |Digits(value0)| < dst.Length
    modifies dst
    ensures dst[from..length] == Digits(value0)
    ensures dst[..from] == old(dst[..from]) && dst[length..] == old(dst[length..])
  {
    hide Digits;
    var value: nat, next := value0, length - 1;
    ghost var suffix: seq<byte> := [];
    ghost var end := dst[length..];
    SmallDigits(value);
    assert Digits(value0) + [] == Digits(value0);
    while value >= 100
      invariant from <= next < length && next + 1 == from + |Digits(value)|
      invariant Digits(value0) == Digits(value) + suffix
      invariant dst[..from] == old(dst[..from]) && dst[next + 1..] == suffix + end
    {
      suffix := WritePair(dst, next, from, value, suffix, end);
      value, next := value / 100, next - 2;
    }
    WriteLast(dst, next, from, value);
    DigitsPlaced(dst[..], from, next + 1, Digits(value), suffix, end);
    assert dst[from..length] == dst[..][from..length] && dst[length..] == dst[..][length..];
  }

  /** One round of the loop: the last two digits of value join those already written. */
  method WritePair(dst: array<byte>, next: nat, from: nat, value: nat, ghost suffix: seq<byte>, ghost end: seq<byte>)
    returns (ghost suffix': seq<byte>)
    requires value >= 100 && next + 1 == from + |Digits(value)| && next < dst.Length && dst[next + 1..] == suffix + end
    modifies dst
    ensures next >= from + 2 && next - 1 == from + |Digits(value / 100)|
    ensures Digits(value) + suffix == Digits(value / 100) + suffix'
    ensures dst[..from] == old(dst[..from]) && dst[next - 1..] == suffix' + end
  {
    hide Digits;
    LastTwoDigits(value);
    SmallDigits(value / 100);
    ghost var before := dst[..];
    PutPair(dst, next, value % 100);
    ghost var pair: seq<byte> := [ZERO + value % 100 / 10, ZERO + value % 100 % 10];
    suffix' := pair + suffix;
    Assoc3(Digits(value / 100), pair, suffix);
    Assoc3(pair, suffix, end);
    PrefixKept(dst[..], before, next - 1, from);
  }

  lemma PrefixKept(s: seq<byte>, t: seq<byte>, n: nat, k: nat)
    requires k <= n <= |s| && n <= |t| && s[..n] == t[..n]
    ensures s[..k] == t[..k]
  {
    assert s[..k] == s[..n][..k];
    assert t[..k] == t[..n][..k];
  }

  lemma DigitsPlaced(s: seq<byte>, from: nat, mid: nat, a: seq<byte>, b: seq<byte>, end: seq<byte>)
    requires from <= mid <= |s| && s[from..mid] == a && s[mid..] == b + end
    ensures s[from..mid + |b|] == a + b && s[mid + |b|..] == end
  {
    assert s[from..mid + |b|] == s[from..mid] + s[mid..][..|b|];
    assert s[mid + |b|..] == s[mid..][|b|..];
  }

  /** Lines 321-325: two digits at a time, right to left. */
  method PutPair(dst: array<byte>, next: nat, i: nat)
    requires i < 100 && 1 <= next < dst.Length
    modifies dst
    ensures dst[next - 1..] == [ZERO + i / 10, ZERO + i % 10] + old(dst[next + 1..])
    ensures dst[..next - 1] == old(dst[..next - 1])
  {
    dst[next] := ZERO + i % 10;
    dst[next - 1] := ZERO + i / 10;
  }

  /** Lines 328-335: the last one or two digits. */
  method WriteLast(dst: array<byte>, next: nat, from: nat, value: nat)
    requires value < 100 && next + 1 == from + |Digits(value)| && next < dst.Length
    modifies dst
    ensures dst[from..next + 1] == Digits(value)
    ensures dst[..from] == old(dst[..from]) && dst[next + 1..] == old(dst[next + 1..])
  {
    hide Digits;
    SmallDigits(value);
    if value < 10 {
      dst[next] := ZERO + value;
    } else {
      dst[next] := ZERO + value % 10;
      dst[next - 1] := ZERO + value / 10;
    }
  }

  lemma SmallDigits(v: nat)
    ensures |Digits(v)| >= 1
    ensures v < 10 ==> Digits(v) == [ZERO + v]
    ensures 10 <= v < 100 ==> Digits(v) == [ZERO + v / 10, ZERO + v % 10]
    ensures v >= 100 ==> |Digits(v)| >= 3
  {
    if v >= 100 {
      LastTwoDigits(v);
    }
  }

  /** One more digit. */
  lemma ValueStep(s: seq<byte>, from: nat, k: nat)
    requires from <= k < |s| && AllDigits(s[from..k]) && IsDigit(s[k])
    ensures AllDigits(s[from..k + 1]) && Value(s[from..k + 1]) == 10 * Value(s[from..k]) + (s[k] - ZERO)
  {
    var t := s[from..k + 1];
    assert t[..|t| - 1] == s[from..k] && t[|t| - 1] == s[k];
    assert forall i | 0 <= i < |t| :: t[i] == if i < k - from then s[from..k][i] else s[k];
  }

  lemma {:induction false} ValuePrefix(s: seq<byte>, k: nat)
    requires AllDigits(s) && k <= |s|
    ensures AllDigits(s[..k]) && Value(s[..k]) <= Value(s)
    decreases |s|
  {
    if k < |s| {
      ValuePrefix(s[..|s| - 1], k);
      assert s[..|s| - 1][..k] == s[..k];
    } else {
      assert s[..k] == s;
    }
  }

  /** Digits from the given place on that exceed the 64-bit range already. */
  lemma TooLarge(s: seq<byte>, from: nat, k: nat)
    requires from <= k < |s| && AllDigits(s[from..k]) && IsDigit(s[k])
    requires 10 * Value(s[from..k]) + (s[k] - ZERO) > ULLONG_MAX
    ensures AllDigits(s[from..]) ==> Value(s[from..]) > ULLONG_MAX
  {
    ValueStep(s, from, k);
    if AllDigits(s[from..]) {
      assert s[from..][..k + 1 - from] == s[from..k + 1];
      ValuePrefix(s[from..], k + 1 - from);
    }
  }

  /** The number s spells, when it is one and fits in 64 bits. */
  ghost function Parsed(s: seq<byte>): (r: Option<int>) {
    if IsNumber(s) && LLONG_MIN <= NumberValue(s) <= LLONG_MAX then Some(NumberValue(s)) else None
  }

  ghost function Start(s: seq<byte>): (n: nat) { if s != [] && s[0] == MINUS then 1 else 0 }

  lemma ParsedFrom(s: seq<byte>)
    ensures Start(s) <= |s|
    ensures IsNumber(s) <==> Start(s) < |s| && AllDigits(s[Start(s)..])
    ensures IsNumber(s) ==> NumberValue(s) == if Start(s) == 1 then -(Value(s[1..]) as int) else Value(s[0..])
  {
    assert s[0..] == s;
  }

  /** string2int: exactly the strings -?[0-9]+ whose value fits in a long long. */
  method String2Int(s: seq<byte>) returns (r: Option<int>)
    ensures r == Parsed(s)
  {
    hide AllDigits, Value, IsNumber, NumberValue;
    ParsedFrom(s);
    ghost var from := Start(s);
    var plen := 0;
    if plen == |s| {
      return None;
    }
    ZeroString(s, from, |s|);
    if |s| == 1 && s[0] == ZERO {
      DropSlice(s, from);
      return Some(0);
    }
    var negative := false;
    if s[0] == MINUS {
      negative, plen := true, 1;
      if plen == |s| {
        return None;
      }
    }
    while plen < |s| && s[plen] == ZERO
      invariant from <= plen <= |s|
      invariant forall i | from <= i < plen :: s[i] == ZERO
    {
      plen := plen + 1;
    }
    ZeroString(s, from, plen);
    if plen == |s| {
      DropSlice(s, from);
      return Some(0);
    }
    var v: nat;
    NotDigit(s, from, plen);
    if 49 <= s[plen] <= 57 {
      ValueStep(s, from, plen);
      v, plen := s[plen] - ZERO, plen + 1;
    } else {
      return None;
    }
    while plen < |s| && IsDigit(s[plen])
      invariant from < plen <= |s| && AllDigits(s[from..plen]) && v == Value(s[from..plen]) <= ULLONG_MAX
    {
      if v > ULLONG_MAX / 10 {
        TooLarge(s, from, plen);
        return None;
      }
      v := v * 10;
      if v > ULLONG_MAX - (s[plen] - ZERO) {
        TooLarge(s, from, plen);
        return None;
      }
      ValueStep(s, from, plen);
      v := v + (s[plen] - ZERO);
      plen := plen + 1;
    }
    if plen < |s| {
      NotDigit(s, from, plen);
      return None;
    }
    assert s[from..plen] == s[from..];
    if negative {
      return if v > LLONG_MAX + 1 then None else Some(-(v as int));
    } else {
      return if v > LLONG_MAX then None else Some(v);
    }
  }

  lemma {:induction false} ZeroString(s: seq<byte>, from: nat, k: nat)
    requires from <= k <= |s|
    ensures (forall i | from <= i < k :: s[i] == ZERO) ==> AllDigits(s[from..k]) && Value(s[from..k]) == 0
    decreases k
  {
    if k > from && forall i | from <= i < k :: s[i] == ZERO {
      ZeroString(s, from, k - 1);
      ValueStep(s, from, k - 1);
    }
  }

  lemma NotDigit(s: seq<byte>, from: nat, k: nat)
    requires from <= k < |s|
    ensures !IsDigit(s[k]) ==> !AllDigits(s[from..])
  {
    assert s[from..][k - from] == s[k];
  }

  /** string2int undoes ll2string. */
  lemma ParsedText(v: int)
    requires LLONG_MIN <= v <= LLONG_MAX
    ensures Parsed(Text(v)) == Some(v)
  {
    TextIsNumber(v);
  }
}
