/** The length lines of a command as the parser of src/proto_parser.cc and GetIntUntilCRLF
    of src/common.cc see them: whole, cut short, or followed by anything. */
module RespLines {
  import opened Bytes
  import opened Decimal
  import opened RespWriter

  datatype ParseResult = Ok | Wait | Error

  /** The two sequences agree as far as both go. */
  ghost predicate Agree(s: seq<byte>, t: seq<byte>) { s <= t || t <= s }

  /** The first index from i on that holds no digit. */
  function DigitsEnd(s: seq<byte>, i: nat): (k: nat)
    requires i <= |s|
    ensures i <= k <= |s| && (k < |s| ==> !IsDigit(s[k])) && AllDigits(s[i..k])
    decreases |s| - i
  {
    if i == |s| || !IsDigit(s[i]) then i else DigitsEnd(s, i + 1)
  }

  predicate IsSign(c: byte) { c == 45 || c == 43 }

  /** Where the number at the front of s ends. */
  function NumberEnd(s: seq<byte>): (k: nat)
    requires s != []
    ensures k <= |s|
  {
    DigitsEnd(s, if IsSign(s[0]) then 1 else 0)
  }

  /** What becomes of the bytes s from the pointer to the end. */
  function NumberResult(s: seq<byte>): (r: ParseResult) {
    if |s| < 3 then Wait
    else
      var k := NumberEnd(s);
      if k == |s| then Ok
      else if s[k] != CR || (k + 1 < |s| && s[k + 1] != LF) then Error
      else if k + 1 == |s| then Wait
      else Ok
  }

  function SignSize(s: seq<byte>): (n: nat)
    ensures n <= 1 && n <= |s|
  {
    if s != [] && IsSign(s[0]) then 1 else 0
  }

  /** The number at the front of s, as an int: one that does not fit wraps around. */
  function NumberVal(s: seq<byte>): (v: int)
    requires s != []
  {
    var digits := s[SignSize(s)..NumberEnd(s)];
    Int32(if s[0] == 45 then -(Value(digits) as int) else Value(digits))
  }

  lemma Int32Shift(v: int, k: int)
    ensures Int32(v + 2 * TWO31 * k) == Int32(v)
  {
    var x, m := v + TWO31, 2 * TWO31;
    assert x == m * (x / m) + x % m;
    DivModUnique(x + m * k, m, x / m + k, x % m);
  }

  /** Wrapping at every step is wrapping at the end. */
  lemma Int32Digit(v: int, d: int)
    ensures Int32(Int32(Int32(v) * 10) + d) == Int32(10 * v + d)
    ensures Int32(Int32(v) * -1) == Int32(-v)
  {
    var k, j := Wraps(v), Wraps(Int32(v) * 10);
    Int32Shift(10 * v + d, -10 * k - j);
    Int32Shift(-v, k);
  }

  /** How often v is wrapped. */
  function Wraps(v: int): (k: int)
    ensures Int32(v) == v - 2 * TWO31 * k
  {
    (v + TWO31) / (2 * TWO31)
  }

  lemma NoDigits()
    ensures Value([]) == 0
  {
  }

  /** GetIntUntilCRLF on the nBytes bytes s: how far the pointer moves, and the number. */
  method GetIntUntilCRLF(s: seq<byte>) returns (res: ParseResult, step: nat, val: int)
    ensures res == NumberResult(s)
    ensures res.Ok? ==> step == NumberEnd(s) + 2
    ensures res.Ok? ==> val == NumberVal(s)
  {
    hide Value, Int32;
    step, val := 0, 0;
    if |s| < 3 {
      return Wait, 0, 0;
    }
    var i: nat := 0;
    var negative := false;
    if s[0] == 45 {
      negative := true;
      i := 1;
    } else if s[0] == 43 {
      i := 1;
    }
    ghost var start := i;
    var value := 0;
    assert s[start..i] == [] && Int32(Value([])) == 0 by { NoDigits(); }
    while i < |s|
      invariant start <= i <= |s| && DigitsEnd(s, i) == NumberEnd(s)
      invariant AllDigits(s[start..i]) && value == Int32(Value(s[start..i]))
    {
      if IsDigit(s[i]) {
        ValueStep(s, start, i);
        Int32Digit(Value(s[start..i]), s[i] - ZERO);
        value := Int32(value * 10);
        value := Int32(value + (s[i] - ZERO));
      } else {
        if s[i] != CR || (i + 1 < |s| && s[i + 1] != LF) {
          return Error, 0, 0;
        }
        if i + 1 == |s| {
          return Wait, 0, 0;
        }
        break;
      }
      i := i + 1;
    }
    if negative {
      Int32Digit(Value(s[start..i]), 0);
      value := Int32(value * -1);
    }
    assert i == NumberEnd(s) && start == SignSize(s);
    return Ok, i + 2, value;
  }

  // ------------------------------------------------------------ a length line

  /** A byte at a time: what s shows of the line for n with more behind it. */
  lemma LineBytes(kind: byte, n: nat, after: seq<byte>, s: seq<byte>)
    requires Agree(s, Line(kind, n) + after) && s != []
    ensures s[0] == kind
    ensures var d, t := Digits(n), s[1..];
            && (|t| <= |d| ==> t == d[..|t|])
            && (|t| > |d| ==> t[..|d|] == d && t[|d|] == CR)
            && (|t| > |d| + 1 ==> t[|d| + 1] == LF)
  {
    hide Digits;
    var full := Line(kind, n) + after;
    var m := if |s| < |full| then |s| else |full|;
    assert s[..m] == full[..m];
    assert forall i | 0 <= i < m :: s[i] == full[i];
    assert forall i | 0 <= i < |Digits(n)| :: full[i + 1] == Digits(n)[i];
  }

  lemma {:induction false} DigitsEndAt(s: seq<byte>, i: nat, k: nat)
    requires i <= k <= |s| && AllDigits(s[i..k]) && (k < |s| ==> !IsDigit(s[k]))
    ensures DigitsEnd(s, i) == k
    decreases k - i
  {
    if i < k {
      assert s[i] == s[i..k][0];
      assert s[i + 1..k] == s[i..k][1..];
      DigitsEndAt(s, i + 1, k);
    }
  }

  /** GetIntUntilCRLF behind the kind byte of a line of d digits: short of three bytes, or
      with a bare CR at the end, it waits; but three or more digits without their CR are
      taken for a whole number. */
  lemma LineResult(kind: byte, n: nat, after: seq<byte>, s: seq<byte>)
    requires Agree(s, Line(kind, n) + after) && s != []
    ensures s[0] == kind
    ensures var t, d := s[1..], |Digits(n)|;
            && NumberResult(t) == (if |t| < 3 || |t| == d + 1 then Wait else Ok)
            && (|t| >= 3 ==> NumberEnd(t) == (if |t| <= d then |t| else d) && IsDigit(t[0]))
  {
    hide Digits;
    LineBytes(kind, n, after, s);
    ValueOfDigits(n);
    var t, d := s[1..], Digits(n);
    if |t| >= 3 {
      var k := if |t| <= |d| then |t| else |d|;
      assert t[0..k] == d[..k];
      ValuePrefix(d, k);
      assert IsDigit(d[..k][0]) && t[0] == t[0..k][0];
      DigitsEndAt(t, 0, k);
    }
  }

  /** The bytes from the pointer to the end; none if the pointer is already past it. */
  function Ahead(data: seq<byte>, ptr: nat): (s: seq<byte>)
    ensures ptr < |data| ==> |s| > 0 && s[0] == data[ptr]
  {
    if ptr <= |data| then data[ptr..] else []
  }

  /** What parseMulti and parseStrlen make of the bytes s: the pointer moves by step. */
  ghost predicate LineRead(kind: byte, s: seq<byte>, res: ParseResult, step: nat, val: int) {
    if |s| < 3 then res == Wait && step == 0
    else if s[0] != kind then res == Error
    else
      var t := s[1..];
      && res == NumberResult(t)
      && (res.Ok? ==> step == NumberEnd(t) + 3 && val == NumberVal(t))
  }

  /** Reading the line of n, of d digits: a whole line gives n; three or more digits without
      their CR carry the pointer past the end; anything shorter is waited for. */
  lemma LineOutcome(kind: byte, n: nat, after: seq<byte>, s: seq<byte>, res: ParseResult, step: nat, val: int)
    requires Agree(s, Line(kind, n) + after) && LineRead(kind, s, res, step, val) && n < TWO31
    ensures var d := |Digits(n)|;
            if |s| >= d + 3 then res == Ok && step == d + 3 && val == n
            else if 4 <= |s| <= d + 1 then res == Ok && step == |s| + 2
            else res == Wait
  {
    hide Digits, Value, NumberEnd, NumberResult;
    if |s| >= 3 {
      LineResult(kind, n, after, s);
      LineBytes(kind, n, after, s);
      ValueOfDigits(n);
    }
  }

  /** Agreement with a concatenation, behind its first part. */
  lemma AgreeBehind(s: seq<byte>, a: seq<byte>, b: seq<byte>)
    requires Agree(s, a + b) && |s| >= |a|
    ensures s[..|a|] == a && Agree(s[|a|..], b)
  {
    var full := a + b;
    if s <= full {
      assert s == full[..|s|];
      assert s[..|a|] == full[..|a|] == a;
      assert s[|a|..] == b[..|s| - |a|];
    } else {
      assert s[..|full|] == full;
      assert s[..|a|] == full[..|a|] == a;
      assert s[|a|..][..|b|] == b;
    }
  }
}
