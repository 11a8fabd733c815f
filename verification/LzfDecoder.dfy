/** lzf_decompress (src/net/lzf/lzf_d.c), with CHECK_INPUT on as configured. */
module LzfDecoder {
  import opened Bytes
  import opened LzfFormat

  function Prepend(ts: seq<Token>, r: Option<seq<Token>>): (p: Option<seq<Token>>) {
    match r
    case None => None
    case Some(us) => Some(ts + us)
  }

  /** The stream decodes, and what it stands for fits in outLen bytes. */
  ghost predicate Decodable(input: seq<byte>, outLen: nat) {
    Meaning(input).Some? && |Meaning(input).value| <= outLen
  }

  /** Lines 89-91: copy n literal bytes. */
  method CopyRun(src: seq<byte>, ip: nat, output: array<byte>, op: nat, n: nat)
    requires ip + n <= |src| && op + n <= output.Length
    modifies output
    ensures output[..op + n] == old(output[..op]) + src[ip..ip + n]
    ensures output[op + n..] == old(output[op + n..])
  {
    var i: nat := 0;
    while i < n
      invariant i <= n
      invariant output[..op] == old(output[..op])
      invariant output[op..op + i] == src[ip..ip + i]
      invariant output[op + n..] == old(output[op + n..])
    {
      output[op + i] := src[ip + i];
      i := i + 1;
    }
    assert output[..op + n] == output[..op] + output[op..op + n];
  }

  /** Lines 137-142: copy n bytes of the output forward; the ranges may overlap. */
  method CopyMatch(output: array<byte>, op: nat, ref: nat, n: nat)
    requires ref < op && op + n <= output.Length
    modifies output
    ensures output[..op + n] == CopyBack(old(output[..op]), op - ref - 1, n)
    ensures output[op + n..] == old(output[op + n..])
  {
    hide CopyBack;
    var i: nat := 0;
    while i < n
      invariant i <= n
      invariant CopyBack(output[..op + i], op - ref - 1, n - i) == CopyBack(old(output[..op]), op - ref - 1, n)
      invariant output[op + n..] == old(output[op + n..])
    {
      ghost var before := output[..op + i];
      CopyStep(before, op - ref - 1, n - i);
      output[op + i] := output[ref + i];
      assert output[..op + i + 1] == before + [before[ref + i]];
      i := i + 1;
    }
  }

  lemma CopyStep(before: seq<byte>, off: nat, n: nat)
    requires n > 0 && off < |before|
    ensures CopyBack(before, off, n) == CopyBack(before + [before[|before| - off - 1]], off, n - 1)
  {
  }

  // ------------------------------------------------------------ correctness

  lemma ParseCons(s: seq<byte>)
    requires s != [] && TokenSize(s) > 0
    ensures TokenSize(s) <= |s| && Parse(s) == Prepend([ParseToken(s)], Parse(s[TokenSize(s)..]))
  {
    hide ParseToken, TokenSize;
  }

  lemma StepParse(input: seq<byte>, ip: nat, done: seq<Token>)
    requires ip < |input| && TokenSize(input[ip..]) > 0
    requires Parse(input) == Prepend(done, Parse(input[ip..]))
    ensures var n := TokenSize(input[ip..]);
            ip + n <= |input| && Parse(input) == Prepend(done + [ParseToken(input[ip..])], Parse(input[ip + n..]))
  {
    hide ParseToken, TokenSize, Parse;
    var n := TokenSize(input[ip..]);
    var t := ParseToken(input[ip..]);
    ParseCons(input[ip..]);
    DropTwice(input, ip, n);
    if Parse(input[ip + n..]).Some? {
      Assoc3(done, [t], Parse(input[ip + n..]).value);
    }
  }

  /** The next token is cut off, refers before the start, or overflows the output. */
  predicate Bad(tail: seq<byte>, out: seq<byte>, outLen: nat)
    requires tail != []
  {
    TokenSize(tail) == 0 ||
    var t := ParseToken(tail);
    !Applies(out, t) || |Apply(out, t)| > outLen
  }

  /** One bad token makes the whole stream undecodable. */
  lemma BadFails(input: seq<byte>, ip: nat, done: seq<Token>, outLen: nat)
    requires ip < |input| && Runs(done) && Parse(input) == Prepend(done, Parse(input[ip..]))
    requires Bad(input[ip..], Expand(done), outLen)
    ensures !Decodable(input, outLen)
  {
    hide ParseToken, TokenSize, CopyBack;
    if TokenSize(input[ip..]) > 0 {
      StepParse(input, ip, done);
      var t := ParseToken(input[ip..]);
      LastOf(done, t);
      if Decodable(input, outLen) {
        var ts := Parse(input).value;
        PrefixIs(ts, done + [t]);
        PrefixRuns(ts, |done| + 1);
      }
    }
  }

  lemma LastOf<T>(a: seq<T>, t: T)
    ensures (a + [t])[..|a + [t]| - 1] == a && (a + [t])[|a + [t]| - 1] == t
  {
  }

  lemma PrefixIs(ts: seq<Token>, a: seq<Token>)
    requires a <= ts
    ensures ts[..|a|] == a
  {
  }

  /** A good token takes the decoder one step further. */
  lemma GoodStep(input: seq<byte>, ip: nat, done: seq<Token>, outLen: nat)
    requires ip < |input| && Runs(done) && Parse(input) == Prepend(done, Parse(input[ip..]))
    requires !Bad(input[ip..], Expand(done), outLen)
    ensures TokenSize(input[ip..]) > 0
    ensures var t := ParseToken(input[ip..]);
            var n := TokenSize(input[ip..]);
            && Runs(done + [t]) && Expand(done + [t]) == Apply(Expand(done), t)
            && ip + n <= |input| && Parse(input) == Prepend(done + [t], Parse(input[ip + n..]))
  {
    hide ParseToken, TokenSize, CopyBack, Runs, Expand;
    StepParse(input, ip, done);
    SnocRuns(done, ParseToken(input[ip..]));
  }

  lemma DoneDecodes(input: seq<byte>, done: seq<Token>, outLen: nat)
    requires Runs(done) && Parse(input) == Prepend(done, Parse([])) && |Expand(done)| <= outLen
    ensures Decodable(input, outLen) && Meaning(input) == Some(Expand(done))
  {
    assert done + [] == done;
  }

  /** Lines 68-93: a literal run whose control byte is at ip. */
  method TakeLiteral(input: seq<byte>, ip0: nat, output: array<byte>, op0: nat, outLen: nat)
    returns (ok: bool, ip: nat, op: nat)
    requires ip0 < |input| && input[ip0] < 32 && op0 <= outLen <= output.Length
    modifies output
    ensures ok <==> !Bad(input[ip0..], old(output[..op0]), outLen)
    ensures ok ==> ip == ip0 + TokenSize(input[ip0..]) <= |input| && op0 < op <= outLen
    ensures ok ==> output[..op] == Apply(old(output[..op0]), ParseToken(input[ip0..]))
    ensures op0 <= op <= outLen && output[op..] == old(output[op..])
  {
    ip, op := ip0, op0;
    var ctrl: int := input[ip];
    ip := ip + 1;
    ctrl := ctrl + 1;
    if op + ctrl > outLen {
      return false, ip, op;
    }
    if ip + ctrl > |input| {
      return false, ip, op;
    }
    CopyRun(input, ip, output, op, ctrl);
    assert input[ip0..][1..ctrl + 1] == input[ip..ip + ctrl];
    return true, ip + ctrl, op + ctrl;
  }

  /** Lines 94-144: a back reference whose control byte is at ip. */
  method TakeRef(input: seq<byte>, ip0: nat, output: array<byte>, op0: nat, outLen: nat)
    returns (ok: bool, ip: nat, op: nat)
    requires ip0 < |input| && input[ip0] >= 32 && op0 <= outLen <= output.Length
    modifies output
    ensures ok <==> !Bad(input[ip0..], old(output[..op0]), outLen)
    ensures ok ==> ip == ip0 + TokenSize(input[ip0..]) <= |input| && op0 < op <= outLen
    ensures ok ==> output[..op] == Apply(old(output[..op0]), ParseToken(input[ip0..]))
    ensures op0 <= op <= outLen && output[op..] == old(output[op..])
  {
    hide CopyBack;
    ip, op := ip0, op0;
    var ctrl: int := input[ip];
    ip := ip + 1;
    var len: int := ctrl / 32;
    var ref: int := op - (ctrl % 32) * 256 - 1;
    if ip >= |input| {
      return false, ip, op;
    }
    if len == 7 {
      len := len + input[ip];
      ip := ip + 1;
      if ip >= |input| {
        return false, ip, op;
      }
    }
    ref := ref - input[ip];
    ip := ip + 1;
    ghost var t := ParseToken(input[ip0..]);
    assert t == Ref(op - ref - 1, len);
    if op + len + 2 > outLen {
      return false, ip, op;
    }
    if ref < 0 {
      return false, ip, op;
    }
    CopyMatch(output, op, ref, len + 2);
    return true, ip, op + len + 2;
  }

  /** lzf_decompress: n is 0 exactly when the stream is truncated, refers to bytes
      before the output, or stands for more than outLen bytes. */
  method Decompress(input: seq<byte>, output: array<byte>, outLen: nat) returns (n: nat)
    requires input != [] && outLen <= output.Length
    modifies output
    ensures n <= outLen
    ensures output[outLen..] == old(output[outLen..])
    ensures n > 0 ==> output[n..] == old(output[n..])
    ensures n > 0 <==> Decodable(input, outLen)
    ensures n > 0 ==> Meaning(input) == Some(output[..n])
  {
    hide Parse, ParseToken, TokenSize, Runs, Expand, CopyBack, Meaning, Decodable, Bad, Apply;
    var ip: nat, op: nat := 0, 0;
    ghost var done: seq<Token> := [];
    StartParse(input);
    while ip < |input|
      invariant ip <= |input| && op <= outLen
      invariant Runs(done) && output[..op] == Expand(done)
      invariant Parse(input) == Prepend(done, Parse(input[ip..]))
      invariant output[op..] == old(output[op..])
      invariant ip > 0 ==> op > 0
    {
      ghost var start, was, out := ip, op, output[..];
      var ok;
      if input[ip] < 32 {
        ok, ip, op := TakeLiteral(input, ip, output, op, outLen);
      } else {
        ok, ip, op := TakeRef(input, ip, output, op, outLen);
      }
      TailKept(output[..], out, old(output[..]), was, op, outLen);
      if !ok {
        BadFails(input, start, done, outLen);
        return 0;
      }
      GoodStep(input, start, done, outLen);
      done := done + [ParseToken(input[start..])];
    }
    assert input[ip..] == [];
    DoneDecodes(input, done, outLen);
    n := op;
  }

  lemma TailKept(s2: seq<byte>, s1: seq<byte>, s0: seq<byte>, p: nat, q: nat, n: nat)
    requires |s0| == |s1| == |s2| && p <= q <= n <= |s0| && s1[p..] == s0[p..] && s2[q..] == s1[q..]
    ensures s2[q..] == s0[q..] && s2[n..] == s0[n..]
  {
    assert s1[q..] == s1[p..][q - p..] && s0[q..] == s0[p..][q - p..];
    assert s2[n..] == s2[q..][n - q..] && s0[n..] == s0[q..][n - q..];
  }

  lemma StartParse(input: seq<byte>)
    ensures Runs([]) && Expand([]) == [] && Parse(input) == Prepend([], Parse(input[0..]))
  {
    assert input[0..] == input;
    if Parse(input).Some? {
      assert [] + Parse(input).value == Parse(input).value;
    }
  }
}
