/** The LZF stream format (src/net/lzf/lzf_c.c:89-96): literal runs and back references. */
module LzfFormat {
  import opened Bytes

  const MAX_LIT := 32
  const MAX_OFF := 8192
  const MAX_REF := 264

  /** Lit appends its bytes; Ref appends len + 2 bytes, read from off + 1 bytes back. */
  datatype Token = Lit(data: seq<byte>) | Ref(off: nat, len: nat)

  predicate TokenOk(t: Token) {
    match t
    case Lit(data) => 1 <= |data| <= MAX_LIT
    case Ref(off, len) => off < MAX_OFF && 1 <= len <= MAX_REF - 2
  }

  /** 000LLLLL <L+1 bytes> | LLLooooo oooooooo | 111ooooo LLLLLLLL oooooooo */
  function Encode(t: Token): (s: seq<byte>)
    requires TokenOk(t)
    ensures |s| >= 2
  {
    match t
    case Lit(data) => [|data| - 1] + data
    case Ref(off, len) =>
      if len < 7 then [off / 256 + len * 32, off % 256]
      else [off / 256 + 7 * 32, len - 7, off % 256]
  }

  function EncodeAll(ts: seq<Token>): (s: seq<byte>)
    requires forall t | t in ts :: TokenOk(t)
  {
    if ts == [] then [] else EncodeAll(ts[..|ts| - 1]) + Encode(ts[|ts| - 1])
  }

  /** n bytes, each the one off + 1 places before it: a run that may overlap itself. */
  function CopyBack(out: seq<byte>, off: nat, n: nat): (r: seq<byte>)
    requires off < |out|
    ensures |r| == |out| + n && r[..|out|] == out
    decreases n
  {
    if n == 0 then out else CopyBack(out + [out[|out| - 1 - off]], off, n - 1)
  }

  /** The reference stays inside what has been produced. */
  predicate Applies(out: seq<byte>, t: Token) {
    t.Ref? ==> t.off < |out|
  }

  function Apply(out: seq<byte>, t: Token): (r: seq<byte>)
    requires Applies(out, t)
    ensures |r| == |out| + (if t.Lit? then |t.data| else t.len + 2)
  {
    match t
    case Lit(data) => out + data
    case Ref(off, len) => CopyBack(out, off, len + 2)
  }

  /** Every token of ts applies, starting from nothing. */
  predicate Runs(ts: seq<Token>)
    decreases |ts|, 0
  {
    ts == [] || (Runs(ts[..|ts| - 1]) && Applies(Expand(ts[..|ts| - 1]), ts[|ts| - 1]))
  }

  function Expand(ts: seq<Token>): (out: seq<byte>)
    requires Runs(ts)
    decreases |ts|, 1
  {
    if ts == [] then [] else Apply(Expand(ts[..|ts| - 1]), ts[|ts| - 1])
  }

  // ---------------------------------------------------------------- parsing

  /** Length of the token at the front of s, or 0 when s ends inside it. */
  function TokenSize(s: seq<byte>): (n: nat)
    requires s != []
    ensures n <= |s|
  {
    var n := if s[0] < 32 then s[0] + 2 else if s[0] < 224 then 2 else 3;
    if n <= |s| then n else 0
  }

  function ParseToken(s: seq<byte>): (t: Token)
    requires s != [] && TokenSize(s) > 0
    ensures TokenOk(t)
  {
    var ctrl: int := s[0];
    if ctrl < 32 then Lit(s[1..ctrl + 2])
    else if ctrl < 224 then Ref(ctrl % 32 * 256 + s[1], ctrl / 32)
    else Ref(ctrl % 32 * 256 + s[2], 7 + s[1] as int)
  }

  /** The tokens of a stream; None when it ends inside one. */
  function Parse(s: seq<byte>): (r: Option<seq<Token>>)
    decreases |s|
  {
    if s == [] then Some([])
    else if TokenSize(s) == 0 then None
    else match Parse(s[TokenSize(s)..]) {
      case None => None
      case Some(ts) => Some([ParseToken(s)] + ts)
    }
  }

  /** What a stream stands for; None when it is truncated or refers before the start. */
  function Meaning(s: seq<byte>): (r: Option<seq<byte>>) {
    match Parse(s)
    case None => None
    case Some(ts) => if Runs(ts) then Some(Expand(ts)) else None
  }

  // ------------------------------------------------------------- round trip

  /** Parsing undoes encoding, token by token. */
  lemma ParseEncoded(t: Token, rest: seq<byte>)
    requires TokenOk(t)
    ensures var s := Encode(t) + rest;
            TokenSize(s) == |Encode(t)| && ParseToken(s) == t && s[TokenSize(s)..] == rest
  {
    var s := Encode(t) + rest;
    match t
    case Lit(data) =>
      assert s[1..|data| + 1] == data;
    case Ref(off, len) =>
      assert off / 256 < 32;
  }

  lemma {:induction false} ParseEncodeAll(ts: seq<Token>, rest: seq<byte>)
    requires forall t | t in ts :: TokenOk(t)
    ensures Parse(EncodeAll(ts) + rest)
            == match Parse(rest) { case None => None case Some(us) => Some(ts + us) }
    decreases |ts|
  {
    if ts == [] {
      assert EncodeAll(ts) + rest == rest;
      if Parse(rest).Some? {
        assert ts + Parse(rest).value == Parse(rest).value;
      }
    } else {
      hide Encode, ParseToken, TokenSize;
      var init, t := ts[..|ts| - 1], ts[|ts| - 1];
      Assoc3(EncodeAll(init), Encode(t), rest);
      ParseEncodeAll(init, Encode(t) + rest);
      ParseEncoded(t, rest);
      if Parse(rest).Some? {
        Assoc3(init, [t], Parse(rest).value);
        assert init + [t] == ts;
      }
    }
  }

  /** The stream written for ts stands for what ts expands to. */
  lemma EncodedMeaning(ts: seq<Token>)
    requires (forall t | t in ts :: TokenOk(t)) && Runs(ts)
    ensures Meaning(EncodeAll(ts)) == Some(Expand(ts))
  {
    ParseEncodeAll(ts, []);
    assert EncodeAll(ts) + [] == EncodeAll(ts);
    assert ts + [] == ts;
  }

  lemma SnocRuns(ts: seq<Token>, t: Token)
    requires Runs(ts) && Applies(Expand(ts), t)
    ensures Runs(ts + [t]) && Expand(ts + [t]) == Apply(Expand(ts), t)
  {
    assert (ts + [t])[..|ts + [t]| - 1] == ts;
  }

  /** A prefix of a run is a run, and expands to no more. */
  lemma {:induction false} PrefixRuns(ts: seq<Token>, k: nat)
    requires k <= |ts| && Runs(ts)
    ensures Runs(ts[..k]) && |Expand(ts[..k])| <= |Expand(ts)|
    decreases |ts|
  {
    if k == |ts| {
      assert ts[..k] == ts;
    } else {
      var init := ts[..|ts| - 1];
      PrefixRuns(init, k);
      assert init[..k] == ts[..k];
    }
  }

  /** A back reference into a repeated stretch reproduces it, even when it overlaps itself. */
  lemma {:induction false} CopyBackRepeats(data: seq<byte>, ip: nat, ref: nat, n: nat)
    requires ref < ip && ip + n <= |data|
    requires data[ref..ref + n] == data[ip..ip + n]
    ensures CopyBack(data[..ip], ip - ref - 1, n) == data[..ip + n]
    decreases n
  {
    if n > 0 {
      assert data[ref] == data[ref..ref + n][0] == data[ip..ip + n][0] == data[ip];
      assert data[..ip] + [data[ref]] == data[..ip + 1];
      assert data[ref + 1..ref + n] == data[ref..ref + n][1..];
      assert data[ip + 1..ip + n] == data[ip..ip + n][1..];
      CopyBackRepeats(data, ip + 1, ref + 1, n - 1);
    }
  }

  /** The format on two examples: a short reference and a long one. */
  lemma Examples()
    ensures Encode(Ref(1, 1)) == [32, 1] && Encode(Ref(0, 7)) == [224, 0, 0] && Encode(Lit([97, 98])) == [1, 97, 98]
    ensures Apply([97, 98], Ref(1, 1)) == [97, 98, 97, 98, 97]
  {
    var s: seq<byte> := [97, 98];
    assert CopyBack(s + [97] + [98] + [97], 1, 0) == [97, 98, 97, 98, 97];
    assert CopyBack(s + [97] + [98], 1, 1) == [97, 98, 97, 98, 97];
    assert CopyBack(s + [97], 1, 2) == [97, 98, 97, 98, 97];
  }
}
