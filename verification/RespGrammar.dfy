/** What the parser of src/proto_parser.cc makes of any bytes whatever, and what that says
    about their continuations: the grammar in the comment of lines 13-18. */
module RespGrammar {
  import opened Bytes
  import opened Decimal
  import opened RespWriter
  import opened RespLines

  // ------------------------------------------------------------ verdicts

  /** All there, the strings found and the bytes they took; not all there, with the strings
      found so far, where the parser stopped and the length it has read, if any, for the next;
      or malformed. cut says that the malformed number may only be cut short. */
  datatype Verdict =
    | Whole(step: nat, texts: seq<seq<byte>>)
    | Part(step: nat, texts: seq<seq<byte>>, len: int)
    | Bad(cut: bool)

  /** v, with step bytes and some strings in front. */
  function Behind(step: nat, texts: seq<seq<byte>>, v: Verdict): (r: Verdict) {
    match v
    case Whole(k, ts) => Whole(step + k, texts + ts)
    case Part(k, ts, len) => Part(step + k, texts + ts, len)
    case Bad(cut) => v
  }

  function LineStatus(kind: byte, s: seq<byte>): (r: ParseResult) {
    if |s| < 3 then Wait else if s[0] != kind then Error else NumberResult(s[1..])
  }

  /** The number of a line and the bytes it took, more than there are if its digits are
      taken for all of them at the end of s. */
  function LineVal(s: seq<byte>): (v: int)
    requires |s| >= 2
  {
    NumberVal(s[1..])
  }

  function LineStep(s: seq<byte>): (k: nat)
    requires |s| >= 2
    ensures 3 <= k <= |s| + 2
  {
    NumberEnd(s[1..]) + 3
  }

  function TextVerdict(len: nat, s: seq<byte>): (v: Verdict) {
    if |s| < len + 2 then Part(0, [], len)
    else if s[len..len + 2] == [CR, LF] then Whole(len + 2, [s[..len]])
    else Bad(false)
  }

  /** The next string, whose length, unless it is -1, has been read before. */
  function StrVerdict(len: int, s: seq<byte>): (v: Verdict) {
    if len >= 0 then TextVerdict(len, s)
    else if len < -1 then Bad(false)
    else match LineStatus(DOLLAR, s)
      case Wait => Part(0, [], -1)
      case Error => Bad(false)
      case Ok =>
        var k := LineStep(s);
        if LineVal(s) < 0 then Bad(k > |s|) else Behind(k, [], TextVerdict(LineVal(s), Ahead(s, k)))
  }

  /** The next n strings. */
  function StrsVerdict(n: nat, len: int, s: seq<byte>): (v: Verdict) {
    if n == 0 then Whole(0, [])
    else match StrVerdict(len, s)
      case Whole(k, ts) => Behind(k, ts, StrsVerdict(n - 1, -1, Ahead(s, k)))
      case Part(k, ts, l) => Part(k, ts, l)
      case Bad(cut) => Bad(cut)
  }

  function Count(v: int): (n: nat) { if v < 0 then 0 else v }

  /** A whole command. */
  function RequestVerdict(s: seq<byte>): (v: Verdict) {
    match LineStatus(STAR, s)
    case Wait => Part(if |s| < 3 then 0 else 1, [], -1)
    case Error => Bad(false)
    case Ok =>
      var k := LineStep(s);
      if LineVal(s) < -1 then Bad(k > |s|) else Behind(k, [], StrsVerdict(Count(LineVal(s)), -1, Ahead(s, k)))
  }

  // ------------------------------------------------------------ the grammar

  /** number: digits, perhaps none, behind an optional sign. */
  predicate NumberText(t: seq<byte>) { AllDigits(t[SignSize(t)..]) }

  function TextVal(t: seq<byte>): (v: int)
    requires NumberText(t)
  {
    var n := Value(t[SignSize(t)..]);
    Int32(if t != [] && t[0] == 45 then -(n as int) else n)
  }

  /** kind number crlf */
  predicate LineSpells(kind: byte, w: seq<byte>, v: int) {
    && |w| >= 3 && w[0] == kind && w[|w| - 2..] == [CR, LF]
    && NumberText(w[1..|w| - 2]) && v == TextVal(w[1..|w| - 2])
  }

  /** strlist: each string in front of the others as $ number crlf string crlf, whose number is
      its length. */
  ghost predicate StrsSpell(w: seq<byte>, texts: seq<seq<byte>>)
    decreases |texts|
  {
    if texts == [] then w == []
    else exists i: nat :: StrSpells(w, i, texts[0]) && StrsSpell(w[i + |texts[0]| + 2..], texts[1..])
  }

  ghost predicate StrSpells(w: seq<byte>, i: nat, text: seq<byte>) {
    && i + |text| + 2 <= |w| && LineSpells(DOLLAR, w[..i], |text|)
    && w[i..i + |text|] == text && w[i + |text|..i + |text| + 2] == [CR, LF]
  }

  // ------------------------------------------------------------ lines

  /** Where the number of a spelled line ends. */
  lemma SpelledEnd(kind: byte, w: seq<byte>, v: int, c: seq<byte>)
    requires LineSpells(kind, w, v)
    ensures var t := (w + c)[1..];
            && |t| >= 2 && NumberEnd(t) == |w| - 3 && t[|w| - 3] == CR && t[|w| - 2] == LF && NumberVal(t) == v
  {
    hide Value;
    var t, m := (w + c)[1..], w[1..|w| - 2];
    var n := |w| - 3;
    assert t[..n] == m;
    assert t[n] == w[n + 1] == w[|w| - 2..][0] && t[n + 1] == w[n + 2] == w[|w| - 2..][1];
    assert SignSize(t) == SignSize(m) by { assert n > 0 ==> t[0] == m[0]; }
    assert t[SignSize(m)..n] == m[SignSize(m)..];
    DigitsEndAt(t, SignSize(t), n);
  }

  /** A spelled line is read, with its number, as soon as four bytes are there. */
  lemma LineReads(kind: byte, w: seq<byte>, v: int, c: seq<byte>)
    requires LineSpells(kind, w, v) && |w + c| >= 4
    ensures LineStatus(kind, w + c) == Ok && LineStep(w + c) == |w| && LineVal(w + c) == v
  {
    hide NumberVal, NumberEnd, TextVal, NumberText;
    SpelledEnd(kind, w, v, c);
  }

  /** A line that is read was spelled, unless its digits run up to the end. */
  lemma LineSpelled(kind: byte, s: seq<byte>)
    requires LineStatus(kind, s) == Ok && LineStep(s) <= |s|
    ensures LineSpells(kind, s[..LineStep(s)], LineVal(s))
  {
    hide NumberText, TextVal, NumberEnd, NumberVal;
    var t, k := s[1..], NumberEnd(s[1..]);
    var w := s[..k + 3];
    NumberIsText(t);
    assert w[1..|w| - 2] == t[..k];
    assert w[|w| - 2..] == [s[k + 1], s[k + 2]] == [t[k], t[k + 1]];
  }

  lemma NumberIsText(t: seq<byte>)
    requires t != []
    ensures var m := t[..NumberEnd(t)];
            NumberText(m) && TextVal(m) == NumberVal(t)
  {
    hide Value, Int32;
    var k := NumberEnd(t);
    var m := t[..k];
    SignKept(t, k);
    assert m[SignSize(m)..] == t[SignSize(t)..k];
    assert t[0] == 45 ==> k > 0;
  }

  lemma SignKept(t: seq<byte>, k: nat)
    requires t != [] && k == NumberEnd(t)
    ensures SignSize(t[..k]) == SignSize(t)
  {
  }

  /** A line that is rejected stays rejected. */
  lemma LineRejected(kind: byte, s: seq<byte>, c: seq<byte>)
    requires LineStatus(kind, s) == Error
    ensures LineStatus(kind, s + c) == Error
  {
    if s[0] == kind {
      NumberStays(s[1..], c);
      assert (s + c)[1..] == s[1..] + c;
    }
  }

  /** A number followed by something stays where it is. */
  lemma NumberStays(t: seq<byte>, c: seq<byte>)
    requires t != [] && NumberEnd(t) < |t|
    ensures NumberEnd(t + c) == NumberEnd(t) && NumberVal(t + c) == NumberVal(t)
  {
    hide Value;
    var k := NumberEnd(t);
    assert (t + c)[SignSize(t)..k] == t[SignSize(t)..k];
    DigitsEndAt(t + c, SignSize(t), k);
  }

  lemma LineStays(kind: byte, s: seq<byte>, c: seq<byte>)
    requires LineStatus(kind, s) == Ok && LineStep(s) <= |s|
    ensures LineStatus(kind, s + c) == Ok && LineStep(s + c) == LineStep(s) && LineVal(s + c) == LineVal(s)
  {
    hide NumberVal, NumberEnd;
    NumberStays(s[1..], c);
    assert (s + c)[1..] == s[1..] + c;
  }

  /** A line that is waited for can be completed to one with the number v if and only if some
      continuation of it is read as that. */
  lemma LineCompletes(kind: byte, s: seq<byte>, c: seq<byte>)
    requires LineStatus(kind, s) == Wait
    requires LineStatus(kind, s + c) == Ok && LineStep(s + c) <= |s + c|
    ensures LineStep(s + c) >= |s|
    ensures LineSpells(kind, s + c[..LineStep(s + c) - |s|], LineVal(s + c))
  {
    hide NumberVal, NumberEnd, NumberResult, LineSpells;
    LineSpelled(kind, s + c);
    var k := LineStep(s + c);
    if k < |s| {
      assert (s + c)[..k] == s[..k];
      assert s[..k] + s[k..] == s;
      LineReads(kind, s[..k], LineVal(s + c), s[k..]);
    } else {
      assert (s + c)[..k] == s + c[..k - |s|];
    }
  }

  // ------------------------------------------------------------ strings

  lemma AheadMore(s: seq<byte>, k: nat, c: seq<byte>)
    requires k <= |s|
    ensures Ahead(s + c, k) == Ahead(s, k) + c && Ahead(s, k) == s[k..]
  {
  }

  lemma AheadTwice(data: seq<byte>, i: nat, k: nat)
    ensures Ahead(Ahead(data, i), k) == Ahead(data, i + k)
  {
    if i + k <= |data| {
      DropTwice(data, i, k);
    }
  }

  lemma TextStays(len: nat, s: seq<byte>, c: seq<byte>)
    ensures !TextVerdict(len, s).Part? ==> TextVerdict(len, s + c) == TextVerdict(len, s)
    ensures TextVerdict(len, s).Whole? ==> TextVerdict(len, s).step <= |s|
  {
    if |s| >= len + 2 {
      assert (s + c)[len..len + 2] == s[len..len + 2] && (s + c)[..len] == s[..len];
    }
  }

  /** A verdict that is not Part does not depend on what follows, unless a number is cut. */
  lemma StrStays(len: int, s: seq<byte>, c: seq<byte>)
    ensures var v := StrVerdict(len, s);
            && (v.Whole? ==> v.step <= |s| && |v.texts| == 1)
            && (v.Whole? || v == Bad(false) ==> StrVerdict(len, s + c) == v)
  {
    hide TextVerdict, LineStatus, LineVal, LineStep;
    if len >= 0 {
      TextStays(len, s, c);
      TextOne(len, s);
    } else if len == -1 {
      match LineStatus(DOLLAR, s)
      case Wait =>
      case Error => LineRejected(DOLLAR, s, c);
      case Ok => LineThenText(s, c);
    }
  }

  lemma TextOne(len: nat, s: seq<byte>)
    ensures TextVerdict(len, s).Whole? ==> |TextVerdict(len, s).texts| == 1
    ensures TextVerdict(len, s).Part? ==> TextVerdict(len, s) == Part(0, [], len)
    ensures TextVerdict(len, s).Bad? ==> TextVerdict(len, s) == Bad(false)
  {
  }

  lemma LineThenText(s: seq<byte>, c: seq<byte>)
    requires LineStatus(DOLLAR, s) == Ok
    ensures var v := StrVerdict(-1, s);
            && (v.Whole? ==> v.step <= |s| && |v.texts| == 1)
            && (v.Whole? || v == Bad(false) ==> StrVerdict(-1, s + c) == v)
  {
    hide TextVerdict, LineStatus, LineVal, LineStep;
    StatusSize(DOLLAR, s);
    var k := LineStep(s);
    if k <= |s| {
      LineStays(DOLLAR, s, c);
      if LineVal(s) >= 0 {
        AheadMore(s, k, c);
        TextStays(LineVal(s), s[k..], c);
        TextOne(LineVal(s), s[k..]);
      }
    } else if LineVal(s) >= 0 {
      NoText(LineVal(s));
    }
  }

  lemma LineSize(kind: byte, w: seq<byte>, v: int)
    requires LineSpells(kind, w, v)
    ensures |w| >= 3
  {
  }

  lemma StatusSize(kind: byte, s: seq<byte>)
    ensures LineStatus(kind, s) != Wait ==> |s| >= 3
  {
  }

  lemma NoText(len: nat)
    ensures TextVerdict(len, []) == Part(0, [], len)
  {
  }

  /** The parser that stopped inside s goes on as one that saw all of it would. */
  lemma StrResumes(len: int, s: seq<byte>, c: seq<byte>)
    requires StrVerdict(len, s).Part? && StrVerdict(len, s).step <= |s|
    ensures var v := StrVerdict(len, s);
            && v.texts == [] && v.len >= -1
            && (v.len == -1 ==> v.step == 0 && len == -1 && LineStatus(DOLLAR, s) == Wait)
            && (v.len >= 0 ==> TextVerdict(v.len, s[v.step..]).Part?)
            && StrVerdict(len, s + c) == Behind(v.step, [], StrVerdict(v.len, s[v.step..] + c))
  {
    hide TextVerdict, LineStatus, LineVal, LineStep;
    var v := StrVerdict(len, s);
    assert s[0..] == s;
    if len >= 0 {
      TextOne(len, s);
      BehindNone(StrVerdict(len, s + c));
    } else if LineStatus(DOLLAR, s) == Wait {
      BehindNone(StrVerdict(len, s + c));
    } else {
      StatusSize(DOLLAR, s);
      var k := LineStep(s);
      TextOne(LineVal(s), Ahead(s, k));
      assert v == Part(k, [], LineVal(s));
      LineStays(DOLLAR, s, c);
      AheadMore(s, k, c);
    }
  }

  lemma BehindNone(v: Verdict)
    ensures Behind(0, [], v) == v
  {
    match v
    case Whole(k, ts) => assert [] + ts == ts;
    case Part(k, ts, l) => assert [] + ts == ts;
    case Bad(cut) =>
  }

  lemma BehindTwice(a: nat, ts: seq<seq<byte>>, b: nat, us: seq<seq<byte>>, v: Verdict)
    ensures Behind(a, ts, Behind(b, us, v)) == Behind(a + b, ts + us, v)
  {
    match v
    case Whole(k, xs) => Assoc3(ts, us, xs);
    case Part(k, xs, l) => Assoc3(ts, us, xs);
    case Bad(cut) =>
  }

  lemma {:induction false} StrsStay(n: nat, len: int, s: seq<byte>, c: seq<byte>)
    ensures var v := StrsVerdict(n, len, s);
            && (v.Whole? ==> v.step <= |s| && |v.texts| == n)
            && (v.Whole? || v == Bad(false) ==> StrsVerdict(n, len, s + c) == v)
    decreases n
  {
    hide StrVerdict, StrsVerdict;
    if n == 0 {
      NoStrs(len, s);
      NoStrs(len, s + c);
    } else {
      StrStays(len, s, c);
      StrsStep(n, len, s);
      StrsStep(n, len, s + c);
      var v := StrVerdict(len, s);
      if v.Whole? {
        AheadMore(s, v.step, c);
        StrsStay(n - 1, -1, s[v.step..], c);
      }
    }
  }

  lemma NoStrs(len: int, s: seq<byte>)
    ensures StrsVerdict(0, len, s) == Whole(0, [])
  {
  }

  lemma StrsStep(n: nat, len: int, s: seq<byte>)
    requires n > 0
    ensures var v := StrVerdict(len, s);
            StrsVerdict(n, len, s)
            == if v.Whole? then Behind(v.step, v.texts, StrsVerdict(n - 1, -1, Ahead(s, v.step))) else v
  {
    hide StrVerdict;
  }

  lemma {:induction false} StrsResume(n: nat, len: int, s: seq<byte>, c: seq<byte>)
    requires StrsVerdict(n, len, s).Part? && StrsVerdict(n, len, s).step <= |s|
    ensures var v := StrsVerdict(n, len, s);
            && |v.texts| < n && v.len >= -1 && (v.len == -1 ==> LineStatus(DOLLAR, s[v.step..]) == Wait)
            && (v.len >= 0 ==> TextVerdict(v.len, s[v.step..]).Part?)
            && StrsVerdict(n, len, s + c) == Behind(v.step, v.texts, StrsVerdict(n - |v.texts|, v.len, s[v.step..] + c))
    decreases n
  {
    hide StrVerdict, StrsVerdict, LineStatus, TextVerdict, Ahead;
    if n == 0 {
      NoStrs(len, s);
    }
    var v := StrVerdict(len, s);
    StrStays(len, s, c);
    StrsStep(n, len, s);
    StrsStep(n, len, s + c);
    if v.Part? {
      StrResumes(len, s, c);
      assert s[0..] == s;
      ResumeFirst(n, len, s, c, v);
    } else {
      var rest := s[v.step..];
      AheadMore(s, v.step, c);
      StrsResume(n - 1, -1, rest, c);
      var w := StrsVerdict(n - 1, -1, rest);
      DropTwice(s, v.step, w.step);
      BehindTwice(v.step, v.texts, w.step, w.texts, StrsVerdict(n - 1 - |w.texts|, w.len, rest[w.step..] + c));
    }
  }

  /** Resuming inside the first string is resuming the list. */
  lemma ResumeFirst(n: nat, len: int, s: seq<byte>, c: seq<byte>, v: Verdict)
    requires n > 0 && v.Part? && v.texts == [] && v.step <= |s|
    requires StrVerdict(len, s + c) == Behind(v.step, [], StrVerdict(v.len, s[v.step..] + c))
    ensures StrsVerdict(n, len, s + c) == Behind(v.step, [], StrsVerdict(n, v.len, s[v.step..] + c))
  {
    hide StrVerdict, StrsVerdict, Ahead;
    var t := s[v.step..] + c;
    StrsStep(n, len, s + c);
    StrsStep(n, v.len, t);
    StrStays(v.len, t, []);
    match StrVerdict(v.len, t)
    case Whole(k, ts) =>
      AheadMore(s, v.step, c);
      AheadTwice(s + c, v.step, k);
      assert [] + ts == ts;
      BehindTwice(v.step, [], k, ts, StrsVerdict(n - 1, -1, Ahead(t, k)));
    case Part(k, ts, l) =>
    case Bad(cut) =>
  }

  // ------------------------------------------------------------ accepted is spelled

  lemma StrSpelled(s: seq<byte>)
    requires StrVerdict(-1, s).Whole?
    ensures var v := StrVerdict(-1, s);
            && |v.texts| == 1 && |s| >= 3 && LineStep(s) <= |s| && v.step == LineStep(s) + |v.texts[0]| + 2 <= |s|
            && StrSpells(s, LineStep(s), v.texts[0])
  {
    hide LineStatus, LineVal, LineStep, LineSpells;
    StatusSize(DOLLAR, s);
    var k, n := LineStep(s), LineVal(s);
    if k > |s| {
      NoText(n);
    }
    LineSpelled(DOLLAR, s);
    var t := s[k..];
    assert t[..n] == s[k..k + n] && t[n..n + 2] == s[k + n..k + n + 2];
  }

  lemma StrReads(w: seq<byte>, i: nat, text: seq<byte>, c: seq<byte>)
    requires StrSpells(w, i, text)
    ensures StrVerdict(-1, w + c) == Whole(i + |text| + 2, [text])
  {
    hide LineStatus, LineVal, LineStep, LineSpells;
    var n := |text|;
    var rest := w[i..] + c;
    assert w[..i] + rest == w + c;
    LineSize(DOLLAR, w[..i], n);
    LineReads(DOLLAR, w[..i], n, rest);
    StatusSize(DOLLAR, w + c);
    assert Ahead(w + c, i) == rest;
    assert rest[..n] == w[i..i + n] && rest[n..n + 2] == w[i + n..i + n + 2];
    assert [] + [text] == [text];
  }

  /** What is accepted as n strings is spelled by the grammar. */
  lemma {:induction false} StrsSpelled(n: nat, s: seq<byte>)
    requires StrsVerdict(n, -1, s).Whole?
    ensures var v := StrsVerdict(n, -1, s);
            v.step <= |s| && |v.texts| == n && StrsSpell(s[..v.step], v.texts)
    decreases n
  {
    hide StrVerdict, LineStep, StrSpells, StrsVerdict;
    StrsStay(n, -1, s, []);
    if n == 0 {
      NoStrs(-1, s);
    } else {
      StrsStep(n, -1, s);
      StrStays(-1, s, []);
      StrSpelled(s);
      var v, i := StrVerdict(-1, s), LineStep(s);
      var rest := s[v.step..];
      StrsSpelled(n - 1, rest);
      var u := StrsVerdict(n - 1, -1, rest);
      var w, texts := s[..v.step + u.step], v.texts + u.texts;
      SpellsPrefix(s, i, v.texts[0], |w|);
      assert w[v.step..] == rest[..u.step];
      assert texts[0] == v.texts[0] && texts[1..] == u.texts;
    }
  }

  lemma SpellsPrefix(s: seq<byte>, i: nat, text: seq<byte>, k: nat)
    requires StrSpells(s, i, text) && i + |text| + 2 <= k <= |s|
    ensures StrSpells(s[..k], i, text)
  {
    hide LineSpells;
    var w := s[..k];
    assert w[..i] == s[..i] && w[i..i + |text|] == s[i..i + |text|];
    assert w[i + |text|..i + |text| + 2] == s[i + |text|..i + |text| + 2];
  }

  /** What the grammar spells is accepted, whatever follows. */
  lemma {:induction false} StrsRead(w: seq<byte>, texts: seq<seq<byte>>, c: seq<byte>)
    requires StrsSpell(w, texts)
    ensures StrsVerdict(|texts|, -1, w + c) == Whole(|w|, texts)
    decreases |texts|
  {
    hide StrVerdict, StrsVerdict, StrSpells, StrsSpell;
    if texts == [] {
      NothingSpelled(w);
      NoStrs(-1, w + c);
    } else {
      var i := FirstSpelled(w, texts);
      var k := i + |texts[0]| + 2;
      StrReads(w, i, texts[0], c);
      StrsStep(|texts|, -1, w + c);
      AheadMore(w, k, c);
      StrsRead(w[k..], texts[1..], c);
      assert [texts[0]] + texts[1..] == texts;
    }
  }

  lemma NothingSpelled(w: seq<byte>)
    ensures StrsSpell(w, []) <==> w == []
  {
  }

  lemma FirstSpelled(w: seq<byte>, texts: seq<seq<byte>>) returns (i: nat)
    requires StrsSpell(w, texts) && texts != []
    ensures i + |texts[0]| + 2 <= |w| && StrSpells(w, i, texts[0])
    ensures StrsSpell(w[i + |texts[0]| + 2..], texts[1..])
  {
    hide LineSpells;
    i :| StrSpells(w, i, texts[0]) && StrsSpell(w[i + |texts[0]| + 2..], texts[1..]);
  }

  /** The writer's length lines and strings are spelled by the grammar. */
  lemma WriterLine(kind: byte, n: nat)
    requires n < TWO31
    ensures LineSpells(kind, Line(kind, n), n)
  {
    hide Digits, Value;
    ValueOfDigits(n);
    var w := Line(kind, n);
    assert w[1..|w| - 2] == Digits(n);
    assert w[|w| - 2..] == [CR, LF];
    assert IsDigit(Digits(n)[0]);
    assert Digits(n)[0..] == Digits(n);
  }

  lemma {:induction false} WriterSpells(texts: seq<seq<byte>>)
    requires forall i | 0 <= i < |texts| :: |texts[i]| < TWO31
    ensures StrsSpell(Bulks(texts), texts)
  {
    hide Line, LineSpells;
    if texts != [] {
      var t, rest := texts[0], Bulks(texts[1..]);
      var l, w := Line(DOLLAR, |t|), Bulks(texts);
      WriterLine(DOLLAR, |t|);
      WriterSpells(texts[1..]);
      assert w == l + t + [CR, LF] + rest;
      assert w[..|l|] == l && w[|l|..|l| + |t|] == t && w[|l| + |t|..|l| + |t| + 2] == [CR, LF];
      assert w[|l| + |t| + 2..] == rest;
      assert StrSpells(w, |l|, t);
    }
  }

  // ------------------------------------------------------------ what may still come

  /** Some continuation is accepted. */
  ghost predicate Acceptable(n: nat, len: int, s: seq<byte>) {
    exists c: seq<byte> :: StrsVerdict(n, len, s + c).Whole?
  }

  /** What the parser stopped in front of can still be completed: to a line with a length, or
      to a text of the length that has been read. */
  predicate Promising(len: int, u: seq<byte>) {
    if len >= 0 then |u| <= len || u[len] == CR else Completable(DOLLAR, 0, u)
  }

  /** The start of a line whose number may still turn out to be lo or more: nothing, or the
      kind and the start of a number, or of its end behind a number that is. */
  predicate Completable(kind: byte, lo: int, u: seq<byte>) {
    u == [] ||
    (u[0] == kind &&
     var t := u[1..];
     || NumberText(t) || t == [CR, LF]
     || (t[|t| - 1] == CR && NumberText(t[..|t| - 1]) && TextVal(t[..|t| - 1]) >= lo))
  }

  /** Some continuation spells a line with such a number. */
  ghost predicate LineHope(kind: byte, lo: int, u: seq<byte>) {
    exists e: seq<byte>, v: int :: v >= lo && LineSpells(kind, u + e, v)
  }

  lemma HopeIff(kind: byte, lo: int, u: seq<byte>)
    requires LineStatus(kind, u) == Wait && lo <= 0
    ensures LineHope(kind, lo, u) <==> Completable(kind, lo, u)
  {
    hide LineSpells, NumberText, TextVal, LineStatus;
    if LineHope(kind, lo, u) {
      var e: seq<byte>, v: int :| v >= lo && LineSpells(kind, u + e, v);
      HopeShows(kind, lo, u, e, v);
    }
    if Completable(kind, lo, u) {
      var e, v := Completion(kind, lo, u);
      assert LineSpells(kind, u + e, v);
    }
  }

  lemma HopeShows(kind: byte, lo: int, u: seq<byte>, e: seq<byte>, v: int)
    requires LineStatus(kind, u) == Wait && v >= lo && LineSpells(kind, u + e, v)
    ensures Completable(kind, lo, u)
  {
    hide NumberText, TextVal, LineStatus;
    var w := u + e;
    var m := w[1..|w| - 2];
    if u != [] {
      var t := u[1..];
      assert u[0] == w[0];
      if |t| <= |m| {
        assert t == m[..|t|];
        NumberStart(m, |t|);
      } else if |t| == |m| + 1 {
        assert t[..|t| - 1] == m && t[|t| - 1] == w[|w| - 2] == w[|w| - 2..][0];
      } else {
        assert u == w && u + [] == u;
        ShortOnly(kind, u, v);
      }
    }
  }

  lemma ShortOnly(kind: byte, u: seq<byte>, v: int)
    requires LineStatus(kind, u) == Wait && LineSpells(kind, u, v)
    ensures u[1..] == [CR, LF]
  {
    hide NumberText, TextVal, LineStatus;
    if |u| >= 4 {
      LineRead4(kind, u, v);
    }
    assert |u| == 3 && u[1..] == u[|u| - 2..];
  }

  lemma LineRead4(kind: byte, u: seq<byte>, v: int)
    requires LineSpells(kind, u, v) && |u| >= 4
    ensures LineStatus(kind, u) == Ok
  {
    hide NumberText, TextVal, LineStatus;
    assert u + [] == u;
    LineReads(kind, u, v, []);
  }

  lemma NumberStart(m: seq<byte>, k: nat)
    requires NumberText(m) && k <= |m|
    ensures NumberText(m[..k])
  {
    var t := m[..k];
    if k > 0 {
      assert SignSize(t) == SignSize(m);
      assert t[SignSize(m)..] == m[SignSize(m)..][..k - SignSize(m)];
    }
  }

  lemma LineOf(kind: byte, m: seq<byte>)
    requires NumberText(m)
    ensures LineSpells(kind, [kind] + m + [CR, LF], TextVal(m))
  {
    hide NumberText, TextVal;
    var w := [kind] + m + [CR, LF];
    assert w[1..|w| - 2] == m && w[|w| - 2..] == [CR, LF];
  }

  lemma Completion(kind: byte, lo: int, u: seq<byte>) returns (e: seq<byte>, v: int)
    requires LineStatus(kind, u) == Wait && lo <= 0 && Completable(kind, lo, u)
    ensures v >= lo && LineSpells(kind, u + e, v)
  {
    hide NumberText, TextVal, LineStatus, LineSpells;
    EmptyNumber();
    if u == [] {
      e, v := [kind, CR, LF], 0;
      LineOf(kind, []);
      assert u + e == [kind] + [] + [CR, LF];
    } else if NumberText(u[1..]) {
      WaitShort(kind, u);
      e, v := CompleteNumber(kind, u[1..]);
      assert u == [kind] + u[1..];
    } else if u[1..] == [CR, LF] {
      e, v := [], 0;
      LineOf(kind, []);
      assert u + e == [kind] + [] + [CR, LF];
    } else {
      var t := u[1..];
      var m := t[..|t| - 1];
      e, v := [LF], TextVal(m);
      LineOf(kind, m);
      CompleteEnd(kind, u, m);
    }
  }

  lemma CompleteNumber(kind: byte, t: seq<byte>) returns (e: seq<byte>, v: int)
    requires NumberText(t) && |t| <= 2
    ensures v >= 0 && LineSpells(kind, [kind] + t + e, v)
  {
    hide NumberText, TextVal, LineSpells;
    var d := ToNonNegative(t);
    e, v := d + [CR, LF], TextVal(t + d);
    LineOf(kind, t + d);
    assert [kind] + t + e == [kind] + (t + d) + [CR, LF];
  }

  lemma CompleteEnd(kind: byte, u: seq<byte>, m: seq<byte>)
    requires |u| >= 2 && u[0] == kind && u[|u| - 1] == CR && m == u[1..|u| - 1]
    ensures u + [LF] == [kind] + m + [CR, LF]
  {
  }

  lemma EmptyNumber()
    ensures NumberText([]) && TextVal([]) == 0
  {
  }

  /** Three bytes of a number are read at once. */
  lemma WaitShort(kind: byte, u: seq<byte>)
    requires u != [] && u[0] == kind && LineStatus(kind, u) == Wait && NumberText(u[1..])
    ensures |u| <= 3
  {
    if |u| >= 4 {
      NumberRead(u[1..]);
    }
  }

  lemma NumberRead(t: seq<byte>)
    requires |t| >= 3 && NumberText(t)
    ensures NumberResult(t) == Ok
  {
    assert t[SignSize(t)..|t|] == t[SignSize(t)..];
    DigitsEndAt(t, SignSize(t), |t|);
  }

  // ------------------------------------------------------------ digits that wrap around

  /** The last k digits of x. */
  function Pad(x: nat, k: nat): (s: seq<byte>)
    ensures |s| == k && AllDigits(s)
    decreases k
  {
    if k == 0 then [] else Pad(x / 10, k - 1) + [ZERO + x % 10]
  }

  lemma {:induction false} PadValue(a: seq<byte>, x: nat, k: nat)
    requires AllDigits(a) && x < Pow10(k)
    ensures AllDigits(a + Pad(x, k)) && Value(a + Pad(x, k)) == Value(a) * Pow10(k) + x
    decreases k
  {
    if k == 0 {
      assert a + Pad(x, k) == a;
    } else {
      PadValue(a, x / 10, k - 1);
      var s := a + Pad(x, k);
      assert s[..|s| - 1] == a + Pad(x / 10, k - 1);
      PadStep(Value(a), Pow10(k - 1), x);
    }
  }

  lemma PadStep(v: nat, p: nat, x: nat)
    ensures 10 * (v * p + x / 10) + x % 10 == v * (10 * p) + x
  {
    assert v * (10 * p) == 10 * (v * p);
  }

  /** Digits that make the number 0 or more, if need be by wrapping around. */
  lemma ToNonNegative(t: seq<byte>) returns (d: seq<byte>)
    requires NumberText(t) && |t| <= 2
    ensures NumberText(t + d) && TextVal(t + d) >= 0
  {
    hide Value, Int32, Pad;
    var a := t[SignSize(t)..];
    if t == [] || t[0] != 45 || a == [] {
      d := [];
      assert t + d == t;
      SmallValue(a);
      SmallInt(Value(a));
    } else {
      var y := Value(a) * Pow10(10);
      var x := Filler(y);
      d := Pad(x, 10);
      assert x < Pow10(10) by { PowersOfTen(); }
      PadValue(a, x, 10);
      assert (t + d)[SignSize(t)..] == a + d;
      assert (t + d)[0] == 45;
    }
  }

  lemma SmallInt(n: nat)
    requires n < 100
    ensures Int32(n) == n && (n == 0 ==> Int32(-(n as int)) == 0)
  {
  }

  lemma Filler(y: nat) returns (x: nat)
    ensures x < 2 * TWO31 && Int32(-((y + x) as int)) == 0
  {
    var m, z: int := 2 * TWO31, -(y as int);
    x := z % m;
    assert z == m * (z / m) + x;
    Int32Shift(0, z / m);
  }

  lemma SmallValue(a: seq<byte>)
    requires AllDigits(a) && |a| <= 2
    ensures Value(a) < 100 && (a == [] ==> Value(a) == 0)
  {
    if |a| == 2 {
      assert a[..1] == [a[0]] && [a[0]][..0] == [];
      assert Value(a[..1]) == a[0] - ZERO;
    } else if |a| == 1 {
      assert a[..0] == [];
    }
  }

  function Zeros(n: nat): (s: seq<byte>)
    ensures |s| == n
  {
    seq(n, _ => 0)
  }

  /** n empty strings, in bytes. */
  ghost function Empties(n: nat): (s: seq<byte>) { Bulks(seq(n, _ => [])) }

  lemma EmptiesRead(n: nat)
    ensures StrsVerdict(n, -1, Empties(n)).Whole?
  {
    hide StrsVerdict, StrsSpell, Bulks;
    var texts: seq<seq<byte>> := seq(n, _ => []);
    WriterSpells(texts);
    StrsRead(Empties(n), texts, []);
    assert Empties(n) + [] == Empties(n);
  }

  lemma TextCompletes(n: nat, len: nat, u: seq<byte>)
    requires n > 0 && |u| < len + 2 && Promising(len, u)
    ensures Acceptable(n, len, u)
  {
    hide StrsVerdict, Empties;
    var pad := if |u| <= len then Zeros(len - |u|) + [CR, LF] else [LF];
    var c, w := pad + Empties(n - 1), u + pad;
    assert |w| == len + 2 && w[len] == CR && w[len + 1] == LF;
    assert u + c == w + Empties(n - 1);
    StrDone(n, len, w, w[..len]);
  }

  lemma StrDone(n: nat, len: int, w: seq<byte>, text: seq<byte>)
    requires n > 0 && StrVerdict(len, w) == Whole(|w|, [text])
    ensures StrsVerdict(n, len, w + Empties(n - 1)).Whole?
  {
    hide StrVerdict, StrsVerdict, Empties;
    StrStays(len, w, Empties(n - 1));
    StrsStep(n, len, w + Empties(n - 1));
    AheadMore(w, |w|, Empties(n - 1));
    assert w[|w|..] + Empties(n - 1) == Empties(n - 1);
    EmptiesRead(n - 1);
  }

  lemma LineCompletesTo(n: nat, u: seq<byte>, e: seq<byte>, v: nat)
    requires n > 0 && LineSpells(DOLLAR, u + e, v)
    ensures Acceptable(n, -1, u)
  {
    hide StrVerdict, StrsVerdict, Empties, LineSpells;
    var l := u + e;
    var w := l + Zeros(v) + [CR, LF];
    assert w[..|l|] == l && w[|l|..|l| + v] == Zeros(v) && w[|l| + v..|l| + v + 2] == [CR, LF];
    StrReads(w, |l|, Zeros(v), []);
    assert w + [] == w;
    StrDone(n, -1, w, Zeros(v));
    assert u + (e + Zeros(v) + [CR, LF] + Empties(n - 1)) == w + Empties(n - 1);
  }

  lemma WholeFirst(n: nat, len: int, s: seq<byte>)
    requires n > 0 && StrsVerdict(n, len, s).Whole?
    ensures StrVerdict(len, s).Whole?
  {
  }

  lemma AcceptedPromises(n: nat, len: int, u: seq<byte>, c: seq<byte>)
    requires n > 0 && len >= -1 && StrsVerdict(n, len, u + c).Whole?
    requires if len >= 0 then TextVerdict(len, u).Part? else LineStatus(DOLLAR, u) == Wait
    ensures Promising(len, u)
  {
    hide StrsVerdict, LineStatus, LineStep, LineVal, LineSpells;
    WholeFirst(n, len, u + c);
    if len >= 0 {
      if |u| > len {
        assert (u + c)[len..len + 2][0] == u[len];
      }
    } else {
      StrSpelled(u + c);
      LineCompletes(DOLLAR, u, c);
      var e := c[..LineStep(u + c) - |u|];
      assert LineSpells(DOLLAR, u + e, LineVal(u + c));
      HopeIff(DOLLAR, 0, u);
    }
  }

  /** When the parser waits, some continuation is accepted if and only if what it stopped in
      front of can still be completed. */
  lemma WaitIff(n: nat, len: int, s: seq<byte>)
    requires StrsVerdict(n, len, s).Part? && StrsVerdict(n, len, s).step <= |s|
    ensures var v := StrsVerdict(n, len, s);
            Acceptable(n, len, s) <==> Promising(v.len, s[v.step..])
  {
    hide StrsVerdict, LineSpells, TextVerdict, LineStatus;
    var v := StrsVerdict(n, len, s);
    var u, m := s[v.step..], n - |v.texts|;
    StrsResume(n, len, s, []);
    if Acceptable(n, len, s) {
      var c: seq<byte> :| StrsVerdict(n, len, s + c).Whole?;
      StrsResume(n, len, s, c);
      AcceptedPromises(m, v.len, u, c);
    }
    if Promising(v.len, u) {
      if v.len >= 0 {
        PartSize(v.len, u);
        TextCompletes(m, v.len, u);
      } else {
        HopeIff(DOLLAR, 0, u);
        var e: seq<byte>, x: int :| x >= 0 && LineSpells(DOLLAR, u + e, x);
        LineCompletesTo(m, u, e, x);
      }
      var c: seq<byte> :| StrsVerdict(m, v.len, u + c).Whole?;
      StrsResume(n, len, s, c);
      assert StrsVerdict(n, len, s + c).Whole?;
    }
  }

  lemma PartSize(len: nat, u: seq<byte>)
    requires TextVerdict(len, u).Part?
    ensures |u| < len + 2
  {
  }

  // ------------------------------------------------------------ whole commands

  /** request: * number crlf and that many strings; a number of -1 stands for none. */
  ghost predicate RequestSpells(w: seq<byte>, texts: seq<seq<byte>>) {
    exists i: nat, v: int :: CountSpells(w, i, v, |texts|) && StrsSpell(w[i..], texts)
  }

  ghost predicate CountSpells(w: seq<byte>, i: nat, v: int, n: nat) {
    i <= |w| && v >= -1 && Count(v) == n && LineSpells(STAR, w[..i], v)
  }

  /** A request in front of anything is accepted with its strings, and stopped right behind, if
      and only if it is spelled by the grammar. */
  lemma RequestIff(s: seq<byte>, k: nat, texts: seq<seq<byte>>)
    requires k <= |s| && |s| >= 4
    ensures RequestVerdict(s) == Whole(k, texts) <==> RequestSpells(s[..k], texts)
  {
    hide StrsVerdict, StrsSpell, LineSpells, LineStatus, LineVal, LineStep;
    if RequestVerdict(s) == Whole(k, texts) {
      RequestSpelled(s, k, texts);
    }
    if RequestSpells(s[..k], texts) {
      var i: nat, v: int :| CountSpells(s[..k], i, v, |texts|) && StrsSpell(s[..k][i..], texts);
      RequestReads(s, k, texts, i, v);
    }
  }

  lemma RequestSpelled(s: seq<byte>, k: nat, texts: seq<seq<byte>>)
    requires k <= |s| && |s| >= 4 && RequestVerdict(s) == Whole(k, texts)
    ensures RequestSpells(s[..k], texts)
  {
    hide StrsVerdict, StrsSpell, LineSpells, LineStatus, LineVal, LineStep;
    var i, v := LineStep(s), LineVal(s);
    var rest := s[i..];
    LineSpelled(STAR, s);
    var u := StrsVerdict(Count(v), -1, rest);
    StrsSpelled(Count(v), rest);
    assert [] + u.texts == u.texts;
    assert s[..k][..i] == s[..i] && s[..k][i..] == rest[..u.step];
    assert CountSpells(s[..k], i, v, |texts|);
  }

  lemma RequestReads(s: seq<byte>, k: nat, texts: seq<seq<byte>>, i: nat, v: int)
    requires i <= k <= |s| && |s| >= 4 && CountSpells(s[..k], i, v, |texts|) && StrsSpell(s[..k][i..], texts)
    ensures RequestVerdict(s) == Whole(k, texts)
  {
    hide StrsVerdict, StrsSpell, LineSpells, LineStatus, LineVal, LineStep;
    assert s[..k][..i] == s[..i] && s[..k][i..] == s[i..k];
    assert s[..i] + s[i..] == s && s[i..k] + s[k..] == s[i..];
    LineReads(STAR, s[..i], v, s[i..]);
    StrsRead(s[i..k], texts, s[k..]);
    assert [] + texts == texts;
  }

  /** What has been accepted or rejected stays so, unless a number was cut. */
  lemma RequestStays(s: seq<byte>, c: seq<byte>)
    ensures var v := RequestVerdict(s);
            (v.Whole? && v.step <= |s|) || v == Bad(false) ==> RequestVerdict(s + c) == v
  {
    hide StrsVerdict, LineStatus, LineVal, LineStep;
    match LineStatus(STAR, s)
    case Wait =>
    case Error => LineRejected(STAR, s, c);
    case Ok =>
      StatusSize(STAR, s);
      var k := LineStep(s);
      if k <= |s| {
        LineStays(STAR, s, c);
        AheadMore(s, k, c);
        StrsStay(Count(LineVal(s)), -1, s[k..], c);
      } else if LineVal(s) >= -1 {
        NoBytes(Count(LineVal(s)));
      }
  }

  lemma NoBytes(n: nat)
    ensures !StrsVerdict(n, -1, []).Bad?
  {
  }

  ghost predicate RequestAcceptable(s: seq<byte>) {
    exists c: seq<byte> :: Accepted(s + c)
  }

  ghost predicate Accepted(s: seq<byte>) {
    RequestVerdict(s).Whole? && RequestVerdict(s).step <= |s|
  }

  /** What a request that is not all there stopped in front of can still be completed. */
  predicate RequestPromising(s: seq<byte>)
    requires RequestVerdict(s).Part? && RequestVerdict(s).step <= |s|
  {
    if LineStatus(STAR, s) == Wait then Completable(STAR, -1, s)
    else Promising(RequestVerdict(s).len, s[RequestVerdict(s).step..])
  }

  /** The parser waits for more of a request; some continuation is accepted if and only if
      what it has stopped in front of can still be completed. */
  lemma RequestWaitIff(s: seq<byte>)
    requires RequestVerdict(s).Part? && RequestVerdict(s).step <= |s|
    ensures RequestAcceptable(s) <==> RequestPromising(s)
  {
    hide StrsVerdict, LineStatus, LineVal, LineStep, Completable, Promising, Accepted;
    if LineStatus(STAR, s) == Wait {
      CountWaits(s);
    } else {
      StatusSize(STAR, s);
      var k, n := LineStep(s), Count(LineVal(s));
      var rest := s[k..];
      var u := StrsVerdict(n, -1, rest);
      WaitIff(n, -1, rest);
      DropTwice(s, k, u.step);
      if RequestAcceptable(s) {
        var c: seq<byte> :| Accepted(s + c);
        Onward(s, c);
      }
      if Acceptable(n, -1, rest) {
        var c: seq<byte> :| StrsVerdict(n, -1, rest + c).Whole?;
        Onward(s, c);
        assert Accepted(s + c);
      }
    }
  }

  /** Two bytes that are waited for in vain: "*!". */
  lemma WaitsInVain()
    ensures var s: seq<byte> := [STAR, 33];
            RequestVerdict(s) == Part(0, [], -1) && !RequestAcceptable(s)
  {
    var s: seq<byte> := [STAR, 33];
    assert s[1..] == [33] && !IsDigit(33);
    assert !NumberText([33]) by { assert [33][0..][0] == 33; }
    RequestWaitIff(s);
  }

  lemma Onward(s: seq<byte>, c: seq<byte>)
    requires LineStatus(STAR, s) == Ok && LineStep(s) <= |s| && LineVal(s) >= -1
    ensures Accepted(s + c) <==> StrsVerdict(Count(LineVal(s)), -1, s[LineStep(s)..] + c).Whole?
  {
    hide StrsVerdict, LineStatus, LineVal, LineStep;
    LineStays(STAR, s, c);
    AheadMore(s, LineStep(s), c);
    StrsStay(Count(LineVal(s)), -1, s[LineStep(s)..] + c, []);
  }

  lemma CountWaits(s: seq<byte>)
    requires LineStatus(STAR, s) == Wait
    ensures RequestAcceptable(s) <==> Completable(STAR, -1, s)
  {
    hide StrsVerdict, LineStatus, LineVal, LineStep, Completable, LineSpells, Empties;
    HopeIff(STAR, -1, s);
    if RequestAcceptable(s) {
      var c: seq<byte> :| Accepted(s + c);
      CountAccepted(s + c);
      LineCompletes(STAR, s, c);
      assert LineSpells(STAR, s + c[..LineStep(s + c) - |s|], LineVal(s + c));
    }
    if LineHope(STAR, -1, s) {
      var e: seq<byte>, v: int :| v >= -1 && LineSpells(STAR, s + e, v);
      CountCompletes(s, e, v);
    }
  }

  lemma CountAccepted(s: seq<byte>)
    requires Accepted(s)
    ensures LineStatus(STAR, s) == Ok && |s| >= 3 && LineStep(s) <= |s| && LineVal(s) >= -1
  {
    hide StrsVerdict, LineVal, LineStep;
  }

  lemma CountCompletes(s: seq<byte>, e: seq<byte>, v: int)
    requires LineSpells(STAR, s + e, v) && v >= -1
    ensures RequestAcceptable(s)
  {
    hide StrsVerdict, LineStatus, LineVal, LineStep, LineSpells, Empties, RequestVerdict, Behind, Ahead;
    var w, n := s + e, Count(v);
    LineSize(STAR, w, v);
    // One byte more, so that a line of three bytes is read as well.
    var c := Empties(n) + [0];
    LineReads(STAR, w, v, c);
    AheadMore(w, |w|, c);
    assert w[|w|..] + c == c;
    EmptiesRead(n);
    StrsStay(n, -1, Empties(n), [0]);
    assert s + (e + c) == w + c;
    RequestOk(w + c);
    BehindWhole(|w|, StrsVerdict(n, -1, c));
    assert Accepted(s + (e + c));
  }

  /** Behind a count. */
  lemma RequestOk(s: seq<byte>)
    requires LineStatus(STAR, s) == Ok
    ensures |s| >= 3
    ensures LineVal(s) < -1 ==> RequestVerdict(s).Bad?
    ensures LineVal(s) >= -1 ==>
              RequestVerdict(s) == Behind(LineStep(s), [], StrsVerdict(Count(LineVal(s)), -1, Ahead(s, LineStep(s))))
  {
    hide StrsVerdict, LineVal, LineStep, Ahead, Behind;
  }

  lemma BehindWhole(n: nat, v: Verdict)
    requires v.Whole?
    ensures Behind(n, [], v) == Whole(n + v.step, v.texts)
  {
    assert [] + v.texts == v.texts;
  }
}
