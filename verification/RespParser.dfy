/** PProtoParser of src/proto_parser.cc: a parser that keeps its place between calls. */
module RespParser {
  import opened Bytes
  import opened Decimal
  import opened RespWriter
  import opened RespLines
  import opened RespGrammar

  /** Lengths the parser can hold in an int. */
  ghost predicate Holdable(cmd: seq<seq<byte>>) {
    |cmd| < TWO31 && forall i | 0 <= i < |cmd| :: |cmd[i]| + 2 < TWO31
  }

  // ------------------------------------------------------------ where input may be cut

  /** n bytes of a '$' line: whole, or cut where the parser notices that it is cut. */
  predicate SafeLine(len: nat, n: nat) { !(4 <= n <= |Digits(len)| + 1) }

  /** The first n bytes of the bulk strings end at a point where the parser can stop. */
  predicate SafeBulks(params: seq<seq<byte>>, n: nat)
    decreases |params|
  {
    params == [] ||
    if n < |Bulk(params[0])| then SafeLine(|params[0]|, n) else SafeBulks(params[1..], n - |Bulk(params[0])|)
  }

  /** Likewise once the length of the first string has been read. */
  predicate SafeText(params: seq<seq<byte>>, n: nat)
    requires params != []
  {
    n < |params[0]| + 2 || SafeBulks(params[1..], n - |params[0]| - 2)
  }

  /** Likewise for a whole command: its '*' line must not be cut behind the second byte. */
  predicate SafeCut(cmd: seq<seq<byte>>, n: nat) {
    var line := |Digits(|cmd|)| + 3;
    if n < line then n < 3 else SafeBulks(cmd, n - line)
  }

  /** The bytes of cmd left when k parameters have been read and len, unless -1, is the
      length read for the next one. */
  ghost function Remaining(cmd: seq<seq<byte>>, k: nat, len: int): (s: seq<byte>)
    requires k <= |cmd| && (len == -1 || k < |cmd|)
  {
    if len == -1 then Bulks(cmd[k..]) else cmd[k] + [CR, LF] + Bulks(cmd[k + 1..])
  }

  ghost function ItemBytes(str: seq<byte>, len: int): (s: seq<byte>) {
    if len == -1 then Bulk(str) else str + [CR, LF]
  }

  ghost predicate SafeFrom(cmd: seq<seq<byte>>, k: nat, len: int, n: nat)
    requires k <= |cmd| && (len == -1 || k < |cmd|)
  {
    if len == -1 then SafeBulks(cmd[k..], n) else SafeText(cmd[k..], n)
  }

  lemma RemainingItem(cmd: seq<seq<byte>>, k: nat, len: int)
    requires k < |cmd|
    ensures Remaining(cmd, k, len) == ItemBytes(cmd[k], len) + Bulks(cmd[k + 1..])
    ensures Remaining(cmd, k + 1, -1) == Bulks(cmd[k + 1..])
  {
    hide Bulk;
    assert cmd[k..][1..] == cmd[k + 1..];
  }

  lemma SafeItem(cmd: seq<seq<byte>>, k: nat, len: int, n: nat)
    requires k < |cmd|
    ensures var item := |ItemBytes(cmd[k], len)|;
            SafeFrom(cmd, k, len, n) ==
              if n >= item then SafeFrom(cmd, k + 1, -1, n - item) else len != -1 || SafeLine(|cmd[k]|, n)
  {
    hide Bulk, SafeLine;
    assert cmd[k..][1..] == cmd[k + 1..];
  }

  /** Once the length line is read, the text is left. */
  lemma RemainingText(cmd: seq<seq<byte>>, k: nat)
    requires k < |cmd|
    ensures var line := |Line(DOLLAR, |cmd[k]|)|;
            line <= |Remaining(cmd, k, -1)| && Remaining(cmd, k, |cmd[k]|) == Remaining(cmd, k, -1)[line..]
  {
    hide Digits, Bulks, Bulk, Line;
    RemainingItem(cmd, k, -1);
    BulkParts(cmd[k], Bulks(cmd[k + 1..]));
  }

  class ProtoParser {
    var multi: int
    var paramLen: int
    var numOfParam: nat
    var params: seq<seq<byte>>

    constructor ()
      ensures Initial()
    {
      multi, paramLen, numOfParam, params := -1, -1, 0, [];
    }

    ghost predicate Initial()
      reads this
    {
      multi == -1 && paramLen == -1 && numOfParam == 0
    }

    /** Reset: ready for the next command, with up to three parameters left over. */
    method Reset()
      modifies this
      ensures Initial() && params == old(params)[..if |old(params)| > 3 then 3 else |old(params)|]
    {
      multi, paramLen, numOfParam := -1, -1, 0;
      while |params| > 3
        invariant params <= old(params) && Initial() && (|params| >= 3 || params == old(params))
      {
        params := params[..|params| - 1];
      }
    }

    /** The fields are those of a parser part of the way through cmd; what params holds
        beyond the parameters already read is left over from earlier commands. */
    ghost predicate Within(cmd: seq<seq<byte>>)
      reads this
    {
      Initial() || Among(cmd)
    }

    ghost predicate Among(cmd: seq<seq<byte>>)
      reads this
    {
      && multi == |cmd| && numOfParam <= |cmd| && numOfParam <= |params|
      && params[..numOfParam] == cmd[..numOfParam]
      && (paramLen == -1 || (numOfParam < |cmd| && paramLen == |cmd[numOfParam]|))
    }

    /** The bytes of cmd that such a parser has yet to see. */
    ghost function Rest(cmd: seq<seq<byte>>): (s: seq<byte>)
      reads this
      requires Within(cmd)
    {
      if multi == -1 then Command(cmd)
      else Remaining(cmd, numOfParam, paramLen)
    }

    /** Whether it can stop behind n more bytes. */
    ghost predicate Safe(cmd: seq<seq<byte>>, n: nat)
      reads this
      requires Within(cmd)
    {
      if multi == -1 then SafeCut(cmd, n)
      else SafeFrom(cmd, numOfParam, paramLen, n)
    }

    /** parseMulti: on wait the pointer may stay behind the '*'. */
    method ParseMulti(data: seq<byte>, ptr: nat) returns (res: ParseResult, next: nat)
      modifies this`multi
      ensures next >= ptr && LineRead(STAR, Ahead(data, ptr), res, next - ptr, multi)
      ensures !res.Ok? ==> multi == old(multi)
      ensures res.Wait? ==> next == if |data| - ptr < 3 then ptr else ptr + 1
    {
      hide NumberEnd, NumberResult, Value;
      if |data| - ptr < 3 {
        return Wait, ptr;
      }
      if data[ptr] != STAR {
        return Error, ptr;
      }
      next := ptr + 1;
      assert data[next..] == Ahead(data, ptr)[1..];
      var r, step, val := GetIntUntilCRLF(data[next..]);
      if r.Ok? {
        next := next + step;
        multi := val;
      }
      res := r;
    }

    /** parseStrlen: on wait the pointer goes back to the '$'. */
    method ParseStrlen(data: seq<byte>, ptr: nat) returns (res: ParseResult, next: nat)
      modifies this`paramLen
      ensures next >= ptr && LineRead(DOLLAR, Ahead(data, ptr), res, next - ptr, paramLen)
      ensures !res.Ok? ==> paramLen == old(paramLen) && next == ptr
    {
      hide NumberEnd, NumberResult, Value;
      if |data| - ptr < 3 {
        return Wait, ptr;
      }
      if data[ptr] != DOLLAR {
        return Error, ptr;
      }
      next := ptr + 1;
      assert data[next..] == Ahead(data, ptr)[1..];
      var r, step, val := GetIntUntilCRLF(data[next..]);
      if r.Ok? {
        next := next + step;
        paramLen := val;
      } else {
        next := next - 1;
      }
      res := r;
    }

    /** parseStrval */
    method ParseStrval(data: seq<byte>, ptr: nat) returns (res: ParseResult, next: nat, text: seq<byte>)
      requires paramLen >= 0
      modifies this`paramLen
      ensures res == if |data| - ptr < old(paramLen) + 2 then Wait
                     else if data[ptr + old(paramLen)] != CR || data[ptr + old(paramLen) + 1] != LF then Error
                     else Ok
      ensures !res.Ok? ==> next == ptr && paramLen == old(paramLen)
      ensures res.Ok? ==> next == ptr + old(paramLen) + 2 && paramLen == -1
                          && text == data[ptr..ptr + old(paramLen)]
    {
      if |data| - ptr < paramLen + 2 {
        return Wait, ptr, [];
      }
      var tail := ptr + paramLen;
      if data[tail] != CR || data[tail + 1] != LF {
        return Error, ptr, [];
      }
      text := data[ptr..tail];
      next := tail + 2;
      paramLen := -1;
      res := Ok;
    }

    /** ParseStr is about to read parameter numOfParam of cmd from data[ptr..]. */
    ghost predicate Reading(cmd: seq<seq<byte>>, data: seq<byte>, ptr: nat)
      reads this
    {
      && Among(cmd) && numOfParam < |cmd| && Holdable(cmd)
      && ptr <= |data| && Agree(data[ptr..], ItemBytes(cmd[numOfParam], paramLen) + Bulks(cmd[numOfParam + 1..]))
    }

    /** What ParseStr and ParseStrlist do, in the words of the grammar: the strings found join
        the first k of was. */
    ghost predicate Judged(v: Verdict, was: seq<seq<byte>>, k: nat, res: ParseResult, step: int)
      reads this
    {
      match v
      case Whole(n, texts) => res.Ok? && step == n && (k <= |was| ==> params == was[..k] + texts)
      case Part(n, texts, len) =>
        && res.Wait? && step == n && paramLen == len && numOfParam == k + |texts|
        && (k <= |was| ==> numOfParam <= |params| && params[..numOfParam] == was[..k] + texts)
      case Bad(_) => res.Error?
    }

    /** Lines 81-90: the length of the next parameter. */
    method ReadLength(data: seq<byte>, ptr: nat, ghost cmd: seq<seq<byte>>) returns (res: ParseResult, next: nat)
      requires paramLen == -1
      modifies this`paramLen
      ensures next >= ptr && (res.Ok? ==> paramLen >= 0)
      ensures res.Wait? ==> paramLen == -1 && next == ptr
      ensures var s := Ahead(data, ptr);
              && (res.Wait? <==> LineStatus(DOLLAR, s) == Wait)
              && (res.Ok? <==> LineStatus(DOLLAR, s) == Ok && LineVal(s) >= 0)
              && (res.Ok? ==> paramLen == LineVal(s) && next == ptr + LineStep(s))
      ensures old(Reading(cmd, data, ptr)) ==>
                var n, str := |data| - ptr, cmd[numOfParam];
                var d := |Digits(|str|)|;
                if n >= d + 3 then res.Ok? && next == ptr + d + 3 && Reading(cmd, data, next)
                else if 4 <= n <= d + 1 then next == |data| + 2
                else res.Wait?
    {
      hide Digits, Bulks, Bulk, Line, LineRead, Agree, LineStatus, LineVal, LineStep;
      var r, p := ParseStrlen(data, ptr);
      LineReadMeans(DOLLAR, Ahead(data, ptr), r, p - ptr, paramLen);
      if old(Reading(cmd, data, ptr)) {
        LengthOutcome(cmd[numOfParam], Bulks(cmd[numOfParam + 1..]), data, ptr, r, p, paramLen);
      }
      if r.Error? || paramLen < -1 {
        return Error, p;
      }
      if !r.Ok? {
        return Wait, p;
      }
      if paramLen == -1 {
        return Error, p;
      }
      return Ok, p;
    }

    /** parseStr: a negative length, for which the source has an assertion, is an error. */
    method ParseStr(data: seq<byte>, ptr: nat, ghost cmd: seq<seq<byte>>)
      returns (res: ParseResult, next: nat, text: seq<byte>)
      modifies this`paramLen
      ensures next >= ptr && (res.Ok? ==> paramLen == -1)
      ensures var v := StrVerdict(old(paramLen), Ahead(data, ptr));
              && (res.Ok? <==> v.Whole?) && (res.Wait? <==> v.Part?)
              && (res.Ok? ==> next == ptr + v.step && v.texts == [text])
              && (res.Wait? ==> next == ptr + v.step && v.texts == [] && paramLen == v.len)
      ensures old(Reading(cmd, data, ptr)) ==>
                var n, len, whole := |data| - ptr, |cmd[numOfParam]|, |ItemBytes(cmd[numOfParam], old(paramLen))|;
                if n >= whole then
                  res.Ok? && next == ptr + whole && text == cmd[numOfParam]
                else if old(paramLen) != -1 || SafeLine(len, n) then
                  res.Wait? && next <= |data| &&
                  ((paramLen == old(paramLen) && next == ptr) ||
                   (old(paramLen) == -1 && paramLen == len && next == ptr + |Line(DOLLAR, len)|))
                else
                  !res.Ok? && next > |data|
    {
      hide Digits, Bulks, LineRead, Agree, LineStatus, LineVal, LineStep, StrVerdict, TextVerdict, Behind, Ahead,
           Holdable, Bulk, Line;
      ghost var len0 := paramLen;
      NoLength(len0, Ahead(data, ptr));
      next, text := ptr, [];
      if paramLen == -1 {
        res, next := ReadLength(data, next, cmd);
        if !res.Ok? {
          return;
        }
      }
      if paramLen < 0 {
        return Error, next, text;
      }
      if Reading(cmd, data, next) {
        TextBytes(cmd[numOfParam], Bulks(cmd[numOfParam + 1..]), data, next);
      }
      ghost var from, len := next, paramLen;
      res, next, text := ParseStrval(data, next);
      StrMeans(data, ptr, len0, from, len, res, text);
    }

    /** The parser waits, and can be called again with the bytes it has not consumed. */
    ghost predicate Resumed(cmd: seq<seq<byte>>, rest: seq<byte>, data: seq<byte>, ptr: nat, res: ParseResult,
                            next: nat)
      reads this
    {
      && res.Wait? && ptr <= next <= |data| && next - ptr <= |rest|
      && Within(cmd) && Rest(cmd) == rest[next - ptr..]
    }

    /** Given the rest of cmd, and perhaps more, the parser finds cmd and stops right behind
        it; given less, it can be resumed exactly if the cut is safe. */
    ghost predicate Outcome(cmd: seq<seq<byte>>, rest: seq<byte>, safe: bool, data: seq<byte>, ptr: nat,
                            res: ParseResult, next: nat)
      reads this
    {
      if |data| - ptr >= |rest| then res.Ok? && next == ptr + |rest| && params == cmd
      else Resumed(cmd, rest, data, ptr, res, next) <==> safe
    }

    /** Part of the way through cmd, at data[ptr..]. */
    ghost predicate Along(cmd: seq<seq<byte>>, data: seq<byte>, ptr: nat)
      reads this
    {
      Among(cmd) && Holdable(cmd) && ptr <= |data| && Agree(data[ptr..], Rest(cmd))
    }

    /** One string, in the words of the grammar, behind the first k of was. */
    ghost predicate Found(v: Verdict, was: seq<seq<byte>>, k: nat, res: ParseResult, step: int)
      reads this
    {
      && (res.Ok? <==> v.Whole?) && (res.Wait? <==> v.Part?)
      && (!res.Error? ==> step == v.step && paramLen == if v.Part? then v.len else -1)
      && (res.Wait? ==> v.texts == []) && (res.Ok? ==> |v.texts| == 1)
      && (k <= |was| ==>
            && numOfParam <= |params|
            && params[..numOfParam] == was[..k] + if res.Ok? then v.texts else [])
    }

    /** One round of the loop, in the words of cmd. */
    ghost predicate Moved(cmd: seq<seq<byte>>, rest: seq<byte>, safe: bool, data: seq<byte>, ptr: nat,
                          res: ParseResult, next: nat)
      reads this
    {
      if res.Ok? then
        && ptr <= next <= ptr + |rest| && Along(cmd, data, next) && Rest(cmd) == rest[next - ptr..]
        && Safe(cmd, |data| - next) == safe
      else
        |data| - ptr < |rest| && (Resumed(cmd, rest, data, ptr, res, next) <==> safe)
    }

    /** Lines 69-71: the string becomes parameter numOfParam. */
    method StoreParam(text: seq<byte>)
      requires numOfParam < |params|
      modifies this`params, this`numOfParam
      ensures numOfParam == old(numOfParam) + 1 && |params| == |old(params)|
      ensures params[..numOfParam] == old(params)[..old(numOfParam)] + [text] && params[old(numOfParam)] == text
      ensures params[..old(numOfParam)] == old(params)[..old(numOfParam)]
    {
      params := params[numOfParam := text];
      numOfParam := numOfParam + 1;
    }

    /** Lines 63-73: one round of parseStrlist's loop. */
    method NextParam(data: seq<byte>, ptr: nat, ghost cmd: seq<seq<byte>>) returns (res: ParseResult, next: nat)
      modifies this
      ensures multi == old(multi) && numOfParam == old(numOfParam) + if res.Ok? then 1 else 0
      ensures next >= ptr
      ensures Found(StrVerdict(old(paramLen), Ahead(data, ptr)), old(params), old(numOfParam), res, next - ptr)
      ensures old(Along(cmd, data, ptr)) && old(numOfParam) < |cmd| ==>
                Moved(cmd, old(Rest(cmd)), old(Safe(cmd, |data| - ptr)), data, ptr, res, next)
    {
      hide Digits, Bulks, Bulk, Line, Agree, Remaining, SafeFrom, SafeLine, ItemBytes, Holdable, StrVerdict, Ahead,
           ProtoParser.Moved, ProtoParser.Reading, ProtoParser.Along, ProtoParser.Rest, ProtoParser.Safe;
      ghost var was, k, len := params, numOfParam, paramLen;
      ghost var along := Along(cmd, data, ptr) && k < |cmd|;
      if along {
        AlongMeans(this, cmd, data, ptr);
      }
      if |params| < numOfParam + 1 {
        params := Resized(params, numOfParam + 1);
      }
      assert k <= |was| ==> params[..k] == was[..k] + [];
      if along {
        StillReading(this, cmd, data, ptr, was);
      }
      var text;
      res, next, text := ParseStr(data, ptr, cmd);
      if res.Ok? {
        StoreParam(text);
        if along {
          ParamFound(this, cmd, data, ptr, k, len);
        }
      } else if along {
        ParamMissing(this, cmd, data, ptr, k, len, res, next);
      }
    }

    /** The strings texts have joined the first k of was, and the rest of all is at next. */
    ghost predicate Got(all: Verdict, was: seq<seq<byte>>, k: nat, texts: seq<seq<byte>>, data: seq<byte>, ptr: nat,
                        next: nat)
      reads this
    {
      && next >= ptr && numOfParam == k + |texts|
      && (k <= |was| ==> numOfParam <= |params| && params[..numOfParam] == was[..k] + texts)
      && all == Behind(next - ptr, texts, StrsVerdict(Count(multi - numOfParam), paramLen, Ahead(data, next)))
    }

    /** parseStrlist */
    method ParseStrlist(data: seq<byte>, ptr: nat, ghost cmd: seq<seq<byte>>) returns (res: ParseResult, next: nat)
      modifies this
      ensures next >= ptr && multi == old(multi)
      ensures Judged(StrsVerdict(Count(multi - old(numOfParam)), old(paramLen), Ahead(data, ptr)),
                     old(params), old(numOfParam), res, next - ptr)
      ensures old(Along(cmd, data, ptr)) ==>
                Outcome(cmd, old(Rest(cmd)), old(Safe(cmd, |data| - ptr)), data, ptr, res, next)
    {
      hide Digits, Bulks, Bulk, Line, Agree, Remaining, SafeFrom, SafeLine, ItemBytes, Holdable, StrVerdict,
           StrsVerdict, Behind, Ahead, ProtoParser.Along, ProtoParser.Rest, ProtoParser.Safe, ProtoParser.Resumed,
           ProtoParser.Moved, ProtoParser.Outcome, ProtoParser.Found, ProtoParser.Judged, ProtoParser.Got;
      next := ptr;
      ghost var along := Along(cmd, data, ptr);
      if along {
        AlongMeans(this, cmd, data, ptr);
      }
      ghost var rest := if along then Rest(cmd) else [];
      ghost var safe := along && Safe(cmd, |data| - ptr);
      assert rest[0..] == rest;
      ghost var k, was, texts: seq<seq<byte>> := numOfParam, params, [];
      ghost var all := StrsVerdict(Count(multi - k), paramLen, Ahead(data, ptr));
      NoneGot(this, all, data, ptr);
      while numOfParam < multi
        invariant next >= ptr && multi == old(multi)
        invariant Got(all, was, k, texts, data, ptr, next)
        invariant along ==> Along(cmd, data, next) && Among(cmd) && next <= |data| && next - ptr <= |rest|
        invariant along ==> Rest(cmd) == rest[next - ptr..] && Safe(cmd, |data| - next) == safe
        decreases multi - numOfParam
      {
        ghost var from, params0, k0, len := next, params, numOfParam, paramLen;
        ghost var v := StrVerdict(len, Ahead(data, from));
        GotMeans(this, all, was, k, texts, data, ptr, from);
        res, next := NextParam(data, next, cmd);
        OneGot(this, all, was, k, texts, data, ptr, from, params0, k0, len, res, next);
        if along {
          MovedOn(this, cmd, rest, safe, data, ptr, from, res, next);
        }
        if !res.Ok? {
          return;
        }
        texts := texts + v.texts;
      }
      GotMeans(this, all, was, k, texts, data, ptr, next);
      if along {
        NothingLeft(this, cmd);
        WholeSlice(cmd);
      }
      params := Resized(params, numOfParam);
      res := Ok;
      AllGot(this, all, was, k, texts, data, ptr, next);
      if along {
        AllRead(this, cmd, rest, safe, data, ptr, next);
      }
    }

    /** Lines 33-41: the number of parameters. */
    method ReadCount(data: seq<byte>, ghost cmd: seq<seq<byte>>) returns (res: ParseResult, next: nat)
      requires multi == -1
      modifies this`multi
      ensures && (res.Wait? <==> LineStatus(STAR, data) == Wait)
              && (res.Ok? <==> LineStatus(STAR, data) == Ok && LineVal(data) >= -1)
              && (res.Ok? ==> multi == LineVal(data) && next == LineStep(data))
      ensures res.Wait? ==> next == if |data| < 3 then 0 else 1
      ensures multi == if LineStatus(STAR, data) == Ok then LineVal(data) else -1
      ensures Holdable(cmd) && Agree(data, Command(cmd)) ==>
                var line := |Line(STAR, |cmd|)|;
                if |data| >= line then res.Ok? && next == line && multi == |cmd|
                else if 4 <= |data| <= line - 2 then next > |data|
                else res.Wait?
    {
      hide Digits, Bulks, Bulk, Line, LineRead, Agree, LineStatus, LineVal, LineStep, Holdable;
      AheadAll(data);
      var r, p := ParseMulti(data, 0);
      LineReadMeans(STAR, data, r, p, multi);
      if Holdable(cmd) && Agree(data, Command(cmd)) {
        HoldableCount(cmd);
        LineOutcome(STAR, |cmd|, Bulks(cmd), data, r, p, multi);
      }
      if r.Error? || multi < -1 {
        return Error, p;
      }
      if !r.Ok? {
        return Wait, p;
      }
      return Ok, p;
    }

    /** ParseRequest, given the bytes not consumed so far: whatever they are, it finds what the
        grammar finds, rejects what it rejects and waits otherwise. For every command cmd that the
        parser is within, if those bytes and what is left of cmd agree as far as both go,
        then either all of cmd is there, whatever follows, and the parser returns it and
        stops right behind it; or the parser can be resumed exactly if the cut is safe. */
    method ParseRequest(data: seq<byte>, ghost cmd: seq<seq<byte>>) returns (res: ParseResult, consumed: nat)
      modifies this
      ensures old(Within(cmd)) && Holdable(cmd) && Agree(data, old(Rest(cmd))) ==>
                Outcome(cmd, old(Rest(cmd)), old(Safe(cmd, |data|)), data, 0, res, consumed)
      ensures old(Initial()) ==> Judged(RequestVerdict(data), old(params), 0, res, consumed)
      ensures old(Initial()) ==> multi == if LineStatus(STAR, data) == Ok then LineVal(data) else -1
      ensures old(Initial()) && res.Error? ==> (multi == -1 <==> LineStatus(STAR, data) == Error)
      ensures old(multi) != -1 ==>
                && multi == old(multi)
                && Judged(StrsVerdict(Count(multi - old(numOfParam)), old(paramLen), data),
                          old(params), old(numOfParam), res, consumed)
    {
      hide Digits, Bulks, Bulk, Line, Agree, Remaining, SafeFrom, SafeBulks, LineStatus, LineVal, LineStep, Holdable,
           StrsVerdict, RequestVerdict, Behind, Command, SafeCut, ProtoParser.Judged, ProtoParser.Rest,
           ProtoParser.Safe, ProtoParser.Along, ProtoParser.Outcome;
      var ptr: nat := 0;
      ghost var within := Within(cmd) && Holdable(cmd) && Agree(data, Rest(cmd));
      ghost var rest, safe := if within then Rest(cmd) else [], within && Safe(cmd, |data|);
      ghost var k, len, was := numOfParam, paramLen, params;
      if within {
        Started(this, cmd, data);
      }
      AheadAll(data);
      if multi == -1 {
        var r, p := ReadCount(data, cmd);
        ptr := p;
        NotYet(this, data, LineStatus(STAR, data));
        if !r.Ok? {
          if within {
            CountMissing(this, cmd, data, r, ptr);
          }
          return r, ptr;
        }
        RequestOk(data);
        if within && ptr <= |data| {
          CountFound(this, cmd, data);
        }
      }
      ghost var v := StrsVerdict(Count(multi - k), len, Ahead(data, ptr));
      res, consumed := ParseStrlist(data, ptr, cmd);
      NoneWanted(this, was, k, len, Ahead(data, ptr), res, consumed - ptr);
      JudgedBehind(this, v, was, k, res, consumed - ptr, ptr);
      BehindNone(v);
      if within {
        if ptr <= |data| {
          Shifted(this, cmd, rest, safe, data, ptr, res, consumed);
        } else {
          PastEnd(this, cmd, data, res, consumed);
        }
      }
    }
  }

  lemma HoldableCount(cmd: seq<seq<byte>>)
    requires Holdable(cmd)
    ensures |cmd| < TWO31
  {
  }

  /** Where the parser is when it is called. */
  lemma Started(p: ProtoParser, cmd: seq<seq<byte>>, data: seq<byte>)
    requires p.Within(cmd) && Holdable(cmd) && Agree(data, p.Rest(cmd))
    ensures p.multi == -1 ==> p.Initial() && p.Rest(cmd) == Command(cmd) && p.Safe(cmd, |data|) == SafeCut(cmd, |data|)
    ensures p.multi != -1 ==> p.Along(cmd, data, 0) && p.Rest(cmd)[0..] == p.Rest(cmd)
  {
    hide Digits, Bulks, Bulk, Line, Agree, Remaining, SafeFrom, SafeBulks, Holdable, Command, SafeCut;
    assert data[0..] == data;
  }

  /** The count line is not all there. */
  lemma CountMissing(p: ProtoParser, cmd: seq<seq<byte>>, data: seq<byte>, res: ParseResult, next: nat)
    requires p.paramLen == -1 && p.numOfParam == 0 && !res.Ok? && (res.Wait? ==> p.multi == -1)
    requires var line := |Line(STAR, |cmd|)|;
             if |data| >= line then res.Ok?
             else if 4 <= |data| <= line - 2 then next > |data|
             else res.Wait? && next == if |data| < 3 then 0 else 1
    ensures p.Outcome(cmd, Command(cmd), SafeCut(cmd, |data|), data, 0, res, next)
  {
    hide Digits, Bulks, Bulk, SafeBulks;
    var c := Command(cmd);
    assert |c| >= |Line(STAR, |cmd|)| >= 4 && c[0..] == c && |c[1..]| == |c| - 1;
  }

  /** The count line has been read. */
  lemma CountFound(p: ProtoParser, cmd: seq<seq<byte>>, data: seq<byte>)
    requires p.multi == |cmd| && p.paramLen == -1 && p.numOfParam == 0 && Holdable(cmd)
    requires Agree(data, Command(cmd)) && |data| >= |Line(STAR, |cmd|)|
    ensures var n := |Line(STAR, |cmd|)|;
            && n <= |Command(cmd)| && p.Along(cmd, data, n) && p.Rest(cmd) == Command(cmd)[n..]
            && p.Safe(cmd, |data| - n) == SafeCut(cmd, |data|)
  {
    hide Digits, Bulks, Bulk, Line, Agree, Remaining, SafeFrom, SafeBulks, Holdable;
    AgreeBehind(data, Line(STAR, |cmd|), Bulks(cmd));
    RemainingAll(cmd);
    DropFirst(Line(STAR, |cmd|), Bulks(cmd));
  }

  /** The outcome of the strings, seen from the start. */
  lemma Shifted(p: ProtoParser, cmd: seq<seq<byte>>, rest: seq<byte>, safe: bool, data: seq<byte>, ptr: nat,
                res: ParseResult, next: nat)
    requires ptr <= |data| && ptr <= |rest| && ptr <= next && p.Outcome(cmd, rest[ptr..], safe, data, ptr, res, next)
    ensures p.Outcome(cmd, rest, safe, data, 0, res, next)
  {
    hide Digits, Bulks, Bulk, Line, Agree, Remaining, SafeFrom, SafeBulks, Holdable, Command, SafeCut;
    if next - ptr <= |rest[ptr..]| {
      DropTwice(rest, ptr, next - ptr);
    }
  }

  /** A count of three or more digits without their CR has carried the pointer past the end. */
  lemma PastEnd(p: ProtoParser, cmd: seq<seq<byte>>, data: seq<byte>, res: ParseResult, next: nat)
    requires 4 <= |data| < |Line(STAR, |cmd|)| && next > |data|
    ensures p.Outcome(cmd, Command(cmd), SafeCut(cmd, |data|), data, 0, res, next)
  {
    hide Digits, Bulks, SafeBulks;
  }

  lemma AlongMeans(p: ProtoParser, cmd: seq<seq<byte>>, data: seq<byte>, ptr: nat)
    requires p.Along(cmd, data, ptr)
    ensures p.Among(cmd) && Holdable(cmd) && ptr <= |data| && p.numOfParam <= |p.params|
    ensures p.numOfParam < |cmd| ==>
              && p.Reading(cmd, data, ptr) && Agree(data[ptr..], Remaining(cmd, p.numOfParam, p.paramLen))
              && p.Rest(cmd) == Remaining(cmd, p.numOfParam, p.paramLen)
              && p.Safe(cmd, |data| - ptr) == SafeFrom(cmd, p.numOfParam, p.paramLen, |data| - ptr)
  {
    hide Digits, Bulks, Bulk, Line, Agree, Remaining, SafeFrom, SafeLine, ItemBytes, Holdable;
    if p.numOfParam < |cmd| {
      RemainingItem(cmd, p.numOfParam, p.paramLen);
    }
  }

  /** More room for parameters changes nothing. */
  lemma StillReading(p: ProtoParser, cmd: seq<seq<byte>>, data: seq<byte>, ptr: nat, was: seq<seq<byte>>)
    requires p.multi == |cmd| && p.numOfParam < |cmd| && p.numOfParam <= |was| && Holdable(cmd)
    requires was[..p.numOfParam] == cmd[..p.numOfParam]
    requires p.numOfParam <= |p.params| && p.params[..p.numOfParam] == was[..p.numOfParam]
    requires p.paramLen == -1 || p.paramLen == |cmd[p.numOfParam]|
    requires ptr <= |data| && Agree(data[ptr..], Remaining(cmd, p.numOfParam, p.paramLen))
    ensures p.Reading(cmd, data, ptr)
  {
    hide Digits, Bulks, Bulk, Line, Agree, Remaining, ItemBytes, Holdable;
    RemainingItem(cmd, p.numOfParam, p.paramLen);
  }

  /** The parser has read parameter k of cmd. */
  lemma ParamFound(p: ProtoParser, cmd: seq<seq<byte>>, data: seq<byte>, ptr: nat, k: nat, len: int)
    requires p.multi == |cmd| && p.numOfParam == k + 1 <= |cmd| && p.paramLen == -1 && Holdable(cmd)
    requires |p.params| > k && p.params[..k] == cmd[..k] && p.params[k] == cmd[k]
    requires ptr <= |data| && Agree(data[ptr..], Remaining(cmd, k, len)) && |data| - ptr >= |ItemBytes(cmd[k], len)|
    ensures p.Moved(cmd, Remaining(cmd, k, len), SafeFrom(cmd, k, len, |data| - ptr), data, ptr, Ok,
                    ptr + |ItemBytes(cmd[k], len)|)
  {
    hide Digits, Bulks, Bulk, Line, Agree, Remaining, SafeFrom, SafeLine, ItemBytes, Holdable;
    var item, more := ItemBytes(cmd[k], len), Bulks(cmd[k + 1..]);
    RemainingItem(cmd, k, len);
    SafeItem(cmd, k, len, |data| - ptr);
    AgreeBehind(data[ptr..], item, more);
    DropTwice(data, ptr, |item|);
    DropFirst(item, more);
    OneMore(p.params, cmd, k);
  }

  /** Parameter k of cmd is not all there. */
  lemma ParamMissing(p: ProtoParser, cmd: seq<seq<byte>>, data: seq<byte>, ptr: nat, k: nat, len: int,
                     res: ParseResult, next: nat)
    requires p.multi == |cmd| && p.numOfParam == k < |cmd| && (len == -1 || len == |cmd[k]|)
    requires k <= |p.params| && p.params[..k] == cmd[..k] && ptr <= |data|
    requires |data| - ptr < |ItemBytes(cmd[k], len)| && !res.Ok? && next >= ptr
    requires if len != -1 || SafeLine(|cmd[k]|, |data| - ptr) then
               && res.Wait? && next <= |data|
               && ((p.paramLen == len && next == ptr) ||
                   (len == -1 && p.paramLen == |cmd[k]| && next == ptr + |Line(DOLLAR, |cmd[k]|)|))
             else next > |data|
    ensures p.Moved(cmd, Remaining(cmd, k, len), SafeFrom(cmd, k, len, |data| - ptr), data, ptr, res, next)
  {
    hide Digits, Bulks, Bulk, Line, Agree, Remaining, SafeFrom, SafeLine, ItemBytes, Holdable;
    RemainingItem(cmd, k, len);
    SafeItem(cmd, k, len, |data| - ptr);
    RemainingText(cmd, k);
    assert Remaining(cmd, k, len)[0..] == Remaining(cmd, k, len);
  }

  /** One round further, or the end. */
  lemma MovedOn(p: ProtoParser, cmd: seq<seq<byte>>, rest: seq<byte>, safe: bool, data: seq<byte>, ptr: nat, from: nat,
                res: ParseResult, next: nat)
    requires ptr <= from <= |data| && from - ptr <= |rest| && from <= next
    requires p.Moved(cmd, rest[from - ptr..], safe, data, from, res, next)
    ensures res.Ok? ==>
              && p.Along(cmd, data, next) && ptr <= next && next - ptr <= |rest| && p.Rest(cmd) == rest[next - ptr..]
              && p.Among(cmd) && next <= |data| && p.Safe(cmd, |data| - next) == safe
    ensures !res.Ok? ==> p.Outcome(cmd, rest, safe, data, ptr, res, next)
  {
    hide Digits, Bulks, Bulk, Line, Agree, Remaining, SafeFrom, SafeLine, ItemBytes, Holdable, Command, SafeCut;
    if from <= next <= from + |rest[from - ptr..]| {
      DropTwice(rest, from - ptr, next - from);
    }
  }

  lemma NothingLeft(p: ProtoParser, cmd: seq<seq<byte>>)
    requires p.Among(cmd) && p.numOfParam == |cmd|
    ensures p.Rest(cmd) == []
  {
    hide Remaining, Command;
    RemainingNone(cmd);
  }

  lemma AllRead(p: ProtoParser, cmd: seq<seq<byte>>, rest: seq<byte>, safe: bool, data: seq<byte>, ptr: nat, next: nat)
    requires ptr <= next <= |data| && next - ptr <= |rest| && rest[next - ptr..] == [] && p.params == cmd
    ensures p.Outcome(cmd, rest, safe, data, ptr, Ok, next)
  {
    hide ProtoParser.Resumed;
  }

  lemma AheadAll(data: seq<byte>)
    ensures Ahead(data, 0) == data
  {
  }

  lemma NoneGot(p: ProtoParser, all: Verdict, data: seq<byte>, ptr: nat)
    requires all == StrsVerdict(Count(p.multi - p.numOfParam), p.paramLen, Ahead(data, ptr))
    ensures p.Got(all, p.params, p.numOfParam, [], data, ptr, ptr)
  {
    hide StrsVerdict, Behind, Ahead;
    BehindNone(all);
    assert p.numOfParam <= |p.params| ==> p.params[..p.numOfParam] == p.params[..p.numOfParam] + [];
  }

  lemma GotMeans(p: ProtoParser, all: Verdict, was: seq<seq<byte>>, k: nat, texts: seq<seq<byte>>, data: seq<byte>,
                 ptr: nat, next: nat)
    requires p.Got(all, was, k, texts, data, ptr, next)
    ensures next >= ptr && p.numOfParam == k + |texts|
    ensures k <= |was| ==> p.numOfParam <= |p.params| && p.params[..p.numOfParam] == was[..k] + texts
    ensures all == Behind(next - ptr, texts, StrsVerdict(Count(p.multi - p.numOfParam), p.paramLen, Ahead(data, next)))
  {
    hide StrsVerdict, Behind, Ahead;
  }

  /** One string more, or the end. */
  lemma OneGot(p: ProtoParser, all: Verdict, was: seq<seq<byte>>, k: nat, texts: seq<seq<byte>>, data: seq<byte>,
               ptr: nat, from: nat, params: seq<seq<byte>>, k0: nat, len: int, res: ParseResult, next: nat)
    requires ptr <= from <= next && k0 == k + |texts| < p.multi && p.numOfParam == k0 + if res.Ok? then 1 else 0
    requires k <= |was| ==> k0 <= |params| && params[..k0] == was[..k] + texts
    requires all == Behind(from - ptr, texts, StrsVerdict(Count(p.multi - k0), len, Ahead(data, from)))
    requires p.Found(StrVerdict(len, Ahead(data, from)), params, k0, res, next - from)
    ensures res.Ok? ==> var v := StrVerdict(len, Ahead(data, from));
                        v.Whole? && p.Got(all, was, k, texts + v.texts, data, ptr, next)
    ensures !res.Ok? ==> p.Judged(all, was, k, res, next - ptr)
  {
    hide StrVerdict, StrsVerdict, Behind, Ahead;
    var n, v := Count(p.multi - k0), StrVerdict(len, Ahead(data, from));
    StrsStep(n, len, Ahead(data, from));
    if res.Ok? {
      AheadTwice(data, from, v.step);
      BehindTwice(from - ptr, texts, v.step, v.texts, StrsVerdict(n - 1, -1, Ahead(data, next)));
      if k <= |was| {
        Assoc3(was[..k], texts, v.texts);
      }
    } else {
      StoppedAt(from - ptr, texts, v);
      assert k <= |was| ==> was[..k] + texts + [] == was[..k] + texts;
    }
  }

  lemma AllGot(p: ProtoParser, all: Verdict, was: seq<seq<byte>>, k: nat, texts: seq<seq<byte>>, data: seq<byte>,
               ptr: nat, next: nat)
    requires next >= ptr && p.multi <= p.numOfParam
    requires k <= |was| ==> p.params == was[..k] + texts
    requires all == Behind(next - ptr, texts, StrsVerdict(Count(p.multi - p.numOfParam), p.paramLen, Ahead(data, next)))
    ensures p.Judged(all, was, k, Ok, next - ptr)
  {
    AllFound(next - ptr, texts, p.paramLen, Ahead(data, next));
  }

  lemma StoppedAt(n: nat, texts: seq<seq<byte>>, v: Verdict)
    requires v.Part? ==> v.texts == []
    ensures v.Part? ==> Behind(n, texts, v) == Part(n + v.step, texts, v.len)
    ensures v.Bad? ==> Behind(n, texts, v) == v
  {
    assert texts + [] == texts;
  }

  lemma AllFound(n: nat, texts: seq<seq<byte>>, len: int, s: seq<byte>)
    ensures Behind(n, texts, StrsVerdict(0, len, s)) == Whole(n, texts)
  {
    assert texts + [] == texts;
  }

  lemma LineReadMeans(kind: byte, s: seq<byte>, res: ParseResult, step: nat, val: int)
    requires LineRead(kind, s, res, step, val)
    ensures res == LineStatus(kind, s) && (res.Ok? ==> |s| >= 3 && step == LineStep(s) && val == LineVal(s))
  {
  }

  lemma TextMeans(data: seq<byte>, ptr: nat, len: nat, res: ParseResult, text: seq<byte>)
    requires res == if |data| - ptr < len + 2 then Wait
                    else if data[ptr + len] != CR || data[ptr + len + 1] != LF then Error
                    else Ok
    requires res.Ok? ==> text == data[ptr..ptr + len]
    ensures TextVerdict(len, Ahead(data, ptr))
            == match res case Ok => Whole(len + 2, [text]) case Wait => Part(0, [], len) case Error => Bad(false)
  {
    var s := Ahead(data, ptr);
    if |data| - ptr >= len + 2 {
      assert s[len..len + 2] == [data[ptr + len], data[ptr + len + 1]];
      assert s[..len] == data[ptr..ptr + len];
    }
  }

  /** A string whose length was read at from. */
  lemma StrMeans(data: seq<byte>, ptr: nat, len0: int, from: nat, len: nat, res: ParseResult, text: seq<byte>)
    requires if len0 == -1 then
               var s := Ahead(data, ptr);
               LineStatus(DOLLAR, s) == Ok && |s| >= 3 && len == LineVal(s) && from == ptr + LineStep(s)
             else len0 == len && from == ptr
    requires res == if |data| - from < len + 2 then Wait
                    else if data[from + len] != CR || data[from + len + 1] != LF then Error
                    else Ok
    requires res.Ok? ==> text == data[from..from + len]
    ensures StrVerdict(len0, Ahead(data, ptr))
            == match res
               case Ok => Whole(from - ptr + len + 2, [text])
               case Wait => Part(from - ptr, [], len)
               case Error => Bad(false)
  {
    hide TextVerdict, LineStatus, LineVal, LineStep, StrVerdict, Ahead, Behind;
    var v := TextVerdict(len, Ahead(data, from));
    TextMeans(data, from, len, res, text);
    LengthThenText(data, ptr, len0, from, len);
    BehindText(from - ptr, v);
  }

  lemma LengthThenText(data: seq<byte>, ptr: nat, len0: int, from: nat, len: nat)
    requires if len0 == -1 then
               var s := Ahead(data, ptr);
               LineStatus(DOLLAR, s) == Ok && |s| >= 3 && len == LineVal(s) && from == ptr + LineStep(s)
             else len0 == len && from == ptr
    ensures StrVerdict(len0, Ahead(data, ptr)) == Behind(from - ptr, [], TextVerdict(len, Ahead(data, from)))
  {
    hide TextVerdict, LineStatus, LineVal, LineStep, Ahead, Behind;
    if len0 == -1 {
      AheadTwice(data, ptr, from - ptr);
    } else {
      BehindNone(TextVerdict(len, Ahead(data, from)));
    }
  }

  lemma BehindText(n: nat, v: Verdict)
    ensures v.Whole? ==> Behind(n, [], v) == Whole(n + v.step, v.texts)
    ensures v.Part? ==> Behind(n, [], v) == Part(n + v.step, v.texts, v.len)
    ensures v.Bad? ==> Behind(n, [], v) == v
  {
    if !v.Bad? {
      assert [] + v.texts == v.texts;
    }
  }

  /** Where no length can be read. */
  lemma NoLength(len: int, s: seq<byte>)
    ensures LineStatus(DOLLAR, s) == Ok ==> |s| >= 3
    ensures len == -1 && LineStatus(DOLLAR, s) == Wait ==> StrVerdict(len, s) == Part(0, [], -1)
    ensures len == -1 && LineStatus(DOLLAR, s) == Error ==> StrVerdict(len, s).Bad?
    ensures len == -1 && LineStatus(DOLLAR, s) == Ok && LineVal(s) < 0 ==> StrVerdict(len, s).Bad?
    ensures len < -1 ==> StrVerdict(len, s).Bad?
  {
    hide LineVal, LineStep;
  }

  lemma NotYet(p: ProtoParser, data: seq<byte>, r: ParseResult)
    requires r == LineStatus(STAR, data)
    ensures p.numOfParam == 0 && p.paramLen == -1 && r.Wait? ==>
              p.Judged(RequestVerdict(data), p.params, 0, Wait, if |data| < 3 then 0 else 1)
    ensures r.Error? || (r.Ok? && LineVal(data) < -1) ==> RequestVerdict(data).Bad?
    ensures forall was, k, step | RequestVerdict(data).Bad? :: p.Judged(RequestVerdict(data), was, k, Error, step)
  {
    hide LineStatus, LineVal, LineStep, StrsVerdict;
    assert p.params[..0] == [];
  }

  lemma NoneWanted(p: ProtoParser, was: seq<seq<byte>>, k: nat, len: int, s: seq<byte>, res: ParseResult, step: int)
    ensures p.Judged(StrsVerdict(0, len, s), was, k, res, step) ==> res.Ok?
  {
  }

  lemma JudgedBehind(p: ProtoParser, v: Verdict, was: seq<seq<byte>>, k: nat, res: ParseResult, step: int, n: nat)
    requires p.Judged(v, was, k, res, step)
    ensures p.Judged(Behind(n, [], v), was, k, res, n + step)
  {
    match v
    case Whole(m, ts) => assert [] + ts == ts;
    case Part(m, ts, l) => assert [] + ts == ts;
    case Bad(_) =>
  }

  lemma RemainingAll(cmd: seq<seq<byte>>)
    ensures Remaining(cmd, 0, -1) == Bulks(cmd)
    ensures forall n: nat :: SafeFrom(cmd, 0, -1, n) == SafeBulks(cmd, n)
  {
    hide Bulks, SafeBulks;
    assert cmd[0..] == cmd;
  }

  lemma RemainingNone(cmd: seq<seq<byte>>)
    ensures Remaining(cmd, |cmd|, -1) == []
  {
    assert cmd[|cmd|..] == [];
  }

  lemma DropFirst<T>(a: seq<T>, b: seq<T>)
    ensures (a + b)[|a|..] == b
  {
  }

  lemma OneMore<T>(s: seq<T>, t: seq<T>, k: nat)
    requires k < |s| && k < |t| && s[..k] == t[..k] && s[k] == t[k]
    ensures s[..k + 1] == t[..k + 1]
  {
    assert s[..k + 1] == s[..k] + [s[k]];
    assert t[..k + 1] == t[..k] + [t[k]];
  }

  /** std::vector::resize */
  function Resized(v: seq<seq<byte>>, n: nat): (r: seq<seq<byte>>)
    ensures |r| == n && (n >= |v| ==> r[..|v|] == v) && (n <= |v| ==> r == v[..n])
  {
    if n <= |v| then v[..n] else v + seq(n - |v|, _ => [])
  }

  /** What ParseStrlen finds at the length line of str, when its bytes are next. */
  lemma LengthOutcome(str: seq<byte>, after: seq<byte>, data: seq<byte>, ptr: nat, res: ParseResult, next: nat,
                      val: int)
    requires ptr <= |data| && Agree(data[ptr..], Bulk(str) + after) && |str| < TWO31
    requires next >= ptr && LineRead(DOLLAR, Ahead(data, ptr), res, next - ptr, val)
    ensures var n, d := |data| - ptr, |Digits(|str|)|;
            if n >= d + 3 then res == Ok && next == ptr + d + 3 && val == |str|
                               && Agree(data[next..], str + [CR, LF] + after)
            else if 4 <= n <= d + 1 then res == Ok && next == |data| + 2
            else res == Wait
  {
    hide Digits, LineRead, Agree, Bulk, Line;
    var s, line, more := data[ptr..], Line(DOLLAR, |str|), str + [CR, LF] + after;
    BulkParts(str, after);
    LineOutcome(DOLLAR, |str|, more, s, res, next - ptr, val);
    if |s| >= |line| {
      AgreeBehind(s, line, more);
      DropTwice(data, ptr, |line|);
    }
  }

  lemma BulkParts(str: seq<byte>, after: seq<byte>)
    ensures Bulk(str) + after == Line(DOLLAR, |str|) + (str + [CR, LF] + after)
  {
    hide Digits, Line;
    Regroup4(Line(DOLLAR, |str|), str, [CR, LF], after);
  }

  lemma Regroup4<T>(a: seq<T>, b: seq<T>, c: seq<T>, d: seq<T>)
    ensures a + b + c + d == a + (b + c + d)
  {
  }

  /** What ParseStrval finds when the length is known. */
  lemma TextBytes(str: seq<byte>, after: seq<byte>, data: seq<byte>, ptr: nat)
    requires ptr <= |data| && Agree(data[ptr..], str + [CR, LF] + after)
    ensures |data| - ptr >= |str| + 2 ==>
              data[ptr..ptr + |str|] == str && data[ptr + |str|] == CR && data[ptr + |str| + 1] == LF
  {
    if |data| - ptr >= |str| + 2 {
      AgreeBehind(data[ptr..], str + [CR, LF], after);
      assert data[ptr..][..|str| + 2] == data[ptr..ptr + |str| + 2];
      assert data[ptr..ptr + |str|] == data[ptr..ptr + |str| + 2][..|str|];
    }
  }

  // ------------------------------------------------------------ cuts by absolute position

  lemma {:induction false} SafeSkip(params: seq<seq<byte>>, k: nat, n: nat)
    requires k <= |params|
    ensures SafeBulks(params, |Bulks(params[..k])| + n) == SafeBulks(params[k..], n)
  {
    hide Bulk, SafeLine;
    if k == 0 {
      BulksNone();
      assert params[..0] == [] && params[0..] == params;
    } else {
      var t := params[1..];
      SafeSkip(t, k - 1, n);
      assert params[..k][0] == params[0] && params[..k][1..] == t[..k - 1];
      assert t[k - 1..] == params[k..];
    }
  }

  /** Whether a parser within cmd can stop depends only on how much of cmd there is in all. */
  lemma SafeAbsolute(cmd: seq<seq<byte>>, k: nat, len: int, n: nat)
    requires k <= |cmd| && (len == -1 || k < |cmd|)
    ensures |Remaining(cmd, k, len)| <= |Command(cmd)|
    ensures SafeFrom(cmd, k, len, n) == SafeCut(cmd, |Command(cmd)| - |Remaining(cmd, k, len)| + n)
  {
    hide Digits, Bulks, SafeBulks, Bulk;
    BulksAppend(cmd[..k], cmd[k..]);
    Halves(cmd, k);
    SafeSkip(cmd, k, n);
    if len != -1 {
      var line := |Line(DOLLAR, |cmd[k]|)|;
      RemainingText(cmd, k);
      RemainingItem(cmd, k, -1);
      RemainingItem(cmd, k, len);
      SafeSkip(cmd, k, line + n);
      SafeItem(cmd, k, -1, line + n);
      SafeItem(cmd, k, len, n);
    }
  }

  lemma ThreeDigits(n: nat)
    ensures |Digits(n)| >= 3 <==> n >= 100
  {
    if n >= 10 {
      assert Digits(n) == Digits(n / 10) + [ZERO + n % 10];
      if n >= 100 {
        assert Digits(n / 10) == Digits(n / 10 / 10) + [ZERO + n / 10 % 10];
      }
    }
  }

  lemma {:induction false} ShortSafe(params: seq<seq<byte>>, n: nat)
    requires forall i | 0 <= i < |params| :: |params[i]| < 100
    ensures SafeBulks(params, n)
    decreases |params|
  {
    hide Bulk, Digits;
    if params != [] {
      ThreeDigits(|params[0]|);
      if n >= |Bulk(params[0])| {
        ShortSafe(params[1..], n - |Bulk(params[0])|);
      }
    }
  }

  lemma LongUnsafe(params: seq<seq<byte>>, i: nat)
    requires i < |params| && |params[i]| >= 100
    ensures !SafeBulks(params, |Bulks(params[..i])| + 4)
  {
    hide Digits, Bulks;
    SafeSkip(params, i, 4);
    ThreeDigits(|params[i]|);
    assert params[i..][0] == params[i];
  }

  /** Behind its '*' line a command can be cut anywhere exactly if no parameter needs a
      length of three digits. */
  lemma AnyCutSafe(cmd: seq<seq<byte>>)
    ensures (forall n: nat | n >= |Line(STAR, |cmd|)| :: SafeCut(cmd, n))
            <==> (forall i | 0 <= i < |cmd| :: |cmd[i]| < 100)
  {
    hide Digits, Bulks, SafeBulks;
    var line := |Line(STAR, |cmd|)|;
    if forall i | 0 <= i < |cmd| :: |cmd[i]| < 100 {
      forall n: nat | n >= line
        ensures SafeCut(cmd, n)
      {
        ShortSafe(cmd, n - line);
      }
    } else {
      var i :| 0 <= i < |cmd| && |cmd[i]| >= 100;
      LongUnsafe(cmd, i);
      assert !SafeCut(cmd, line + |Bulks(cmd[..i])| + 4);
    }
  }
}
