/** lzf_compress (src/net/lzf/lzf_c.c) in its configuration here: HLOG 16, VERY_FAST,
    no INIT_HTAB, so the hash table starts with arbitrary contents. A table slot is a
    position relative to the input; any integer may be found in it. */
module LzfEncoder {
  import opened Bytes
  import opened LzfFormat
  import opened LzfDecoder
  import opened LzfTrace

  // ------------------------------------------------------- the output so far

  ghost predicate TokensOk(ts: seq<Token>) {
    forall t | t in ts :: TokenOk(t)
  }

  /** out[..op] encodes the first ip input bytes. */
  ghost predicate Closed(input: seq<byte>, ip: nat, out: seq<byte>, op: nat, ts: seq<Token>) {
    && ip <= |input| && op <= |out|
    && TokensOk(ts) && Runs(ts)
    && out[..op] == EncodeAll(ts) && Expand(ts) == input[..ip]
  }

  /** A run of lit literals is pending: its bytes are copied, its control byte is not
      written yet, and everything before it is closed. */
  ghost predicate Pending(input: seq<byte>, ip: nat, out: seq<byte>, op: nat, lit: nat, ts: seq<Token>) {
    && lit <= ip && lit < op <= |out|
    && Closed(input, ip - lit, out, op - lit - 1, ts)
    && ip <= |input| && out[op - lit..op] == input[ip - lit..ip]
  }

  /** It is open if it has room for another literal. */
  ghost predicate Open(input: seq<byte>, ip: nat, out: seq<byte>, op: nat, lit: nat, ts: seq<Token>) {
    lit < MAX_LIT && Pending(input, ip, out, op, lit, ts)
  }

  lemma EncodeSnoc(ts: seq<Token>, t: Token)
    requires TokensOk(ts) && TokenOk(t)
    ensures TokensOk(ts + [t]) && EncodeAll(ts + [t]) == EncodeAll(ts) + Encode(t)
  {
    assert (ts + [t])[..|ts + [t]| - 1] == ts;
  }

  /** Appending a token that reproduces the next n input bytes. */
  lemma CloseToken(input: seq<byte>, ip: nat, out: seq<byte>, op: nat, ts: seq<Token>, t: Token, out': seq<byte>,
                   n: nat)
    requires Closed(input, ip, out, op, ts) && TokenOk(t) && ip + n <= |input|
    requires Applies(input[..ip], t) && Apply(input[..ip], t) == input[..ip + n]
    requires op + |Encode(t)| <= |out'| && out'[..op] == out[..op] && out'[op..op + |Encode(t)|] == Encode(t)
    ensures Closed(input, ip + n, out', op + |Encode(t)|, ts + [t])
  {
    hide Encode, EncodeAll, TokensOk, Runs, Expand, Apply, TokenOk;
    EncodeSnoc(ts, t);
    SnocRuns(ts, t);
    assert out'[..op + |Encode(t)|] == out'[..op] + out'[op..op + |Encode(t)|];
  }

  // ------------------------------------------------------------ the emitters

  /** What is closed depends on the output before op only. */
  lemma ClosedFrame(input: seq<byte>, ip: nat, out: seq<byte>, op: nat, ts: seq<Token>, out': seq<byte>)
    requires Closed(input, ip, out, op, ts) && op <= |out'| && out'[..op] == out[..op]
    ensures Closed(input, ip, out', op, ts)
  {
  }

  /** Copying one more literal. */
  lemma PendingMore(input: seq<byte>, ip: nat, out: seq<byte>, op: nat, lit: nat, ts: seq<Token>)
    requires Pending(input, ip, out, op, lit, ts) && ip < |input| && op < |out|
    ensures Pending(input, ip + 1, out[op := input[ip]], op + 1, lit + 1, ts)
  {
    hide Closed;
    var out' := out[op := input[ip]];
    assert out'[..op - lit - 1] == out[..op - lit - 1];
    ClosedFrame(input, ip - lit, out, op - lit - 1, ts, out');
    assert out'[op - lit..op + 1] == out[op - lit..op] + [input[ip]];
    assert input[ip - lit..ip + 1] == input[ip - lit..ip] + [input[ip]];
  }

  /** Writing the control byte of a run that is not empty. */
  lemma PendingClosed(input: seq<byte>, ip: nat, out: seq<byte>, op: nat, lit: nat, ts: seq<Token>)
    requires Pending(input, ip, out, op, lit, ts) && 1 <= lit <= MAX_LIT
    ensures Closed(input, ip, out[op - lit - 1 := lit - 1], op, ts + [Lit(input[ip - lit..ip])])
  {
    hide EncodeAll, TokensOk, Runs, Expand;
    var run, t := op - lit - 1, Lit(input[ip - lit..ip]);
    var out' := out[run := lit - 1];
    assert out'[..run] == out[..run];
    assert out'[run..op] == [lit - 1] + out[run + 1..op];
    assert input[..ip - lit] + input[ip - lit..ip] == input[..ip];
    CloseToken(input, ip - lit, out, run, ts, t, out', lit);
  }

  /** Lines 173-174 and 290-291: write the control byte of the open run, or take the
      reserved byte back when the run is empty. */
  method EndRun(input: seq<byte>, ip: nat, output: array<byte>, op: nat, lit: nat, ghost ts: seq<Token>)
    returns (end: nat, ghost ts': seq<Token>)
    requires Open(input, ip, output[..], op, lit, ts)
    modifies output
    ensures Closed(input, ip, output[..], end, ts')
    ensures end == if lit == 0 then op - 1 else op
    ensures Units(ts') == Units(ts) + Ones(lit)
  {
    hide Closed, Units, Ones;
    ghost var out := output[..];
    var control: byte := (lit + 255) % 256;
    output[op - lit - 1] := control;
    assert output[..] == out[op - lit - 1 := control];
    if lit == 0 {
      OnesJoin(0, 0);
      assert Units(ts) + [] == Units(ts);
      end, ts' := op - 1, ts;
      ClosedFrame(input, ip, out, op - 1, ts, output[..]);
    } else {
      PendingClosed(input, ip, out, op, lit, ts);
      end, ts' := op, ts + [Lit(input[ip - lit..ip])];
      UnitsMore(ts, Lit(input[ip - lit..ip]));
    }
  }

  /** Reserving the next control byte starts an empty run. */
  lemma StartRun(input: seq<byte>, ip: nat, out: seq<byte>, op: nat, ts: seq<Token>)
    requires Closed(input, ip, out, op, ts) && op < |out|
    ensures Open(input, ip, out, op + 1, 0, ts)
  {
  }

  /** Lines 266-272 and 281-287: copy one literal; a full run is closed at once. */
  method AddLiteral(input: seq<byte>, ip: nat, output: array<byte>, op: nat, lit: nat, ghost ts: seq<Token>)
    returns (op': nat, lit': nat, ghost ts': seq<Token>)
    requires Open(input, ip, output[..], op, lit, ts) && ip < |input| && op < output.Length
    requires lit + 1 == MAX_LIT ==> op + 1 < output.Length
    modifies output
    ensures Open(input, ip + 1, output[..], op', lit', ts')
    ensures if lit + 1 == MAX_LIT then op' == op + 2 && lit' == 0 else op' == op + 1 && lit' == lit + 1
    ensures Units(ts') + Ones(lit') == Units(ts) + Ones(lit) + [One]
  {
    hide Closed, Pending, Units, Ones;
    OnesJoin(lit, 1);
    Assoc3(Units(ts), Ones(lit), [One]);
    ghost var out := output[..];
    PendingMore(input, ip, out, op, lit, ts);
    output[op] := input[ip];
    assert output[..] == out[op := input[ip]];
    op', lit', ts' := op + 1, lit + 1, ts;
    if lit' == MAX_LIT {
      ghost var mid := output[..];
      PendingClosed(input, ip + 1, mid, op', lit', ts);
      PendingBounds(input, ip + 1, mid, op', lit', ts);
      var control: byte := lit' - 1;
      output[op' - lit' - 1] := control;
      assert output[..] == mid[op' - lit' - 1 := control];
      ts' := ts + [Lit(input[ip + 1 - lit'..ip + 1])];
      StartRun(input, ip + 1, output[..], op', ts');
      UnitsMore(ts, Lit(input[ip + 1 - lit'..ip + 1]));
      OnesJoin(0, 0);
      assert Units(ts') + [] == Units(ts');
      lit', op' := 0, op' + 1;
    }
  }

  lemma PendingBounds(input: seq<byte>, ip: nat, out: seq<byte>, op: nat, lit: nat, ts: seq<Token>)
    requires Pending(input, ip, out, op, lit, ts)
    ensures lit <= ip <= |input| && lit < op <= |out|
  {
  }

  /** Lines 214-225: write the reference and reserve the next control byte. */
  method EmitRef(input: seq<byte>, ip: nat, ref: nat, len: nat, output: array<byte>, op: nat, ghost ts: seq<Token>)
    returns (op': nat, ghost ts': seq<Token>)
    requires Closed(input, ip, output[..], op, ts) && op + 4 <= output.Length
    requires ref < ip && ip - ref <= MAX_OFF && 1 <= len <= MAX_REF - 2 && ip + len + 2 <= |input|
    requires input[ref..ref + len + 2] == input[ip..ip + len + 2]
    modifies output
    ensures Open(input, ip + len + 2, output[..], op', 0, ts')
    ensures op' == op + (if len < 7 then 3 else 4) && ts' == ts + [Ref(ip - ref - 1, len)]
  {
    hide EncodeAll, TokensOk, Runs, Expand, CopyBack;
    var off := ip - ref - 1;
    ghost var out := output[..];
    ghost var t := Ref(off, len);
    op' := op;
    if len < 7 {
      output[op'] := off / 256 + len * 32;
      op' := op' + 1;
    } else {
      output[op'] := off / 256 + 7 * 32;
      op' := op' + 1;
      output[op'] := len - 7;
      op' := op' + 1;
    }
    output[op'] := off % 256;
    op' := op' + 1;
    assert output[..op] == out[..op];
    assert output[op..op'] == Encode(t);
    CopyBackRepeats(input, ip, ref, len + 2);
    CloseToken(input, ip, out, op, ts, t, output[..], len + 2);
    StartRun(input, ip + len + 2, output[..], op', ts + [t]);
    op', ts' := op' + 1, ts + [t];
  }

  lemma MatchGrows(input: seq<byte>, ref: nat, ip: nat, n: nat)
    requires ref < ip && ip + n < |input| && input[ref..ref + n] == input[ip..ip + n] && input[ref + n] == input[ip + n]
    ensures input[ref..ref + n + 1] == input[ip..ip + n + 1]
  {
    assert input[ref..ref + n + 1] == input[ref..ref + n] + [input[ref + n]];
    assert input[ip..ip + n + 1] == input[ip..ip + n] + [input[ip + n]];
  }

  /** Lines 169-171 and 179-209: how many bytes at ip repeat those at ref, given that
      three do; no more is to be had but for the last two bytes. The first 16 comparisons are
      unrolled when there is room for them. */
  method MatchLength(input: seq<byte>, ref: nat, ip: nat) returns (len: nat)
    requires ref < ip && ip + 4 < |input| && input[ref..ref + 3] == input[ip..ip + 3]
    ensures 3 <= len <= MAX_REF && ip + len <= |input|
    ensures input[ref..ref + len] == input[ip..ip + len]
    ensures len < MAX_REF && ip + len + 2 < |input| ==> input[ref + len] != input[ip + len]
  {
    len := 2;
    var maxlen := |input| - ip - len;
    maxlen := if maxlen > MAX_REF then MAX_REF else maxlen;
    if maxlen > 16 {
      var stopped;
      stopped, len := Unrolled(input, ref, ip);
      if stopped {
        return;
      }
    }
    len := len + 1;
    while len < maxlen && input[ref + len] == input[ip + len]
      invariant 3 <= len <= MAX_REF && ip + len <= |input|
      invariant input[ref..ref + len] == input[ip..ip + len]
    {
      MatchGrows(input, ref, ip, len);
      len := len + 1;
    }
  }

  /** The unrolled comparisons: stopped at the first byte that differs, or not at all. */
  method Unrolled(input: seq<byte>, ref: nat, ip: nat) returns (stopped: bool, len: nat)
    requires ref < ip && ip + 18 < |input| && input[ref..ref + 3] == input[ip..ip + 3]
    ensures if stopped then 3 <= len <= 18 && input[ref + len] != input[ip + len] else len == 18
    ensures input[ref..ref + len] == input[ip..ip + len]
    ensures !stopped ==> input[ref..ref + len + 1] == input[ip..ip + len + 1]
  {
    len := 2;
    while len < 18
      invariant 2 <= len <= 18 && input[ref..ref + len + 1] == input[ip..ip + len + 1]
    {
      len := len + 1;
      if input[ref + len] != input[ip + len] {
        return true, len;
      }
      MatchGrows(input, ref, ip, len);
    }
    stopped := false;
    SubSlice(input, ref, ref + len + 1, 0, len);
    SubSlice(input, ip, ip + len + 1, 0, len);
  }

  /** Lines 151-167: is the table's suggestion a usable match? */
  predicate IsMatch(input: seq<byte>, ref: int, ip: nat)
    requires ip + 2 < |input|
  {
    && 0 <= ip - ref - 1 < MAX_OFF && ip + 4 < |input| && ref > 0
    && input[ref] == input[ip] && input[ref + 1] == input[ip + 1] && input[ref + 2] == input[ip + 2]
  }

  /** Incompressible input grows by one control byte for every MAX_LIT literals; four bytes
      more are enough for the checks that the code makes ahead of its writes. */
  predicate Enough(outLen: nat, n: nat) {
    n > 0 && outLen >= n + n / MAX_LIT + 4
  }

  /** The test of the source is what it should be. */
  lemma MatchIff(input: seq<byte>, ref: int, ip: nat)
    requires ip + 2 < |input|
    ensures IsMatch(input, ref, ip) <==> Usable(input, ref, ip)
  {
    if 0 <= ref < ip {
      var a, b := input[ref..ref + 3], input[ip..ip + 3];
      assert a == [input[ref], input[ref + 1], input[ref + 2]];
      assert b == [input[ip], input[ip + 1], input[ip + 2]];
    }
  }

  /** The hash value ends in the two bytes at ip. */
  predicate Hashed(input: seq<byte>, ip: nat, hval: nat) {
    ip + 1 < |input| ==> hval % 0x1_0000 == First(input[ip], input[ip + 1])
  }

  /** Lines 147-149: hash the next three bytes, and swap their slot for the current position. */
  method Lookup(input: seq<byte>, ip: nat, hval: nat, htab: array<int>) returns (hval': nat, ref: int)
    requires ip + 2 < |input| && htab.Length == HSIZE && Hashed(input, ip, hval)
    modifies htab
    ensures ref == old(htab[SlotAt(input, ip)]) && htab[..] == old(htab[..])[SlotAt(input, ip) := ip]
    ensures Hashed(input, ip + 1, hval')
  {
    hide Slot, NextHash;
    Rolling(hval, input[ip], input[ip + 1], input[ip + 2]);
    hval' := NextHash(hval, input[ip + 2]);
    ref := htab[Slot(hval')];
    htab[Slot(hval')] := ip;
  }

  /** Lines 232-246: enter the last two positions of a match into the table. */
  method Rehash(input: seq<byte>, ip: nat, htab: array<int>) returns (hval: nat)
    requires 2 <= ip && ip + 2 < |input| && htab.Length == HSIZE
    modifies htab
    ensures htab[..] == old(htab[..])[SlotAt(input, ip - 2) := ip - 2][SlotAt(input, ip - 1) := ip - 1]
    ensures Hashed(input, ip, hval)
  {
    hide Slot, NextHash;
    hval := First(input[ip - 2], input[ip - 1]);
    Rolling(hval, input[ip - 2], input[ip - 1], input[ip]);
    hval := NextHash(hval, input[ip]);
    htab[Slot(hval)] := ip - 2;
    Rolling(hval, input[ip - 1], input[ip], input[ip + 1]);
    hval := NextHash(hval, input[ip + 1]);
    htab[Slot(hval)] := ip - 1;
  }

  /** Lines 168-227: close the run and emit the longest match, if there is room for it. */
  method MatchStep(input: seq<byte>, ip: nat, ref: int, output: array<byte>, op: nat, lit: nat, outLen: nat,
                   ghost ts: seq<Token>)
    returns (ok: bool, len: nat, op': nat, ghost ts': seq<Token>)
    requires ip + 2 < |input| && Usable(input, ref, ip) && output.Length == outLen + 1
    requires Open(input, ip, output[..], op, lit, ts) && op >= 1
    modifies output
    ensures ok <==> (if lit == 0 then op - 1 else op) + 4 < outLen
    ensures ok ==> Longest(input, ref, ip, len) && op' <= outLen
    ensures ok ==> Output(op', 0) == SpentOn(Output(op, lit), Visit(ip, ref, len))
    ensures ok ==> Open(input, ip + len, output[..], op', 0, ts')
    ensures ok ==> Units(ts') == Units(ts) + Ones(lit) + [Copy(ip - ref - 1, len - 2)]
  {
    hide Closed, Open, Units, Ones;
    len := 0;
    op', ts' := EndRun(input, ip, output, op, lit, ts);
    if op' + 3 + 1 >= outLen {
      return false, len, op', ts';
    }
    len := MatchLength(input, ref, ip);
    UnitsMore(ts', Ref(ip - ref - 1, len - 2));
    op', ts' := EmitRef(input, ip, ref, len - 2, output, op', ts');
    ok := true;
  }

  /** The loop has made the visits vs: they are a trace, the table and the hash value are what
      it says, and the output is what it comes to. */
  ghost predicate Reached(input: seq<byte>, h: seq<int>, vs: seq<Visit>, table: seq<int>, ip: nat, op: nat, lit: nat,
                          ts: seq<Token>)
    requires |h| == HSIZE
  {
    && Trace(input, h, vs) && ip == End(vs) && table == Table(input, h, Entered(|input|, vs))
    && Spent(vs) == Output(op, lit) && Units(ts) + Ones(lit) == Plan(vs)
  }

  lemma ReachedStart(input: seq<byte>, h: seq<int>)
    requires |h| == HSIZE
    ensures Reached(input, h, [], h, 0, 1, 0, [])
  {
    OnesJoin(0, 0);
  }

  lemma ReachedMore(input: seq<byte>, h: seq<int>, vs: seq<Visit>, table: seq<int>, ip: nat, op: nat, lit: nat,
                    ts: seq<Token>, v: Visit, table': seq<int>, op': nat, lit': nat, ts': seq<Token>)
    requires |h| == HSIZE && Reached(input, h, vs, table, ip, op, lit, ts) && |table| == HSIZE
    requires v.pos == ip && VisitOk(input, table, v)
    requires table' == if v.len > 1 && ip + v.len + 2 < |input| then Rehashed(input, table, v)
                       else table[SlotAt(input, ip) := ip]
    requires op >= 1 && SpentOn(Output(op, lit), v) == Output(op', lit')
    requires Units(ts') + Ones(lit') == Units(ts) + Ones(lit) + [UnitOf(v)]
    ensures Reached(input, h, vs + [v], table', ip + v.len, op', lit', ts')
  {
    hide Trace, Table, Entered, SlotAt, Spent, Plan, Units, Ones, VisitOk, SpentOn, End, UnitOf;
    TraceMore(input, h, vs, v);
    EnteredTable(input, h, Entered(|input|, vs), v);
  }

  /** The table after a repetition that does not end with the input. */
  ghost function Rehashed(input: seq<byte>, table: seq<int>, v: Visit): (t: seq<int>)
    requires |table| == HSIZE
  {
    var e: nat := v.pos + v.len;
    if e < 2 then table
    else table[SlotAt(input, v.pos) := v.pos][SlotAt(input, e - 2) := e - 2][SlotAt(input, e - 1) := e - 1]
  }

  lemma EnteredTable(input: seq<byte>, h: seq<int>, es: seq<nat>, v: Visit)
    requires |h| == HSIZE
    ensures Table(input, h, es + EnteredBy(|input|, v)) ==
              if v.len > 1 && v.pos + v.len + 2 < |input| then Rehashed(input, Table(input, h, es), v)
              else Table(input, h, es)[SlotAt(input, v.pos) := v.pos]
  {
    hide Table, SlotAt;
    TableMore(input, h, es, v.pos);
    if v.len > 1 && v.pos + v.len + 2 < |input| {
      var a, b: nat, c: nat := es + [v.pos], v.pos + v.len - 2, v.pos + v.len - 1;
      TableMore(input, h, a, b);
      TableMore(input, h, a + [b], c);
      assert es + [v.pos, b, c] == a + [b] + [c];
    }
  }

  lemma ReachedMeans(input: seq<byte>, h: seq<int>, vs: seq<Visit>, table: seq<int>, ip: nat, op: nat, lit: nat,
                     ts: seq<Token>)
    requires |h| == HSIZE && Reached(input, h, vs, table, ip, op, lit, ts)
    ensures Trace(input, h, vs) && ip == End(vs) <= |input| && Spent(vs) == Output(op, lit)
    ensures Units(ts) + Ones(lit) == Plan(vs) && op >= 1
  {
    hide Table, Entered, SlotAt, Units, Ones, Plan;
    SpentBound(input, h, vs);
  }

  lemma NoVisits(input: seq<byte>, h: seq<int>, outLen: nat)
    requires |h| == HSIZE
    ensures Trace(input, h, [])
    ensures input == [] || outLen == 0 ==> !Enough(outLen, |input|) && !Compressible(input, outLen)
  {
  }

  /** Where the compressor gives up, there was not enough room. */
  lemma GivesUp(input: seq<byte>, h: seq<int>, vs: seq<Visit>, table: seq<int>, ip: nat, op: nat, lit: nat,
                ts: seq<Token>, outLen: nat)
    requires |h| == HSIZE && Reached(input, h, vs, table, ip, op, lit, ts)
    requires outLen <= op + 2 || (outLen <= op + 4 && ip + 2 < |input|)
    ensures Trace(input, h, vs) && outLen <= Spent(vs).op + 4
    ensures !Enough(outLen, |input|) && !Compressible(input, outLen)
  {
    hide Trace, Table, Entered, SlotAt, Units, Ones, Plan, Spent, End, Repetitive, RoomFor;
    SpentBound(input, h, vs);
    forall p | Repetitive(input, p)
      ensures !RoomFor(|input|, p, outLen)
    {
      if RoomFor(|input|, p, outLen) {
        PeriodicRoom(input, h, vs, p, outLen);
      }
    }
  }

  lemma StartHash(input: seq<byte>, hval: nat)
    requires |input| > 1 ==> hval == First(input[0], input[1])
    ensures Hashed(input, 0, hval)
  {
  }

  lemma LongestBounds(input: seq<byte>, ref: int, ip: nat, len: nat)
    requires Longest(input, ref, ip, len)
    ensures 3 <= len && ip + len <= |input|
  {
  }

  lemma CopyOk(input: seq<byte>, table: seq<int>, v: Visit)
    requires |table| == HSIZE && v.pos + 2 < |input| && v.ref == table[SlotAt(input, v.pos)]
    requires Usable(input, v.ref, v.pos) && Longest(input, v.ref, v.pos, v.len)
    ensures VisitOk(input, table, v) && UnitOf(v) == Copy(v.pos - v.ref - 1, v.len - 2)
  {
    hide SlotAt, Usable;
  }

  lemma LiteralOk(input: seq<byte>, table: seq<int>, v: Visit, op: nat, lit: nat)
    requires |table| == HSIZE && v.pos + 2 < |input| && v.ref == table[SlotAt(input, v.pos)]
    requires !Usable(input, v.ref, v.pos) && v.len == 1 && op >= 1
    ensures VisitOk(input, table, v) && UnitOf(v) == One
    ensures SpentOn(Output(op, lit), v)
            == if lit + 1 == MAX_LIT then Output(op + 2, 0) else Output(op + 1, lit + 1)
  {
    hide SlotAt, Usable;
  }

  lemma NoneOpen(ts: seq<Token>)
    ensures Units(ts) + Ones(0) == Units(ts)
  {
    hide Units;
    OnesJoin(0, 0);
  }

  lemma RehashedIs(input: seq<byte>, table: seq<int>, v: Visit)
    requires |table| == HSIZE && v.len >= 3
    ensures var e: nat := v.pos + v.len;
            Rehashed(input, table, v)
            == table[SlotAt(input, v.pos) := v.pos][SlotAt(input, e - 2) := e - 2][SlotAt(input, e - 1) := e - 1]
  {
    hide SlotAt;
  }

  /** lzf_compress: whatever htab holds, the visits vs are a trace from it, so that every
      repetition the table offers is taken; a non-zero result means that the first n output
      bytes are the tokens of these visits, with the last bytes as literals, and stand for
      exactly the input. output has the outLen + 1 bytes that the caller allocates
      (src/db.cc:307-310), and n never exceeds outLen. It gives up only within four bytes of
      the end of the output: not when there is room for the input as literals, nor on periodic
      input with less room than that. */
  method Compress(input: seq<byte>, output: array<byte>, outLen: nat, htab: array<int>)
    returns (n: nat, ghost vs: seq<Visit>, ghost ts: seq<Token>)
    requires output.Length == outLen + 1 && htab.Length == HSIZE
    modifies output, htab
    ensures n <= outLen
    ensures n > 0 ==> Meaning(output[..n]) == Some(input)
    ensures Trace(input, old(htab[..]), vs)
    ensures n > 0 ==> TokensOk(ts) && output[..n] == EncodeAll(ts)
    ensures n > 0 ==> End(vs) <= |input| <= End(vs) + 2 && Units(ts) == Plan(vs) + Ones(|input| - End(vs))
    ensures n == 0 && input != [] && outLen > 0 ==> outLen <= Spent(vs).op + 4
    ensures Enough(outLen, |input|) ==> n > 0
    ensures Compressible(input, outLen) ==> n > 0
  {
    hide EncodeAll, TokensOk, Runs, Expand, Closed, Open, IsMatch, Meaning, Slot, NextHash, First, Usable, Longest,
         Hashed, Reached, Trace, Table, SlotAt, Spent, SpentOn, Plan, Units, Ones, End, VisitOk, Rehashed, Enough,
         Compressible;
    ghost var h := htab[..];
    vs, ts := [], [];
    NoVisits(input, h, outLen);
    if |input| == 0 || outLen == 0 {
      return 0, vs, ts;
    }
    var ip: nat, op: nat, lit: nat := 0, 1, 0;
    StartOpen(input, output[..]);
    // The C code reads the byte behind a one-byte input here, but never uses it.
    var hval: nat := if |input| > 1 then First(input[0], input[1]) else 0;
    StartHash(input, hval);
    ReachedStart(input, h);
    while ip + 2 < |input|
      invariant ip <= |input| && 1 <= op <= outLen + 1
      invariant Reached(input, h, vs, htab[..], ip, op, lit, ts)
      invariant ip + 2 < |input| ==> Hashed(input, ip, hval)
      invariant Open(input, ip, output[..], op, lit, ts)
      decreases |input| - ip
    {
      ghost var table, ts0, op0, lit0, ip0 := htab[..], ts, op, lit, ip;
      var ref;
      hval, ref := Lookup(input, ip, hval, htab);
      MatchIff(input, ref, ip);
      if IsMatch(input, ref, ip) {
        var ok, len;
        ok, len, op, ts := MatchStep(input, ip, ref, output, op, lit, outLen, ts);
        if !ok {
          GivesUp(input, h, vs, table, ip, op0, lit0, ts0, outLen);
          return 0, vs, ts;
        }
        LongestBounds(input, ref, ip, len);
        ghost var v := Visit(ip, ref, len);
        CopyOk(input, table, v);
        ip, lit := ip + len, 0;
        if ip + 2 >= |input| {
          NoneOpen(ts);
          ReachedMore(input, h, vs, table, ip0, op0, lit0, ts0, v, htab[..], op, lit, ts);
          vs := vs + [v];
          break;
        }
        hval := Rehash(input, ip, htab);
        NoneOpen(ts);
        RehashedIs(input, table, v);
        ReachedMore(input, h, vs, table, ip0, op0, lit0, ts0, v, htab[..], op, lit, ts);
        vs := vs + [v];
      } else {
        if op >= outLen {
          GivesUp(input, h, vs, table, ip, op, lit, ts, outLen);
          return 0, vs, ts;
        }
        OpenBounds(input, ip, output[..], op, lit, ts);
        op, lit, ts := AddLiteral(input, ip, output, op, lit, ts);
        ghost var v := Visit(ip, ref, 1);
        LiteralOk(input, table, v, op0, lit0);
        ip := ip + 1;
        ReachedMore(input, h, vs, table, ip0, op0, lit0, ts0, v, htab[..], op, lit, ts);
        vs := vs + [v];
      }
    }
    ReachedMeans(input, h, vs, htab[..], ip, op, lit, ts);
    if op + 3 > outLen {
      GivesUp(input, h, vs, htab[..], ip, op, lit, ts, outLen);
      return 0, vs, ts;
    }
    op, lit, ts := Flush(input, ip, output, op, lit, outLen, ts);
    op, ts := EndRun(input, |input|, output, op, lit, ts);
    ClosedMeaning(input, output[..], op, ts);
    assert output[..op] == output[..][..op];
    NotEmpty(output[..op], input);
    return op, vs, ts;
  }

  /** Lines 279-288: the last bytes, at most two of them, are literals. */
  method Flush(input: seq<byte>, ip0: nat, output: array<byte>, op0: nat, lit0: nat, outLen: nat, ghost ts0: seq<Token>)
    returns (op: nat, lit: nat, ghost ts: seq<Token>)
    requires output.Length == outLen + 1 && ip0 <= |input| <= ip0 + 2 && op0 + 3 <= outLen
    requires Open(input, ip0, output[..], op0, lit0, ts0)
    modifies output
    ensures Open(input, |input|, output[..], op, lit, ts) && op <= outLen
    ensures Units(ts) + Ones(lit) == Units(ts0) + Ones(lit0) + Ones(|input| - ip0)
  {
    hide EncodeAll, TokensOk, Runs, Expand, Closed, Open, Units, Ones;
    var ip := ip0;
    OnesJoin(0, 0);
    assert Units(ts0) + Ones(lit0) + [] == Units(ts0) + Ones(lit0);
    op, lit, ts := op0, lit0, ts0;
    while ip < |input|
      invariant ip0 <= ip <= |input|
      invariant Open(input, ip, output[..], op, lit, ts)
      invariant Units(ts) + Ones(lit) == Units(ts0) + Ones(lit0) + Ones(ip - ip0)
      invariant op + (|input| - ip) < outLen || (op + (|input| - ip) <= outLen && lit + (|input| - ip) <= 2)
    {
      OnesJoin(ip - ip0, 1);
      Assoc3(Units(ts0) + Ones(lit0), Ones(ip - ip0), [One]);
      op, lit, ts := AddLiteral(input, ip, output, op, lit, ts);
      ip := ip + 1;
    }
  }

  lemma StartOpen(input: seq<byte>, out: seq<byte>)
    requires |out| >= 1
    ensures Open(input, 0, out, 1, 0, [])
  {
  }

  lemma OpenBounds(input: seq<byte>, ip: nat, out: seq<byte>, op: nat, lit: nat, ts: seq<Token>)
    requires Open(input, ip, out, op, lit, ts)
    ensures lit < MAX_LIT
  {
  }

  lemma ClosedMeaning(input: seq<byte>, out: seq<byte>, op: nat, ts: seq<Token>)
    requires Closed(input, |input|, out, op, ts)
    ensures op <= |out| && Meaning(out[..op]) == Some(input)
    ensures TokensOk(ts) && out[..op] == EncodeAll(ts)
  {
    hide EncodeAll, Expand, Runs, Meaning;
    EncodedMeaning(ts);
    assert input[..|input|] == input;
  }

  lemma NotEmpty(s: seq<byte>, input: seq<byte>)
    requires Meaning(s) == Some(input) && input != []
    ensures s != []
  {
  }

  /** Compressing and decompressing gives the input back, for every input and every
      initial table. */
  method RoundTrip(input: seq<byte>, outLen: nat, htab: array<int>) returns (compressed: bool, result: seq<byte>)
    requires htab.Length == HSIZE
    modifies htab
    ensures compressed ==> result == input
    ensures Enough(outLen, |input|) || Compressible(input, outLen) ==> compressed
  {
    hide Meaning;
    var packed := new byte[outLen + 1];
    var n, _, _ := Compress(input, packed, outLen, htab);
    if n == 0 {
      return false, [];
    }
    var unpacked := new byte[|input|];
    var m := Decompress(packed[..n], unpacked, |input|);
    return true, unpacked[..m];
  }
}
