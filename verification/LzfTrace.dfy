/** What lzf_compress (src/net/lzf/lzf_c.c) finds: the positions it looks at, what its hash
    table holds there, and where that makes it take a repetition. */
module LzfTrace {
  import opened Bytes
  import opened LzfFormat

  const HSIZE := 0x1_0000

  // ------------------------------------------------------------ hash values

  function First(a: byte, b: byte): (h: nat) { a as int * 256 + b }

  function NextHash(h: nat, c: byte): (r: nat) { (h * 256 + c) % TWO32 }

  /** The slot of a 32-bit hash value. */
  function Slot(h: nat): (i: nat)
    ensures i < HSIZE
  {
    (h / 256 - 5 * h) % HSIZE
  }

  function Hash3(a: byte, b: byte, c: byte): (h: nat) { a as int * 0x1_0000 + b as int * 256 + c }

  /** The slot of the three bytes at p. */
  function SlotAt(input: seq<byte>, p: nat): (i: nat)
    ensures i < HSIZE
  {
    if p + 2 < |input| then Slot(Hash3(input[p], input[p + 1], input[p + 2])) else 0
  }

  /** A slot depends on the low three bytes only. */
  lemma SlotLow(q: nat, x: nat)
    requires x < 0x100_0000
    ensures Slot(0x100_0000 * q + x) == Slot(x)
  {
    var h := 0x100_0000 * q + x;
    DivModUnique(h, 256, 0x1_0000 * q + x / 256, x % 256);
    var v, k := x / 256 - 5 * x, q - 1280 * q;
    assert h / 256 - 5 * h == v + HSIZE * k;
    DivModUnique(v + HSIZE * k, HSIZE, v / HSIZE + k, v % HSIZE);
  }

  /** The hash value rolls on: its low bytes are the last ones hashed, and its slot is that of
      the last three. */
  lemma Rolling(h: nat, a: byte, b: byte, c: byte)
    requires h % 0x1_0000 == First(a, b)
    ensures NextHash(h, c) % 0x1_0000 == First(b, c)
    ensures Slot(NextHash(h, c)) == Slot(Hash3(a, b, c))
  {
    hide Slot, NextHash;
    var q, x := h / 0x1_0000, Hash3(a, b, c);
    Shifted(h, q, a, b, c);
    SlotLow(q % 256, x);
    LowBytes(q % 256, a, b, c);
  }

  lemma Shifted(h: nat, q: nat, a: byte, b: byte, c: byte)
    requires h == 0x1_0000 * q + First(a, b)
    ensures NextHash(h, c) == 0x100_0000 * (q % 256) + Hash3(a, b, c)
  {
    var x, k := Hash3(a, b, c), q / 256;
    assert q == 256 * k + q % 256;
    assert h * 256 + c == TWO32 * k + (0x100_0000 * (q % 256) + x);
    DivModUnique(h * 256 + c, TWO32, k, 0x100_0000 * (q % 256) + x);
  }

  lemma LowBytes(q: nat, a: byte, b: byte, c: byte)
    ensures (0x100_0000 * q + Hash3(a, b, c)) % 0x1_0000 == First(b, c)
  {
    DivModUnique(0x100_0000 * q + Hash3(a, b, c), 0x1_0000, 256 * q + a, First(b, c));
  }

  // ------------------------------------------------------------ visits

  /** The compressor looks at position pos, finds ref in the table, and goes on len bytes
      further: one for a literal, three or more for a repetition of the bytes at ref. */
  datatype Visit = Visit(pos: nat, ref: int, len: nat)

  function End(vs: seq<Visit>): (n: nat) {
    if vs == [] then 0 else vs[|vs| - 1].pos + vs[|vs| - 1].len
  }

  /** The positions entered into the table, in order: each one looked at, and the last two of
      each repetition, unless it ends with the input of n bytes. */
  function Entered(n: nat, vs: seq<Visit>): (es: seq<nat>) {
    if vs == [] then [] else Entered(n, vs[..|vs| - 1]) + EnteredBy(n, vs[|vs| - 1])
  }

  function EnteredBy(n: nat, v: Visit): (es: seq<nat>) {
    if v.len > 1 && v.pos + v.len + 2 < n then [v.pos, v.pos + v.len - 2, v.pos + v.len - 1] else [v.pos]
  }

  /** The table, once these positions have been entered. */
  function Table(input: seq<byte>, h: seq<int>, es: seq<nat>): (t: seq<int>)
    requires |h| == HSIZE
    ensures |t| == HSIZE
  {
    if es == [] then h
    else
      var p := es[|es| - 1];
      Table(input, h, es[..|es| - 1])[SlotAt(input, p) := p]
  }

  /** The three bytes at pos stand at ref before it, near enough to refer to and not at the very
      beginning, and pos is not too near the end. */
  ghost predicate Usable(input: seq<byte>, ref: int, pos: nat) {
    && 0 < ref < pos && pos - ref <= MAX_OFF && pos + 4 < |input|
    && input[ref..ref + 3] == input[pos..pos + 3]
  }

  /** len bytes at pos repeat those at ref, and no more, but for the limit of a reference and
      the last two bytes. */
  ghost predicate Longest(input: seq<byte>, ref: int, pos: nat, len: nat) {
    && 0 <= ref < pos && 3 <= len <= MAX_REF && pos + len <= |input|
    && input[ref..ref + len] == input[pos..pos + len]
    && (len < MAX_REF && pos + len + 2 < |input| ==> input[ref + len] != input[pos + len])
  }

  ghost predicate VisitOk(input: seq<byte>, table: seq<int>, v: Visit)
    requires |table| == HSIZE
  {
    && v.pos + 2 < |input| && v.ref == table[SlotAt(input, v.pos)]
    && if Usable(input, v.ref, v.pos) then Longest(input, v.ref, v.pos, v.len) else v.len == 1
  }

  /** The visits of a compressor that starts with the table h: a repetition is taken exactly
      where the table offers a usable one. */
  ghost predicate Trace(input: seq<byte>, h: seq<int>, vs: seq<Visit>)
    requires |h| == HSIZE
  {
    vs == [] ||
    var us, v := vs[..|vs| - 1], vs[|vs| - 1];
    Trace(input, h, us) && v.pos == End(us) && VisitOk(input, Table(input, h, Entered(|input|, us)), v)
  }

  lemma TraceMore(input: seq<byte>, h: seq<int>, vs: seq<Visit>, v: Visit)
    requires |h| == HSIZE && Trace(input, h, vs)
    requires v.pos == End(vs) && VisitOk(input, Table(input, h, Entered(|input|, vs)), v)
    ensures Trace(input, h, vs + [v]) && End(vs + [v]) == v.pos + v.len
    ensures Entered(|input|, vs + [v]) == Entered(|input|, vs) + EnteredBy(|input|, v)
    ensures Spent(vs + [v]) == SpentOn(Spent(vs), v) && Plan(vs + [v]) == Plan(vs) + [UnitOf(v)]
  {
    hide VisitOk, Table, EnteredBy, SpentOn;
    assert (vs + [v])[..|vs|] == vs;
  }

  lemma {:induction false} TraceAt(input: seq<byte>, h: seq<int>, vs: seq<Visit>, i: nat)
    requires |h| == HSIZE && Trace(input, h, vs) && i < |vs|
    ensures Trace(input, h, vs[..i]) && vs[i].pos == End(vs[..i])
    ensures VisitOk(input, Table(input, h, Entered(|input|, vs[..i])), vs[i])
    decreases |vs|
  {
    hide VisitOk, Table, Entered;
    var us := vs[..|vs| - 1];
    if i < |us| {
      TraceAt(input, h, us, i);
      assert us[..i] == vs[..i] && us[i] == vs[i];
    }
  }

  // ------------------------------------------------------------ what the table holds

  /** The last position entered into a slot is what it holds. */
  lemma {:induction false} TableLast(input: seq<byte>, h: seq<int>, es: seq<nat>, j: nat)
    requires |h| == HSIZE && j < |es|
    requires forall i | j < i < |es| :: SlotAt(input, es[i]) != SlotAt(input, es[j])
    ensures Table(input, h, es)[SlotAt(input, es[j])] == es[j]
    decreases |es|
  {
    hide SlotAt;
    var t := es[..|es| - 1];
    if j < |t| {
      assert forall i | j <= i < |t| :: t[i] == es[i];
      TableLast(input, h, t, j);
    }
  }

  /** A slot that nothing has been entered into holds what it held. */
  lemma {:induction false} TableNone(input: seq<byte>, h: seq<int>, es: seq<nat>, s: nat)
    requires |h| == HSIZE && s < HSIZE && forall i | 0 <= i < |es| :: SlotAt(input, es[i]) != s
    ensures Table(input, h, es)[s] == h[s]
  {
    hide SlotAt;
    if es != [] {
      var t := es[..|es| - 1];
      assert forall i | 0 <= i < |t| :: t[i] == es[i];
      TableNone(input, h, t, s);
    }
  }

  lemma TableMore(input: seq<byte>, h: seq<int>, es: seq<nat>, p: nat)
    requires |h| == HSIZE
    ensures Table(input, h, es + [p]) == Table(input, h, es)[SlotAt(input, p) := p]
  {
    hide SlotAt;
    assert (es + [p])[..|es|] == es;
  }

  /** A repetition is found: when the last position that was entered into the slot of the bytes
      at visit i can be used, the visit is no literal, but refers to it. */
  lemma RepetitionTaken(input: seq<byte>, h: seq<int>, vs: seq<Visit>, i: nat, j: nat)
    requires |h| == HSIZE && Trace(input, h, vs) && i < |vs|
    requires var es := Entered(|input|, vs[..i]);
             && j < |es| && SlotAt(input, es[j]) == SlotAt(input, vs[i].pos)
             && (forall k | j < k < |es| :: SlotAt(input, es[k]) != SlotAt(input, vs[i].pos))
             && Usable(input, es[j], vs[i].pos)
    ensures vs[i].ref == Entered(|input|, vs[..i])[j] && vs[i].len >= 3
    ensures i < |Plan(vs)| && Plan(vs)[i] == Copy(vs[i].pos - vs[i].ref - 1, vs[i].len - 2)
  {
    hide SlotAt, Entered, Table, Usable;
    TraceAt(input, h, vs, i);
    TableLast(input, h, Entered(|input|, vs[..i]), j);
    PlanAt(vs, i);
  }

  // ------------------------------------------------------------ tokens

  /** A literal byte, or a reference. */
  datatype Unit = One | Copy(off: int, len: int)

  function Ones(n: nat): (us: seq<Unit>)
    ensures |us| == n
  {
    seq(n, _ => One)
  }

  /** What tokens stand for, with their literals one by one. */
  function Units(ts: seq<Token>): (us: seq<Unit>) {
    if ts == [] then [] else Units(ts[..|ts| - 1]) + TokenUnits(ts[|ts| - 1])
  }

  function TokenUnits(t: Token): (us: seq<Unit>) {
    match t
    case Lit(data) => Ones(|data|)
    case Ref(off, len) => [Copy(off, len)]
  }

  lemma UnitsMore(ts: seq<Token>, t: Token)
    ensures Units(ts + [t]) == Units(ts) + TokenUnits(t)
  {
    hide TokenUnits;
    assert (ts + [t])[..|ts|] == ts;
  }

  lemma OnesJoin(a: nat, b: nat)
    ensures Ones(a) + Ones(b) == Ones(a + b) && Ones(1) == [One] && Ones(0) == []
  {
  }

  function UnitOf(v: Visit): (u: Unit) {
    if v.len == 1 then One else Copy(v.pos - v.ref - 1, v.len - 2)
  }

  /** What the visits come to. */
  function Plan(vs: seq<Visit>): (us: seq<Unit>)
    ensures |us| == |vs|
  {
    if vs == [] then [] else Plan(vs[..|vs| - 1]) + [UnitOf(vs[|vs| - 1])]
  }

  lemma {:induction false} PlanAt(vs: seq<Visit>, i: nat)
    requires i < |vs|
    ensures Plan(vs)[i] == UnitOf(vs[i])
    decreases |vs|
  {
    hide UnitOf;
    if i < |vs| - 1 {
      PlanAt(vs[..|vs| - 1], i);
    }
  }

  // ------------------------------------------------------------ bytes

  /** The output pointer and the length of the open run: a run of 32 literals is closed, and
      the next control byte is reserved. */
  datatype Output = Output(op: nat, lit: nat)

  function SpentOn(o: Output, v: Visit): (r: Output)
    requires o.op >= 1
    ensures r.op >= 1
  {
    if v.len == 1 then
      if o.lit + 1 == MAX_LIT then Output(o.op + 2, 0) else Output(o.op + 1, o.lit + 1)
    else
      Output((if o.lit == 0 then o.op - 1 else o.op) + if v.len < 9 then 3 else 4, 0)
  }

  function Spent(vs: seq<Visit>): (r: Output)
    ensures r.op >= 1
  {
    if vs == [] then Output(1, 0) else SpentOn(Spent(vs[..|vs| - 1]), vs[|vs| - 1])
  }

  /** Nothing costs more than literals do, one control byte for every 32. */
  lemma {:induction false} SpentBound(input: seq<byte>, h: seq<int>, vs: seq<Visit>)
    requires |h| == HSIZE && Trace(input, h, vs)
    ensures var o := Spent(vs);
            && o.lit < MAX_LIT && o.lit < o.op && o.lit <= End(vs) <= |input|
            && 32 * (o.op - o.lit - 1) <= 33 * (End(vs) - o.lit)
  {
    hide Table, Entered, SlotAt, Usable;
    if vs != [] {
      SpentBound(input, h, vs[..|vs| - 1]);
    }
  }

  // ------------------------------------------------------------ periodic input

  predicate Periodic(input: seq<byte>, p: nat) {
    p > 0 && forall i | p <= i < |input| :: input[i] == input[i - p]
  }

  /** Periodic, and the windows of one period have different slots. */
  predicate Repetitive(input: seq<byte>, p: nat) {
    && Periodic(input, p) && p <= MAX_OFF && p + 2 <= |input|
    && forall i, j | 0 <= i < j < p :: SlotAt(input, i) != SlotAt(input, j)
  }

  lemma ModStep(i: nat, p: nat)
    requires 0 < p <= i
    ensures (i - p) % p == i % p
  {
    var q, r := i / p, i % p;
    assert i == p * q + r;
    assert p * (q - 1) == p * q - p;
    DivModUnique(i - p, p, q - 1, r);
  }

  lemma {:induction false} SlotMod(input: seq<byte>, p: nat, i: nat)
    requires Periodic(input, p) && i + 2 < |input|
    ensures SlotAt(input, i) == SlotAt(input, i % p)
    decreases i
  {
    hide Slot;
    if i < p {
      DivModUnique(i, p, 0, i);
    } else {
      SlotMod(input, p, i - p);
      ModStep(i, p);
    }
  }

  lemma {:induction false} ByteMod(input: seq<byte>, p: nat, i: nat)
    requires Periodic(input, p) && i < |input|
    ensures i % p < |input| && input[i] == input[i % p]
    decreases i
  {
    if i < p {
      DivModUnique(i, p, 0, i);
    } else {
      ByteMod(input, p, i - p);
      ModStep(i, p);
    }
  }

  /** Positions share a slot if and only if they are whole periods apart. */
  lemma SameSlotIff(input: seq<byte>, p: nat, a: nat, b: nat)
    requires Repetitive(input, p) && a + 2 < |input| && b + 2 < |input|
    ensures SlotAt(input, a) == SlotAt(input, b) <==> a % p == b % p
  {
    hide SlotAt;
    SlotMod(input, p, a);
    SlotMod(input, p, b);
    assert 0 <= a % p < p && 0 <= b % p < p;
  }

  lemma ModClose(a: nat, b: nat, p: nat)
    requires p > 0 && a < b < a + p
    ensures a % p != b % p
  {
    if a % p == b % p {
      var k := b / p - a / p;
      assert b - a == p * k;
      assert k > 0;
      MulAtLeast(p, k);
    }
  }

  /** How many literals there are at the end. */
  function Trailing(vs: seq<Visit>): (c: nat)
    ensures c <= |vs|
  {
    if vs == [] || vs[|vs| - 1].len > 1 then 0 else Trailing(vs[..|vs| - 1]) + 1
  }

  /** The last positions entered are those of the literals at the end. */
  lemma {:induction false} TrailingEntered(input: seq<byte>, h: seq<int>, vs: seq<Visit>)
    requires |h| == HSIZE && Trace(input, h, vs)
    ensures var es, c, e := Entered(|input|, vs), Trailing(vs), End(vs);
            && c <= e && c <= |es|
            && (forall k | |es| - c <= k < |es| :: es[k] == e - (|es| - k))
            && (forall k | 0 <= k < |es| :: es[k] + 2 < |input|)
  {
    hide Table, SlotAt, Usable, EnteredBy;
    if vs != [] {
      var us, v := vs[..|vs| - 1], vs[|vs| - 1];
      TrailingEntered(input, h, us);
      EnteredInside(input, v, Table(input, h, Entered(|input|, us)));
      var es, more := Entered(|input|, us), EnteredBy(|input|, v);
      assert Entered(|input|, vs) == es + more;
    }
  }

  lemma EnteredInside(input: seq<byte>, v: Visit, table: seq<int>)
    requires |table| == HSIZE && VisitOk(input, table, v)
    ensures v.len == 1 ==> EnteredBy(|input|, v) == [v.pos]
    ensures forall k | 0 <= k < |EnteredBy(|input|, v)| :: EnteredBy(|input|, v)[k] + 2 < |input|
  {
    hide SlotAt, Usable;
  }

  /** Behind p literals or more, the table offers the byte one period before. */
  lemma FreshEntry(input: seq<byte>, h: seq<int>, vs: seq<Visit>, p: nat)
    requires |h| == HSIZE && Trace(input, h, vs) && Repetitive(input, p)
    requires Trailing(vs) >= p && End(vs) + 2 < |input|
    ensures End(vs) >= p && Table(input, h, Entered(|input|, vs))[SlotAt(input, End(vs))] == End(vs) - p
    ensures End(vs) > p && End(vs) + 4 < |input| ==> Usable(input, End(vs) - p, End(vs))
  {
    hide Table, SlotAt, Entered, Trailing, End, Trace, Repetitive;
    var es, c, e := Entered(|input|, vs), Trailing(vs), End(vs);
    TrailingEntered(input, h, vs);
    RepetitivePeriod(input, p);
    var j := |es| - p;
    assert es[j] == e - p;
    ModStep(e, p);
    SameSlotIff(input, p, e - p, e);
    forall i | j < i < |es|
      ensures SlotAt(input, es[i]) != SlotAt(input, es[j])
    {
      assert es[i] == e - (|es| - i);
      ModClose(es[j], es[i], p);
      SameSlotIff(input, p, es[j], es[i]);
    }
    TableLast(input, h, es, j);
    WindowRepeats(input, p, e);
  }

  /** With a period of one or two bytes, the table offers the byte one period before right
      behind a repetition as well. */
  lemma AtOnce(input: seq<byte>, h: seq<int>, vs: seq<Visit>, p: nat)
    requires |h| == HSIZE && Trace(input, h, vs) && Repetitive(input, p) && p <= 2
    requires vs != [] && vs[|vs| - 1].len > 1 && End(vs) + 4 < |input|
    ensures Offers(input, h, vs, End(vs) - p) && Usable(input, End(vs) - p, End(vs))
  {
    hide Table, SlotAt, Repetitive, Usable, Trace, Entered, End, Periodic, Offers;
    LastTwoEntered(input, h, vs);
    RepetitivePeriod(input, p);
    OnePeriod(input, p, End(vs));
    if p == 1 {
      LastOffered(input, h, vs);
    } else {
      NotOnePeriod(input, p, End(vs) - 2, End(vs) - 1);
      LastButOneOffered(input, h, vs);
    }
  }

  /** What the table holds for the next position. */
  ghost predicate Offers(input: seq<byte>, h: seq<int>, vs: seq<Visit>, ref: int)
    requires |h| == HSIZE
  {
    Table(input, h, Entered(|input|, vs))[SlotAt(input, End(vs))] == ref
  }

  lemma LastOffered(input: seq<byte>, h: seq<int>, vs: seq<Visit>)
    requires |h| == HSIZE && End(vs) >= 1
    requires var es := Entered(|input|, vs); es != [] && es[|es| - 1] == End(vs) - 1
    requires SlotAt(input, End(vs) - 1) == SlotAt(input, End(vs))
    ensures Offers(input, h, vs, End(vs) - 1)
  {
    hide Table, SlotAt, Entered, End;
    var es := Entered(|input|, vs);
    TableLast(input, h, es, |es| - 1);
  }

  lemma LastButOneOffered(input: seq<byte>, h: seq<int>, vs: seq<Visit>)
    requires |h| == HSIZE && End(vs) >= 2
    requires var es := Entered(|input|, vs);
             |es| >= 2 && es[|es| - 1] == End(vs) - 1 && es[|es| - 2] == End(vs) - 2
    requires SlotAt(input, End(vs) - 2) == SlotAt(input, End(vs)) != SlotAt(input, End(vs) - 1)
    ensures Offers(input, h, vs, End(vs) - 2)
  {
    hide Table, SlotAt, Entered, End;
    LastButOne(input, h, Entered(|input|, vs));
  }

  lemma LastButOne(input: seq<byte>, h: seq<int>, es: seq<nat>)
    requires |h| == HSIZE && |es| >= 2
    requires SlotAt(input, es[|es| - 2]) != SlotAt(input, es[|es| - 1])
    ensures Table(input, h, es)[SlotAt(input, es[|es| - 2])] == es[|es| - 2]
  {
    hide SlotAt, Table;
    TableLast(input, h, es, |es| - 2);
  }

  lemma OnePeriod(input: seq<byte>, p: nat, e: nat)
    requires Repetitive(input, p) && p < e && e + 4 < |input|
    ensures SlotAt(input, e - p) == SlotAt(input, e) && Usable(input, e - p, e)
  {
    hide SlotAt, Repetitive, Periodic;
    RepetitivePeriod(input, p);
    ModStep(e, p);
    SameSlotIff(input, p, e - p, e);
    WindowRepeats(input, p, e);
    UsableIf(input, e - p, e);
  }

  lemma NotOnePeriod(input: seq<byte>, p: nat, a: nat, b: nat)
    requires Repetitive(input, p) && a < b < a + p && b + 2 < |input|
    ensures SlotAt(input, a) != SlotAt(input, b)
  {
    hide SlotAt;
    ModClose(a, b, p);
    SameSlotIff(input, p, a, b);
  }

  lemma LastTwoEntered(input: seq<byte>, h: seq<int>, vs: seq<Visit>)
    requires |h| == HSIZE && Trace(input, h, vs)
    requires vs != [] && vs[|vs| - 1].len > 1 && End(vs) + 2 < |input|
    ensures var es, e := Entered(|input|, vs), End(vs);
            |es| >= 2 && e >= 3 && es[|es| - 1] == e - 1 && es[|es| - 2] == e - 2
  {
    hide Table, SlotAt, Usable;
  }

  lemma UsableIf(input: seq<byte>, ref: nat, pos: nat)
    requires 0 < ref < pos && pos - ref <= MAX_OFF && pos + 4 < |input| && input[ref..ref + 3] == input[pos..pos + 3]
    ensures Usable(input, ref, pos)
  {
  }

  lemma RepetitivePeriod(input: seq<byte>, p: nat)
    requires Repetitive(input, p)
    ensures 0 < p <= MAX_OFF && Periodic(input, p)
  {
  }

  lemma WindowRepeats(input: seq<byte>, p: nat, e: nat)
    requires Periodic(input, p) && p <= e && e + 2 < |input|
    ensures input[e - p..e - p + 3] == input[e..e + 3]
  {
  }

  lemma UsableSlot(input: seq<byte>, ref: int, pos: nat)
    requires Usable(input, ref, pos)
    ensures SlotAt(input, ref) == SlotAt(input, pos)
  {
    hide Slot;
    var a, b := input[ref..ref + 3], input[pos..pos + 3];
    assert a[0] == input[ref] && a[1] == input[ref + 1] && a[2] == input[ref + 2];
    assert b[0] == input[pos] && b[1] == input[pos + 1] && b[2] == input[pos + 2];
  }

  /** Before a whole period has passed there is nothing to refer to, whatever the table held. */
  lemma TooEarly(input: seq<byte>, p: nat, ref: int, pos: nat)
    requires Repetitive(input, p) && pos <= p
    ensures !Usable(input, ref, pos)
  {
    hide SlotAt;
    if Usable(input, ref, pos) {
      UsableSlot(input, ref, pos);
      RepetitivePeriod(input, p);
      SameSlotIff(input, p, ref, pos);
      ModClose(ref, pos, p);
    }
  }

  /** A repetition goes on to the limit of a reference, or to the end. */
  lemma GoesOn(input: seq<byte>, p: nat, ref: int, pos: nat, len: nat)
    requires Repetitive(input, p) && Usable(input, ref, pos) && Longest(input, ref, pos, len)
    ensures len == MAX_REF || pos + len + 2 >= |input|
  {
    hide SlotAt, Repetitive;
    UsableSlot(input, ref, pos);
    RepetitivePeriod(input, p);
    SameSlotIff(input, p, ref, pos);
    if pos + len < |input| {
      ModAdd(ref, pos, len, p);
      ByteMod(input, p, ref + len);
      ByteMod(input, p, pos + len);
    }
  }

  lemma ModAdd(a: nat, b: nat, k: nat, p: nat)
    requires p > 0 && a % p == b % p
    ensures (a + k) % p == (b + k) % p
  {
    var d, q, r := b / p - a / p, (a + k) / p, (a + k) % p;
    assert b - a == p * d;
    assert b + k == p * (q + d) + r by { assert a + k == p * q + r; }
    DivModUnique(b + k, p, q + d, r);
  }

  /** What the output pointer has come to at e, with c literals at the end: at first only
      literals; then a repetition that saves more than 250 bytes, or reaches the end. */
  predicate Thrifty(n: nat, p: nat, o: Output, e: nat, c: nat) {
    && o.lit == c % 32 && c <= e <= n
    && if c == e then o.op == e + 1 + e / 32 && (e <= p + 1 || n <= p + 5)
       else
         || (o.op + 259 <= e + (p + 1) / 32 + c / 32 && e > p + 1 && (c <= p || c + n <= p + e + 4))
         || (e + 2 >= n && (o.op <= p + 6 + (p + 1) / 32 || o.op + 258 <= e + (p + 1) / 32 + (p + 2) / 32))
  }

  lemma {:induction false} PeriodicSpent(input: seq<byte>, h: seq<int>, vs: seq<Visit>, p: nat)
    requires |h| == HSIZE && Trace(input, h, vs) && Repetitive(input, p)
    ensures Thrifty(|input|, p, Spent(vs), End(vs), Trailing(vs))
  {
    hide Table, SlotAt, Entered, Thrifty, Repetitive, Usable, Longest;
    if vs == [] {
      ThriftyStart(|input|, p);
    } else {
      var us, v := vs[..|vs| - 1], vs[|vs| - 1];
      var c, e, table := Trailing(us), End(us), Table(input, h, Entered(|input|, us));
      PeriodicSpent(input, h, us, p);
      RepetitivePeriod(input, p);
      if e <= p {
        TooEarly(input, p, v.ref, e);
      }
      if c >= p {
        FreshEntry(input, h, us, p);
      }
      if Usable(input, v.ref, e) {
        GoesOn(input, p, v.ref, e, v.len);
        UsableEnd(input, v.ref, e, v.len);
        ThriftyCopy(|input|, p, Spent(us), e, c, v);
      } else {
        ThriftyLiteral(|input|, p, Spent(us), e, c, v);
      }
    }
  }

  lemma UsableEnd(input: seq<byte>, ref: int, pos: nat, len: nat)
    requires Usable(input, ref, pos) && Longest(input, ref, pos, len)
    ensures pos + 4 < |input| && 3 <= len <= MAX_REF && pos + len <= |input|
  {
  }

  lemma ThriftyStart(n: nat, p: nat)
    ensures Thrifty(n, p, Output(1, 0), 0, 0)
  {
  }

  lemma ThriftyLiteral(n: nat, p: nat, o: Output, e: nat, c: nat, v: Visit)
    requires Thrifty(n, p, o, e, c) && e + 2 < n && v.len == 1 && o.op >= 1 && p > 0
    requires c >= p && e > p ==> e + 4 >= n
    ensures Thrifty(n, p, SpentOn(o, v), e + 1, c + 1)
  {
    NextOf32(c);
    NextOf32(e);
  }

  lemma NextOf32(c: nat)
    ensures if c % 32 == 31 then (c + 1) % 32 == 0 && (c + 1) / 32 == c / 32 + 1
            else (c + 1) % 32 == c % 32 + 1 && (c + 1) / 32 == c / 32
  {
  }

  lemma ThriftyCopy(n: nat, p: nat, o: Output, e: nat, c: nat, v: Visit)
    requires Thrifty(n, p, o, e, c) && o.op >= 1 && 0 < p <= MAX_OFF && p < e && e + 4 < n
    requires 3 <= v.len <= MAX_REF && e + v.len <= n && (v.len == MAX_REF || e + v.len + 2 >= n)
    ensures Thrifty(n, p, SpentOn(o, v), e + v.len, 0)
  {
    if c == e {
      assert e == p + 1;
    } else {
      assert c <= p;
      assert c / 32 <= (p + 2) / 32 <= 256;
    }
  }

  /** The room that suffices for n bytes of period p. */
  predicate RoomFor(n: nat, p: nat, outLen: nat) {
    outLen > p + 10 + (p + 5) / 32 && outLen + 254 > n + (p + 1) / 32 + (p + 2) / 32
  }

  lemma PeriodicRoom(input: seq<byte>, h: seq<int>, vs: seq<Visit>, p: nat, outLen: nat)
    requires |h| == HSIZE && Trace(input, h, vs) && Repetitive(input, p) && RoomFor(|input|, p, outLen)
    ensures outLen > Spent(vs).op + 4
  {
    hide Spent, Trace, Repetitive, Trailing, End;
    PeriodicSpent(input, h, vs, p);
    ThriftyBound(|input|, p, Spent(vs), End(vs), Trailing(vs));
  }

  lemma ThriftyBound(n: nat, p: nat, o: Output, e: nat, c: nat)
    requires Thrifty(n, p, o, e, c)
    ensures o.op <= p + 6 + (p + 5) / 32 || o.op + 258 <= n + (p + 1) / 32 + (p + 2) / 32
  {
  }

  /** The input has some period for which there is room. */
  ghost predicate Compressible(input: seq<byte>, outLen: nat) {
    exists p: nat :: Repetitive(input, p) && RoomFor(|input|, p, outLen)
  }

  predicate AllEqual(input: seq<byte>) {
    forall i | 0 <= i < |input| :: input[i] == input[0]
  }

  /** Equal bytes have period one. */
  lemma EqualRepeats(input: seq<byte>, outLen: nat)
    requires AllEqual(input) && |input| >= 20 && outLen >= |input| - 4
    ensures Compressible(input, outLen)
  {
    hide SlotAt;
    assert Repetitive(input, 1) && RoomFor(|input|, 1, outLen);
  }

  /** The letters a to d, over and over. */
  function Letters(n: nat): (s: seq<byte>)
    ensures |s| == n
  {
    seq(n, i requires 0 <= i => 97 + i % 4)
  }

  lemma LettersRepeat(n: nat, outLen: nat)
    requires n >= 20 && outLen >= n - 4
    ensures Compressible(Letters(n), outLen)
  {
    hide SlotAt;
    var s := Letters(n);
    forall i | 4 <= i < n
      ensures s[i] == s[i - 4]
    {
      ModStep(i, 4);
    }
    LetterSlots(n);
    assert Repetitive(s, 4) && RoomFor(n, 4, outLen);
  }

  lemma LetterSlots(n: nat)
    requires n >= 6
    ensures var s := Letters(n);
            && SlotAt(s, 0) == 30067 && SlotAt(s, 1) == 29039 && SlotAt(s, 2) == 28031 && SlotAt(s, 3) == 32119
  {
    var s := Letters(n);
    assert s[0] == 97 && s[1] == 98 && s[2] == 99 && s[3] == 100 && s[4] == 97 && s[5] == 98;
    assert Hash3(97, 98, 99) == 6382179 && Hash3(98, 99, 100) == 6447972;
    assert Hash3(99, 100, 97) == 6513761 && Hash3(100, 97, 98) == 6578530;
  }
}
