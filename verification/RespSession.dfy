/** A connection that receives commands: PClient::handlePacket and HandlePackets of
    src/client.cc with the input buffer of TcpObject::OnRecvData in src/net/tcp_obj.cc.
    Its delivered commands are exactly those whose bytes have arrived. */
module RespSession {
  import opened Bytes
  import opened RespWriter
  import opened RespLines
  import opened RespGrammar
  import opened RespParser

  type Cmd = seq<seq<byte>>

  /** The bytes of several commands. */
  function Commands(cs: seq<Cmd>): (s: seq<byte>) {
    if cs == [] then [] else Command(cs[0]) + Commands(cs[1..])
  }

  lemma {:induction false} CommandsAppend(a: seq<Cmd>, b: seq<Cmd>)
    ensures Commands(a + b) == Commands(a) + Commands(b)
  {
    hide Command;
    if a == [] {
      assert a + b == b;
    } else {
      CommandsAppend(a[1..], b);
      assert (a + b)[0] == a[0] && (a + b)[1..] == a[1..] + b;
      Assoc3(Command(a[0]), Commands(a[1..]), Commands(b));
    }
  }

  lemma CommandsOne(c: Cmd)
    ensures Commands([c]) == Command(c)
  {
    hide Command;
    assert [c][1..] == [];
    assert Command(c) + [] == Command(c);
  }

  /** A stream of commands may be cut behind its first n bytes. */
  predicate SafeStream(cs: seq<Cmd>, n: nat) {
    cs == [] ||
    if n < |Command(cs[0])| then SafeCut(cs[0], n) else SafeStream(cs[1..], n - |Command(cs[0])|)
  }

  /** Every command has a name and lengths the parser can hold. */
  ghost predicate Sendable(cs: seq<Cmd>) {
    forall i | 0 <= i < |cs| :: cs[i] != [] && Holdable(cs[i])
  }

  lemma SafeTotal(p: ProtoParser, cmd: Cmd, n: nat)
    requires p.Within(cmd)
    ensures |p.Rest(cmd)| <= |Command(cmd)|
    ensures p.Safe(cmd, n) == SafeCut(cmd, |Command(cmd)| - |p.Rest(cmd)| + n)
  {
    hide Command, SafeCut, Remaining, SafeFrom;
    if p.multi != -1 {
      SafeAbsolute(cmd, p.numOfParam, p.paramLen, n);
    }
  }

  class Session {
    const parser: ProtoParser
    var input: seq<byte>
    var delivered: seq<Cmd>
    var closed: bool

    constructor ()
      ensures fresh(parser) && parser.Initial() && input == [] && delivered == [] && !closed
    {
      parser := new ProtoParser();
      input, delivered, closed := [], [], false;
    }

    /** What the commands cs, of which the first is being parsed, have yet to send. */
    ghost function Left(cs: seq<Cmd>): (s: seq<byte>)
      reads parser
      requires cs != [] ==> parser.Within(cs[0])
    {
      if cs == [] then [] else parser.Rest(cs[0]) + Commands(cs[1..])
    }

    /** The parser is ready for the first of the commands cs, and data, not consumed so far,
        ends in their bytes at a safe cut. */
    ghost predicate Ready(cs: seq<Cmd>, data: seq<byte>)
      reads parser
    {
      && Sendable(cs)
      && (if cs == [] then parser.Initial() else parser.Within(cs[0]) && parser.Rest(cs[0]) != [])
      && data <= Left(cs) && |Left(cs)| <= |Commands(cs)|
      && SafeStream(cs, |Commands(cs)| - |Left(cs)| + |data|)
    }

    /** The first n bytes of was are behind, the rest is ahead. */
    ghost predicate Onward(cs: seq<Cmd>, was: seq<byte>, n: nat)
      reads parser
    {
      (cs != [] ==> parser.Within(cs[0])) && n <= |was| && Left(cs) == was[n..]
    }

    /** What becomes of any bytes, in the words of the grammar: first has been read before, and
        started says that the count is known by then. */
    ghost predicate Answered(v: Verdict, first: Cmd, was: seq<Cmd>, wasClosed: bool, started: bool, processed: nat)
      reads this, parser
    {
      match v
      case Whole(n, texts) =>
        && processed == n && parser.Initial() && closed == wasClosed
        && delivered == was + if first + texts == [] then [] else [first + texts]
      case Part(n, _, _) => processed == n && delivered == was && closed == wasClosed
      case Bad(_) => processed == 0 && delivered == was && closed == (wasClosed || started)
    }

    /** handlePacket: parse one command and execute it, or wait, or close the connection when a
        command that has begun is malformed. */
    method HandlePacket(data: seq<byte>, ghost cs: seq<Cmd>) returns (processed: nat)
      modifies this`delivered, this`closed, parser
      ensures old(Ready(cs, data)) && cs != [] ==>
                if |data| >= old(|parser.Rest(cs[0])|) then
                  && processed == old(|parser.Rest(cs[0])|) && delivered == old(delivered) + [cs[0]]
                  && Ready(cs[1..], data[processed..]) && Onward(cs[1..], old(Left(cs)), processed)
                else
                  && processed <= |data| && delivered == old(delivered)
                  && Ready(cs, data[processed..]) && Onward(cs, old(Left(cs)), processed)
                  && |data| - processed < |parser.Rest(cs[0])|
      ensures old(parser.Initial()) ==>
                Answered(RequestVerdict(data), [], old(delivered), old(closed), LineStatus(STAR, data) == Ok, processed)
      ensures old(parser.multi) != -1 && old(parser.numOfParam) <= |old(parser.params)| ==>
                var first := old(parser.params[..parser.numOfParam]);
                Answered(StrsVerdict(Count(old(parser.multi) - |first|), old(parser.paramLen), data), first,
                         old(delivered), old(closed), true, processed)
    {
      hide Command, Commands, SafeCut, Remaining, SafeFrom, Holdable, Agree, SafeStream, RequestVerdict, StrsVerdict,
           LineStatus, LineVal, Count;
      ghost var ready := Ready(cs, data) && cs != [];
      ghost var rest := if ready then parser.Rest(cs[0]) else [];
      if ready {
        FirstPart(data, rest, Commands(cs[1..]));
        SafeTotal(parser, cs[0], |data|);
        StreamStep(cs, |Command(cs[0])| - |rest| + |data|);
      }
      ghost var params, k := parser.params, parser.numOfParam;
      assert params[..0] == [];
      var res, ptr := parser.ParseRequest(data, if cs == [] then [] else cs[0]);
      if res.Error? {
        if parser.multi != -1 {
          closed := true;
        }
        return 0;
      }
      if res.Wait? {
        if ready {
          DropFront(rest, Commands(cs[1..]), ptr);
        }
        return ptr;
      }
      if parser.params != [] {
        delivered := delivered + [parser.params];
      }
      parser.Reset();
      if ready {
        LeftInitial(cs[1..]);
        DropFront(rest, Commands(cs[1..]), ptr);
      }
      return ptr;
    }

    /** After all of cs but left, what is not consumed is short of another command. */
    ghost predicate Caught(cs: seq<Cmd>, left: seq<Cmd>, was: seq<Cmd>, data: seq<byte>)
      reads this, parser
    {
      && |left| <= |cs| && left == cs[|cs| - |left|..] && delivered == was + cs[..|cs| - |left|]
      && Ready(left, data) && (left != [] ==> |data| < |parser.Rest(left[0])|)
    }

    /** HandlePackets: as many commands as the data holds. */
    method HandlePackets(data: seq<byte>, ghost cs: seq<Cmd>) returns (total: nat, ghost left: seq<Cmd>)
      modifies this`delivered, this`closed, parser
      ensures old(Ready(cs, data)) ==>
                && total <= |data| && Caught(cs, left, old(delivered), data[total..])
                && Onward(left, old(Left(cs)), total)
    {
      hide Session.Ready, Session.Left, Session.Onward, Session.Answered, ProtoParser.Rest, ProtoParser.Within,
           RequestVerdict, StrsVerdict, LineStatus, Count;
      total, left := 0, cs;
      ghost var ready := Ready(cs, data);
      if ready {
        ReadyMeans(cs, data);
      }
      ghost var was := if ready then Left(cs) else [];
      assert data[0..] == data;
      if ready {
        OnwardStart(cs);
      }
      while total < |data|
        invariant ready ==> total <= |data| && |left| <= |cs| && left == cs[|cs| - |left|..]
        invariant ready ==> delivered == old(delivered) + cs[..|cs| - |left|] && Ready(left, data[total..])
        invariant ready ==> Onward(left, was, total)
        decreases |data| - total
      {
        if ready {
          ReadyMeans(left, data[total..]);
          OnwardMeans(left, was, total);
        }
        ghost var whole := ready && |data| - total >= |parser.Rest(left[0])|;
        var processed := HandlePacket(data[total..], left);
        if ready {
          DropTwice(data, total, processed);
          OnwardTwice(if whole then left[1..] else left, was, total, processed);
        }
        if processed <= 0 {
          break;
        }
        if whole {
          OneLess(cs, left);
          left := left[1..];
        }
        total := total + processed;
      }
      if ready {
        ReadyMeans(left, data[total..]);
      }
    }

    /** Caught up with all of cs but left, with the first n bytes of data consumed. */
    ghost predicate Progress(cs: seq<Cmd>, left: seq<Cmd>, was: seq<Cmd>, ahead: seq<byte>, data: seq<byte>, n: nat)
      reads this, parser
    {
      && |left| <= |cs| && left == cs[|cs| - |left|..] && delivered == was + cs[..|cs| - |left|]
      && n <= |data| && Ready(left, data[n..]) && Onward(left, ahead, n)
    }

    lemma ProgressStart(cs: seq<Cmd>, data: seq<byte>)
      requires Ready(cs, data)
      ensures Progress(cs, cs, delivered, Left(cs), data, 0)
    {
      hide Session.Ready, Session.Left, Session.Onward;
      ReadyMeans(cs, data);
      OnwardStart(cs);
      assert data[0..] == data;
    }

    lemma ProgressOn(cs: seq<Cmd>, left: seq<Cmd>, l: seq<Cmd>, was: seq<Cmd>, ahead: seq<byte>, data: seq<byte>,
                     n: nat, m: nat)
      requires |left| <= |cs| && left == cs[|cs| - |left|..] && n <= |ahead| && n + m <= |data|
      requires Caught(left, l, was + cs[..|cs| - |left|], data[n..][m..]) && Onward(l, ahead[n..], m)
      ensures Progress(cs, l, was, ahead, data, n + m)
    {
      hide Session.Ready, Session.Left, Session.Onward;
      DropTwice(data, n, m);
      OnwardTwice(l, ahead, n, m);
      SuffixTwice(cs, left, l);
      Assoc3(was, cs[..|cs| - |left|], left[..|left| - |l|]);
    }

    lemma ProgressMeans(cs: seq<Cmd>, left: seq<Cmd>, was: seq<Cmd>, ahead: seq<byte>, data: seq<byte>, n: nat)
      requires Progress(cs, left, was, ahead, data, n)
      ensures |left| <= |cs| && left == cs[|cs| - |left|..] && delivered == was + cs[..|cs| - |left|]
      ensures n <= |data| && n <= |ahead| && Ready(left, data[n..])
      ensures left != [] ==> parser.Within(left[0])
      ensures Left(left) == ahead[n..]
    {
      hide Session.Ready, Session.Left;
    }

    /** Lines 313-327: offer the data until nothing more is consumed. */
    method Consume(data: seq<byte>, ghost cs: seq<Cmd>) returns (total: nat, ghost left: seq<Cmd>)
      modifies this`delivered, this`closed, parser
      ensures old(Ready(cs, data)) ==>
                && Progress(cs, left, old(delivered), old(Left(cs)), data, total)
                && (total == |data| || (left != [] ==> |data| - total < |parser.Rest(left[0])|))
    {
      hide Session.Ready, Session.Left, Session.Onward, Session.Progress, ProtoParser.Rest, ProtoParser.Within;
      ghost var ready := Ready(cs, data);
      if ready {
        ReadyMeans(cs, data);
        ProgressStart(cs, data);
      }
      ghost var ahead := if ready then Left(cs) else [];
      total, left := 0, cs;
      while total < |data|
        invariant ready ==> Progress(cs, left, old(delivered), ahead, data, total)
        decreases |data| - total
      {
        if ready {
          ProgressMeans(cs, left, old(delivered), ahead, data, total);
        }
        ghost var l;
        var consumed;
        consumed, l := HandlePackets(data[total..], left);
        if ready {
          ProgressOn(cs, left, l, old(delivered), ahead, data, total, consumed);
          left := l;
        }
        if consumed <= 0 {
          break;
        }
        total := total + consumed;
      }
      if ready {
        ProgressMeans(cs, left, old(delivered), ahead, data, total);
      }
    }

    /** OnRecvData: the arriving bytes join those not consumed; whatever is then consumed is
        drained. */
    method OnRecvData(chunk: seq<byte>, ghost cs: seq<Cmd>) returns (ghost left: seq<Cmd>, ghost drained: nat)
      modifies this, parser
      ensures old(Ready(cs, input + chunk)) ==>
                && Caught(cs, left, old(delivered), input) && Onward(left, old(Left(cs)), drained)
                && drained <= |old(input) + chunk| && input == (old(input) + chunk)[drained..]
    {
      hide Session.Ready, Session.Left, ProtoParser.Rest, ProtoParser.Within;
      var data := input + chunk;
      var total;
      total, left := Consume(data, cs);
      if old(Ready(cs, input + chunk)) {
        ReadyMeans(left, data[total..]);
      }
      input := if total <= |data| then data[total..] else [];
      drained := total;
    }

    lemma OnwardStart(cs: seq<Cmd>)
      requires cs != [] ==> parser.Within(cs[0])
      ensures Onward(cs, Left(cs), 0)
    {
      assert Left(cs)[0..] == Left(cs);
    }

    lemma OnwardMeans(cs: seq<Cmd>, was: seq<byte>, n: nat)
      requires Onward(cs, was, n)
      ensures n <= |was| && (cs != [] ==> parser.Within(cs[0])) && Left(cs) == was[n..]
    {
    }

    lemma OnwardTwice(cs: seq<Cmd>, was: seq<byte>, n: nat, m: nat)
      requires n <= |was| && Onward(cs, was[n..], m)
      ensures Onward(cs, was, n + m)
    {
      DropTwice(was, n, m);
    }

    lemma ReadyMeans(cs: seq<Cmd>, data: seq<byte>)
      requires Ready(cs, data)
      ensures cs != [] ==> parser.Within(cs[0]) && parser.Rest(cs[0]) != []
      ensures data != [] ==> cs != []
      ensures data <= Left(cs)
    {
    }

    /** Between commands, all of the bytes of the next ones are left. */
    lemma LeftInitial(cs: seq<Cmd>)
      requires parser.Initial()
      ensures Left(cs) == Commands(cs)
    {
    }
  }

  lemma DropFront<T>(a: seq<T>, b: seq<T>, k: nat)
    requires k <= |a|
    ensures (a + b)[k..] == a[k..] + b
  {
  }

  lemma SuffixTwice<T>(cs: seq<T>, left: seq<T>, l: seq<T>)
    requires |left| <= |cs| && left == cs[|cs| - |left|..]
    requires |l| <= |left| && l == left[|left| - |l|..]
    ensures l == cs[|cs| - |l|..]
    ensures cs[..|cs| - |left|] + left[..|left| - |l|] == cs[..|cs| - |l|]
  {
  }

  lemma OneLess<T>(cs: seq<T>, left: seq<T>)
    requires 0 < |left| <= |cs| && left == cs[|cs| - |left|..]
    ensures left[1..] == cs[|cs| - (|left| - 1)..]
    ensures cs[..|cs| - |left|] + [left[0]] == cs[..|cs| - (|left| - 1)]
  {
  }

  lemma StreamStep(cs: seq<Cmd>, n: nat)
    requires cs != []
    ensures Commands(cs) == Command(cs[0]) + Commands(cs[1..])
    ensures SafeStream(cs, n) ==
              if n < |Command(cs[0])| then SafeCut(cs[0], n) else SafeStream(cs[1..], n - |Command(cs[0])|)
  {
  }

  /** A prefix of two parts agrees with the first, and continues in the second. */
  lemma FirstPart(s: seq<byte>, a: seq<byte>, b: seq<byte>)
    requires s <= a + b
    ensures Agree(s, a) && (|s| >= |a| ==> s[|a|..] <= b)
    ensures forall k: nat | k <= |s| && k <= |a| :: s[k..] <= a[k..] + b
  {
    assert s == (a + b)[..|s|];
    if |s| >= |a| {
      assert s[..|a|] == a;
    } else {
      assert s == a[..|s|];
    }
    forall k: nat | k <= |s| && k <= |a|
      ensures s[k..] <= a[k..] + b
    {
      assert a[k..] + b == (a + b)[k..];
    }
  }

  // ------------------------------------------------------------ a whole connection

  /** How many commands lie wholly within the first n bytes of cs. */
  function Arrived(cs: seq<Cmd>, n: nat): (k: nat)
    ensures k <= |cs|
  {
    if cs == [] || n < |Command(cs[0])| then 0 else 1 + Arrived(cs[1..], n - |Command(cs[0])|)
  }

  lemma {:induction false} ArrivedAt(cs: seq<Cmd>, k: nat, n: nat)
    requires k <= |cs| && |Commands(cs[..k])| <= n
    requires k < |cs| ==> n < |Commands(cs[..k])| + |Command(cs[k])|
    ensures Arrived(cs, n) == k
  {
    hide Command;
    if k > 0 {
      var t := cs[1..];
      assert cs[..k][0] == cs[0] && cs[..k][1..] == t[..k - 1];
      ArrivedAt(t, k - 1, n - |Command(cs[0])|);
    }
  }

  lemma {:induction false} StreamSkip(cs: seq<Cmd>, k: nat, n: nat)
    requires k <= |cs|
    ensures SafeStream(cs, |Commands(cs[..k])| + n) == SafeStream(cs[k..], n)
  {
    hide Command, SafeCut;
    if k == 0 {
      assert cs[..0] == [] && cs[0..] == cs;
    } else {
      var t := cs[1..];
      StreamSkip(t, k - 1, n);
      assert cs[..k][0] == cs[0] && cs[..k][1..] == t[..k - 1];
      assert t[k - 1..] == cs[k..];
    }
  }

  /** The session s has received the first n bytes of the commands cs: it has delivered
      those that are complete, and kept the bytes it has not consumed. */
  ghost predicate Received(s: Session, cs: seq<Cmd>, left: seq<Cmd>, got: seq<byte>, behind: nat)
    reads s, s.parser
  {
    && s.Caught(cs, left, [], s.input) && s.Onward(left, Commands(cs), behind)
    && behind <= |got| && s.input == got[behind..]
  }

  /** After more bytes of the stream, up to a safe cut, the session is ready for them. */
  lemma ReadyForMore(s: Session, cs: seq<Cmd>, left: seq<Cmd>, got: seq<byte>, behind: nat, chunk: seq<byte>)
    requires Received(s, cs, left, got, behind)
    requires got + chunk <= Commands(cs) && SafeStream(cs, |got + chunk|)
    ensures s.Ready(left, s.input + chunk)
  {
    hide Command, SafeCut, Commands, SafeStream, Sendable, ProtoParser.Rest, ProtoParser.Within, Session.Left;
    var k, data := |cs| - |left|, s.input + chunk;
    assert |Commands(cs)| == |Commands(cs[..k])| + |Commands(left)| by {
      CommandsAppend(cs[..k], left);
      Halves(cs, k);
    }
    assert data <= s.Left(left) by {
      PrefixBehind(got + chunk, Commands(cs), behind);
      DropFront(got, chunk, behind);
    }
    var n := |Commands(left)| - |s.Left(left)| + |data|;
    assert n == |got + chunk| - |Commands(cs[..k])|;
    StreamSkip(cs, k, n);
  }

  lemma PrefixBehind<T>(s: seq<T>, t: seq<T>, k: nat)
    requires s <= t && k <= |s|
    ensures s[k..] <= t[k..]
  {
  }

  /** What has been delivered is what has arrived. */
  lemma DeliveredArrived(s: Session, cs: seq<Cmd>, left: seq<Cmd>, got: seq<byte>, behind: nat)
    requires Received(s, cs, left, got, behind)
    ensures s.delivered == cs[..Arrived(cs, |got|)]
  {
    hide Command, SafeCut, Commands, SafeStream, Sendable, ProtoParser.Rest;
    var k := |cs| - |left|;
    CommandsAppend(cs[..k], left);
    Halves(cs, k);
    if left != [] {
      StreamStep(left, 0);
      SafeTotal(s.parser, left[0], 0);
      assert left[0] == cs[k];
    }
    ArrivedAt(cs, k, |got|);
    assert [] + cs[..k] == cs[..k];
  }

  lemma PrefixOf<T>(a: seq<T>, b: seq<T>, c: seq<T>)
    requires a <= b <= c
    ensures a <= c
  {
  }

  lemma StartReceiving(s: Session, cs: seq<Cmd>)
    requires s.parser.Initial() && s.input == [] && s.delivered == [] && Sendable(cs) && SafeStream(cs, 0)
    ensures Received(s, cs, cs, [], 0)
  {
    hide Commands, SafeStream, Sendable;
    s.LeftInitial(cs);
    s.OnwardStart(cs);
  }

  lemma ReceivedOn(s: Session, cs: seq<Cmd>, left: seq<Cmd>, l: seq<Cmd>, got: seq<byte>, behind: nat, d: nat,
                   chunk: seq<byte>)
    requires |left| <= |cs| && left == cs[|cs| - |left|..] && behind <= |got| && behind <= |Commands(cs)|
    requires s.Caught(left, l, [] + cs[..|cs| - |left|], s.input) && s.Onward(l, Commands(cs)[behind..], d)
    requires behind + d <= |got + chunk| && s.input == (got[behind..] + chunk)[d..]
    ensures Received(s, cs, l, got + chunk, behind + d)
  {
    hide Commands, Session.Ready, Session.Left, Session.Onward;
    s.OnwardTwice(l, Commands(cs), behind, d);
    SuffixTwice(cs, left, l);
    Assoc3([], cs[..|cs| - |left|], left[..|left| - |l|]);
    DropFront(got, chunk, behind);
    DropTwice(got + chunk, behind, d);
  }

  /** However the bytes of the commands cs, or the first of them, arrive in pieces, if no
      piece ends at an unsafe cut then exactly the commands that have wholly arrived are
      delivered, in order. */
  method Receive(chunks: seq<seq<byte>>, ghost cs: seq<Cmd>) returns (commands: seq<Cmd>)
    requires Sendable(cs) && Flat(chunks) <= Commands(cs)
    requires forall i | 0 <= i <= |chunks| :: SafeStream(cs, |Flat(chunks[..i])|)
    ensures commands == cs[..Arrived(cs, |Flat(chunks)|)]
  {
    hide Commands, SafeStream, Sendable, Flat, Session.Ready, Session.Left, Session.Onward;
    var s := new Session();
    ghost var left, behind := cs, 0;
    FlatNone(chunks);
    StartReceiving(s, cs);
    for i := 0 to |chunks|
      invariant fresh(s) && fresh(s.parser)
      invariant Received(s, cs, left, Flat(chunks[..i]), behind)
    {
      ghost var got := Flat(chunks[..i]);
      FlatStep(chunks, i);
      FlatPrefix(chunks, i + 1);
      PrefixOf(Flat(chunks[..i + 1]), Flat(chunks), Commands(cs));
      ReadyForMore(s, cs, left, got, behind, chunks[i]);
      s.OnwardMeans(left, Commands(cs), behind);
      ghost var l, d;
      l, d := s.OnRecvData(chunks[i], left);
      ReceivedOn(s, cs, left, l, got, behind, d, chunks[i]);
      left, behind := l, behind + d;
    }
    WholeSlice(chunks);
    DeliveredArrived(s, cs, left, Flat(chunks), behind);
    commands := s.delivered;
  }

  /** Once all bytes are there, so are all commands. */
  lemma {:induction false} AllArrive(cs: seq<Cmd>)
    ensures Arrived(cs, |Commands(cs)|) == |cs|
  {
    hide Command;
    if cs != [] {
      AllArrive(cs[1..]);
    }
  }
}
