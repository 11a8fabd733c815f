/** The slaves of src/replication.cc: what each of them has been sent, and what it should
    have been sent given every command ever propagated. */
module ReplicaStream {
  import opened Bytes
  import opened RespWriter
  import opened RespSession

  type Id = nat

  /** PSlaveState */
  datatype State = NoState | WaitStart | WaitEnd | Online

  /** What is handed to SendPacket. */
  datatype Packet = Data(bytes: seq<byte>) | Ping

  /** A client: whether its connection takes packets, its slave info, and the packets
      replication has sent to it. */
  datatype Client = Client(open: bool, slave: Option<State>, sent: seq<Packet>)

  /** The bytes sent, PINGs aside. */
  function Stream(sent: seq<Packet>): (s: seq<byte>) {
    if sent == [] then []
    else
      var last := sent[|sent| - 1];
      Stream(sent[..|sent| - 1]) + (if last.Data? then last.bytes else [])
  }

  lemma NothingSent()
    ensures Stream([]) == []
  {
  }

  lemma StreamMore(sent: seq<Packet>, p: Packet)
    ensures Stream(sent + [p]) == Stream(sent) + (if p.Data? then p.bytes else [])
  {
    assert (sent + [p])[..|sent|] == sent;
  }

  // ------------------------------------------------------------ what each event does to one client

  /** SendPacket: nothing is sent on a closed connection, nor when there is nothing to send. */
  function Sent(c: Client, data: seq<byte>): (r: Client) {
    if c.open && data != [] then c.(sent := c.sent + [Data(data)]) else c
  }

  /** What of data goes out when its length is passed as an int: a length that comes out
      negative is refused by the output buffer. */
  function Narrowed(data: seq<byte>): (r: seq<byte>) {
    var n := Int32(|data|);
    if n <= 0 then [] else data[..n]
  }

  function AfterCommand(c: Client, data: seq<byte>): (r: Client) {
    if c.slave == Some(Online) then Sent(c, data) else c
  }

  function AfterStart(c: Client, succ: bool): (r: Client) {
    if c.slave != Some(WaitStart) then c
    else if succ then c.(slave := Some(WaitEnd))
    else c.(open := false)
  }

  /** A sync of the client itself: it joins the save that starts now, or waits for the next. */
  function AfterSync(c: Client, bgsaving: bool, forked: bool): (r: Client) {
    if c.slave == Some(WaitEnd) || c.slave == Some(Online) then c
    else
      var asking := c.(slave := Some(WaitStart));
      if bgsaving then asking else AfterStart(asking, forked)
  }

  function AfterDone(c: Client, rdb: seq<byte>, buffer: seq<byte>): (r: Client) {
    if c.slave == Some(WaitEnd) then
      Sent(Sent(Sent(c.(slave := Some(Online)), Line(DOLLAR, |rdb|)), Narrowed(rdb)), buffer)
    else c
  }

  function AfterPing(c: Client): (r: Client) {
    if c.slave == Some(Online) && c.open then c.(sent := c.sent + [Ping]) else c
  }

  // ------------------------------------------------------------ what a slave should have been sent

  /** A propagated command; live unless it was propagated during a replication save. */
  datatype Entry = Entry(cmd: Cmd, live: bool)

  function Cmds(log: seq<Entry>): (cs: seq<Cmd>)
    ensures |cs| == |log|
  {
    if log == [] then [] else Cmds(log[..|log| - 1]) + [log[|log| - 1].cmd]
  }

  function LiveCmds(log: seq<Entry>): (cs: seq<Cmd>)
    ensures |cs| <= |log|
  {
    if log == [] then []
    else
      var e := log[|log| - 1];
      LiveCmds(log[..|log| - 1]) + (if e.live then [e.cmd] else [])
  }

  lemma {:induction false} CmdsAppend(a: seq<Entry>, b: seq<Entry>)
    ensures Cmds(a + b) == Cmds(a) + Cmds(b)
    decreases |b|
  {
    if b == [] {
      assert a + b == a;
    } else {
      var b' := b[..|b| - 1];
      CmdsAppend(a, b');
      assert (a + b)[..|a + b| - 1] == a + b';
      Assoc3(Cmds(a), Cmds(b'), [b[|b| - 1].cmd]);
    }
  }

  lemma {:induction false} LiveAppend(a: seq<Entry>, b: seq<Entry>)
    ensures LiveCmds(a + b) == LiveCmds(a) + LiveCmds(b)
    decreases |b|
  {
    if b == [] {
      assert a + b == a;
    } else {
      var b', e := b[..|b| - 1], b[|b| - 1];
      LiveAppend(a, b');
      assert (a + b)[..|a + b| - 1] == a + b';
      Assoc3(LiveCmds(a), LiveCmds(b'), if e.live then [e.cmd] else []);
    }
  }

  lemma {:induction false} AllLive(log: seq<Entry>)
    ensures (forall i | 0 <= i < |log| :: log[i].live) <==> |LiveCmds(log)| == |log|
    ensures |LiveCmds(log)| == |log| ==> LiveCmds(log) == Cmds(log)
  {
    if log != [] {
      var l := log[..|log| - 1];
      AllLive(l);
      assert forall i | 0 <= i < |l| :: l[i] == log[i];
    }
  }

  /** How a slave came online: through which save, and with how much of the log known. */
  datatype Link = Link(save: nat, joined: nat)

  /** The rdb file as a slave should get it. */
  function Snapshot(rdb: seq<byte>): (s: seq<byte>)
    ensures s != []
  {
    Line(DOLLAR, |rdb|) + rdb
  }

  /** The rdb file as it is sent. */
  function FileSent(rdb: seq<byte>): (s: seq<byte>)
    ensures s != []
  {
    Line(DOLLAR, |rdb|) + Narrowed(rdb)
  }

  /** The whole file is sent exactly if its length is an int. */
  lemma FileSentIff(rdb: seq<byte>)
    ensures FileSent(rdb) == Snapshot(rdb) <==> |rdb| < TWO31
    ensures |FileSent(rdb)| <= |Snapshot(rdb)|
    ensures |FileSent(rdb)| == |Snapshot(rdb)| <==> |rdb| < TWO31
  {
    hide Line;
    if |rdb| < TWO31 {
      assert rdb[..|rdb|] == rdb;
    }
  }

  /** From 2^31 to 2^32 bytes the length is announced and nothing of the file follows; one
      byte more and only the first byte does. */
  lemma FileLost(rdb: seq<byte>)
    ensures TWO31 <= |rdb| <= 2 * TWO31 ==> FileSent(rdb) == Line(DOLLAR, |rdb|)
    ensures |rdb| == 2 * TWO31 + 1 ==> FileSent(rdb) == Line(DOLLAR, |rdb|) + rdb[..1]
  {
    hide Line;
  }

  /** The file of the fork, everything up to going online, then what was live. */
  function Expected(dump: seq<Cmd> -> seq<byte>, log: seq<Entry>, base: nat, joined: nat): (s: seq<byte>)
    requires base <= joined <= |log|
  {
    FileSent(dump(Cmds(log[..base]))) + Commands(Cmds(log[base..joined])) + Commands(LiveCmds(log[joined..]))
  }

  /** The log index at which the next save after this one started. */
  function NextSave(log: seq<Entry>, starts: seq<nat>, save: nat): (n: nat) {
    if save + 1 < |starts| then starts[save + 1] else |log|
  }

  /** The save is over, and everything between going online and the next save was live. */
  ghost predicate LinkOk(l: Link, bgsaving: bool, log: seq<Entry>, starts: seq<nat>) {
    && l.save < |starts| && starts[l.save] <= l.joined <= NextSave(log, starts, l.save) <= |log|
    && (l.save + 1 == |starts| ==> !bgsaving)
    && forall k | l.joined <= k < NextSave(log, starts, l.save) :: log[k].live
  }

  /** A client is where it should be. */
  ghost predicate ClientOk(id: Id, c: Client, bgsaving: bool, log: seq<Entry>, starts: seq<nat>,
                           links: map<Id, Link>, dump: seq<Cmd> -> seq<byte>)
  {
    && (c.slave == Some(WaitEnd) ==> bgsaving)
    && (c.slave != Some(Online) || !c.open ==> c.sent == [])
    && (c.slave == Some(Online) ==>
          && id in links && LinkOk(links[id], bgsaving, log, starts)
          && (c.open ==> Stream(c.sent) == Expected(dump, log, starts[links[id].save], links[id].joined)))
  }

  /** The saves started in order. */
  ghost predicate StartsOk(starts: seq<nat>, log: seq<Entry>) {
    && (forall i | 0 <= i < |starts| :: starts[i] <= |log|)
    && (forall i, j | 0 <= i <= j < |starts| :: starts[i] <= starts[j])
  }

  // ------------------------------------------------------------ each event keeps every client right

  lemma {:induction false} ExpectedMore(dump: seq<Cmd> -> seq<byte>, log: seq<Entry>, base: nat, joined: nat, e: Entry)
    requires base <= joined <= |log|
    ensures Expected(dump, log + [e], base, joined)
            == Expected(dump, log, base, joined) + (if e.live then Command(e.cmd) else [])
  {
    hide Commands, Command, Cmds, LiveCmds, FileSent;
    var log' := log + [e];
    assert log'[..base] == log[..base] && log'[base..joined] == log[base..joined];
    assert log'[joined..] == log[joined..] + [e];
    LiveAppend(log[joined..], [e]);
    LiveOne(e);
    CommandsAppend(LiveCmds(log[joined..]), LiveCmds([e]));
    Assoc3(FileSent(dump(Cmds(log[..base]))) + Commands(Cmds(log[base..joined])), Commands(LiveCmds(log[joined..])),
           Commands(LiveCmds([e])));
  }

  lemma LiveOne(e: Entry)
    ensures LiveCmds([e]) == if e.live then [e.cmd] else []
    ensures Commands(LiveCmds([e])) == if e.live then Command(e.cmd) else []
  {
    hide Command;
    assert [e][..0] == [];
    CommandsOne(e.cmd);
  }

  /** A command propagated outside a save reaches every online slave. */
  lemma CommandKeeps(id: Id, c: Client, log: seq<Entry>, starts: seq<nat>, links: map<Id, Link>,
                     dump: seq<Cmd> -> seq<byte>, cmd: Cmd)
    requires ClientOk(id, c, false, log, starts, links, dump) && StartsOk(starts, log)
    ensures ClientOk(id, AfterCommand(c, Command(cmd)), false, log + [Entry(cmd, true)], starts, links, dump)
  {
    hide Command, Expected, Stream;
    if c.slave == Some(Online) {
      ExpectedMore(dump, log, starts[links[id].save], links[id].joined, Entry(cmd, true));
      StreamMore(c.sent, Data(Command(cmd)));
    }
  }

  /** A command propagated during a save changes no stream. */
  lemma BufferedKeeps(id: Id, c: Client, log: seq<Entry>, starts: seq<nat>, links: map<Id, Link>,
                      dump: seq<Cmd> -> seq<byte>, cmd: Cmd)
    requires ClientOk(id, c, true, log, starts, links, dump) && StartsOk(starts, log)
    ensures ClientOk(id, c, true, log + [Entry(cmd, false)], starts, links, dump)
  {
    hide Command, Expected, Stream;
    if c.slave == Some(Online) {
      ExpectedMore(dump, log, starts[links[id].save], links[id].joined, Entry(cmd, false));
    }
  }

  lemma StartKeeps(id: Id, c: Client, succ: bool, log: seq<Entry>, starts: seq<nat>, links: map<Id, Link>,
                   dump: seq<Cmd> -> seq<byte>)
    requires ClientOk(id, c, false, log, starts, links, dump) && StartsOk(starts, log)
    ensures ClientOk(id, AfterStart(c, succ), succ, log, if succ then starts + [|log|] else starts, links, dump)
  {
    hide Expected, Stream;
  }

  /** The file, then what was buffered since the fork: the whole snapshot exactly if the
      length of the file is an int. */
  lemma DoneSends(c: Client, rdb: seq<byte>, buffer: seq<byte>)
    requires c.slave == Some(WaitEnd) && c.open && Stream(c.sent) == []
    ensures Stream(AfterDone(c, rdb, buffer).sent) == FileSent(rdb) + buffer
    ensures Stream(AfterDone(c, rdb, buffer).sent) == Snapshot(rdb) + buffer <==> |rdb| < TWO31
  {
    hide Stream, Line, Narrowed;
    var c1 := Sent(c.(slave := Some(Online)), Line(DOLLAR, |rdb|));
    var c2 := Sent(c1, Narrowed(rdb));
    StreamMore(c.sent, Data(Line(DOLLAR, |rdb|)));
    StreamMore(c1.sent, Data(Narrowed(rdb)));
    StreamMore(c2.sent, Data(buffer));
    FileSentIff(rdb);
  }

  lemma DoneKeeps(id: Id, c: Client, log: seq<Entry>, starts: seq<nat>, links: map<Id, Link>,
                  dump: seq<Cmd> -> seq<byte>, rdb: seq<byte>, buffer: seq<byte>, links': map<Id, Link>)
    requires ClientOk(id, c, true, log, starts, links, dump) && StartsOk(starts, log) && starts != []
    requires rdb == dump(Cmds(log[..starts[|starts| - 1]])) && buffer == Commands(Cmds(log[starts[|starts| - 1]..]))
    requires c.slave == Some(WaitEnd) ==> id in links' && links'[id] == Link(|starts| - 1, |log|)
    requires c.slave == Some(Online) && id in links ==> id in links' && links'[id] == links[id]
    ensures ClientOk(id, AfterDone(c, rdb, buffer), false, log, starts, links', dump)
  {
    hide Stream, Line, Commands, Cmds, Snapshot, FileSent;
    if c.slave == Some(WaitEnd) {
      var base := starts[|starts| - 1];
      WholeSlice(log);
      assert log[base..|log|] == log[base..];
      NothingLive();
      if c.open {
        NothingSent();
        DoneSends(c, rdb, buffer);
        assert FileSent(rdb) + buffer + [] == FileSent(rdb) + buffer;
      }
    }
  }

  lemma NothingLive()
    ensures Commands(LiveCmds([])) == []
  {
  }

  lemma PingKeeps(id: Id, c: Client, bgsaving: bool, log: seq<Entry>, starts: seq<nat>, links: map<Id, Link>,
                  dump: seq<Cmd> -> seq<byte>)
    requires ClientOk(id, c, bgsaving, log, starts, links, dump)
    ensures ClientOk(id, AfterPing(c), bgsaving, log, starts, links, dump)
  {
    hide Stream, Expected;
    StreamMore(c.sent, Ping);
  }
}
