/** PReplication of src/replication.cc, master side. Clients are named by identifiers that
    are never used again; a weak pointer is dead when its client is no longer in the map. */
module Replication {
  import opened Bytes
  import opened Unbounded
  import opened RespWriter
  import opened RespSession
  import opened ReplicaStream

  /** f applied to the clients named in ids. */
  function Applied(clients: map<Id, Client>, ids: seq<Id>, f: Client -> Client): (r: map<Id, Client>)
    ensures r.Keys == clients.Keys
  {
    map id | id in clients :: if id in ids then f(clients[id]) else clients[id]
  }

  /** The three updates the loops make. */
  function Telling(data: seq<byte>): (f: Client -> Client) { c => AfterCommand(c, data) }
  function Starting(succ: bool): (f: Client -> Client) { c => AfterStart(c, succ) }
  function Finishing(rdb: seq<byte>, data: seq<byte>): (f: Client -> Client) { c => AfterDone(c, rdb, data) }

  ghost predicate Distinct(ids: seq<Id>) {
    forall i, j | 0 <= i < j < |ids| :: ids[i] != ids[j]
  }

  /** One more round of a loop over the slaves. */
  lemma AppliedStep(clients: map<Id, Client>, ids: seq<Id>, i: nat, f: Client -> Client)
    requires i < |ids| && Distinct(ids)
    ensures ids[i] in clients ==> ids[i] in Applied(clients, ids[..i], f)
                                  && Applied(clients, ids[..i], f)[ids[i]] == clients[ids[i]]
    ensures Applied(clients, ids[..i + 1], f) ==
              if ids[i] in clients then Applied(clients, ids[..i], f)[ids[i] := f(clients[ids[i]])]
              else Applied(clients, ids[..i], f)
  {
    assert ids[..i + 1] == ids[..i] + [ids[i]];
    assert ids[i] !in ids[..i];
  }

  lemma AppliedNone(clients: map<Id, Client>, f: Client -> Client)
    ensures Applied(clients, [], f) == clients
  {
  }

  ghost predicate AnyIn(clients: map<Id, Client>, ids: seq<Id>, state: State) {
    exists i :: 0 <= i < |ids| && ids[i] in clients && clients[ids[i]].slave == Some(state)
  }

  /** Lines 152-154: the command is encoded for the first slave only. */
  method EncodeOnce(params: Cmd, ub: UnboundedBuffer) returns (data: seq<byte>)
    requires ub.Valid() && (ub.Contents() == [] || ub.Contents() == Command(params))
    requires |Command(params)| < MAX_BUFFER_SIZE
    modifies ub, ub.buffer
    ensures ub.Valid() && (ub.buffer == old(ub.buffer) || fresh(ub.buffer))
    ensures ub.Contents() == Command(params) && data == Command(params)
  {
    hide Command;
    if ub.ReadableSize() == 0 {
      SaveCommand(params, ub);
    }
    data := ub.PeekDataAt(ub.ReadableSize(), 0);
    assert ub.Contents()[0..|ub.Contents()|] == ub.Contents();
  }

  class Replication {
    var bgsaving: bool
    const buffer: UnboundedBuffer
    var slaves: seq<Id>
    var clients: map<Id, Client>
    var nextId: Id

    /** Every command ever propagated stands for the data set; dump gives the rdb file of the
        data set that the given commands lead to, and rdb is the file of the last save. */
    var log: seq<Entry>
    var rdb: seq<byte>
    const dump: seq<Cmd> -> seq<byte>

    /** Where in the log each replication save started, and how each online slave joined. */
    ghost var starts: seq<nat>
    ghost var links: map<Id, Link>

    constructor (dump: seq<Cmd> -> seq<byte>)
      ensures Valid() && fresh(buffer) && fresh(buffer.buffer) && this.dump == dump
      ensures !bgsaving && log == [] && starts == [] && clients == map[]
    {
      bgsaving, slaves, clients, nextId := false, [], map[], 0;
      buffer := new UnboundedBuffer();
      log, rdb, starts, links := [], [], [], map[];
      this.dump := dump;
    }

    ghost predicate Members()
      reads this
    {
      && Distinct(slaves) && (forall i | 0 <= i < |slaves| :: slaves[i] < nextId)
      && (forall id | id in clients :: id < nextId && (clients[id].slave.Some? <==> id in slaves))
    }

    /** The commands since the fork are in the buffer, which is empty outside a save. */
    ghost predicate Buffered()
      reads this, buffer, buffer.buffer
    {
      && buffer.Valid()
      && (bgsaving ==> starts != [] && starts[|starts| - 1] <= |log| && rdb == dump(Cmds(log[..starts[|starts| - 1]])))
      && buffer.Contents() == if bgsaving then Commands(Cmds(log[starts[|starts| - 1]..])) else []
    }

    ghost predicate Valid()
      reads this, buffer, buffer.buffer
    {
      && Members() && StartsOk(starts, log) && Buffered()
      && forall id | id in clients :: ClientOk(id, clients[id], bgsaving, log, starts, links, dump)
    }

    /** PClient::SendPacket of an UnboundedBuffer, down to TcpObject::SendPacket. */
    method SendPacket(id: Id, data: seq<byte>)
      requires id in clients
      modifies this`clients
      ensures clients == old(clients)[id := Sent(old(clients)[id], data)]
      ensures !old(clients)[id].open || data == [] ==> clients == old(clients)
      ensures old(clients)[id].open && data != [] ==> clients[id].sent == old(clients)[id].sent + [Data(data)]
    {
      var c := clients[id];
      if c.open && data != [] {
        clients := clients[id := c.(sent := c.sent + [Data(data)])];
      } else {
        assert clients == clients[id := c];
      }
    }

    /** PClient::SendPacket of bytes, whose length is an int. */
    method SendBytes(id: Id, data: seq<byte>)
      requires id in clients
      modifies this`clients
      ensures clients == old(clients)[id := Sent(old(clients)[id], Narrowed(data))]
    {
      var size := Int32(|data|);
      SendPacket(id, if size <= 0 then [] else data[..size]);
    }

    /** HasAnyWaitingBgsave */
    method HasAnyWaitingBgsave() returns (any: bool)
      ensures any <==> AnyIn(clients, slaves, WaitStart)
    {
      for i := 0 to |slaves|
        invariant forall j | 0 <= j < i :: slaves[j] in clients ==> clients[slaves[j]].slave != Some(WaitStart)
      {
        if slaves[i] in clients && clients[slaves[i]].slave == Some(WaitStart) {
          return true;
        }
      }
      return false;
    }

    /** Lines 144-157 of SendToSlaves: the command goes to every slave that is online. */
    method Broadcast(params: Cmd)
      requires Distinct(slaves) && |Command(params)| < MAX_BUFFER_SIZE
      modifies this`clients
      ensures clients == Applied(old(clients), slaves, Telling(Command(params)))
    {
      hide Applied, Command;
      var ub := new UnboundedBuffer();
      ghost var f := Telling(Command(params));
      AppliedNone(clients, f);
      assert slaves[..0] == [];
      for i := 0 to |slaves|
        invariant clients == Applied(old(clients), slaves[..i], f)
        invariant ub.Valid() && fresh(ub) && fresh(ub.buffer)
        invariant ub.Contents() == [] || ub.Contents() == Command(params)
      {
        var id := slaves[i];
        AppliedStep(old(clients), slaves, i, f);
        if id in clients {
          if clients[id].slave == Some(Online) {
            var data := EncodeOnce(params, ub);
            SendPacket(id, data);
          } else {
            assert clients == clients[id := clients[id]];
          }
        }
      }
      assert slaves[..|slaves|] == slaves;
    }

    /** SendToSlaves: during a save the command is buffered, otherwise it is sent. */
    method SendToSlaves(params: Cmd)
      requires Valid() && |buffer.Contents()| + |Command(params)| < MAX_BUFFER_SIZE
      modifies this`clients, this`log, buffer, buffer.buffer
      ensures Valid() && (buffer.buffer == old(buffer.buffer) || fresh(buffer.buffer))
      ensures log == old(log) + [Entry(params, !bgsaving)]
      ensures clients == if bgsaving then old(clients) else Applied(old(clients), slaves, Telling(Command(params)))
    {
      hide Command, ClientOk, Commands, Cmds, StartsOk;
      LogGrows(starts, log, Entry(params, !bgsaving));
      if bgsaving {
        forall id | id in clients
          ensures ClientOk(id, clients[id], true, log + [Entry(params, false)], starts, links, dump)
        {
          BufferedKeeps(id, clients[id], log, starts, links, dump, params);
        }
        SaveCommand(params, buffer);
        log := log + [Entry(params, false)];
        return;
      }
      forall id | id in clients
        ensures ClientOk(id, AfterCommand(clients[id], Command(params)), false, log + [Entry(params, true)],
                         starts, links, dump)
      {
        CommandKeeps(id, clients[id], log, starts, links, dump, params);
      }
      Broadcast(params);
      log := log + [Entry(params, true)];
    }

    /** Lines 120-135: every slave that waits for a save is part of this one, or closed. */
    method StartAll(succ: bool)
      requires Distinct(slaves)
      modifies this`clients
      ensures clients == Applied(old(clients), slaves, Starting(succ))
    {
      hide Applied;
      ghost var f := Starting(succ);
      AppliedNone(clients, f);
      assert slaves[..0] == [];
      for i := 0 to |slaves|
        invariant clients == Applied(old(clients), slaves[..i], f)
      {
        var id := slaves[i];
        AppliedStep(old(clients), slaves, i, f);
        if id in clients {
          var c := clients[id];
          if c.slave == Some(WaitStart) {
            if succ {
              clients := clients[id := c.(slave := Some(WaitEnd))];
            } else {
              clients := clients[id := c.(open := false)];
            }
          } else {
            assert clients == clients[id := c];
          }
        }
      }
      assert slaves[..|slaves|] == slaves;
    }

    /** onStartBgsave: the fork, if it succeeded, is the snapshot of everything logged. */
    method OnStartBgsave(succ: bool)
      requires Valid() && !bgsaving
      modifies this`bgsaving, this`clients, this`rdb, this`starts, buffer`readPos, buffer`writePos
      ensures Valid() && bgsaving == succ && starts == old(starts) + (if succ then [|log|] else [])
      ensures clients == Applied(old(clients), slaves, Starting(succ))
    {
      hide Commands, ClientOk, Cmds, Applied, Starting, AfterStart, Distinct;
      ghost var cs, starts' := clients, if succ then starts + [|log|] else starts;
      forall id | id in clients
        ensures ClientOk(id, AfterStart(clients[id], succ), succ, log, starts', links, dump)
      {
        StartKeeps(id, clients[id], succ, log, starts, links, dump);
      }
      StartedAll(clients, slaves, succ);
      buffer.Clear();
      bgsaving := succ;
      if succ {
        rdb := dump(Cmds(log));
        starts := starts + [|log|];
        WholeSlice(log);
      }
      StartAll(succ);
      NothingYet(log);
      assert Members() && Buffered();
    }

    /** TryBgsave, where forked says whether fork succeeds. */
    method TryBgsave(forked: bool)
      requires Valid()
      modifies this`bgsaving, this`clients, this`rdb, this`starts, buffer`readPos, buffer`writePos
      ensures Valid()
      ensures if !old(bgsaving) && AnyIn(old(clients), slaves, WaitStart) then
                && bgsaving == forked && starts == old(starts) + (if forked then [|log|] else [])
                && clients == Applied(old(clients), slaves, Starting(forked))
              else
                bgsaving == old(bgsaving) && starts == old(starts) && clients == old(clients)
    {
      if bgsaving {
        return;
      }
      var any := HasAnyWaitingBgsave();
      if !any {
        return;
      }
      OnStartBgsave(forked);
    }

    /** Lines 63-80: one slave gets the file and the buffer. */
    method GoOnline(id: Id, rdb: seq<byte>)
      requires id in clients && clients[id].slave == Some(WaitEnd) && buffer.Valid()
      modifies this`clients
      ensures clients == old(clients)[id := AfterDone(old(clients)[id], rdb, buffer.Contents())]
    {
      hide Line, Narrowed;
      clients := clients[id := clients[id].(slave := Some(Online))];
      SendPacket(id, Line(DOLLAR, |rdb|));   // written by snprintf, so its length is an int
      SendBytes(id, rdb);
      var data := buffer.PeekDataAt(buffer.ReadableSize(), 0);
      assert buffer.Contents()[0..|buffer.Contents()|] == buffer.Contents();
      SendPacket(id, data);
    }

    /** Lines 57-84: every slave that waits for the save goes online; if the file does not
        open, the first of them does, with nothing sent, and no other. */
    method DeliverAll(rdb: Option<seq<byte>>) returns (done: bool, ghost lost: Id)
      requires Distinct(slaves) && buffer.Valid()
      modifies this`clients
      ensures done <==> rdb.Some? || !AnyIn(old(clients), slaves, WaitEnd)
      ensures done && rdb.Some? ==> clients == Applied(old(clients), slaves, Finishing(rdb.value, buffer.Contents()))
      ensures done && rdb.None? ==> clients == old(clients)
      ensures !done ==> lost in old(clients) && old(clients)[lost].slave == Some(WaitEnd)
                        && clients == old(clients)[lost := old(clients)[lost].(slave := Some(Online))]
    {
      hide Applied, AfterDone;
      ghost var f := Finishing(if rdb.Some? then rdb.value else [], buffer.Contents());
      AppliedNone(clients, f);
      assert slaves[..0] == [];
      lost := 0;
      for i := 0 to |slaves|
        invariant rdb.Some? ==> clients == Applied(old(clients), slaves[..i], f)
        invariant rdb.None? ==> clients == old(clients)
        invariant rdb.None? ==>
                    forall j | 0 <= j < i :: slaves[j] in clients ==> clients[slaves[j]].slave != Some(WaitEnd)
      {
        var id := slaves[i];
        AppliedStep(old(clients), slaves, i, f);
        if id in clients {
          if clients[id].slave == Some(WaitEnd) {
            if rdb.None? {
              clients := clients[id := clients[id].(slave := Some(Online))];
              lost := id;
              return false, id;
            }
            GoOnline(id, rdb.value);
          } else {
            NotWaiting(clients[id], if rdb.Some? then rdb.value else [], buffer.Contents());
            assert clients == clients[id := clients[id]];
          }
        }
      }
      assert slaves[..|slaves|] == slaves;
      done := true;
    }

    /** OnRdbSaveDone: if the file opens, every slave that waited for the save is now online,
        and has been sent the file and every command since the fork. If it does not open while
        a slave waits, one such slave is online without having been sent anything, the
        others wait on, and the buffer keeps what it holds. */
    method OnRdbSaveDone(opens: bool) returns (ghost lost: Id)
      requires Valid() && bgsaving
      modifies this`bgsaving, this`clients, this`links, buffer`readPos, buffer`writePos
      ensures !bgsaving && buffer.Valid()
      ensures opens ==> Valid() && clients == Applied(old(clients), slaves, Finishing(rdb, old(buffer.Contents())))
      ensures opens ==>
                forall id | id in old(clients) && old(clients)[id].slave == Some(WaitEnd) && old(clients)[id].open ::
                  id in clients && Delivered(clients[id], rdb, old(buffer.Contents()))
      ensures !opens && !AnyIn(old(clients), slaves, WaitEnd) ==> Valid() && clients == old(clients)
      ensures !opens && AnyIn(old(clients), slaves, WaitEnd) ==>
                && lost in old(clients) && old(clients)[lost].slave == Some(WaitEnd)
                && clients == old(clients)[lost := old(clients)[lost].(slave := Some(Online))]
                && Stream(clients[lost].sent) == [] && buffer.Contents() == old(buffer.Contents())
    {
      hide Commands, ClientOk, Applied, Stream, AfterDone, StartsOk, Cmds, Joined, Finishing, Distinct, Delivered;
      ghost var cs, data := clients, buffer.Contents();
      ghost var links' := Joined(clients, links, Link(|starts| - 1, |log|));
      AllDone(this, links');
      bgsaving := false;
      var done;
      done, lost := DeliverAll(if opens then Some(rdb) else None);
      if !done {
        return;
      }
      links := links';
      buffer.Clear();
      if opens {
        FinishedAll(cs, slaves, rdb, data);
        assert Members();
      }
    }

    /** CheckChild, when the saving child has ended (src/pikiwidb.cc): a slave that asked for a
        save while the replication save was running is not started now, since TryBgsave runs
        only when the child was not a replication save. */
    method ChildEnded(opens: bool, forked: bool)
      requires Valid()
      modifies this`bgsaving, this`clients, this`links, this`rdb, this`starts, buffer`readPos, buffer`writePos
      ensures !old(bgsaving) || opens || !AnyIn(old(clients), slaves, WaitEnd) ==> Valid()
      ensures old(bgsaving) ==> !bgsaving && starts == old(starts) && rdb == old(rdb)
      ensures old(bgsaving) && opens ==>
                && clients == Applied(old(clients), slaves, Finishing(old(rdb), old(buffer.Contents())))
                && forall id | id in old(clients) && old(clients)[id].slave == Some(WaitEnd) && old(clients)[id].open ::
                     id in clients && Delivered(clients[id], old(rdb), old(buffer.Contents()))
      ensures !old(bgsaving) ==>
                if AnyIn(old(clients), slaves, WaitStart) then
                  && bgsaving == forked && starts == old(starts) + (if forked then [|log|] else [])
                  && clients == Applied(old(clients), slaves, Starting(forked))
                else
                  !bgsaving && starts == old(starts) && clients == old(clients)
      ensures forall id | id in old(clients) && old(clients)[id].slave == Some(WaitStart) ::
                && id in clients
                && clients[id] == if old(bgsaving) then old(clients)[id] else AfterStart(old(clients)[id], forked)
    {
      hide Commands, ClientOk, Stream, AfterDone, StartsOk, Cmds, Finishing, Distinct, Delivered, AnyIn, Applied,
           AfterStart, Starting;
      ghost var cs := clients;
      ghost var data := buffer.Contents();
      if bgsaving {
        WaitingOn(clients, slaves, rdb, data);
        var _ := OnRdbSaveDone(opens);
      } else {
        StartedAll(clients, slaves, forked);
        WaitingAny(clients, slaves);
        TryBgsave(forked);
      }
    }

    /** A connection is accepted. */
    method Connect() returns (id: Id)
      requires Valid()
      modifies this`clients, this`nextId
      ensures Valid() && id !in old(clients) && clients == old(clients)[id := Client(true, None, [])]
    {
      hide Commands, Cmds;
      id := nextId;
      clients := clients[id := Client(true, None, [])];
      nextId := nextId + 1;
    }

    /** A connection is gone: its weak pointers die, wherever they are. */
    method Disconnect(id: Id)
      requires Valid()
      modifies this`clients
      ensures Valid() && clients == old(clients) - {id}
    {
      hide Commands, Cmds, ClientOk;
      clients := clients - {id};
    }

    /** Lines 350-355 of replconf and 453-457 of sync: SetSlaveInfo and AddSlave, once. */
    method AddSlave(id: Id)
      requires Valid() && id in clients
      modifies this`clients, this`slaves
      ensures Valid() && clients.Keys == old(clients).Keys && clients[id].slave.Some?
      ensures old(clients)[id].slave.Some? ==> clients == old(clients)
      ensures old(clients)[id].slave.None? ==> clients == old(clients)[id := old(clients)[id].(slave := Some(NoState))]
      ensures slaves == if old(clients)[id].slave.Some? then old(slaves) else old(slaves) + [id]
    {
      hide Commands, Cmds, Stream, Expected;
      var c := clients[id];
      if c.slave.None? {
        clients := clients[id := c.(slave := Some(NoState))];
        slaves := slaves + [id];
      }
    }

    /** sync, where forked says whether a fork it attempts succeeds. */
    method Sync(id: Id, forked: bool)
      requires Valid() && id in clients
      modifies this`clients, this`slaves, this`bgsaving, this`rdb, this`starts, buffer`readPos, buffer`writePos
      ensures Valid() && clients.Keys == old(clients).Keys && clients[id].slave.Some?
      ensures slaves == if old(clients)[id].slave.Some? then old(slaves) else old(slaves) + [id]
      ensures clients[id] == AfterSync(old(clients)[id], old(bgsaving), forked)
      ensures var was := old(clients)[id].slave;
              var asking := old(clients)[id := old(clients)[id].(slave := Some(WaitStart))];
              if was == Some(WaitEnd) || was == Some(Online) then
                clients == old(clients) && bgsaving == old(bgsaving) && starts == old(starts)
              else if old(bgsaving) then
                clients == asking && bgsaving && starts == old(starts)
              else
                && clients == Applied(asking, slaves, Starting(forked)) && bgsaving == forked
                && starts == old(starts) + (if forked then [|log|] else [])
    {
      hide Commands, Cmds, Stream, Expected, ClientOk, Applied, AnyIn, StartsOk, Distinct, AfterStart,
           Buffered;
      ghost var cs := clients;
      AddSlave(id);
      var c := clients[id];
      if c.slave == Some(WaitEnd) || c.slave == Some(Online) {
        return;
      }
      Await(id);
      assert clients == cs[id := cs[id].(slave := Some(WaitStart))];
      AppliedAt(clients, slaves, id, Starting(forked));
      TryBgsave(forked);
    }

    /** Line 465: the slave waits for a save. */
    method Await(id: Id)
      requires Valid() && id in clients && clients[id].slave.Some? && clients[id].slave != Some(Online)
      modifies this`clients
      ensures Valid() && AnyIn(clients, slaves, WaitStart) && id in slaves
      ensures clients == old(clients)[id := old(clients)[id].(slave := Some(WaitStart))]
    {
      hide Commands, Cmds, Stream, Expected, ClientOk, StartsOk;
      var c := clients[id];
      StillSilent(id, c, bgsaving, log, starts, links, dump);
      clients := clients[id := c.(slave := Some(WaitStart))];
      ghost var i :| 0 <= i < |slaves| && slaves[i] == id;
      assert slaves[i] in clients;
    }

    /** Lines 163-176 of Cron: forget dead slaves and ping those online. */
    method PingAll()
      requires Distinct(slaves)
      modifies this`clients, this`slaves
      ensures slaves == Alive(old(slaves), old(clients))
      ensures clients == Applied(old(clients), old(slaves), AfterPing)
    {
      hide Applied, Alive;
      ghost var ids, cs, k := slaves, clients, 0;
      var i := 0;
      AppliedNone(cs, AfterPing);
      AliveNone(cs);
      assert ids[..0] == [] && [] + ids[0..] == ids;
      while i < |slaves|
        invariant k <= |ids| && i == |Alive(ids[..k], cs)| && slaves == Alive(ids[..k], cs) + ids[k..]
        invariant clients == Applied(cs, ids[..k], AfterPing)
        decreases |slaves| - i
      {
        var id := slaves[i];
        assert id == ids[k];
        AppliedStep(cs, ids, k, AfterPing);
        AliveStep(ids, k, cs);
        if id !in clients {
          slaves := slaves[..i] + slaves[i + 1..];
        } else {
          i := i + 1;
          PingOne(id);
        }
        k := k + 1;
      }
      assert ids[k..] == [] && ids[..k] == ids;
    }

    method PingOne(id: Id)
      requires id in clients
      modifies this`clients
      ensures clients == old(clients)[id := AfterPing(old(clients)[id])]
    {
      var c := clients[id];
      if c.slave == Some(Online) && c.open {
        clients := clients[id := c.(sent := c.sent + [Ping])];
      } else {
        assert clients == clients[id := c];
      }
    }

    /** Cron, master side. */
    method PingSlaves()
      requires Valid()
      modifies this`clients, this`slaves
      ensures Valid() && (forall i | 0 <= i < |slaves| :: slaves[i] in clients)
      ensures clients.Keys == old(clients).Keys
      ensures forall id | id in clients ::
                && clients[id].open == old(clients)[id].open && clients[id].slave == old(clients)[id].slave
                && clients[id].sent == old(clients)[id].sent
                                       + if clients[id].slave == Some(Online) && clients[id].open then [Ping] else []
    {
      hide Commands, Cmds, Stream, Expected, ClientOk;
      forall id | id in clients
        ensures ClientOk(id, AfterPing(clients[id]), bgsaving, log, starts, links, dump)
      {
        PingKeeps(id, clients[id], bgsaving, log, starts, links, dump);
      }
      AliveMembers(slaves, clients);
      ghost var cs := clients;
      PingAll();
      assert forall i | 0 <= i < |slaves| :: slaves[i] in slaves && slaves[i] in cs;
      assert Members();
    }
  }

  /** The ids of clients that exist. */
  ghost function Alive(ids: seq<Id>, clients: map<Id, Client>): (r: seq<Id>) {
    if ids == [] then []
    else Alive(ids[..|ids| - 1], clients) + if ids[|ids| - 1] in clients then [ids[|ids| - 1]] else []
  }

  lemma AliveNone(clients: map<Id, Client>)
    ensures Alive([], clients) == []
  {
  }

  lemma AliveStep(ids: seq<Id>, k: nat, clients: map<Id, Client>)
    requires k < |ids|
    ensures var a := Alive(ids[..k], clients);
            && Alive(ids[..k + 1], clients) == a + (if ids[k] in clients then [ids[k]] else [])
            && (ids[k] in clients ==> Alive(ids[..k + 1], clients) + ids[k + 1..] == a + ids[k..])
            && (ids[k] !in clients ==> Alive(ids[..k + 1], clients) + ids[k + 1..]
                                       == (a + ids[k..])[..|a|] + (a + ids[k..])[|a| + 1..])
  {
    assert ids[..k + 1][..k] == ids[..k];
  }

  lemma {:induction false} AliveMembers(ids: seq<Id>, clients: map<Id, Client>)
    requires Distinct(ids)
    ensures forall id :: id in Alive(ids, clients) <==> id in ids && id in clients
    ensures Distinct(Alive(ids, clients))
  {
    if ids != [] {
      AliveMembers(ids[..|ids| - 1], clients);
    }
  }

  lemma StillSilent(id: Id, c: Client, bgsaving: bool, log: seq<Entry>, starts: seq<nat>, links: map<Id, Link>,
                    dump: seq<Cmd> -> seq<byte>)
    requires ClientOk(id, c, bgsaving, log, starts, links, dump) && c.slave != Some(Online)
    ensures ClientOk(id, c.(slave := Some(WaitStart)), bgsaving, log, starts, links, dump)
  {
  }

  lemma AppliedAt(clients: map<Id, Client>, ids: seq<Id>, id: Id, f: Client -> Client)
    requires id in clients && id in ids
    ensures id in Applied(clients, ids, f) && Applied(clients, ids, f)[id] == f(clients[id])
  {
  }

  lemma AppliedIdle(clients: map<Id, Client>, ids: seq<Id>, id: Id, f: Client -> Client)
    requires id in clients && f(clients[id]) == clients[id]
    ensures id in Applied(clients, ids, f) && Applied(clients, ids, f)[id] == clients[id]
  {
  }

  function Joined(clients: map<Id, Client>, links: map<Id, Link>, l: Link): (r: map<Id, Link>) {
    map id | id in clients && (clients[id].slave == Some(WaitEnd) || id in links) ::
      if clients[id].slave == Some(WaitEnd) then l else links[id]
  }

  /** The client is online and has been sent the file and then the buffer: the whole
      snapshot exactly if the length of the file is an int. */
  ghost predicate Delivered(c: Client, rdb: seq<byte>, buffer: seq<byte>) {
    && c.slave == Some(Online) && c.open && Stream(c.sent) == FileSent(rdb) + buffer
    && (Stream(c.sent) == Snapshot(rdb) + buffer <==> |rdb| < TWO31)
  }

  lemma DoneDelivers(c: Client, rdb: seq<byte>, buffer: seq<byte>)
    requires c.slave == Some(WaitEnd) && c.open && Stream(c.sent) == []
    ensures Delivered(AfterDone(c, rdb, buffer), rdb, buffer)
  {
    hide Stream, Snapshot, FileSent, Line, Narrowed;
    DoneSends(c, rdb, buffer);
  }

  /** Once the save is over, with its file and the buffer sent, every client is right. */
  lemma AllDone(r: Replication, links': map<Id, Link>)
    requires r.Valid() && r.bgsaving && links' == Joined(r.clients, r.links, Link(|r.starts| - 1, |r.log|))
    ensures forall id | id in r.clients :: DoneAt(r.clients[id], id, r, links')
  {
    hide Commands, ClientOk, AfterDone, Stream, Delivered;
    forall id | id in r.clients
      ensures DoneAt(r.clients[id], id, r, links')
    {
      var c := r.clients[id];
      LinkExists(id, c, true, r.log, r.starts, r.links, r.dump);
      DoneKeeps(id, c, r.log, r.starts, r.links, r.dump, r.rdb, r.buffer.Contents(), links');
      if c.slave == Some(WaitEnd) {
        SilentUntilOnline(id, c, r.log, r.starts, r.links, r.dump);
        if c.open {
          DoneDelivers(c, r.rdb, r.buffer.Contents());
        }
      } else {
        NotWaiting(c, r.rdb, r.buffer.Contents());
      }
    }
  }

  /** What becomes of one client when the save of r is over. */
  ghost predicate DoneAt(c: Client, id: Id, r: Replication, links': map<Id, Link>)
    requires r.buffer.Valid()
    reads r, r.buffer, r.buffer.buffer
  {
    var c' := AfterDone(c, r.rdb, r.buffer.Contents());
    && ClientOk(id, c', false, r.log, r.starts, links', r.dump)
    && (c.slave == Some(WaitEnd) ==> Stream(c.sent) == [])
    && (c.slave == Some(WaitEnd) && c.open ==> Delivered(c', r.rdb, r.buffer.Contents()))
    && (c.slave != Some(WaitEnd) ==> c' == c)
  }

  lemma FinishedAll(clients: map<Id, Client>, slaves: seq<Id>, rdb: seq<byte>, data: seq<byte>)
    requires forall id | id in clients :: clients[id].slave.Some? <==> id in slaves
    ensures forall id | id in clients :: id in Applied(clients, slaves, Finishing(rdb, data))
              && Applied(clients, slaves, Finishing(rdb, data))[id] == AfterDone(clients[id], rdb, data)
              && (AfterDone(clients[id], rdb, data).slave.Some? <==> id in slaves)
  {
  }

  /** A slave that waits for the next save is not touched at the end of this one. */
  lemma WaitingOn(clients: map<Id, Client>, slaves: seq<Id>, rdb: seq<byte>, data: seq<byte>)
    ensures forall id | id in clients && clients[id].slave == Some(WaitStart) ::
              id in Applied(clients, slaves, Finishing(rdb, data))
              && Applied(clients, slaves, Finishing(rdb, data))[id] == clients[id]
  {
  }

  lemma WaitingAny(clients: map<Id, Client>, slaves: seq<Id>)
    requires forall id | id in clients :: clients[id].slave.Some? <==> id in slaves
    ensures forall id | id in clients && clients[id].slave == Some(WaitStart) :: AnyIn(clients, slaves, WaitStart)
  {
    forall id | id in clients && clients[id].slave == Some(WaitStart)
      ensures AnyIn(clients, slaves, WaitStart)
    {
      var i :| 0 <= i < |slaves| && slaves[i] == id;
      assert slaves[i] in clients;
    }
  }

  lemma NotWaiting(c: Client, rdb: seq<byte>, data: seq<byte>)
    requires c.slave != Some(WaitEnd)
    ensures AfterDone(c, rdb, data) == c
  {
  }

  lemma SilentUntilOnline(id: Id, c: Client, log: seq<Entry>, starts: seq<nat>, links: map<Id, Link>,
                          dump: seq<Cmd> -> seq<byte>)
    requires ClientOk(id, c, true, log, starts, links, dump) && c.slave == Some(WaitEnd)
    ensures Stream(c.sent) == []
  {
  }

  lemma LinkExists(id: Id, c: Client, bgsaving: bool, log: seq<Entry>, starts: seq<nat>, links: map<Id, Link>,
                   dump: seq<Cmd> -> seq<byte>)
    requires ClientOk(id, c, bgsaving, log, starts, links, dump)
    ensures c.slave == Some(Online) ==> id in links
  {
  }

  lemma StartedAll(clients: map<Id, Client>, slaves: seq<Id>, succ: bool)
    requires forall id | id in clients :: clients[id].slave.Some? <==> id in slaves
    ensures forall id | id in clients :: id in Applied(clients, slaves, Starting(succ))
              && Applied(clients, slaves, Starting(succ))[id] == AfterStart(clients[id], succ)
              && (AfterStart(clients[id], succ).slave.Some? <==> id in slaves)
  {
  }

  lemma NothingYet(log: seq<Entry>)
    ensures Commands(Cmds(log[|log|..])) == []
  {
  }

  /** Logging one more command keeps the starts right and extends what is since the last. */
  lemma LogGrows(starts: seq<nat>, log: seq<Entry>, e: Entry)
    requires StartsOk(starts, log)
    ensures StartsOk(starts, log + [e])
    ensures starts != [] ==>
              var s := starts[|starts| - 1];
              && s <= |log| && (log + [e])[..s] == log[..s]
              && Commands(Cmds((log + [e])[s..])) == Commands(Cmds(log[s..])) + Command(e.cmd)
  {
    hide Command, Commands, Cmds;
    if starts != [] {
      var s := starts[|starts| - 1];
      assert (log + [e])[s..] == log[s..] + [e];
      CmdsAppend(log[s..], [e]);
      CmdsOne(e);
      CommandsAppend(Cmds(log[s..]), [e.cmd]);
      CommandsOne(e.cmd);
    }
  }

  lemma CmdsOne(e: Entry)
    ensures Cmds([e]) == [e.cmd]
  {
    assert [e][..0] == [];
  }

  // ------------------------------------------------------------ what an online slave has been sent

  ghost predicate IsOnline(r: Replication, id: Id)
    reads r
  {
    id in r.clients && r.clients[id].slave == Some(Online) && r.clients[id].open
  }

  ghost predicate Linked(r: Replication, id: Id)
    reads r
  {
    && id in r.links && r.links[id].save < |r.starts|
    && r.starts[r.links[id].save] <= r.links[id].joined <= |r.log|
  }

  /** Where in the log the save forked through which the slave joined, and its file. */
  ghost function Base(r: Replication, id: Id): (n: nat)
    requires Linked(r, id)
    reads r
    ensures n <= |r.log|
  {
    r.starts[r.links[id].save]
  }

  ghost function File(r: Replication, id: Id): (rdb: seq<byte>)
    requires Linked(r, id)
    reads r
  {
    r.dump(Cmds(r.log[..Base(r, id)]))
  }

  /** Up to the start of the next replication save, an online slave has been sent the file of
      its fork and then exactly the commands since, in order; after that, exactly those
      outside a save. */
  lemma OnlineStream(r: Replication, id: Id)
    requires r.Valid() && IsOnline(r, id)
    ensures Linked(r, id)
    ensures FileSent(File(r, id)) == Snapshot(File(r, id)) <==> |File(r, id)| < TWO31
    ensures var base, next := Base(r, id), NextSave(r.log, r.starts, r.links[id].save);
            && base <= next <= |r.log|
            && Stream(r.clients[id].sent) == FileSent(File(r, id)) + Commands(Cmds(r.log[base..next]))
                                             + Commands(LiveCmds(r.log[next..]))
    ensures r.links[id].save + 1 == |r.starts| ==>
              Stream(r.clients[id].sent) == FileSent(File(r, id)) + Commands(Cmds(r.log[Base(r, id)..]))
  {
    hide Commands, Cmds, LiveCmds, Stream, Snapshot, FileSent;
    assert ClientOk(id, r.clients[id], r.bgsaving, r.log, r.starts, r.links, r.dump);
    var log, base, joined := r.log, r.starts[r.links[id].save], r.links[id].joined;
    var next := NextSave(log, r.starts, r.links[id].save);
    LiveUntil(log, joined, next);
    CmdsJoin(log, base, joined, next);
    var snap := FileSent(r.dump(Cmds(log[..base])));
    FileSentIff(r.dump(Cmds(log[..base])));
    Assoc3(snap, Commands(Cmds(log[base..joined])), Commands(Cmds(log[joined..next])));
    Assoc3(snap + Commands(Cmds(log[base..joined])), Commands(Cmds(log[joined..next])),
           Commands(LiveCmds(log[next..])));
    if r.links[id].save + 1 == |r.starts| {
      assert log[next..] == [] && log[base..next] == log[base..];
      NothingLive();
      assert snap + Commands(Cmds(log[base..])) + [] == snap + Commands(Cmds(log[base..]));
    }
  }

  lemma LiveUntil(log: seq<Entry>, joined: nat, next: nat)
    requires joined <= next <= |log| && (forall k | joined <= k < next :: log[k].live)
    ensures Commands(LiveCmds(log[joined..])) == Commands(Cmds(log[joined..next])) + Commands(LiveCmds(log[next..]))
  {
    hide Commands, Cmds, LiveCmds;
    var a, b := log[joined..next], log[next..];
    assert log[joined..] == a + b;
    LiveAppend(a, b);
    AllLive(a);
    CommandsAppend(LiveCmds(a), LiveCmds(b));
  }

  lemma CmdsJoin(log: seq<Entry>, base: nat, joined: nat, next: nat)
    requires base <= joined <= next <= |log|
    ensures Commands(Cmds(log[base..next])) == Commands(Cmds(log[base..joined])) + Commands(Cmds(log[joined..next]))
  {
    hide Commands, Cmds;
    assert log[base..next] == log[base..joined] + log[joined..next];
    CmdsAppend(log[base..joined], log[joined..next]);
    CommandsAppend(Cmds(log[base..joined]), Cmds(log[joined..next]));
  }

  lemma {:induction false} LiveShorter(log: seq<Entry>)
    ensures |Commands(LiveCmds(log))| <= |Commands(Cmds(log))|
    ensures |Commands(LiveCmds(log))| == |Commands(Cmds(log))| <==> (forall i | 0 <= i < |log| :: log[i].live)
  {
    hide Command, Commands;
    if log != [] {
      var l, e := log[..|log| - 1], log[|log| - 1];
      LiveShorter(l);
      CommandsAppend(Cmds(l), [e.cmd]);
      CommandsOne(e.cmd);
      if e.live {
        CommandsAppend(LiveCmds(l), [e.cmd]);
      } else {
        assert LiveCmds(l) + [] == LiveCmds(l);
      }
      assert forall i | 0 <= i < |l| :: l[i] == log[i];
    }
  }

  /** The slave has the whole snapshot and every command since its fork. */
  ghost predicate Complete(r: Replication, id: Id)
    requires IsOnline(r, id) && Linked(r, id)
    reads r
  {
    Stream(r.clients[id].sent) == Snapshot(File(r, id)) + Commands(Cmds(r.log[Base(r, id)..]))
  }

  /** The length of its file is an int, and nothing was propagated during a save since it
      came online. */
  ghost predicate Undisturbed(r: Replication, id: Id)
    requires Linked(r, id)
    reads r
  {
    |File(r, id)| < TWO31 && forall k | r.links[id].joined <= k < |r.log| :: r.log[k].live
  }

  lemma StreamCompleteIff(r: Replication, id: Id)
    requires r.Valid() && IsOnline(r, id)
    ensures Linked(r, id)
    ensures Complete(r, id) <==> Undisturbed(r, id)
  {
    hide Commands, Cmds, LiveCmds, Stream, Snapshot, FileSent;
    assert ClientOk(id, r.clients[id], r.bgsaving, r.log, r.starts, r.links, r.dump);
    var log, base, joined := r.log, r.starts[r.links[id].save], r.links[id].joined;
    var tail := log[joined..];
    assert log[joined..|log|] == tail && log[base..|log|] == log[base..];
    CmdsJoin(log, base, joined, |log|);
    LiveShorter(tail);
    assert forall k | joined <= k < |log| :: log[k] == tail[k - joined];
    assert forall i | 0 <= i < |tail| :: tail[i] == log[joined + i];
    AllLive(tail);
    var rdb, mid := r.dump(Cmds(log[..base])), Commands(Cmds(log[base..joined]));
    FileSentIff(rdb);
    Assoc3(Snapshot(rdb), mid, Commands(Cmds(tail)));
    BothShort(FileSent(rdb), Snapshot(rdb), mid, Commands(LiveCmds(tail)), Commands(Cmds(tail)));
  }

  lemma BothShort<T>(a: seq<T>, a': seq<T>, m: seq<T>, b: seq<T>, b': seq<T>)
    requires |a| <= |a'| && |b| <= |b'|
    ensures a + m + b == a' + m + b' ==> |a| == |a'| && |b| == |b'|
  {
    assert |a + m + b| == |a| + |m| + |b| && |a' + m + b'| == |a'| + |m| + |b'|;
  }
}
