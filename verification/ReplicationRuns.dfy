/** Whole runs of the master side of src/replication.cc. */
module ReplicationRuns {
  import opened Bytes
  import opened Unbounded
  import opened RespWriter
  import opened RespSession
  import opened ReplicaStream
  import opened Replication

  /** What can happen: forked says whether a fork that is attempted then succeeds. */
  datatype Event =
    | Connected
    | Disconnected(id: Id)
    | Registered(id: Id)
    | Synced(id: Id, forked: bool)
    | Propagated(cmd: Cmd)
    | ChildEnds(forked: bool)
    | CronTick

  function Propagations(events: seq<Event>): (cs: seq<Cmd>) {
    if events == [] then []
    else
      var e := events[|events| - 1];
      Propagations(events[..|events| - 1]) + (if e.Propagated? then [e.cmd] else [])
  }

  lemma {:induction false} PropagationsGrow(events: seq<Event>, i: nat)
    requires i <= |events|
    ensures |Commands(Propagations(events[..i]))| <= |Commands(Propagations(events))|
    decreases |events| - i
  {
    hide Commands;
    if i < |events| {
      PropagationsStep(events, i);
      PropagationsGrow(events, i + 1);
      CommandsAppend(Propagations(events[..i]), if events[i].Propagated? then [events[i].cmd] else []);
    } else {
      assert events[..i] == events;
    }
  }

  lemma PropagationsStep(events: seq<Event>, i: nat)
    requires i < |events|
    ensures Propagations(events[..i + 1])
            == Propagations(events[..i]) + if events[i].Propagated? then [events[i].cmd] else []
  {
    assert events[..i + 1][..i] == events[..i];
  }

  /** The buffer holds no more than has been propagated. */
  lemma BufferBound(r: Replication)
    requires r.Valid()
    ensures |r.buffer.Contents()| <= |Commands(Cmds(r.log))|
  {
    hide Commands, Cmds, ClientOk;
    if r.bgsaving {
      var s := r.starts[|r.starts| - 1];
      CmdsJoin(r.log, 0, s, |r.log|);
      assert r.log[0..|r.log|] == r.log && r.log[s..|r.log|] == r.log[s..];
    }
  }

  /** The slave has asked for a save that has not started. */
  ghost predicate Waiting(r: Replication, id: Id)
    reads r
  {
    id in r.clients && r.clients[id].slave == Some(WaitStart)
  }

  method Happen(r: Replication, e: Event)
    requires r.Valid()
    requires e.Propagated? ==> |r.buffer.Contents()| + |Command(e.cmd)| < MAX_BUFFER_SIZE
    modifies r, r.buffer, r.buffer.buffer
    ensures r.Valid() && (r.buffer.buffer == old(r.buffer.buffer) || fresh(r.buffer.buffer))
    ensures Cmds(r.log) == Cmds(old(r.log)) + if e.Propagated? then [e.cmd] else []
    ensures !e.Synced? && !e.ChildEnds? ==>
              && r.bgsaving == old(r.bgsaving)
              && forall id | id in old(r.clients) && old(r.clients)[id].slave == Some(WaitStart) ::
                   e != Disconnected(id) ==> id in r.clients && r.clients[id] == old(r.clients)[id]
  {
    hide Commands, Command, Cmds, ClientOk;
    match e
    case Connected => var _ := r.Connect();
    case Disconnected(id) => r.Disconnect(id);
    case Registered(id) => if id in r.clients { r.AddSlave(id); }
    case Synced(id, forked) => if id in r.clients { r.Sync(id, forked); }
    case Propagated(cmd) =>
      ghost var live := !r.bgsaving;
      CmdsAppend(r.log, [Entry(cmd, live)]);
      CmdsOne(Entry(cmd, live));
      r.SendToSlaves(cmd);
    case ChildEnds(forked) => r.ChildEnded(true, forked);
    case CronTick => r.PingSlaves();
  }

  /** Whatever happens, in whatever order, if the rdb file of every finished save can be
      read: each online slave has the whole snapshot of its fork and every command since
      exactly if the length of the file is an int and nothing was propagated during a save
      after it came online. */
  method Run(dump: seq<Cmd> -> seq<byte>, events: seq<Event>) returns (r: Replication)
    requires |Commands(Propagations(events))| < MAX_BUFFER_SIZE
    ensures fresh(r) && r.Valid() && r.dump == dump && Cmds(r.log) == Propagations(events)
    ensures forall id | IsOnline(r, id) :: Linked(r, id) && (Complete(r, id) <==> Undisturbed(r, id))
    ensures forall id | id in r.clients :: r.clients[id].slave == Some(WaitEnd) ==> r.bgsaving
    ensures !r.bgsaving ==> r.buffer.Contents() == []
  {
    hide Commands, Command, Cmds, ClientOk, Propagations, Complete, Undisturbed, StartsOk, Distinct, Linked;
    r := new Replication(dump);
    assert events[..0] == [];
    NothingPropagated();
    for i := 0 to |events|
      invariant fresh(r) && fresh(r.buffer) && fresh(r.buffer.buffer) && r.Valid() && r.dump == dump
      invariant Cmds(r.log) == Propagations(events[..i])
    {
      PropagationsStep(events, i);
      if events[i].Propagated? {
        RoomForOne(r, events, i);
      }
      Happen(r, events[i]);
    }
    assert events[..|events|] == events;
    forall id | IsOnline(r, id)
      ensures Linked(r, id) && (Complete(r, id) <==> Undisturbed(r, id))
    {
      StreamCompleteIff(r, id);
    }
    forall id | id in r.clients && r.clients[id].slave == Some(WaitEnd)
      ensures r.bgsaving
    {
      WaitingMeansSaving(r, id);
    }
  }

  lemma WaitingMeansSaving(r: Replication, id: Id)
    requires r.Valid() && id in r.clients && r.clients[id].slave == Some(WaitEnd)
    ensures r.bgsaving
  {
    assert ClientOk(id, r.clients[id], r.bgsaving, r.log, r.starts, r.links, r.dump);
  }

  lemma NothingPropagated()
    ensures Propagations([]) == [] && Cmds([]) == []
  {
  }

  lemma RoomForOne(r: Replication, events: seq<Event>, i: nat)
    requires i < |events| && events[i].Propagated? && r.Valid() && Cmds(r.log) == Propagations(events[..i])
    ensures |r.buffer.Contents()| + |Command(events[i].cmd)| <= |Commands(Propagations(events))|
  {
    hide Commands, Command, ClientOk, Propagations, Cmds;
    BufferBound(r);
    PropagationsStep(events, i);
    PropagationsGrow(events, i + 1);
    CommandsAppend(Propagations(events[..i]), [events[i].cmd]);
    CommandsOne(events[i].cmd);
  }

  /** What a slave that joined through the latest save parses behind the snapshot, however the
      bytes, PINGs aside, arrive in pieces that end at safe cuts: exactly the commands since
      the fork. */
  method SlaveReceives(r: Replication, ghost id: Id, chunks: seq<seq<byte>>) returns (commands: seq<Cmd>)
    requires r.Valid() && IsOnline(r, id)
    requires Linked(r, id) && r.links[id].save + 1 == |r.starts|
    requires && Stream(r.clients[id].sent) == FileSent(File(r, id)) + Flat(chunks)
             && Sendable(Cmds(r.log[Base(r, id)..]))
             && forall i | 0 <= i <= |chunks| :: SafeStream(Cmds(r.log[Base(r, id)..]), |Flat(chunks[..i])|)
    ensures commands == Cmds(r.log[Base(r, id)..])
    ensures FileSent(File(r, id)) == Snapshot(File(r, id)) <==> |File(r, id)| < TWO31
  {
    hide Commands, Cmds, ClientOk, Stream, Snapshot, FileSent, Flat, SafeStream, Sendable;
    ghost var cs := Cmds(r.log[Base(r, id)..]);
    OnlineStream(r, id);
    DropHead(FileSent(File(r, id)), Flat(chunks), Commands(cs));
    commands := Receive(chunks, cs);
    AllArrive(cs);
    WholeSlice(cs);
  }

  // ------------------------------------------------------------ what goes missing

  /** Connected, Synced, ChildEnds: the first slave is online. */
  method FirstOnline(dump: seq<Cmd> -> seq<byte>) returns (r: Replication, first: Id)
    ensures fresh(r) && fresh(r.buffer) && fresh(r.buffer.buffer) && r.Valid()
    ensures r.log == [] && r.starts == [0] && !r.bgsaving && IsOnline(r, first)
    ensures Stream(r.clients[first].sent) == FileSent(dump([]))
  {
    hide Commands, Cmds, ClientOk, Stream, FileSent, Snapshot, Expected, StartsOk, Applied, AnyIn;
    r := new Replication(dump);
    first := r.Connect();
    r.Sync(first, true);
    NothingYet(r.log);
    assert r.rdb == dump([]) && r.buffer.Contents() == [];
    r.ChildEnded(true, true);
    assert FileSent(dump([])) + [] == FileSent(dump([]));
  }

  /** Connected, Synced, ChildEnds, Connected, Synced, Propagated: the first slave is online,
      and the command that was propagated during the save for the second never reaches it. */
  method MissedCommand(dump: seq<Cmd> -> seq<byte>, cmd: Cmd) returns (r: Replication, first: Id)
    requires |Command(cmd)| < MAX_BUFFER_SIZE
    ensures fresh(r) && r.Valid() && r.log == [Entry(cmd, false)]
    ensures IsOnline(r, first) && Linked(r, first)
    ensures Stream(r.clients[first].sent) == FileSent(dump([]))
    ensures !Complete(r, first)
  {
    hide Commands, Command, Cmds, ClientOk, Stream, FileSent, Complete, Undisturbed, StartsOk, Expected;
    r, first := FirstOnline(dump);
    SecondSyncs(r, first);
    r.SendToSlaves(cmd);
    Missing(r, first);
  }

  /** Connected, Synced: a save starts, and the slaves that are online are as before. */
  method SecondSyncs(r: Replication, ghost first: Id)
    requires r.Valid() && !r.bgsaving && IsOnline(r, first)
    modifies r, r.buffer
    ensures r.Valid() && r.bgsaving && r.log == old(r.log) && r.starts == old(r.starts) + [|r.log|]
    ensures first in r.clients && r.clients[first] == old(r.clients)[first] && r.buffer.Contents() == []
    ensures r.buffer.buffer == old(r.buffer.buffer)
  {
    hide Commands, Cmds, ClientOk, Stream, StartsOk, Expected, Applied, AnyIn;
    var second := r.Connect();
    ghost var asking := r.clients[second := r.clients[second].(slave := Some(WaitStart))];
    r.Sync(second, true);
    AppliedIdle(asking, r.slaves, first, Starting(true));
    NothingYet(r.log);
  }

  lemma Missing(r: Replication, id: Id)
    requires r.Valid() && IsOnline(r, id) && r.bgsaving && r.starts == [0, 0] && |r.log| == 1 && !r.log[0].live
    ensures Linked(r, id) && !Complete(r, id)
  {
    hide Commands, Cmds, LiveCmds, Stream, Snapshot, FileSent, Complete, Expected;
    assert ClientOk(id, r.clients[id], r.bgsaving, r.log, r.starts, r.links, r.dump);
    StreamCompleteIff(r, id);
  }

  /** A slave that asked for a save while one was running waits on when that one is over, with
      no save running, through anything but a sync or the end of some other saving child. */
  method StaysWaiting(r: Replication, id: Id, events: seq<Event>)
    requires r.Valid() && Waiting(r, id) && !r.bgsaving
    requires forall i | 0 <= i < |events| ::
               !events[i].Synced? && !events[i].ChildEnds? && events[i] != Disconnected(id)
    requires forall i | 0 <= i < |events| :: events[i].Propagated? ==> |Command(events[i].cmd)| < MAX_BUFFER_SIZE
    modifies r, r.buffer, r.buffer.buffer
    ensures r.Valid() && Waiting(r, id) && !r.bgsaving && r.clients[id] == old(r.clients)[id]
  {
    hide Commands, Command, Cmds, ClientOk;
    for i := 0 to |events|
      invariant r.Valid() && Waiting(r, id) && !r.bgsaving && r.clients[id] == old(r.clients)[id]
      invariant r.buffer.buffer == old(r.buffer.buffer) || fresh(r.buffer.buffer)
    {
      Happen(r, events[i]);
    }
  }

  /** It is started by the next fork that is attempted: one for a sync of a slave that is not
      online, or one at the end of a child that was no replication save. */
  method NextChance(r: Replication, id: Id, e: Event)
    requires r.Valid() && Waiting(r, id) && !r.bgsaving && (e.Synced? || e.ChildEnds?)
    modifies r, r.buffer, r.buffer.buffer
    ensures r.Valid() && id in r.clients
    ensures var tried := e.ChildEnds? || (e.id in old(r.clients) && old(r.clients)[e.id].slave != Some(Online));
            && (r.clients[id].slave == Some(WaitEnd) <==> tried && e.forked)
            && (!tried ==> r.clients[id] == old(r.clients)[id])
            && (tried && !e.forked ==> r.clients[id] == old(r.clients)[id].(open := false))
  {
    hide Commands, Command, Cmds, ClientOk, Stream, Expected;
    match e
    case ChildEnds(forked) => r.ChildEnded(true, forked);
    case Synced(other, forked) =>
      if other in r.clients {
        if r.clients[other].slave == Some(WaitEnd) {
          WaitingMeansSaving(r, other);
        }
        r.Sync(other, forked);
      }
  }

  /** Such a slave: it syncs while the save for another one runs, and when that save is over it
      still waits. */
  method Overlooked(dump: seq<Cmd> -> seq<byte>) returns (r: Replication, second: Id)
    ensures fresh(r) && fresh(r.buffer) && fresh(r.buffer.buffer)
    ensures r.Valid() && Waiting(r, second) && !r.bgsaving && r.clients[second].open
  {
    hide Commands, Cmds, ClientOk, Stream, Expected, FileSent, Applied, AnyIn, StartsOk;
    r := new Replication(dump);
    var first := r.Connect();
    r.Sync(first, true);
    second := r.Connect();
    r.Sync(second, true);
    r.ChildEnded(true, true);
  }
}
