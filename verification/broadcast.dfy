/**
 * `ServerScene.update`: the tick counter and the snapshot the server sends
 * every other tick to every connected client.
 */
module Broadcast {
  import opened Wrappers
  import opened Protocol
  import opened Registry

  /** The server scene's state: the tick counter and the client registry. */
  datatype Server = Server(tick: nat, clients: Clients)

  /** `socket.emit("snapshot", { state })` to the client with id `to`. */
  datatype Emission = Emission(to: Id, state: Snapshot)

  /** The outcome of one update: the new scene state, the snapshot built (if any) and the messages sent. */
  datatype Step = Step(server: Server, snapshot: Option<Snapshot>, sent: seq<Emission>)

  /** A tick on which the update broadcasts. */
  predicate BroadcastTick(tick: nat) {
    tick % 2 == 0
  }

  /** The `{ id, x, y }` array built by walking the registry in its iteration order. */
  function BuildSnapshot(cs: Clients): (s: Snapshot)
    ensures |s| == |cs|
    ensures forall i :: 0 <= i < |cs| ==> s[i] == Entry(cs[i].id, cs[i].player.x, cs[i].player.y)
  {
    if |cs| == 0 then []
    else [Entry(cs[0].id, cs[0].player.x, cs[0].player.y)] + BuildSnapshot(cs[1..])
  }

  /** The same `{ state }` message addressed to every client, in registry order. */
  function SendToAll(cs: Clients, state: Snapshot): (out: seq<Emission>)
    ensures |out| == |cs|
    ensures forall i :: 0 <= i < |cs| ==> out[i] == Emission(cs[i].id, state)
  {
    if |cs| == 0 then []
    else [Emission(cs[0].id, state)] + SendToAll(cs[1..], state)
  }

  /**
   * One `update`: the tick rises by one, and only when the new tick is even
   * is a snapshot of every registered client built and sent, unchanged, to
   * every registered client.
   */
  function Update(srv: Server): (r: Step)
    ensures r.server == srv.(tick := srv.tick + 1)
    ensures r.snapshot.Some? <==> BroadcastTick(srv.tick + 1)
    ensures r.snapshot.None? ==> r.sent == []
    ensures r.snapshot.Some? ==> |r.snapshot.value| == |srv.clients|
    ensures r.snapshot.Some? ==> forall i :: 0 <= i < |srv.clients| ==>
      r.snapshot.value[i].id == srv.clients[i].id &&
      r.snapshot.value[i].x == srv.clients[i].player.x &&
      r.snapshot.value[i].y == srv.clients[i].player.y
    ensures r.snapshot.Some? ==> |r.sent| == |srv.clients|
    ensures r.snapshot.Some? ==> forall i :: 0 <= i < |r.sent| ==>
      r.sent[i].to == srv.clients[i].id && r.sent[i].state == r.snapshot.value
  {
    var tick := srv.tick + 1;
    var srv' := srv.(tick := tick);
    if tick % 2 != 0 then Step(srv', None, [])
    else
      var players := BuildSnapshot(srv.clients);
      Step(srv', Some(players), SendToAll(srv.clients, players))
  }

  /**
   * The snapshot of a registry with distinct ids names each client exactly
   * once and carries that client's position.
   */
  lemma SnapshotCoversRegistry(cs: Clients)
    requires Unique(cs)
    ensures IdsOf(BuildSnapshot(cs)) == IdSet(cs)
    ensures UniqueIds(BuildSnapshot(cs))
    ensures forall e :: e in BuildSnapshot(cs) ==>
      Lookup(cs, e.id).Some? && Lookup(cs, e.id).value.x == e.x && Lookup(cs, e.id).value.y == e.y
  {
    var s := BuildSnapshot(cs);
    forall id | id in IdSet(cs)
      ensures id in IdsOf(s)
    {
      var i :| 0 <= i < |cs| && cs[i].id == id;
      assert s[i].id == id;
    }
    forall e | e in s
      ensures Lookup(cs, e.id).Some? && Lookup(cs, e.id).value.x == e.x && Lookup(cs, e.id).value.y == e.y
    {
      var i :| 0 <= i < |s| && s[i] == e;
      assert cs[i].id == e.id;
    }
  }

  /** `n` consecutive updates: the final scene state and the number of them that broadcast. */
  function Run(srv: Server, n: nat): (r: (Server, nat))
    decreases n
  {
    if n == 0 then (srv, 0)
    else
      var step := Update(srv);
      var rest := Run(step.server, n - 1);
      (rest.0, rest.1 + if step.snapshot.Some? then 1 else 0)
  }

  /**
   * The broadcast cadence: `n` updates from tick `t` reach tick `t + n`,
   * leave the registry alone, and broadcast once per even tick in
   * `(t, t + n]`, that is `(t + n) / 2 - t / 2` times: half the update rate.
   */
  lemma {:induction false} Cadence(srv: Server, n: nat)
    ensures Run(srv, n).0 == srv.(tick := srv.tick + n)
    ensures Run(srv, n).1 == (srv.tick + n) / 2 - srv.tick / 2
    decreases n
  {
    if n > 0 {
      var step := Update(srv);
      Cadence(step.server, n - 1);
    }
  }
}
