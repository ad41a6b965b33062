/**
 * The client's `MainScene.update` loop: merging the latest snapshot into
 * the proxy sprites `players` and the previous-position cache
 * `previousPlayers`, classifying each proxy's motion, and stopping a walk
 * once no motion has been seen for 200 ms.
 */
module Reconciler {
  import opened Wrappers
  import opened Protocol
  import opened Direction
  import Debounce

  /** The window after a classified direction before the walk is stopped, in milliseconds. */
  const StopDelay: nat := 200

  /** A proxy sprite: its rendered position and its animation. */
  datatype Proxy = Proxy(x: real, y: real, pose: Pose)

  /**
   * The client scene: the last snapshot message received, the proxies by
   * id, the previous snapshot entry by id, and each proxy's stop timer.
   */
  datatype Client = Client(
    latest: Option<SnapshotMessage>,
    players: map<Id, Proxy>,
    previous: map<Id, Entry>,
    stops: map<Id, Debounce.State>)

  /** The scene as constructed: nothing received, no proxies. */
  const Fresh: Client := Client(None, map[], map[], map[])

  /** The `snapshot` handler: the message replaces the one kept for the next frame. */
  function Receive(c: Client, msg: SnapshotMessage): (r: Client)
    ensures r.latest == Some(msg)
    ensures r.players == c.players && r.previous == c.previous && r.stops == c.stops
  {
    c.(latest := Some(msg))
  }

  /**
   * Re-arms the stop timer of proxy `id` at time `now`: one debouncer per
   * proxy, so a new classified direction clears the pending stop.
   */
  function ArmStop(stops: map<Id, Debounce.State>, id: Id, now: int): (r: map<Id, Debounce.State>)
    ensures r.Keys == stops.Keys + {id}
    ensures r[id].pending == Some(now + StopDelay)
    ensures forall other :: other in stops && other != id ==> r[other] == stops[other]
  {
    stops[id := Debounce.Invoke(Get(stops, id).GetOr(Debounce.Unarmed), now, StopDelay, false).state]
  }

  /**
   * Processes one snapshot entry. A first sighting creates the proxy at
   * the entry's position with no classification; a known proxy snaps to the
   * entry's position and, when it moved since the cached entry (or, with no
   * cached entry, since itself), plays the walk of its direction and
   * re-arms its stop timer. Either way the cache then holds the entry.
   */
  function ReconcileEntry(c: Client, e: Entry, now: int): (r: Client)
    ensures r.latest == c.latest
    ensures r.players.Keys == c.players.Keys + {e.id}
    ensures r.previous == c.previous[e.id := e]
    ensures forall id :: id in c.players && id != e.id ==> r.players[id] == c.players[id]
    ensures r.stops == c.stops || r.stops == ArmStop(c.stops, e.id, now)
    ensures e.id !in c.players ==> r.players[e.id] == Proxy(e.x, e.y, Idle) && r.stops == c.stops
    ensures e.id in c.players ==> r.players[e.id].x == e.x && r.players[e.id].y == e.y
    ensures e.id in c.players && e.id !in c.previous ==>
      r.players[e.id] == c.players[e.id].(x := e.x, y := e.y) && r.stops == c.stops
    ensures e.id in c.players && e.id in c.previous && c.previous[e.id].x == e.x && c.previous[e.id].y == e.y ==>
      r.players[e.id] == c.players[e.id].(x := e.x, y := e.y) && r.stops == c.stops
    ensures e.id in c.players && e.id in c.previous && Classify(e, c.previous[e.id]).Some? ==>
      r.players[e.id].pose == Walking(Classify(e, c.previous[e.id]).value) && r.stops == ArmStop(c.stops, e.id, now)
  {
    if e.id !in c.players then
      c.(players := c.players[e.id := Proxy(e.x, e.y, Idle)], previous := c.previous[e.id := e])
    else
      var prev := if e.id in c.previous then c.previous[e.id] else e;
      var proxy := c.players[e.id].(x := e.x, y := e.y);
      match Classify(e, prev)
      case None =>
        c.(players := c.players[e.id := proxy], previous := c.previous[e.id := e])
      case Some(d) =>
        c.(players := c.players[e.id := proxy.(pose := Play(proxy.pose, d))],
           previous := c.previous[e.id := e],
           stops := ArmStop(c.stops, e.id, now))
  }

  /** The ids of `[e] + rest`. */
  lemma IdsOfCons(s: Snapshot)
    requires |s| > 0
    ensures IdsOf(s) == {s[0].id} + IdsOf(s[1..])
  {
    forall id | id in IdsOf(s)
      ensures id in {s[0].id} + IdsOf(s[1..])
    {
      var i :| 0 <= i < |s| && s[i].id == id;
      if i > 0 {
        assert s[1..][i - 1].id == id;
      }
    }
  }

  /**
   * `state.forEach(...)`: every entry in order. Proxies and cache entries
   * are only ever added: the keys grow by the snapshot's ids, and an id the
   * snapshot does not name keeps its proxy, cache entry and stop timer.
   */
  function Reconcile(c: Client, s: Snapshot, now: int): (r: Client)
    ensures r.latest == c.latest
    ensures r.players.Keys == c.players.Keys + IdsOf(s)
    ensures r.previous.Keys == c.previous.Keys + IdsOf(s)
    ensures forall id :: id in c.players && id !in IdsOf(s) ==> r.players[id] == c.players[id]
    ensures forall id :: id in c.previous && id !in IdsOf(s) ==> r.previous[id] == c.previous[id]
    ensures forall id :: id !in IdsOf(s) ==> (id in r.stops <==> id in c.stops)
    ensures forall id :: id in c.stops && id !in IdsOf(s) ==> r.stops[id] == c.stops[id]
    decreases |s|
  {
    if |s| == 0 then c
    else
      IdsOfCons(s);
      Reconcile(ReconcileEntry(c, s[0], now), s[1..], now)
  }

  /**
   * `MainScene.update` at time `now`: nothing before a snapshot has
   * arrived or when it has no `state`; otherwise the latest snapshot is
   * merged, and it is merged again on every frame until a newer one comes.
   */
  function Update(c: Client, now: int): (r: Client)
    ensures c.latest.None? || c.latest.value.state.None? ==> r == c
    ensures r.latest == c.latest
    ensures c.latest.Some? && c.latest.value.state.Some? ==>
      r.players.Keys == c.players.Keys + IdsOf(c.latest.value.state.value)
  {
    match c.latest
    case None => c
    case Some(msg) =>
      match msg.state
      case None => c
      case Some(s) => Reconcile(c, s, now)
  }

  /** Entry `e` is already merged: its proxy sits at its position and the cache holds it. */
  predicate Settled(c: Client, e: Entry) {
    && e.id in c.players && c.players[e.id].x == e.x && c.players[e.id].y == e.y
    && e.id in c.previous && c.previous[e.id] == e
  }

  /** Merging an entry that is already settled changes nothing. */
  lemma SettledEntryIsNoOp(c: Client, e: Entry, now: int)
    requires Settled(c, e)
    ensures ReconcileEntry(c, e, now) == c
  {
    var r := ReconcileEntry(c, e, now);
    assert c.players[e.id].(x := e.x, y := e.y) == c.players[e.id];
    assert r.players == c.players;
    assert r.previous == c.previous;
  }

  /** Merging a snapshot whose every entry is settled changes nothing. */
  lemma {:induction false} SettledSnapshotIsNoOp(c: Client, s: Snapshot, now: int)
    requires forall i :: 0 <= i < |s| ==> Settled(c, s[i])
    ensures Reconcile(c, s, now) == c
    decreases |s|
  {
    if |s| > 0 {
      SettledEntryIsNoOp(c, s[0], now);
      SettledSnapshotIsNoOp(c, s[1..], now);
    }
  }

  /**
   * After a snapshot with distinct ids, every entry is settled: its
   * proxy is rendered exactly at the entry's position, with no
   * interpolation, and the cache holds exactly that entry.
   */
  lemma {:induction false} ReconcileSettles(c: Client, s: Snapshot, now: int)
    requires UniqueIds(s)
    ensures forall i :: 0 <= i < |s| ==> Settled(Reconcile(c, s, now), s[i])
    decreases |s|
  {
    if |s| > 0 {
      var mid := ReconcileEntry(c, s[0], now);
      var rest := s[1..];
      assert UniqueIds(rest);
      ReconcileSettles(mid, rest, now);
      assert s[0].id !in IdsOf(rest) by {
        forall j | 0 <= j < |rest|
          ensures rest[j].id != s[0].id
        {
          assert rest[j] == s[j + 1];
        }
      }
      forall i | 0 <= i < |s|
        ensures Settled(Reconcile(c, s, now), s[i])
      {
        if i > 0 {
          assert s[i] == rest[i - 1];
        }
      }
    }
  }

  /**
   * Merging the same snapshot twice is merging it once: the second pass
   * classifies no direction, arms no timer and moves no proxy.
   */
  lemma ReconcileIdempotent(c: Client, s: Snapshot, now: int, later: int)
    requires UniqueIds(s)
    ensures Reconcile(Reconcile(c, s, now), s, later) == Reconcile(c, s, now)
  {
    ReconcileSettles(c, s, now);
    SettledSnapshotIsNoOp(Reconcile(c, s, now), s, later);
  }

  /**
   * A frame that sees no new snapshot re-merges the last one, which moves
   * nothing and classifies nothing.
   */
  lemma RepeatedFrameIsStill(c: Client, now: int, later: int)
    requires c.latest.Some? && c.latest.value.state.Some? && UniqueIds(c.latest.value.state.value)
    ensures Update(Update(c, now), later) == Update(c, now)
  {
    ReconcileIdempotent(c, c.latest.value.state.value, now, later);
  }

  /**
   * The clock reads `now`: every proxy whose stop timer is due stops its
   * walk, and its timer is emptied; nothing else changes.
   */
  function ExpireStops(c: Client, now: int): (r: Client)
    ensures r.latest == c.latest && r.previous == c.previous
    ensures r.players.Keys == c.players.Keys && r.stops.Keys == c.stops.Keys
    ensures forall id :: id in c.stops && c.stops[id].pending.Some? && c.stops[id].pending.value <= now ==>
      r.stops[id] == Debounce.Unarmed && (id in c.players ==> r.players[id] == c.players[id].(pose := Halt(c.players[id].pose)))
    ensures forall id :: id in c.stops && !(c.stops[id].pending.Some? && c.stops[id].pending.value <= now) ==>
      r.stops[id] == c.stops[id]
    ensures forall id :: id in c.players && (id !in c.stops || !(c.stops[id].pending.Some? && c.stops[id].pending.value <= now)) ==>
      r.players[id] == c.players[id]
  {
    var fired := map id | id in c.stops :: Debounce.Expire(c.stops[id], now, false);
    c.(
      players := map id | id in c.players ::
        if id in fired && fired[id].run then c.players[id].(pose := Halt(c.players[id].pose)) else c.players[id],
      stops := map id | id in fired :: fired[id].state)
  }

  /**
   * The stop timer as the loop arms it: a fresh `debounce` is built for
   * every classified direction and called once, so each classification
   * arms a timer of its own and no earlier one is ever cleared.
   */
  function ArmStopAsWritten(timers: seq<Debounce.State>, now: int): (r: seq<Debounce.State>)
    ensures |r| == |timers| + 1
    ensures r[..|timers|] == timers
    ensures r[|timers|].pending == Some(now + StopDelay)
  {
    timers + [Debounce.Invoke(Debounce.Unarmed, now, StopDelay, false).state]
  }

  /** Whether any of a proxy's stacked timers stops its walk when the clock reads `now`. */
  predicate HaltsAsWritten(timers: seq<Debounce.State>, now: int) {
    exists i :: 0 <= i < |timers| && Debounce.Expire(timers[i], now, false).run
  }

  /**
   * With the loop as written, a proxy classified at 0 ms and again at
   * 150 ms is stopped at 200 ms, 50 ms after it was last seen moving; with
   * one re-armed timer per proxy it is not.
   */
  lemma StackedStopHaltsEarly(id: Id)
    ensures HaltsAsWritten(ArmStopAsWritten(ArmStopAsWritten([], 0), 150), 200)
    ensures !Debounce.Expire(ArmStop(ArmStop(map[], id, 0), id, 150)[id], 200, false).run
  {
    var timers := ArmStopAsWritten(ArmStopAsWritten([], 0), 150);
    assert Debounce.Expire(timers[0], 200, false).run;
  }

  /**
   * With one re-armed timer per proxy, a walk is never stopped within the
   * window after the latest classified direction, whatever came before.
   */
  lemma ArmStopWaitsFullWindow(stops: map<Id, Debounce.State>, id: Id, now: int, t: int)
    requires t < now + StopDelay
    ensures !Debounce.Expire(ArmStop(stops, id, now)[id], t, false).run
    ensures Debounce.Expire(ArmStop(stops, id, now)[id], now + StopDelay, false).run
  {
  }

  /**
   * A proxy seen moving in direction `d` keeps walking through the 200 ms
   * window and is stopped, on the frame of that direction, once the window
   * has passed with no further classification.
   */
  lemma WalkStopsAfterWindow(c: Client, e: Entry, now: int, t: int)
    requires e.id in c.players && e.id in c.previous
    requires Classify(e, c.previous[e.id]).Some?
    ensures var d := Classify(e, c.previous[e.id]).value;
      var walking := ReconcileEntry(c, e, now);
      && (t < now + StopDelay ==> ExpireStops(walking, t).players[e.id].pose == Walking(d))
      && (t >= now + StopDelay ==> ExpireStops(walking, t).players[e.id].pose == Stopped(d))
  {
    var walking := ReconcileEntry(c, e, now);
    assert walking.stops[e.id].pending == Some(now + StopDelay);
  }
}
