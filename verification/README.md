# aurora-multiplayer: position synchronisation, modelled in Dafny

This project models the state-synchronisation core of a small multiplayer
Phaser game. The game has an authoritative server and browser clients connected over socket.io.

- **Server** (`server/index.js`): the `connection` handler draws a spawn
  position, registers the player under its socket id, turns every
  `movement` message into a body velocity (reset, `left` before `right`,
  `up` before `down`, then diagonal normalisation to the speed of 175), and
  deletes the player on `disconnect`. `ServerScene.update` counts ticks and,
  on every even tick, builds one `{ id, x, y }` entry per registered client
  and emits the same `{ state }` snapshot to every client.
- **Client** (`client/index.js`): `MainScene.update` merges the latest
  snapshot into the proxy sprites (`players`) and the previous-position
  cache (`previousPlayers`). A first sighting creates a proxy. A known proxy
  snaps to the new position. The proxy's motion is classified by the
  predicates `isLeftDirection`, `isRightDirection`, `isUpDirection` and
  `isDownDirection`, tried in that order. A walk animation plays, and a
  debounced `anims.stop()` is armed for 200 ms later. Because the source
  builds a new debouncer for every classified move, each classification
  arms a stop timer of its own, and the walk stops 200 ms after the
  earliest still-pending classification (see "## Findings"). The loop is
  modelled with the intended single timer per proxy, which stops the walk
  200 ms after the proxy was last seen moving. The `debounce` helper is
  modelled on its own as a state machine over an abstract clock.

Every operation is a pure function over immutable values. A message is a
value passed into a step function. A `Math.random()` draw is a real
parameter in `[0, 1)`. Time is an integer clock in milliseconds that is passed in.

Modules:

- `Wrappers`: `Option`, `Result` and map lookup.
- `Protocol`: the wire values `Entry`, `Snapshot`, `SnapshotMessage` and
  `Movement`.
- `Velocity`: the `movement` velocity rule.
- `Registry`: the server's `clients` map and the spawn formula.
- `Broadcast`: the tick counter and the snapshot.
- `Direction`: the classifier and the animation pose.
- `Debounce`: the `debounce` helper.
- `Reconciler`: the client update loop.

Representation choices:

- **Registry order.** The registry is a sequence of clients with distinct ids.
  This is because a JavaScript `Map` iterates in insertion order, and `set`
  on a present key keeps that key's place. Snapshot order is therefore
  registry order.
- **Velocity components.** A velocity component is kept exactly as its sign
  and its square. This means normalisation needs no square root.

## Model

| member | source | states |
|---|---|---|
| Velocity.RawVelocity | server/index.js:70-85 | After the reset to zero, `x` is `-speed` when `left` is set, `+speed` when only `right` is set, and 0 otherwise; `left` wins when both are set. `y` works the same way with `up` before `down`. |
| Velocity.NormalizeScale | server/index.js:87-88 | Normalising and scaling by `speed` keeps every component's sign. Equal components stay equal. The zero vector stays zero. Any other vector ends with squared length `speed²`. |
| Velocity.Steer | server/index.js:66-89 | A `movement` message's velocity depends only on the message. The signs are the ones the `if / else if` chains choose. The squared speed is 175² whenever a key is held, and each component of a diagonal gets half of it. With no key held the velocity is zero. |
| Registry.SpawnCoordinate | server/index.js:54-55 | For a draw `r` in `[0, 1)`, the coordinate `r * (extent - 64) + 64` lies in `[64, extent)` when the map is wider than 64 px, and in `(extent, 64]` when it is narrower. |
| Registry.Set | server/index.js:61-64 | `clients.set` makes the id map to the new player and leaves every other id's lookup unchanged. The id set gains exactly this id. Ids stay distinct. A new id is appended at the end of the iteration order. |
| Registry.Connect | server/index.js:53-64 | A connection registers its id with a player at rest. When the map is wider and taller than 64 px, the player's spawn position is inside `[64, width) × [64, height)`. No other registered player changes. |
| Registry.Move | server/index.js:66-89 | A `movement` message sets the velocity of that client's player to `Steer(m)`. No position changes, and no other client changes. A message for an id that is not registered changes nothing. |
| Registry.Disconnect | server/index.js:91-95 | `disconnect` fails exactly when the id is not registered. Otherwise it removes exactly that id, keeps ids distinct and leaves every other lookup unchanged. |
| Registry.RemoveAt | server/index.js:94 | Deleting one client from a registry with distinct ids removes only its id and keeps every other client's player. |
| Registry.ConnectThenDisconnect | server/index.js:61-95 | Connecting a fresh id and then disconnecting it gives back the original registry, order included. |
| Broadcast.BuildSnapshot | server/index.js:105-110 | The snapshot has one entry per registered client, in registry order. Each entry carries that client's id and its player's `x` and `y`. |
| Broadcast.SendToAll | server/index.js:112-116 | Each registered client is sent one message, in registry order, and all of them carry the same `state`. |
| Broadcast.Update | server/index.js:99-117 | The tick rises by exactly one and the registry is untouched. A snapshot is built iff the new tick is even, and nothing is sent on odd ticks. On even ticks every client receives that same snapshot. |
| Broadcast.SnapshotCoversRegistry | server/index.js:106-110 | When registry ids are distinct, the snapshot's ids are exactly the registered ids, each appearing once. Every entry's position is the registered player's position. |
| Broadcast.Cadence | server/index.js:100-103 | `n` updates from tick `t` reach tick `t + n` and broadcast `(t + n) / 2 - t / 2` times, which is half the update rate. |
| Direction.Classify | client/index.js:105-119 | `left` iff `x` decreased and `right` iff `x` increased, whatever `y` did. `up` or `down` only when `x` is unchanged. No direction iff the position is unchanged. |
| Debounce.Invoke | client/index.js:170-186 | A call clears whatever was armed and arms exactly one timer for `now + wait`. The wrapped function never runs at call time unless `immediate` is set, and then only if nothing was armed. |
| Debounce.Expire | client/index.js:174-177 | A timer runs the wrapped function only once its deadline has passed, and never in `immediate` mode. Firing empties the slot. Before the deadline nothing changes. |
| Debounce.RunMatchesArmed | client/index.js:179-183 | After any sequence of calls and clock readings, the slot holds exactly the deadline `wait` after the last call, unless the clock has since reached it. |
| Debounce.StepEvent | client/index.js:170-186 | A clock reading fires a due timer, which empties the slot and runs the function outside `immediate` mode. A call re-arms for `at + wait`, first letting fire only a timer due strictly before it. Outside `immediate` mode the function never runs unless an armed deadline was reached. |
| Debounce.RunsOnlyOnExpiry | client/index.js:174-185 | With `immediate` false, the wrapped function runs at an event iff the last call's timer is still armed and the event reaches its deadline: a clock reading at or after it, or a call strictly after it. |
| Debounce.RearmPostponesRun | client/index.js:181-183 | Calls at 0 ms and 150 ms with a 200 ms window: nothing runs at 200 ms, and the function runs once, at 350 ms. |
| Debounce.SameInstantCallsRunOnce | client/index.js:181-183 | Two calls at the same instant with a zero window: the second clears the first's timer before it can fire, and the function runs once. |
| Reconciler.Receive | client/index.js:37-39 | A `snapshot` message replaces the kept one and leaves proxies, cache and timers alone. |
| Reconciler.ArmStop | client/index.js:104-116 | One stop timer per proxy. A classified direction re-arms that proxy's timer for 200 ms later and leaves other proxies' timers alone. |
| Reconciler.ReconcileEntry | client/index.js:84-122 | A first sighting creates a proxy at exactly `(x, y)`, idle, with no timer armed. A known proxy snaps to exactly `(x, y)`. With no cached entry, or an unchanged position, nothing else changes. A classified move plays that direction's walk and re-arms the proxy's one stop timer (the corrected timer of "## Findings"). The cache always ends holding the entry. |
| Reconciler.Reconcile | client/index.js:83-123 | After a snapshot, the proxy and cache key sets are the old ones united with the snapshot's ids. Ids the snapshot does not name keep their proxy, cache entry and timer. |
| Reconciler.Update | client/index.js:77-123 | Before any snapshot, or when it has no `state`, a frame changes nothing. Otherwise the proxy keys grow by the snapshot's ids. |
| Reconciler.ReconcileSettles | client/index.js:99-122 | After a snapshot with distinct ids, every named proxy is rendered at exactly its entry's position and the cache holds exactly that entry. |
| Reconciler.ReconcileIdempotent | client/index.js:91-122 | Merging the same snapshot a second time changes nothing: no direction is classified, no timer is armed and no proxy moves. |
| Reconciler.RepeatedFrameIsStill | client/index.js:77-123 | A frame that sees no new snapshot re-merges the kept one, and that changes nothing. |
| Reconciler.ExpireStops | client/index.js:174-177 | When the clock reads `now`, exactly the proxies whose stop timer is due stop their walk and have their timer emptied. Nothing else changes. |
| Reconciler.ArmStopAsWritten | client/index.js:104 | As written, every classification arms a timer of its own. No earlier timer is cleared. |
| Reconciler.StackedStopHaltsEarly | client/index.js:104-116 | Classifications at 0 ms and 150 ms: as written, the walk stops at 200 ms; with one re-armed timer per proxy, it does not. |
| Reconciler.ArmStopWaitsFullWindow | client/index.js:167-187 | With one re-armed timer per proxy, the stop never fires within 200 ms of the latest classification, and it fires once 200 ms have passed. |
| Reconciler.WalkStopsAfterWindow | client/index.js:104-116 | A proxy seen moving in direction `d` keeps walking while the clock reads less than 200 ms later. From 200 ms on it is stopped on the frame of `d`. |

## Findings

| source | as written | input that shows it | evidently intended | confidence | as-written member | corrected member |
|---|---|---|---|---|---|---|
| client/index.js:104 | `debounce(...)` is built anew for each classified direction inside the loop. Each closure has its own empty `timeout`, so `clearTimeout` never cancels the stop armed by an earlier frame. | A proxy classified at 0 ms and again at 150 ms; the clock reaches 200 ms. The first frame's timer stops the walk 50 ms after the proxy last moved. | One debouncer per proxy, re-armed by every classified direction, so that the walk stops only 200 ms after the last one. | high, not executed | Reconciler.ArmStopAsWritten | Reconciler.ArmStop |

The reconciler uses `ArmStop`, which keeps one debounce state per proxy.
`ArmStopWaitsFullWindow` proves the intended window for it, and
`StackedStopHaltsEarly` exhibits the input on which the two differ.

## Behaviour notes

- **Direction priority.** When both keys of an axis are held, `left` and
  `up` win, because they are checked first.
- **Unknown id on disconnect.** The `disconnect` handler dereferences
  `clients.get(id)` without a check, so it fails on an unknown id instead of
  ignoring it. `Registry.Disconnect` models this as a `Failure`.
- **Spawn range.** The spawn formula adds both 32 px offsets on the low side.
  A player can therefore spawn anywhere in `[64, extent)`, right up to the
  far edge of the map. `Registry.SpawnCoordinate` states this range and
  does not correct it.
- **Proxies are never removed.** After a remote client disconnects, its
  proxy and cache entry stay on every client. `Reconciler.Reconcile` states this.

## Left out

- Phaser Arcade physics (velocity integration over a tick, wall collisions,
  world-bound clamping) is library code. Positions change only through
  values passed in; the model keeps velocities and does not integrate them.
- Velocity.NormalizeScale: models Phaser's `normalize().scale(speed)` only on
  vectors with equal non-zero components. Every raw velocity of the
  handler has that shape. It also models exact real arithmetic, not
  floating point.
- Rendering and assets (sprites, the animation catalogue, tilemaps, the
  atlas, the scale config) are presentation. A proxy's animation is reduced
  to `Direction.Pose`. The map's pixel size is a parameter.
- The socket.io transport, express / parcel serving and `server.listen` are
  I/O. Messages are values, and `socket.emit` is an `Emission` value.
- Wall-clock timing is not modelled. `setTimeout` / `clearTimeout` become
  deadlines on an abstract clock. A timer fires at the first clock reading
  at or after its deadline. A call at the deadline itself comes before the
  timer's task and clears it.
- `Math.random()` is not modelled; each draw is a real parameter in `[0, 1)`.
- Reading the cursor keys and emitting `movement` (client/index.js:125-132)
  is input plumbing.
- The player sprite a `movement` handler keeps after its client disconnected
  is destroyed and unreachable, so it is not modelled.
- Reconciler.ReconcileEntry: the update loop is modelled with the corrected
  stop timer, one per proxy and re-armed by each classification.
  `Reconciler.Reconcile`, `Reconciler.ExpireStops` and
  `Reconciler.WalkStopsAfterWindow` inherit it. The stacking timers the
  source builds at client/index.js:104 are modelled only by
  `Reconciler.ArmStopAsWritten` and `Reconciler.StackedStopHaltsEarly`.
- Debounce.RunsOnlyOnExpiry: characterises the trace only for `immediate`
  false, the mode the client uses. `immediate` mode is modelled only
  through `Debounce.Invoke` and `Debounce.Expire`.
