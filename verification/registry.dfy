/**
 * The server's client registry, `ServerScene.clients`: a JavaScript `Map`
 * from socket id to the connected player, with the `connection`,
 * `movement` and `disconnect` handlers that change it.
 *
 * A `Map` iterates in insertion order and `set` on a present key keeps the
 * key's place, so the registry is modelled as a sequence of clients with
 * pairwise distinct ids.
 */
module Registry {
  import opened Wrappers
  import opened Protocol
  import opened Velocity

  /** A player's physics body: position and the velocity its last `movement` set. */
  datatype Player = Player(x: real, y: real, velocity: Vector)

  /** One registry entry, `{ socket, player }`; the socket is known by its id. */
  datatype Client = Client(id: Id, player: Player)

  type Clients = seq<Client>

  datatype Error = UnknownClient(id: Id)

  /** Spawn positions keep this far from the low edge of the map: `32 + 32` pixels. */
  const SpawnInset: int := 64

  /** No two clients share an id. */
  predicate Unique(cs: Clients) {
    forall i, j :: 0 <= i < j < |cs| ==> cs[i].id != cs[j].id
  }

  /** The ids in the registry. */
  function IdSet(cs: Clients): (ids: set<Id>)
    ensures forall i :: 0 <= i < |cs| ==> cs[i].id in ids
    ensures forall id :: id in ids ==> exists i :: 0 <= i < |cs| && cs[i].id == id
  {
    set i | 0 <= i < |cs| :: cs[i].id
  }

  /** The position of the first client with `id`, as `Map.prototype.has` finds it. */
  function IndexOf(cs: Clients, id: Id): (r: Option<nat>)
    ensures r.Some? ==> r.value < |cs| && cs[r.value].id == id
    ensures r.Some? ==> forall j :: 0 <= j < r.value ==> cs[j].id != id
    ensures r.None? <==> id !in IdSet(cs)
  {
    if |cs| == 0 then None
    else if cs[0].id == id then Some(0)
    else
      match IndexOf(cs[1..], id)
      case None => None
      case Some(k) => Some(k + 1)
  }

  /** `clients.get(id).player`, or `None` for an id that is not registered. */
  function Lookup(cs: Clients, id: Id): (r: Option<Player>)
    ensures r.Some? <==> id in IdSet(cs)
    ensures Unique(cs) ==> forall i :: 0 <= i < |cs| && cs[i].id == id ==> r == Some(cs[i].player)
  {
    match IndexOf(cs, id)
    case None => None
    case Some(i) => Some(cs[i].player)
  }

  /**
   * One spawn coordinate, `r * (extent - 64) + 32 + 32`, for a draw `r` of
   * `Math.random()` and the map's extent in pixels along that axis.
   */
  function SpawnCoordinate(r: real, extent: nat): (c: real)
    requires 0.0 <= r < 1.0
    ensures extent >= SpawnInset ==> SpawnInset as real <= c <= extent as real
    ensures extent > SpawnInset ==> c < extent as real
    ensures extent < SpawnInset ==> extent as real < c <= SpawnInset as real
  {
    Scaled(r, extent as real - 64.0) + 32.0 + 32.0
  }

  /** The product `r * span` of a draw `r` in `[0, 1)`, which lies between `0` and `span`. */
  function Scaled(r: real, span: real): (p: real)
    requires 0.0 <= r < 1.0
    ensures span >= 0.0 ==> 0.0 <= p <= span
    ensures span > 0.0 ==> p < span
    ensures span < 0.0 ==> span < p <= 0.0
  {
    FractionOfSpan(r, span, r * span);
    r * span
  }

  /** The signs of a product. */
  lemma ProductSign(a: real, b: real)
    ensures a >= 0.0 && b >= 0.0 ==> a * b >= 0.0
    ensures a > 0.0 && b > 0.0 ==> a * b > 0.0
    ensures a >= 0.0 && b <= 0.0 ==> a * b <= 0.0
    ensures a > 0.0 && b < 0.0 ==> a * b < 0.0
  {
  }

  /** A fraction `p == r * span`, `r` in `[0, 1)`, lies between `0` and `span`. */
  lemma FractionOfSpan(r: real, span: real, p: real)
    requires 0.0 <= r < 1.0
    requires p == r * span
    ensures span >= 0.0 ==> 0.0 <= p <= span
    ensures span > 0.0 ==> p < span
    ensures span < 0.0 ==> span < p <= 0.0
  {
    var q := (1.0 - r) * span;
    assert span - p == q;
    ProductSign(r, span);
    ProductSign(1.0 - r, span);
    assert span < 0.0 ==> q < 0.0;
  }

  /** The first index holding `id` is the one `IndexOf` finds. */
  lemma IndexOfFirst(cs: Clients, id: Id, k: nat)
    requires k < |cs| && cs[k].id == id
    requires forall j :: 0 <= j < k ==> cs[j].id != id
    ensures IndexOf(cs, id) == Some(k)
  {
  }

  /** `clients.set(id, { socket, player })`: replace in place, or append a new key. */
  function Set(cs: Clients, id: Id, p: Player): (r: Clients)
    ensures |r| == if id in IdSet(cs) then |cs| else |cs| + 1
    ensures Lookup(r, id) == Some(p)
    ensures IdSet(r) == IdSet(cs) + {id}
    ensures forall other :: other != id ==> Lookup(r, other) == Lookup(cs, other)
    ensures Unique(cs) ==> Unique(r)
    ensures id !in IdSet(cs) ==> r == cs + [Client(id, p)]
  {
    match IndexOf(cs, id)
    case Some(i) =>
      var r := cs[i := Client(id, p)];
      SetInPlace(cs, i, p);
      r
    case None =>
      var r := cs + [Client(id, p)];
      Append(cs, Client(id, p));
      r
  }

  /** Replacing the player of the client at `i` keeps every id, and every other lookup. */
  lemma SetInPlace(cs: Clients, i: nat, p: Player)
    requires i < |cs| && IndexOf(cs, cs[i].id) == Some(i)
    ensures var r := cs[i := Client(cs[i].id, p)];
      && IdSet(r) == IdSet(cs)
      && Lookup(r, cs[i].id) == Some(p)
      && (forall other :: other != cs[i].id ==> Lookup(r, other) == Lookup(cs, other))
      && (Unique(cs) ==> Unique(r))
  {
    var r := cs[i := Client(cs[i].id, p)];
    assert forall k :: 0 <= k < |r| ==> r[k].id == cs[k].id;
    assert IdSet(r) == IdSet(cs);
    IndexOfFirst(r, cs[i].id, i);
    forall other | other != cs[i].id
      ensures Lookup(r, other) == Lookup(cs, other)
    {
      if other in IdSet(cs) {
        var k :| IndexOf(cs, other) == Some(k);
        IndexOfFirst(r, other, k);
      }
    }
  }

  /** Appending a client with a new id adds that id and keeps every other lookup. */
  lemma Append(cs: Clients, c: Client)
    requires c.id !in IdSet(cs)
    ensures var r := cs + [c];
      && IdSet(r) == IdSet(cs) + {c.id}
      && Lookup(r, c.id) == Some(c.player)
      && (forall other :: other != c.id ==> Lookup(r, other) == Lookup(cs, other))
      && (Unique(cs) ==> Unique(r))
  {
    var r := cs + [c];
    assert forall k :: 0 <= k < |cs| ==> r[k] == cs[k];
    assert r[|cs|] == c;
    forall x | x in IdSet(r)
      ensures x in IdSet(cs) + {c.id}
    {
      var k :| 0 <= k < |r| && r[k].id == x;
      if k < |cs| {
        assert r[k] == cs[k];
      }
    }
    IndexOfFirst(r, c.id, |cs|);
    forall other | other != c.id
      ensures Lookup(r, other) == Lookup(cs, other)
    {
      if other in IdSet(cs) {
        var k :| IndexOf(cs, other) == Some(k);
        IndexOfFirst(r, other, k);
      }
    }
  }

  /**
   * The `connection` handler: a player at rest at the spawn position drawn
   * from `rx` and `ry`, registered under the socket's id.
   */
  function Connect(cs: Clients, id: Id, rx: real, ry: real, width: nat, height: nat): (r: Clients)
    requires 0.0 <= rx < 1.0 && 0.0 <= ry < 1.0
    ensures IdSet(r) == IdSet(cs) + {id}
    ensures Unique(cs) ==> Unique(r)
    ensures Lookup(r, id).Some? && Lookup(r, id).value.velocity == Rest
    ensures width > SpawnInset ==> SpawnInset as real <= Lookup(r, id).value.x < width as real
    ensures height > SpawnInset ==> SpawnInset as real <= Lookup(r, id).value.y < height as real
    ensures forall other :: other != id ==> Lookup(r, other) == Lookup(cs, other)
  {
    Set(cs, id, Player(SpawnCoordinate(rx, width), SpawnCoordinate(ry, height), Rest))
  }

  /**
   * The `movement` handler: the client's body takes the velocity the intent
   * selects; its position is left to the physics step. The handler is
   * bound to the connection's own player, so a message for an id no longer
   * registered changes nothing in the registry.
   */
  function Move(cs: Clients, id: Id, m: Movement): (r: Clients)
    ensures |r| == |cs|
    ensures forall i :: 0 <= i < |cs| ==> r[i].id == cs[i].id && r[i].player.x == cs[i].player.x && r[i].player.y == cs[i].player.y
    ensures forall i :: 0 <= i < |cs| && cs[i].id != id ==> r[i] == cs[i]
    ensures Unique(cs) ==> forall i :: 0 <= i < |cs| && cs[i].id == id ==> r[i].player.velocity == Steer(m)
    ensures id !in IdSet(cs) ==> r == cs
  {
    match IndexOf(cs, id)
    case None => cs
    case Some(i) => cs[i := Client(id, cs[i].player.(velocity := Steer(m)))]
  }

  /**
   * The `disconnect` handler: the client's entry is deleted. The handler
   * dereferences `clients.get(id)` first, so an unknown id is an error.
   */
  function Disconnect(cs: Clients, id: Id): (r: Result<Clients, Error>)
    ensures r.Failure? <==> id !in IdSet(cs)
    ensures r.Success? ==> |r.value| == |cs| - 1
    ensures r.Success? && Unique(cs) ==> Unique(r.value) && IdSet(r.value) == IdSet(cs) - {id}
    ensures r.Success? && Unique(cs) ==> forall other :: other != id ==> Lookup(r.value, other) == Lookup(cs, other)
  {
    match IndexOf(cs, id)
    case None => Failure(UnknownClient(id))
    case Some(i) =>
      var rest := Without(cs, i);
      if Unique(cs) then
        RemoveAt(cs, i);
        Success(rest)
      else
        Success(rest)
  }

  /** The registry without its client at `i`, in order. */
  function Without(cs: Clients, i: nat): (rest: Clients)
    requires i < |cs|
    ensures |rest| == |cs| - 1
    ensures forall k :: 0 <= k < |rest| ==> rest[k] == cs[if k < i then k else k + 1]
  {
    cs[..i] + cs[i + 1..]
  }

  /** Deleting the client at `i` from a registry with distinct ids removes exactly its id and keeps the rest. */
  lemma RemoveAt(cs: Clients, i: nat)
    requires i < |cs| && Unique(cs)
    ensures Unique(Without(cs, i))
    ensures IdSet(Without(cs, i)) == IdSet(cs) - {cs[i].id}
    ensures forall other :: other != cs[i].id ==> Lookup(Without(cs, i), other) == Lookup(cs, other)
  {
    var rest := Without(cs, i);
    RemoveAtIds(cs, i);
    forall other | other != cs[i].id
      ensures Lookup(rest, other) == Lookup(cs, other)
    {
      if other in IdSet(rest) {
        var k :| 0 <= k < |rest| && rest[k].id == other;
        assert rest[k] == cs[if k < i then k else k + 1];
      }
    }
  }

  /** The ids left after deleting the client at `i` from a registry with distinct ids. */
  lemma RemoveAtIds(cs: Clients, i: nat)
    requires i < |cs| && Unique(cs)
    ensures Unique(Without(cs, i))
    ensures IdSet(Without(cs, i)) == IdSet(cs) - {cs[i].id}
  {
    var rest := Without(cs, i);
    forall id | id in IdSet(cs) - {cs[i].id}
      ensures id in IdSet(rest)
    {
      var k :| 0 <= k < |cs| && cs[k].id == id;
      if k < i {
        assert rest[k] == cs[k];
      } else {
        assert rest[k - 1] == cs[k];
      }
    }
  }

  /** Connecting a fresh id and then disconnecting it gives back the registry unchanged. */
  lemma ConnectThenDisconnect(cs: Clients, id: Id, rx: real, ry: real, width: nat, height: nat)
    requires 0.0 <= rx < 1.0 && 0.0 <= ry < 1.0
    requires id !in IdSet(cs)
    ensures Disconnect(Connect(cs, id, rx, ry, width, height), id) == Success(cs)
  {
    var r := Connect(cs, id, rx, ry, width, height);
    assert r == cs + [Client(id, r[|cs|].player)];
    assert IndexOf(r, id) == Some(|cs|);
    assert Without(r, |cs|) == cs;
  }
}
