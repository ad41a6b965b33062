/**
 * The wire-level values exchanged between the server and its clients:
 * the `movement` intent a client sends and the `snapshot` the server
 * broadcasts. Positions are Phaser world coordinates, modelled as reals.
 */
module Protocol {
  import opened Wrappers

  /** A connection identity: the socket.io id, an opaque string. */
  type Id = string

  /** One player in a snapshot: `{ id, x, y }`. */
  datatype Entry = Entry(id: Id, x: real, y: real)

  /** The ordered `state` array of a snapshot. */
  type Snapshot = seq<Entry>

  /** The payload of a `snapshot` message, `{ state }`; `state` may be missing. */
  datatype SnapshotMessage = SnapshotMessage(state: Option<Snapshot>)

  /**
   * The payload of a `movement` message. A field the sender leaves out
   * destructures to `undefined`, which the handler treats as false.
   */
  datatype Movement = Movement(left: bool, right: bool, up: bool, down: bool)

  /** The ids carried by a snapshot, as a set. */
  function IdsOf(s: Snapshot): (ids: set<Id>)
    ensures forall i :: 0 <= i < |s| ==> s[i].id in ids
    ensures forall id :: id in ids ==> exists i :: 0 <= i < |s| && s[i].id == id
  {
    set i | 0 <= i < |s| :: s[i].id
  }

  /** No two entries of the snapshot share an id. */
  predicate UniqueIds(s: Snapshot) {
    forall i, j :: 0 <= i < j < |s| ==> s[i].id != s[j].id
  }
}
