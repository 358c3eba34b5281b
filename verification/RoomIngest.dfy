/**
  Ingest of anonymous room-transition events: each event of a batch is checked against the node's own
  cameras and portals and inserted under its edge-generated id, at most once.
 */
module RoomIngest {
  import opened Base

  const MAX_EVENT_AGE: int := 7 * 24 * 60 * 60 * SECOND
  const MAX_EVENT_FUTURE_SKEW: int := 120 * SECOND

  datatype Direction = Entered | Exited

  datatype Input = Input(
    id: Id, camera: Id, portal: Id, direction: Direction, occurredAt: Time,
    track: int, stream: string, x: real, y: real, observations: int)

  datatype Category =
    | CameraUnavailable | PortalUnavailable | OutOfWindow | InvalidEvent | EventIdConflict

  datatype Status = Accepted | Duplicate | Rejected(category: Category)

  datatype Camera = Camera(room: Option<Id>, facility: Option<Id>)

  datatype Portal = Portal(camera: Id, room: Id, facility: Id)

  // The authenticated node and what the server knows of it: its assigned cameras and its tenant's portals.
  datatype Node = Node(tenant: Id, id: Id, cameras: map<Id, Camera>, portals: map<Id, Portal>)

  datatype Row = Row(tenant: Id, facility: Id, room: Id, node: Id, event: Input)

  // All tenants' rows under one primary key.
  type Table = map<Id, Row>

  // ----------------------------------------------------------------------------- one event

  predicate InWindow(e: Input, now: Time) {
    now - MAX_EVENT_AGE <= e.occurredAt <= now + MAX_EVENT_FUTURE_SKEW
  }

  predicate LowerAlphanumeric(c: char) { 'a' <= c <= 'z' || '0' <= c <= '9' }

  // The table's CHECK constraints on the values a device supplies.
  predicate TableCheck(e: Input) {
    && 0.0 <= e.x <= 1.0 && 0.0 <= e.y <= 1.0
    && 1 <= e.observations <= 100
    && 1 <= e.track <= 2147483647
    && 1 <= |e.stream| <= 64 && LowerAlphanumeric(e.stream[0])
    && forall i :: 0 <= i < |e.stream| ==> LowerAlphanumeric(e.stream[i]) || e.stream[i] == '_' || e.stream[i] == '-'
  }

  // Why the node may not report this event at all, whatever the time and the table.
  function Refused(node: Node, portals: map<Id, Portal>, e: Input): Option<Category> {
    if e.camera !in node.cameras || node.cameras[e.camera].room.None? || node.cameras[e.camera].facility.None?
    then Some(CameraUnavailable)
    else if e.portal !in portals || portals[e.portal].camera != e.camera
            || Some(portals[e.portal].room) != node.cameras[e.camera].room
    then Some(PortalUnavailable)
    else None
  }

  function RowOf(node: Node, portals: map<Id, Portal>, e: Input): Row
    requires Refused(node, portals, e).None?
  {
    Row(node.tenant, portals[e.portal].facility, portals[e.portal].room, node.id, e)
  }

  // The stored row is the same event of the same node; the crossing point and evidence are not compared.
  predicate SameEvent(node: Node, r: Row, e: Input) {
    && r.tenant == node.tenant && r.node == node.id
    && r.event.camera == e.camera && r.event.portal == e.portal && r.event.direction == e.direction
    && r.event.occurredAt == e.occurredAt && r.event.track == e.track && r.event.stream == e.stream
  }

  function IngestOne(t: Table, node: Node, portals: map<Id, Portal>, e: Input, now: Time): (Table, Status) {
    var refused := Refused(node, portals, e);
    if refused.Some? then (t, Rejected(refused.value))
    else if !InWindow(e, now) then (t, Rejected(OutOfWindow))
    else if !TableCheck(e) then (t, Rejected(InvalidEvent))
    else if e.id !in t then (t[e.id := RowOf(node, portals, e)], Accepted)
    else if SameEvent(node, t[e.id], e) then (t, Duplicate)
    else (t, Rejected(EventIdConflict))
  }

  // ---------------------------------------------------------------------------- one batch

  // Only the portals that an event of an assigned camera names are loaded.
  function WantedPortals(node: Node, events: seq<Input>): map<Id, Portal> {
    map p | p in node.portals && (exists e :: e in events && e.portal == p && e.camera in node.cameras)
      :: node.portals[p]
  }

  function Fold(t: Table, node: Node, portals: map<Id, Portal>, events: seq<Input>, now: Time)
    : (r: (Table, seq<Status>))
    ensures |r.1| == |events|
  {
    if events == [] then (t, [])
    else
      var n := |events| - 1;
      var (before, statuses) := Fold(t, node, portals, events[..n], now);
      var (after, status) := IngestOne(before, node, portals, events[n], now);
      (after, statuses + [status])
  }

  function Ingest(t: Table, node: Node, events: seq<Input>, now: Time): (r: (Table, seq<Status>))
    ensures |r.1| == |events|
  {
    Fold(t, node, WantedPortals(node, events), events, now)
  }

  // ------------------------------------------------------------------------------- service

  class EdgeRuntimeService {
    var table: Table

    constructor ()
      ensures table == map[]
    {
      table := map[];
    }

    method IngestBatch(node: Node, events: seq<Input>, now: Time) returns (results: seq<Status>)
      modifies this
      ensures (table, results) == Ingest(old(table), node, events, now)
    {
      var portals := WantedPortals(node, events);
      results := [];
      for i := 0 to |events|
        invariant (table, results) == Fold(old(table), node, portals, events[..i], now)
      {
        assert events[..i + 1][..i] == events[..i];
        var status := One(node, portals, events[i], now);
        results := results + [status];
      }
      assert events[..|events|] == events;
    }

    method One(node: Node, portals: map<Id, Portal>, e: Input, now: Time) returns (status: Status)
      modifies this
      ensures (table, status) == IngestOne(old(table), node, portals, e, now)
    {
      if e.camera !in node.cameras { return Rejected(CameraUnavailable); }
      var camera := node.cameras[e.camera];
      if camera.room.None? || camera.facility.None? { return Rejected(CameraUnavailable); }
      if e.portal !in portals { return Rejected(PortalUnavailable); }
      var portal := portals[e.portal];
      if portal.camera != e.camera || portal.room != camera.room.value { return Rejected(PortalUnavailable); }
      if !(now - MAX_EVENT_AGE <= e.occurredAt <= now + MAX_EVENT_FUTURE_SKEW) { return Rejected(OutOfWindow); }
      if !TableCheck(e) { return Rejected(InvalidEvent); }
      if e.id !in table {
        table := table[e.id := Row(node.tenant, portal.facility, portal.room, node.id, e)];
        return Accepted;
      }
      if SameEvent(node, table[e.id], e) { return Duplicate; }
      return Rejected(EventIdConflict);
    }
  }
}
