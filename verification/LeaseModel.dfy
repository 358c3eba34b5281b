/**
  The bounded registry of brokered live-video leases as a value: leases and tombstones in insertion
  order, a counter for each node, and the reservations that are still unsettled.
 */
module LeaseModel {
  import opened Base
  import opened Lists

  datatype Node = Node(tenant: Id, node: Id)

  datatype Lease = Lease(
    id: Id, owner: Node, camera: Id, connection: Id, session: Option<Id>, created: Time, expires: Time)

  // A released id, remembered so that its owner's repeated release is answered idempotently.
  datatype Tombstone = Tombstone(lease: Id, owner: Node, expires: Time)

  datatype Bounds = Bounds(maxActive: int, maxPerNode: int, ttl: int)

  datatype Answer = Released | AlreadyReleased | NotFound

  datatype Registry = Registry(
    leases: seq<Lease>, perNode: map<Node, int>, pending: int, tombstones: seq<Tombstone>,
    held: map<nat, Node>, issued: nat)

  predicate ValidBounds(b: Bounds) { 1 <= b.maxPerNode <= b.maxActive && b.ttl > 0 }

  function Capacity(b: Bounds): int { 8 * b.maxActive }

  const EMPTY: Registry := Registry([], map[], 0, [], map[], 0)

  // --------------------------------------------------------------------------- lookups

  predicate LeaseIdIn(leases: seq<Lease>, id: Id) { exists i :: 0 <= i < |leases| && leases[i].id == id }

  predicate TombIn(tombs: seq<Tombstone>, id: Id) { exists i :: 0 <= i < |tombs| && tombs[i].lease == id }

  function LeaseId(l: Lease): Id { l.id }

  function TombId(t: Tombstone): Id { t.lease }

  // ------------------------------------------------------------------------ accounting

  function NodeCount(perNode: map<Node, int>, k: Node): int { if k in perNode then perNode[k] else 0 }

  // The node's entry is dropped when it reaches zero.
  function Decrement(perNode: map<Node, int>, k: Node): map<Node, int> {
    if k !in perNode then perNode
    else if perNode[k] - 1 <= 0 then perNode - {k}
    else perNode[k := perNode[k] - 1]
  }

  function DecrementAll(perNode: map<Node, int>, leases: seq<Lease>): map<Node, int> {
    if leases == [] then perNode
    else Decrement(DecrementAll(perNode, leases[..|leases| - 1]), leases[|leases| - 1].owner)
  }

  // Append, re-appending a repeated id, then drop the oldest beyond the capacity.
  function Remember(b: Bounds, tombs: seq<Tombstone>, l: Lease, now: Time): seq<Tombstone> {
    var i := IndexOf(tombs, TombId, l.id);
    var kept := if i < |tombs| then WithoutAt(tombs, i) else tombs;
    Evict(b, kept + [Tombstone(l.id, l.owner, now + b.ttl)])
  }

  function Evict(b: Bounds, tombs: seq<Tombstone>): seq<Tombstone> {
    if |tombs| > Capacity(b) && tombs != [] then Evict(b, tombs[1..]) else tombs
  }

  function RememberAll(b: Bounds, tombs: seq<Tombstone>, leases: seq<Lease>, now: Time): seq<Tombstone> {
    if leases == [] then tombs
    else Remember(b, RememberAll(b, tombs, leases[..|leases| - 1], now), leases[|leases| - 1], now)
  }

  function Expired(leases: seq<Lease>, now: Time): seq<Lease> {
    if leases == [] then []
    else
      var n := |leases| - 1;
      Expired(leases[..n], now) + (if leases[n].expires <= now then [leases[n]] else [])
  }

  function Unexpired(leases: seq<Lease>, now: Time): seq<Lease> {
    if leases == [] then []
    else
      var n := |leases| - 1;
      Unexpired(leases[..n], now) + (if leases[n].expires <= now then [] else [leases[n]])
  }

  function Purge(tombs: seq<Tombstone>, now: Time): seq<Tombstone> {
    if tombs == [] then []
    else
      var n := |tombs| - 1;
      Purge(tombs[..n], now) + (if tombs[n].expires <= now then [] else [tombs[n]])
  }

  // ------------------------------------------------------------------------------ steps

  function Reserve(b: Bounds, s: Registry, k: Node): (Registry, Option<nat>) {
    if |s.leases| + s.pending >= b.maxActive then (s, None)
    else if NodeCount(s.perNode, k) >= b.maxPerNode then (s, None)
    else
      (s.(perNode := s.perNode[k := NodeCount(s.perNode, k) + 1], pending := s.pending + 1,
          held := s.held[s.issued := k], issued := s.issued + 1), Some(s.issued))
  }

  function Cancel(s: Registry, reservation: nat): Registry {
    if reservation !in s.held then s
    else s.(pending := s.pending - 1, perNode := Decrement(s.perNode, s.held[reservation]),
            held := s.held - {reservation})
  }

  predicate Drawable(s: Registry, id: Id) { !LeaseIdIn(s.leases, id) && !TombIn(s.tombstones, id) }

  // A settled reservation is an error; the slot of an unsettled one becomes the lease's.
  function Commit(b: Bounds, s: Registry, reservation: nat, id: Id, camera: Id, connection: Id,
                  session: Option<Id>, now: Time): Option<(Registry, Lease)>
  {
    if reservation !in s.held then None
    else
      var l := Lease(id, s.held[reservation], camera, connection, session, now, now + b.ttl);
      Some((s.(pending := s.pending - 1, held := s.held - {reservation}, leases := s.leases + [l]), l))
  }

  function ReleaseOwned(b: Bounds, s: Registry, id: Id, owner: Node, now: Time): (Registry, Answer, Option<Lease>) {
    var i := IndexOf(s.leases, LeaseId, id);
    if i < |s.leases| then
      var l := s.leases[i];
      if l.owner != owner then (s, NotFound, None)
      else (s.(leases := WithoutAt(s.leases, i), perNode := Decrement(s.perNode, owner),
               tombstones := Remember(b, s.tombstones, l, now)), Released, Some(l))
    else
      var t := IndexOf(s.tombstones, TombId, id);
      if t < |s.tombstones| && s.tombstones[t].owner == owner && s.tombstones[t].expires > now
      then (s, AlreadyReleased, None)
      else (s, NotFound, None)
  }

  function PopExpired(b: Bounds, s: Registry, now: Time): (Registry, seq<Lease>) {
    var expired := Expired(s.leases, now);
    (s.(leases := Unexpired(s.leases, now), perNode := DecrementAll(s.perNode, expired),
        tombstones := Purge(RememberAll(b, s.tombstones, expired, now), now)), expired)
  }

  function Drain(b: Bounds, s: Registry, now: Time): (Registry, seq<Lease>) {
    (s.(leases := [], perNode := DecrementAll(s.perNode, s.leases),
        tombstones := RememberAll(b, s.tombstones, s.leases, now)), s.leases)
  }

  // ------------------------------------------------------------------------------- runs

  datatype Op =
    | OpReserve(node: Node)
    | OpCancel(reservation: nat)
    | OpCommit(reservation: nat, id: Id, camera: Id, connection: Id, session: Option<Id>, now: Time)
    | OpRelease(lease: Id, owner: Node, now: Time)
    | OpPopExpired(now: Time)
    | OpDrain(now: Time)

  // The next state, the leases the step created, and the leases it handed back for teardown.
  datatype Effect = Effect(state: Registry, created: seq<Lease>, handed: seq<Lease>)

  function Step(b: Bounds, s: Registry, op: Op): Effect {
    match op
    case OpReserve(k) => Effect(Reserve(b, s, k).0, [], [])
    case OpCancel(r) => Effect(Cancel(s, r), [], [])
    case OpCommit(r, id, camera, connection, session, now) =>
      // A draw that is in use is thrown away.
      if !Drawable(s, id) then Effect(s, [], [])
      else
        (match Commit(b, s, r, id, camera, connection, session, now)
         case None => Effect(s, [], [])
         case Some((s', l)) => Effect(s', [l], []))
    case OpRelease(id, owner, now) =>
      var (s', answer, l) := ReleaseOwned(b, s, id, owner, now);
      Effect(s', [], if l.Some? then [l.value] else [])
    case OpPopExpired(now) => var (s', expired) := PopExpired(b, s, now); Effect(s', [], expired)
    case OpDrain(now) => var (s', all) := Drain(b, s, now); Effect(s', [], all)
  }

  // The state after `ops` from `s`, and everything created and handed back on the way.
  function Run(b: Bounds, s: Registry, ops: seq<Op>): Effect {
    if ops == [] then Effect(s, [], [])
    else
      var before := Run(b, s, ops[..|ops| - 1]);
      var last := Step(b, before.state, ops[|ops| - 1]);
      Effect(last.state, before.created + last.created, before.handed + last.handed)
  }
}
