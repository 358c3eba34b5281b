/**
  Operator head counts of a room: appended, revoked at most once, and decided by the latest report alone.
 */
module ManualPresence {
  import opened Base
  import opened Lists
  import opened Presence
  import opened RatioEvaluation

  const MANUAL_MAX_CHILDREN: int := 150
  const MANUAL_MAX_QUALIFIED_STAFF: int := 50
  const MANUAL_MAX_VISITORS: int := 50
  const MANUAL_MIN_VALIDITY_SECONDS: int := 30
  const MANUAL_MAX_VALIDITY_SECONDS: int := 15 * 60

  datatype Report = Report(
    id: Id, room: Id, children: Option<int>, staff: Option<int>, visitors: int,
    observedAt: Time, validUntil: Time, createdAt: Time, revokedAt: Option<Time>)

  datatype PresenceError =
    | InvalidChildCount | InvalidQualifiedStaffCount | InvalidVisitorCount | InvalidValiditySeconds
    | ClassroomInactive | ChildCountComesFromAttendance | StaffCountComesFromRoster | NotFound
    | ConstraintViolation   // a CHECK, the primary key or the append-only trigger of the table

  predicate InRange(count: Option<int>, maximum: int) { count.None? || 0 <= count.value <= maximum }

  function ValidateCounts(children: Option<int>, staff: Option<int>, visitors: int): Option<PresenceError> {
    if !InRange(children, MANUAL_MAX_CHILDREN) then Some(InvalidChildCount)
    else if !InRange(staff, MANUAL_MAX_QUALIFIED_STAFF) then Some(InvalidQualifiedStaffCount)
    else if !(0 <= visitors <= MANUAL_MAX_VISITORS) then Some(InvalidVisitorCount)
    else None
  }

  predicate ValidValidity(seconds: int) { MANUAL_MIN_VALIDITY_SECONDS <= seconds <= MANUAL_MAX_VALIDITY_SECONDS }

  function ValidForSeconds(r: Report): int { (r.validUntil - r.observedAt) / SECOND }

  predicate ValidReport(r: Report) {
    && ValidateCounts(r.children, r.staff, r.visitors).None?
    && (r.validUntil - r.observedAt) % SECOND == 0
    && ValidValidity(ValidForSeconds(r))
  }

  // ------------------------------------------------------------------------------ decision

  // The one ordering, newest first: observed, created, id.
  predicate Newer(a: Report, b: Report) {
    || a.observedAt > b.observedAt
    || (a.observedAt == b.observedAt && a.createdAt > b.createdAt)
    || (a.observedAt == b.observedAt && a.createdAt == b.createdAt && a.id > b.id)
  }

  function Own(rows: seq<Report>, room: Id): (r: seq<Report>)
    ensures forall x :: x in r <==> x in rows && x.room == room
    ensures (forall x :: x in rows ==> x.room != room) ==> r == []
  {
    if rows == [] then []
    else
      var n := |rows| - 1;
      Own(rows[..n], room) + if rows[n].room == room then [rows[n]] else []
  }

  function Newest(rows: seq<Report>): (r: Report)
    requires rows != []
    ensures r in rows
    ensures forall x :: x in rows ==> !Newer(x, r)
  {
    var n := |rows| - 1;
    if n == 0 then rows[0]
    else
      var best := Newest(rows[..n]);
      assert rows == rows[..n] + [rows[n]];
      if Newer(rows[n], best) then rows[n] else best
  }

  datatype Availability = PresenceFresh | NotConnected | PresenceStale | PresenceRevoked | NotYetValid

  datatype Resolution = Resolution(availability: Availability, report: Option<Report>, snapshot: Option<Snapshot>)

  function CountOf(r: Report, role: Role, count: int): PresenceCount {
    PresenceCount(r.room, role, count, Manual, r.observedAt, ValidForSeconds(r))
  }

  // Explicit role slots; a count the report does not carry stays empty rather than becoming zero.
  function ToSnapshot(r: Report): Snapshot {
    Snapshot(
      r.room,
      if r.children.None? then None else Some(CountOf(r, Child, r.children.value)),
      if r.staff.None? then None else Some(CountOf(r, QualifiedStaff, r.staff.value)),
      Some(CountOf(r, Visitor, r.visitors)),
      None)
  }

  function Resolve(rows: seq<Report>, room: Id, now: Time): Resolution {
    var own := Own(rows, room);
    if own == [] then Resolution(NotConnected, None, None)
    else
      var latest := Newest(own);
      if latest.revokedAt.Some? then Resolution(PresenceRevoked, Some(latest), None)
      else
        var snapshot := ToSnapshot(latest);
        var state := FreshnessOf(Some(CountOf(latest, Visitor, latest.visitors)), now);
        if state == Fresh then Resolution(PresenceFresh, Some(latest), Some(snapshot))
        else if latest.observedAt - now > MAX_FUTURE_SKEW then Resolution(NotYetValid, Some(latest), Some(snapshot))
        else Resolution(PresenceStale, Some(latest), Some(snapshot))
  }

  // The report that the ratio engine may rely on at `now`, if any.
  function Authority(rows: seq<Report>, room: Id, now: Time): Option<Report> {
    var resolution := Resolve(rows, room, now);
    if resolution.availability == PresenceFresh then resolution.report else None
  }

  // ------------------------------------------------------------------------------- writes

  datatype Classroom = Classroom(id: Id, active: bool, staffFromRoster: bool, childrenFromAttendance: bool)

  datatype Input = Input(
    children: Option<int>, staff: Option<int>, visitors: int, validFor: int, visitorsSupplied: bool)

  predicate Known(rows: seq<Report>, id: Id) { exists i :: 0 <= i < |rows| && rows[i].id == id }

  function Refusal(c: Classroom, input: Input): Option<PresenceError> {
    if ValidateCounts(input.children, input.staff, input.visitors).Some?
    then ValidateCounts(input.children, input.staff, input.visitors)
    else if !ValidValidity(input.validFor) then Some(InvalidValiditySeconds)
    else if !c.active then Some(ClassroomInactive)
    else if c.childrenFromAttendance && input.children.Some? then Some(ChildCountComesFromAttendance)
    else if !c.childrenFromAttendance && input.children.None? then Some(InvalidChildCount)
    else if c.staffFromRoster && input.staff.Some? then Some(StaffCountComesFromRoster)
    else if !c.staffFromRoster && input.staff.None? then Some(InvalidQualifiedStaffCount)
    else if c.childrenFromAttendance && !input.visitorsSupplied then Some(InvalidVisitorCount)
    else None
  }

  function NewReport(c: Classroom, id: Id, input: Input, observed: Time, created: Time): Report {
    Report(id, c.id, input.children, input.staff, input.visitors,
           observed, observed + input.validFor * SECOND, created, None)
  }

  ghost function Submit(rows: seq<Report>, c: Classroom, id: Id, input: Input, observed: Time, created: Time)
    : (seq<Report>, Option<PresenceError>)
  {
    if Refusal(c, input).Some? then (rows, Refusal(c, input))
    else if Known(rows, id) || observed > created + MAX_FUTURE_SKEW then (rows, Some(ConstraintViolation))
    else (rows + [NewReport(c, id, input, observed, created)], None)
  }

  function IdOf(r: Report): Id { r.id }

  // What the trigger and the CHECKs let an UPDATE do: revoke a report that was not revoked.
  ghost predicate GuardAllows(before: Report, after: Report) {
    && before.revokedAt.None? && after.revokedAt.Some?
    && after == before.(revokedAt := after.revokedAt)
    && after.revokedAt.value >= before.createdAt
  }

  ghost function UpdateRow(rows: seq<Report>, id: Id, after: Report): (seq<Report>, Option<PresenceError>) {
    var i := IndexOf(rows, IdOf, id);
    if i == |rows| then (rows, Some(NotFound))
    else if !GuardAllows(rows[i], after) then (rows, Some(ConstraintViolation))
    else (rows[i := after], None)
  }

  // A second revoke changes nothing; the first time is kept.
  ghost function Revoke(rows: seq<Report>, room: Id, id: Id, at: Time): (seq<Report>, Option<PresenceError>) {
    var i := IndexOf(rows, IdOf, id);
    if i == |rows| || rows[i].room != room then (rows, Some(NotFound))
    else if rows[i].revokedAt.Some? then (rows, None)
    else UpdateRow(rows, id, rows[i].(revokedAt := Some(at)))
  }
}
