/**
  One child's attendance stream: the stored event, the state derived from the latest event, the three
  planners that may extend the stream, and what it means for a stream to be a serial history.
 */
module Attendance {
  import opened Base

  const LEASE_MIN_SECONDS: int := 30 * 60
  const LEASE_MAX_SECONDS: int := 12 * 60 * 60

  // Shared by child profiles and guardian contacts.
  datatype Lifecycle = Active | Inactive | Archived

  datatype EventKind = CheckedIn | Refreshed | CheckedOut

  datatype Event = Event(
    id: Id, child: Id, facility: Id, room: Id, sequence: int, kind: EventKind,
    occurredAt: Time, validUntil: Option<Time>, checkedInAt: Time)

  datatype Refusal =
    | NotFound | ChildFacilityMismatch | ClassroomInactive | ChildArchived | ChildNotActive
    | InvalidLeaseSeconds | ChildAlreadyCheckedIn | ChildInAnotherClassroom | ChildNotCheckedIn
    | AttendanceExpired | AttendanceStateChanged

  // --------------------------------------------------------------------- the stored row

  predicate Opens(e: Event) { e.kind != CheckedOut }

  // The domain record's validator, which is run over every row that is read back.
  predicate ValidRecord(e: Event) {
    && e.sequence >= 1
    && e.checkedInAt <= e.occurredAt
    && (if e.kind == CheckedOut then e.validUntil == None
        else
          && e.validUntil.Some?
          && LEASE_MIN_SECONDS * SECOND <= e.validUntil.value - e.occurredAt <= LEASE_MAX_SECONDS * SECOND)
  }

  // The table's own CHECK constraints add that a check-in starts its stay.
  predicate TableCheck(e: Event) {
    ValidRecord(e) && (e.kind == CheckedIn ==> e.checkedInAt == e.occurredAt)
  }

  // The (child, sequence) key, the primary key and the CHECK constraints let `e` join `table`.
  ghost predicate Admits(table: seq<Event>, e: Event) {
    && TableCheck(e)
    && forall i :: 0 <= i < |table| ==>
         table[i].id != e.id && !(table[i].child == e.child && table[i].sequence == e.sequence)
  }

  // One INSERT statement of several rows, checked row by row.
  predicate Insertable(table: seq<Event>, rows: seq<Event>)
    decreases |rows|
  {
    rows == [] || (AdmitsRow(table, rows[0]) && Insertable(table + rows[..1], rows[1..]))
  }

  predicate AdmitsRow(table: seq<Event>, e: Event)
    ensures AdmitsRow(table, e) <==> Admits(table, e)
  {
    && TableCheck(e)
    && (forall i :: 0 <= i < |table| ==>
          table[i].id != e.id && !(table[i].child == e.child && table[i].sequence == e.sequence))
  }

  // ------------------------------------------------------------- state from the latest event

  datatype Current =
    | Absent(sequence: int)
    | Open(isFresh: bool, facility: Id, room: Id, checkedInAt: Time, validUntil: Time, sequence: int)

  predicate FreshAt(e: Event, now: Time) {
    e.validUntil.Some? && e.occurredAt - now <= MAX_FUTURE_SKEW && now < e.validUntil.value
  }

  // The child's event with the highest sequence; the first such one if a key were repeated.
  function Latest(events: seq<Event>, child: Id): (r: Option<Event>)
    ensures r.None? <==> forall e :: e in events ==> e.child != child
    ensures r.Some? ==>
      && r.value in events && r.value.child == child
      && forall e :: e in events && e.child == child ==> e.sequence <= r.value.sequence
  {
    if events == [] then None
    else
      var n := |events| - 1;
      assert events == events[..n] + [events[n]];
      var earlier := Latest(events[..n], child);
      if events[n].child == child && (earlier.None? || earlier.value.sequence < events[n].sequence)
      then Some(events[n]) else earlier
  }

  function CurrentFrom(latest: Option<Event>, now: Time): Current {
    match latest
    case None => Absent(0)
    case Some(e) =>
      if !Opens(e) || e.validUntil.None? then Absent(e.sequence)
      else Open(FreshAt(e, now), e.facility, e.room, e.checkedInAt, e.validUntil.value, e.sequence)
  }

  function CurrentAttendance(events: seq<Event>, child: Id, now: Time): Current {
    CurrentFrom(Latest(events, child), now)
  }

  predicate InRoom(c: Current, room: Id) { c.Open? && c.room == room }

  // ------------------------------------------------------------------------- planners

  datatype Planned = Planned(
    kind: EventKind, facility: Id, room: Id, sequence: int,
    occurredAt: Time, validUntil: Option<Time>, checkedInAt: Time)

  // What the caller asked for, with the profile and room state the decision sees.
  datatype Action =
    | CheckIn(room: Id, facility: Id, childFacility: Id, lease: int, status: Lifecycle, roomActive: bool)
    | Refresh(room: Id, lease: int, status: Lifecycle, roomActive: bool)
    | CheckOut(room: Id)

  predicate ValidLease(seconds: int) { LEASE_MIN_SECONDS <= seconds <= LEASE_MAX_SECONDS }

  function CheckableRefusal(status: Lifecycle, roomActive: bool): Option<Refusal> {
    if !roomActive then Some(ClassroomInactive)
    else if status == Archived then Some(ChildArchived)
    else if status != Active then Some(ChildNotActive)
    else None
  }

  function PlanCheckIn(c: Current, a: Action, now: Time): Result<seq<Planned>, Refusal>
    requires a.CheckIn?
  {
    if a.childFacility != a.facility then Err(ChildFacilityMismatch)
    else if CheckableRefusal(a.status, a.roomActive).Some? then
      Err(CheckableRefusal(a.status, a.roomActive).value)
    else if !ValidLease(a.lease) then Err(InvalidLeaseSeconds)
    else
      var until := Some(now + a.lease * SECOND);
      if InRoom(c, a.room) then
        if c.isFresh then Err(ChildAlreadyCheckedIn)
        else Ok([Planned(CheckedIn, a.facility, a.room, c.sequence + 1, now, until, now)])
      else if c.Open? then
        if c.facility != a.facility then Err(ChildFacilityMismatch)
        else Ok([Planned(CheckedOut, a.facility, c.room, c.sequence + 1, now, None, c.checkedInAt),
                 Planned(CheckedIn, a.facility, a.room, c.sequence + 2, now, until, now)])
      else Ok([Planned(CheckedIn, a.facility, a.room, c.sequence + 1, now, until, now)])
  }

  function PlanCheckOut(c: Current, room: Id, now: Time): Result<seq<Planned>, Refusal> {
    if InRoom(c, room) then
      Ok([Planned(CheckedOut, c.facility, room, c.sequence + 1, now, None, c.checkedInAt)])
    else if c.Open? && c.isFresh then Err(ChildInAnotherClassroom)
    else Ok([])
  }

  function PlanRefresh(c: Current, a: Action, now: Time): Result<seq<Planned>, Refusal>
    requires a.Refresh?
  {
    if !a.roomActive then Err(ClassroomInactive)
    else if !InRoom(c, a.room) then Err(ChildNotCheckedIn)
    else if !c.isFresh then Err(AttendanceExpired)
    else if CheckableRefusal(a.status, a.roomActive).Some? then
      Err(CheckableRefusal(a.status, a.roomActive).value)
    else if !ValidLease(a.lease) then Err(InvalidLeaseSeconds)
    else Ok([Planned(Refreshed, c.facility, a.room, c.sequence + 1, now,
                     Some(now + a.lease * SECOND), c.checkedInAt)])
  }

  function Plan(c: Current, a: Action, now: Time): Result<seq<Planned>, Refusal> {
    match a
    case CheckIn(_, _, _, _, _, _) => PlanCheckIn(c, a, now)
    case Refresh(_, _, _, _) => PlanRefresh(c, a, now)
    case CheckOut(room) => PlanCheckOut(c, room, now)
  }

  function Row(p: Planned, child: Id, id: Id): Event {
    Event(id, child, p.facility, p.room, p.sequence, p.kind, p.occurredAt, p.validUntil, p.checkedInAt)
  }

  // `ids` are the fresh row ids; at most two rows are ever planned.
  function Rows(planned: seq<Planned>, child: Id, ids: (Id, Id)): (rows: seq<Event>)
    requires |planned| <= 2
    ensures |rows| == |planned|
  {
    if |planned| == 0 then []
    else if |planned| == 1 then [Row(planned[0], child, ids.0)]
    else [Row(planned[0], child, ids.0), Row(planned[1], child, ids.1)]
  }

  // ----------------------------------------------------------------- serial histories

  // `e` is a legal next event of a child whose latest event is `prev`.
  ghost predicate Follows(prev: Option<Event>, e: Event) {
    && TableCheck(e)
    && e.sequence == (if prev.Some? then prev.value.sequence + 1 else 1)
    && (prev.Some? ==> prev.value.child == e.child)
    && match e.kind
       case CheckedOut => prev.Some? && Continues(prev.value, e)
       case Refreshed => prev.Some? && Continues(prev.value, e) && FreshAt(prev.value, e.occurredAt)
       case CheckedIn =>
         prev.Some? && Opens(prev.value) ==> prev.value.room == e.room && !FreshAt(prev.value, e.occurredAt)
  }

  // `e` belongs to the stay that `prev` left open.
  ghost predicate Continues(prev: Event, e: Event) {
    Opens(prev) && prev.room == e.room && prev.facility == e.facility && prev.checkedInAt == e.checkedInAt
  }

  ghost function Before(stream: seq<Event>, i: nat): Option<Event>
    requires i <= |stream|
  {
    if i == 0 then None else Some(stream[i - 1])
  }

  ghost predicate Serial(stream: seq<Event>) {
    forall i {:trigger Before(stream, i)} :: 0 <= i < |stream| ==> Follows(Before(stream, i), stream[i])
  }

  // One child's rows in commit order.
  ghost function Stream(table: seq<Event>, child: Id): (s: seq<Event>)
    ensures forall e :: e in s <==> e in table && e.child == child
  {
    if table == [] then []
    else
      var n := |table| - 1;
      assert table == table[..n] + [table[n]];
      Stream(table[..n], child) + (if table[n].child == child then [table[n]] else [])
  }

  ghost function LastOf(stream: seq<Event>): Option<Event> { Before(stream, |stream|) }

  ghost predicate AllSerial(table: seq<Event>) {
    forall child: Id :: Serial(Stream(table, child))
  }

  lemma {:induction false} SerialNumbering(stream: seq<Event>, i: nat)
    requires Serial(stream) && i < |stream|
    ensures stream[i].sequence == i + 1
  {
    assert Follows(Before(stream, i), stream[i]);
    if i > 0 { SerialNumbering(stream, i - 1); }
  }

  // In a serial table, the highest-sequence lookup and the last committed row are the same event.
  lemma LatestIsLast(table: seq<Event>, child: Id)
    requires AllSerial(table)
    ensures Latest(table, child) == LastOf(Stream(table, child))
  {
    var s := Stream(table, child);
    var latest := Latest(table, child);
    assert latest.Some? ==> latest.value in s;
    if s != [] {
      assert s[|s| - 1] in s;
      var i :| 0 <= i < |s| && s[i] == latest.value;
      assert Serial(s);
      SerialNumbering(s, i);
      SerialNumbering(s, |s| - 1);
    }
  }

  lemma StreamOfAppend(table: seq<Event>, e: Event, child: Id)
    ensures Stream(table + [e], child) == Stream(table, child) + (if e.child == child then [e] else [])
  {
    assert (table + [e])[..|table|] == table;
  }

  // `rows` are legal one after another, provided each passes the table's CHECKs.
  ghost predicate LegalRows(prev: Option<Event>, child: Id, rows: seq<Event>) {
    && |rows| <= 2
    && (|rows| >= 1 ==>
          && rows[0].child == child
          && rows[0].sequence == (if prev.Some? then prev.value.sequence + 1 else 1)
          && (TableCheck(rows[0]) ==> Follows(prev, rows[0])))
    && (|rows| == 2 ==>
          rows[1].child == child && (TableCheck(rows[1]) ==> Follows(Some(rows[0]), rows[1])))
  }

  // A plan made from the event that really is the latest is a legal continuation, row by row.
  lemma PlanIsLegal(prev: Option<Event>, child: Id, a: Action, now: Time, ids: (Id, Id))
    requires prev.Some? ==> TableCheck(prev.value) && prev.value.child == child
    requires Plan(CurrentFrom(prev, now), a, now).Ok?
    ensures var rows := Rows(Plan(CurrentFrom(prev, now), a, now).value, child, ids);
      && LegalRows(prev, child, rows)
      && match a
         case CheckIn(room, _, _, _, _, _) =>
           rows != [] && rows[|rows| - 1].kind == CheckedIn && rows[|rows| - 1].room == room
         case Refresh(room, _, _, _) => |rows| == 1 && rows[0].kind == Refreshed && rows[0].room == room
         case CheckOut(room) => |rows| <= 1 && forall e :: e in rows ==> e.kind == CheckedOut && e.room == room
  {
  }

  // Conversely every legal next event is exactly what one planner produces.
  lemma LegalEventsArePlanned(prev: Option<Event>, e: Event)
    requires prev.Some? ==> TableCheck(prev.value)
    requires Follows(prev, e)
    requires e.validUntil.Some? ==> (e.validUntil.value - e.occurredAt) % SECOND == 0
    ensures var now := e.occurredAt;
      var lease := if e.validUntil.Some? then (e.validUntil.value - now) / SECOND else 0;
      var a := match e.kind
               case CheckedIn => CheckIn(e.room, e.facility, e.facility, lease, Active, true)
               case Refreshed => Refresh(e.room, lease, Active, true)
               case CheckedOut => CheckOut(e.room);
      var p := Plan(CurrentFrom(prev, now), a, now);
      p.Ok? && Rows(p.value, e.child, (e.id, e.id)) == [e]
  {
  }

  // Adding one legal row keeps every child's stream serial.
  lemma AppendKeepsSerial(table: seq<Event>, e: Event)
    requires AllSerial(table)
    requires Follows(LastOf(Stream(table, e.child)), e)
    ensures AllSerial(table + [e])
  {
    forall child: Id ensures Serial(Stream(table + [e], child)) {
      StreamOfAppend(table, e, child);
      var s := Stream(table, child);
      assert Serial(s);
      if e.child == child {
        ExtendSerial(s, e);
      } else {
        assert s + [] == s;
      }
    }
  }

  lemma ExtendSerial(s: seq<Event>, e: Event)
    requires Serial(s) && Follows(LastOf(s), e)
    ensures Serial(s + [e])
  {
    forall i | 0 <= i < |s + [e]| ensures Follows(Before(s + [e], i), (s + [e])[i]) {
      assert Before(s + [e], i) == Before(s, i);
    }
  }

  // In a serial table a free sequence number one past the n-th event proves the n-th is the last.
  lemma FreeNumberIsNext(table: seq<Event>, e: Event, n: nat)
    requires AllSerial(table) && n <= |Stream(table, e.child)|
    requires e.sequence == n + 1 && Admits(table, e)
    ensures n == |Stream(table, e.child)|
  {
    var s := Stream(table, e.child);
    assert Serial(s);
    if n < |s| {
      SerialNumbering(s, n);
    }
  }

  lemma InsertKeepsSerial(table: seq<Event>, child: Id, n: nat, rows: seq<Event>)
    requires AllSerial(table) && n <= |Stream(table, child)|
    requires LegalRows(Before(Stream(table, child), n), child, rows) && Insertable(table, rows)
    ensures AllSerial(table + rows) && (rows != [] ==> n == |Stream(table, child)|)
  {
    var s := Stream(table, child);
    assert Serial(s);
    if n > 0 { SerialNumbering(s, n - 1); }
    if |rows| == 0 {
      assert table + rows == table;
    } else {
      var mid := table + [rows[0]];
      assert rows[..1] == [rows[0]];
      FreeNumberIsNext(table, rows[0], n);
      AppendKeepsSerial(table, rows[0]);
      if |rows| == 2 {
        assert AdmitsRow(mid, rows[1..][0]);
        StreamOfAppend(table, rows[0], child);
        AppendKeepsSerial(mid, rows[1]);
        assert mid + [rows[1]] == table + rows;
      } else {
        assert rows == [rows[0]];
      }
    }
  }

  /**
    The heart of the optimistic protocol: a plan made from any earlier read either collides with the
    (child, sequence) key or a CHECK, or was made from the very state it is committed to.
   */
  lemma CommitKeepsSerial(table: seq<Event>, child: Id, n: nat, a: Action, now: Time, ids: (Id, Id))
    requires AllSerial(table) && n <= |Stream(table, child)|
    requires Plan(CurrentFrom(Before(Stream(table, child), n), now), a, now).Ok?
    requires Insertable(table,
               Rows(Plan(CurrentFrom(Before(Stream(table, child), n), now), a, now).value, child, ids))
    ensures var rows := Rows(Plan(CurrentFrom(Before(Stream(table, child), n), now), a, now).value, child, ids);
      AllSerial(table + rows) && (rows != [] ==> n == |Stream(table, child)|)
  {
    var s := Stream(table, child);
    assert Serial(s);
    if n > 0 {
      assert Follows(Before(s, n - 1), s[n - 1]);
      assert s[n - 1] in s;
    }
    PlanIsLegal(Before(s, n), child, a, now, ids);
    InsertKeepsSerial(table, child, n, Rows(Plan(CurrentFrom(Before(s, n), now), a, now).value, child, ids));
  }

  /**
    With a clock that has not gone back behind the latest event, which reading it under the child's
    lock gives, a plan from the current state is refused by no constraint.
   */
  lemma LockedCommitSucceeds(table: seq<Event>, child: Id, a: Action, now: Time, ids: (Id, Id))
    requires AllSerial(table)
    requires Latest(table, child).Some? ==> Latest(table, child).value.occurredAt <= now
    requires ids.0 != ids.1 && forall e :: e in table ==> e.id != ids.0 && e.id != ids.1
    requires Plan(CurrentAttendance(table, child, now), a, now).Ok?
    ensures Insertable(table, Rows(Plan(CurrentAttendance(table, child, now), a, now).value, child, ids))
  {
    var latest := Latest(table, child);
    LatestIsChecked(table, child);
    PlannedRowsPassChecks(latest, child, a, now, ids);
    var rows := Rows(Plan(CurrentFrom(latest, now), a, now).value, child, ids);
    if rows != [] { NewRowsAreAdmitted(table, child, rows); }
  }

  lemma LatestIsChecked(table: seq<Event>, child: Id)
    requires AllSerial(table)
    ensures Latest(table, child).Some? ==> TableCheck(Latest(table, child).value)
  {
    LatestIsLast(table, child);
    var s := Stream(table, child);
    assert Serial(s);
    assert s != [] ==> Follows(Before(s, |s| - 1), s[|s| - 1]);
  }

  // Rows with new ids that number on from the child's latest event are admitted.
  lemma NewRowsAreAdmitted(table: seq<Event>, child: Id, rows: seq<Event>)
    requires 1 <= |rows| <= 2
    requires var next := if Latest(table, child).Some? then Latest(table, child).value.sequence + 1 else 1;
      forall i :: 0 <= i < |rows| ==>
        && TableCheck(rows[i]) && rows[i].child == child && rows[i].sequence == next + i
        && forall e :: e in table ==> e.id != rows[i].id
    requires |rows| == 2 ==> rows[0].id != rows[1].id
    ensures Insertable(table, rows)
  {
    assert AdmitsRow(table, rows[0]);
    assert |rows| == 2 ==> AdmitsRow(table + [rows[0]], rows[1]);
    SingleInsert(table, rows);
  }

  lemma PlannedRowsPassChecks(prev: Option<Event>, child: Id, a: Action, now: Time, ids: (Id, Id))
    requires prev.Some? ==> TableCheck(prev.value) && prev.value.occurredAt <= now
    requires Plan(CurrentFrom(prev, now), a, now).Ok?
    ensures var rows := Rows(Plan(CurrentFrom(prev, now), a, now).value, child, ids);
      var next := if prev.Some? then prev.value.sequence + 1 else 1;
      && |rows| <= 2
      && (forall i :: 0 <= i < |rows| ==>
            && TableCheck(rows[i])
            && rows[i].child == child
            && rows[i].sequence == next + i
            && rows[i].id == (if i == 0 then ids.0 else ids.1))
  {
  }

  lemma SingleInsert(table: seq<Event>, rows: seq<Event>)
    requires 1 <= |rows| <= 2 && AdmitsRow(table, rows[0])
    requires |rows| == 2 ==> AdmitsRow(table + [rows[0]], rows[1])
    ensures Insertable(table, rows)
  {
    assert rows[..1] == [rows[0]];
    assert |rows| == 2 ==> rows[1..][0] == rows[1] && rows[1..][1..] == [];
  }
}
