/** What an accepted check-in, refresh, check-out or release does to a child's state, and which are accepted. */
module AttendanceEffects {
  import opened Base
  import opened Attendance
  import opened PickupDecision
  import opened CareProtocol
  import opened CareInvariants
  import opened ChildCount
  import opened ChildCountLaws

  // ------------------------------------------------------------------------- how states read

  // An open stay as it reads at `t`: recorded last at `seen`, fresh up to `until`.
  ghost predicate StayIs(c: Current, t: Time, facility: Id, room: Id, since: Time, seen: Time, until: Time) {
    && c.Open? && c.facility == facility && c.room == room && c.checkedInAt == since && c.validUntil == until
    && (c.isFresh <==> seen - t <= MAX_FUTURE_SKEW && t < until)
  }

  // Events were appended, for this child alone; everything else is as it was.
  ghost predicate OnlyRecords(s: Store, s': Store, child: Id) {
    && s' == s.(events := s'.events, releases := s'.releases)
    && s.events <= s'.events
    && (forall j :: |s.events| <= j < |s'.events| ==> s'.events[j].child == child)
    && (forall other: Id, t: Time :: other != child ==>
          CurrentAttendance(s'.events, other, t) == CurrentAttendance(s.events, other, t))
  }

  ghost predicate FreshEventIds(s: Store, ids: (Id, Id)) {
    ids.0 != ids.1 && forall e :: e in s.events ==> e.id != ids.0 && e.id != ids.1
  }

  lemma LatestOfAppend(events: seq<Event>, e: Event, child: Id)
    requires e.child == child ==> Latest(events, child).Some? ==> Latest(events, child).value.sequence < e.sequence
    ensures Latest(events + [e], child) == if e.child == child then Some(e) else Latest(events, child)
  {
    assert (events + [e])[..|events|] == events;
  }

  // One or two rows of one child, numbered on from its latest event.
  ghost predicate NumbersOn(events: seq<Event>, child: Id, rows: seq<Event>) {
    && 1 <= |rows| <= 2
    && (forall i :: 0 <= i < |rows| ==> rows[i].child == child)
    && (Latest(events, child).Some? ==> Latest(events, child).value.sequence < rows[0].sequence)
    && (|rows| == 2 ==> rows[0].sequence < rows[1].sequence)
  }

  lemma LatestOfRows(events: seq<Event>, child: Id, rows: seq<Event>, other: Id)
    requires NumbersOn(events, child, rows)
    ensures Latest(events + rows, other) == if other == child then Some(rows[|rows| - 1]) else Latest(events, other)
  {
    LatestOfAppend(events, rows[0], other);
    if |rows| == 1 {
      assert rows == [rows[0]];
    } else {
      var first := events + [rows[0]];
      assert Latest(first, child) == Some(rows[0]) by { LatestOfAppend(events, rows[0], child); }
      LatestOfAppend(first, rows[1], other);
      assert events + rows == first + [rows[1]];
    }
  }

  lemma RowsOnlyRecord(s: Store, s': Store, child: Id, rows: seq<Event>)
    requires NumbersOn(s.events, child, rows) && s'.events == s.events + rows
    requires s' == s.(events := s'.events, releases := s'.releases)
    ensures OnlyRecords(s, s', child)
    ensures forall t :: CurrentAttendance(s'.events, child, t) == CurrentFrom(Some(rows[|rows| - 1]), t)
  {
    forall other: Id { LatestOfRows(s.events, child, rows, other); }
  }

  lemma StayAfter(events: seq<Event>, child: Id, e: Event, t: Time)
    requires CurrentAttendance(events, child, t) == CurrentFrom(Some(e), t) && Opens(e) && e.validUntil.Some?
    ensures StayIs(CurrentAttendance(events, child, t), t, e.facility, e.room, e.checkedInAt, e.occurredAt,
                   e.validUntil.value)
  {
  }

  // A next row with a new id is admitted exactly when it passes the table's CHECKs.
  lemma NextRowIff(events: seq<Event>, e: Event)
    requires e.sequence == if Latest(events, e.child).Some? then Latest(events, e.child).value.sequence + 1 else 1
    requires forall x :: x in events ==> x.id != e.id
    ensures Insertable(events, [e]) <==> TableCheck(e)
  {
    assert [e][1..] == [] && events + [e][..1] == events + [e];
    assert forall i :: 0 <= i < |events| ==> events[i] in events;
    assert Insertable(events, [e]) <==> AdmitsRow(events, e);
  }

  // ------------------------------------------------------------------------------ check-in

  // The child may come in: nothing but an unlapsed stay here, or a clock behind a stay elsewhere, prevents it.
  ghost predicate MayCheckIn(s: Store, room: Id, child: Id, lease: int, now: Time) {
    var c := CurrentAttendance(s.events, child, now);
    && room in s.rooms && s.rooms[room].active
    && child in s.children && s.children[child] == Party(s.rooms[room].facility, Active)
    && 30 * 60 <= lease <= 12 * 60 * 60
    && !(c.Open? && c.room == room && c.isFresh)
    && (c.Open? && c.room != room ==> c.checkedInAt <= now)
  }

  lemma CheckInRows(s: Store, room: Id, child: Id, lease: int, now: Time, ids: (Id, Id)) returns (rows: seq<Event>)
    requires Inv(s) && room in s.rooms && child in s.children && s.children[child].facility == s.rooms[room].facility
    requires var action := ActionFor(ToCheckIn, room, s.rooms[room], s.children[child], lease);
      Plan(CurrentAttendance(s.events, child, now), action, now).Ok?
    ensures var action := ActionFor(ToCheckIn, room, s.rooms[room], s.children[child], lease);
      rows == Rows(Plan(CurrentAttendance(s.events, child, now), action, now).value, child, ids)
    ensures NumbersOn(s.events, child, rows)
    ensures var last, f := rows[|rows| - 1], s.rooms[room].facility;
      && last.kind == CheckedIn && last.room == room && last.facility == f && last.checkedInAt == now
      && last.occurredAt == now && last.validUntil == Some(now + lease * SECOND)
    ensures var c := CurrentAttendance(s.events, child, now);
      if c.Open? && c.room != room then
        && |rows| == 2 && rows[0].kind == CheckedOut && rows[0].room == c.room && rows[0].facility == c.facility
        && rows[0].occurredAt == now && rows[0].checkedInAt == c.checkedInAt && rows[0].validUntil == None
      else |rows| == 1
  {
    CurrentIsLast(s, child, now);
    LatestIsChecked(s.events, child);
    var action := ActionFor(ToCheckIn, room, s.rooms[room], s.children[child], lease);
    rows := Rows(Plan(CurrentAttendance(s.events, child, now), action, now).value, child, ids);
  }

  // The table refuses the rows exactly when the stay to be closed began after now.
  lemma CheckInAdmittedIff(s: Store, room: Id, child: Id, lease: int, now: Time, ids: (Id, Id))
    requires Inv(s) && FreshEventIds(s, ids)
    requires room in s.rooms && child in s.children && s.children[child].facility == s.rooms[room].facility
    requires var action := ActionFor(ToCheckIn, room, s.rooms[room], s.children[child], lease);
      Plan(CurrentAttendance(s.events, child, now), action, now).Ok?
    ensures var action := ActionFor(ToCheckIn, room, s.rooms[room], s.children[child], lease);
      var c := CurrentAttendance(s.events, child, now);
      Insertable(s.events, Rows(Plan(c, action, now).value, child, ids)) <==>
        (c.Open? && c.room != room ==> c.checkedInAt <= now)
  {
    var c := CurrentAttendance(s.events, child, now);
    var rows := CheckInRows(s, room, child, lease, now, ids);
    LatestIsChecked(s.events, child);
    if c.Open? && c.room != room ==> c.checkedInAt <= now { NewRowsAreAdmitted(s.events, child, rows); }
  }

  /** A check-in is accepted exactly when it may be. */
  lemma CheckInIff(s: Store, room: Id, child: Id, lease: int, now: Time, ids: (Id, Id))
    requires Inv(s) && FreshEventIds(s, ids)
    ensures AttendStep(s, ToCheckIn, room, child, lease, now, ids).Ok? <==> MayCheckIn(s, room, child, lease, now)
  {
    if room in s.rooms && child in s.children && s.children[child].facility == s.rooms[room].facility {
      CurrentIsLast(s, child, now);
      LatestIsChecked(s.events, child);
      var action := ActionFor(ToCheckIn, room, s.rooms[room], s.children[child], lease);
      if Plan(CurrentAttendance(s.events, child, now), action, now).Ok? {
        CheckInAdmittedIff(s, room, child, lease, now, ids);
      }
    }
  }

  /**
    After a check-in the child is in the requested room since now, until now plus the lease, and a stay left open
    in another room was closed at the same moment.
   */
  lemma CheckInTakesEffect(s: Store, room: Id, child: Id, lease: int, now: Time, ids: (Id, Id))
    requires Inv(s) && AttendStep(s, ToCheckIn, room, child, lease, now, ids).Ok?
    ensures var s' := AttendStep(s, ToCheckIn, room, child, lease, now, ids).value;
      var c := CurrentAttendance(s.events, child, now);
      && room in s.rooms
      && (forall t :: StayIs(CurrentAttendance(s'.events, child, t), t, s.rooms[room].facility, room, now, now,
                             now + lease * SECOND))
      && OnlyRecords(s, s', child) && s'.releases == s.releases
      && (c.Open? && c.room != room ==>
            && |s'.events| == |s.events| + 2
            && var e := s'.events[|s.events|];
               e.kind == CheckedOut && e.room == c.room && e.occurredAt == now && e.checkedInAt == c.checkedInAt)
  {
    var s' := AttendStep(s, ToCheckIn, room, child, lease, now, ids).value;
    var rows := CheckInRows(s, room, child, lease, now, ids);
    assert s' == s.(events := s.events + rows);
    RowsOnlyRecord(s, s', child, rows);
    var last := rows[|rows| - 1];
    forall t ensures StayIs(CurrentAttendance(s'.events, child, t), t, s.rooms[room].facility, room, now, now,
                            now + lease * SECOND)
    {
      StayAfter(s'.events, child, last, t);
    }
  }

  /** Each refused check-in names its cause; a row that the table refuses means that the state changed. */
  lemma CheckInRefusals(s: Store, room: Id, child: Id, lease: int, now: Time, ids: (Id, Id))
    requires Inv(s) && FreshEventIds(s, ids)
    ensures var r := AttendStep(s, ToCheckIn, room, child, lease, now, ids);
      var c := CurrentAttendance(s.events, child, now);
      var leased := 30 * 60 <= lease <= 12 * 60 * 60;
      var known := leased && room in s.rooms && child in s.children
                   && s.children[child].facility == s.rooms[room].facility;
      var allowed := known && s.rooms[room].active && s.children[child].status == Active;
      && (r == Err(Roster(InvalidLeaseSeconds)) <==> !leased)
      && (r == Err(UnknownId) <==> leased && !known)
      && (r == Err(Roster(ClassroomInactive)) <==> known && !s.rooms[room].active)
      && (r == Err(Roster(ChildArchived)) <==> known && s.rooms[room].active && s.children[child].status == Archived)
      && (r == Err(Roster(ChildNotActive)) <==> known && s.rooms[room].active && s.children[child].status == Inactive)
      && (r == Err(Roster(ChildAlreadyCheckedIn)) <==> allowed && c.Open? && c.room == room && c.isFresh)
      && (r == Err(Roster(AttendanceStateChanged)) <==> allowed && c.Open? && c.room != room && now < c.checkedInAt)
  {
    CheckInIff(s, room, child, lease, now, ids);
    CurrentIsLast(s, child, now);
  }

  // ------------------------------------------------------------------------------ check-out

  ghost predicate MayCheckOut(s: Store, room: Id, child: Id, now: Time) {
    var c := CurrentAttendance(s.events, child, now);
    && room in s.rooms && child in s.children && s.children[child].facility == s.rooms[room].facility
    && (c.Open? && c.room == room ==> c.checkedInAt <= now)
    && !(c.Open? && c.room != room && c.isFresh)
  }

  /** A check-out is accepted exactly when the child is not present elsewhere and the clock not behind its stay. */
  lemma CheckOutIff(s: Store, room: Id, child: Id, lease: int, now: Time, ids: (Id, Id))
    requires Inv(s) && FreshEventIds(s, ids)
    ensures AttendStep(s, ToCheckOut, room, child, lease, now, ids).Ok? <==> MayCheckOut(s, room, child, now)
  {
    var c := CurrentAttendance(s.events, child, now);
    if room in s.rooms && child in s.children && s.children[child].facility == s.rooms[room].facility {
      CurrentIsLast(s, child, now);
      LatestIsChecked(s.events, child);
      if c.Open? && c.room == room { NextRowIff(s.events, Rows(PlanCheckOut(c, room, now).value, child, ids)[0]); }
    }
  }

  /** After a check-out the child is not in that room: its stay there is closed, and nothing else changes. */
  lemma CheckOutTakesEffect(s: Store, room: Id, child: Id, lease: int, now: Time, ids: (Id, Id))
    requires Inv(s) && AttendStep(s, ToCheckOut, room, child, lease, now, ids).Ok?
    ensures var s' := AttendStep(s, ToCheckOut, room, child, lease, now, ids).value;
      var c := CurrentAttendance(s.events, child, now);
      if c.Open? && c.room == room then
        && (forall t :: CurrentAttendance(s'.events, child, t).Absent?)
        && OnlyRecords(s, s', child) && s'.releases == s.releases && |s'.events| == |s.events| + 1
        && s'.events[|s.events|].kind == CheckedOut && s'.events[|s.events|].room == room
        && s'.events[|s.events|].occurredAt == now
      else s' == s
  {
    var s' := AttendStep(s, ToCheckOut, room, child, lease, now, ids).value;
    var c := CurrentAttendance(s.events, child, now);
    if c.Open? && c.room == room {
      RowsOnlyRecord(s, s', child, Rows(PlanCheckOut(c, room, now).value, child, ids));
    } else {
      assert s.events + [] == s.events;
    }
  }

  lemma CheckOutRefusals(s: Store, room: Id, child: Id, lease: int, now: Time, ids: (Id, Id))
    requires Inv(s) && FreshEventIds(s, ids)
    ensures var r := AttendStep(s, ToCheckOut, room, child, lease, now, ids);
      var c := CurrentAttendance(s.events, child, now);
      var known := room in s.rooms && child in s.children && s.children[child].facility == s.rooms[room].facility;
      && (r == Err(UnknownId) <==> !known)
      && (r == Err(Roster(ChildInAnotherClassroom)) <==> known && c.Open? && c.room != room && c.isFresh)
      && (r == Err(Roster(AttendanceStateChanged)) <==> known && c.Open? && c.room == room && now < c.checkedInAt)
  {
    CheckOutIff(s, room, child, lease, now, ids);
  }

  // ------------------------------------------------------------------------------- refresh

  ghost predicate MayRefresh(s: Store, room: Id, child: Id, lease: int, now: Time) {
    var c := CurrentAttendance(s.events, child, now);
    && room in s.rooms && s.rooms[room].active
    && child in s.children && s.children[child] == Party(s.rooms[room].facility, Active)
    && 30 * 60 <= lease <= 12 * 60 * 60
    && c.Open? && c.room == room && c.isFresh && c.checkedInAt <= now
  }

  /** A refresh is accepted exactly for an unlapsed stay of an active child in this active room. */
  lemma RefreshIff(s: Store, room: Id, child: Id, lease: int, now: Time, ids: (Id, Id))
    requires Inv(s) && FreshEventIds(s, ids)
    ensures AttendStep(s, ToRefresh, room, child, lease, now, ids).Ok? <==> MayRefresh(s, room, child, lease, now)
  {
    if room in s.rooms && child in s.children && s.children[child].facility == s.rooms[room].facility {
      var c := CurrentAttendance(s.events, child, now);
      CurrentIsLast(s, child, now);
      LatestIsChecked(s.events, child);
      var action := ActionFor(ToRefresh, room, s.rooms[room], s.children[child], lease);
      if Plan(c, action, now).Ok? { NextRowIff(s.events, Rows(Plan(c, action, now).value, child, ids)[0]); }
    }
  }

  /** A refresh keeps the room and the start of the stay and lets it run until now plus the new lease. */
  lemma RefreshTakesEffect(s: Store, room: Id, child: Id, lease: int, now: Time, ids: (Id, Id))
    requires Inv(s) && AttendStep(s, ToRefresh, room, child, lease, now, ids).Ok?
    ensures var s' := AttendStep(s, ToRefresh, room, child, lease, now, ids).value;
      var c := CurrentAttendance(s.events, child, now);
      && c.Open? && c.room == room
      && (forall t :: StayIs(CurrentAttendance(s'.events, child, t), t, c.facility, room, c.checkedInAt, now,
                             now + lease * SECOND))
      && OnlyRecords(s, s', child) && s'.releases == s.releases
  {
    var s' := AttendStep(s, ToRefresh, room, child, lease, now, ids).value;
    var c := CurrentAttendance(s.events, child, now);
    var action := ActionFor(ToRefresh, room, s.rooms[room], s.children[child], lease);
    var rows := Rows(Plan(c, action, now).value, child, ids);
    assert s' == s.(events := s.events + rows);
    RowsOnlyRecord(s, s', child, rows);
    forall t ensures StayIs(CurrentAttendance(s'.events, child, t), t, c.facility, room, c.checkedInAt, now,
                            now + lease * SECOND)
    {
      StayAfter(s'.events, child, rows[0], t);
    }
  }

  lemma RefreshRefusals(s: Store, room: Id, child: Id, lease: int, now: Time, ids: (Id, Id))
    requires Inv(s) && FreshEventIds(s, ids) && 30 * 60 <= lease <= 12 * 60 * 60
    requires room in s.rooms && child in s.children && s.children[child].facility == s.rooms[room].facility
    ensures var r := AttendStep(s, ToRefresh, room, child, lease, now, ids);
      var c := CurrentAttendance(s.events, child, now);
      var here := s.rooms[room].active && c.Open? && c.room == room;
      && (r == Err(Roster(ClassroomInactive)) <==> !s.rooms[room].active)
      && (r == Err(Roster(ChildNotCheckedIn)) <==> s.rooms[room].active && !here)
      && (r == Err(Roster(AttendanceExpired)) <==> here && !c.isFresh)
      && (r == Err(Roster(ChildArchived)) <==> here && c.isFresh && s.children[child].status == Archived)
      && (r == Err(Roster(ChildNotActive)) <==> here && c.isFresh && s.children[child].status == Inactive)
      && (r == Err(Roster(AttendanceStateChanged)) <==>
            here && c.isFresh && s.children[child].status == Active && now < c.checkedInAt)
  {
    RefreshIff(s, room, child, lease, now, ids);
  }

  // The child's state right after a request: in the room, still in the room, or not in it.
  ghost predicate InEffect(s: Store, s': Store, request: AttendanceRequest, room: Id, child: Id, lease: int,
                           now: Time)
  {
    var before, after := CurrentAttendance(s.events, child, now), CurrentAttendance(s'.events, child, now);
    match request
    case ToCheckIn =>
      && room in s.rooms
      && StayIs(after, now, s.rooms[room].facility, room, now, now, now + lease * SECOND)
    case ToRefresh =>
      && before.Open? && before.room == room
      && StayIs(after, now, before.facility, room, before.checkedInAt, now, now + lease * SECOND)
    case ToCheckOut =>
      && !(after.Open? && after.room == room)
      && (before.Open? && before.room == room ==> after.Absent?)
  }

  lemma AttendTakesEffect(s: Store, request: AttendanceRequest, room: Id, child: Id, lease: int, now: Time,
                          ids: (Id, Id))
    requires Inv(s) && AttendStep(s, request, room, child, lease, now, ids).Ok?
    ensures InEffect(s, AttendStep(s, request, room, child, lease, now, ids).value, request, room, child, lease, now)
  {
    match request
    case ToCheckIn => CheckInTakesEffect(s, room, child, lease, now, ids);
    case ToRefresh => RefreshTakesEffect(s, room, child, lease, now, ids);
    case ToCheckOut => CheckOutTakesEffect(s, room, child, lease, now, ids);
  }

  // ------------------------------------------------------------------------------- release

  /** A released child is in no room any more, and one release record was added. */
  lemma ReleaseTakesEffect(s: Store, room: Id, child: Id, contact: Id, verification: string, now: Time,
                           eventId: Id, releaseId: Id)
    requires Inv(s) && ReleaseStep(s, room, child, contact, verification, now, eventId, releaseId).Ok?
    ensures var s' := ReleaseStep(s, room, child, contact, verification, now, eventId, releaseId).value;
      && (forall t :: CurrentAttendance(s'.events, child, t).Absent?)
      && OnlyRecords(s, s', child)
      && |s'.releases| == |s.releases| + 1 && s.releases <= s'.releases
  {
    var s' := ReleaseStep(s, room, child, contact, verification, now, eventId, releaseId).value;
    var e := s'.events[|s.events|];
    RowsOnlyRecord(s, s', child, [e]);
  }

  /** Each release refused before anything is written names its cause. */
  lemma ReleaseRefusals(s: Store, room: Id, child: Id, contact: Id, verification: string, now: Time)
    requires room in s.rooms && child in s.children && s.children[child].facility == s.rooms[room].facility
    requires contact in s.contacts && verification in VERIFICATION_METHODS
    ensures var r := AuthorizeRelease(s, room, child, contact, verification, now);
      var c := CurrentAttendance(s.events, child, now);
      var here := c.Open? && c.room == room;
      var f := s.rooms[room].facility;
      var d := DecidePickup(child, s.children[child], contact, s.contacts[contact], s.links, f, now).0;
      && (r == Err(Roster(ChildInAnotherClassroom)) <==> c.Open? && c.room != room && c.isFresh)
      && (r == Err(Roster(ChildNotCheckedIn)) <==> c.Absent? || (c.room != room && !c.isFresh))
      && (r == Err(Roster(AttendanceExpired)) <==> here && !c.isFresh)
      && (d != Authorized ==> (r == Err(Pickup(d)) <==> here && c.isFresh))
      && (r.Ok? <==> here && c.isFresh && d == Authorized)
  {
    AuthorizedIff(child, s.children[child], contact, s.contacts[contact], s.links, s.rooms[room].facility, now);
  }

  // --------------------------------------------------------------- what the head count makes of it

  /**
    A child that was checked in is present in that room until its lease ends and stale from then on, and neither
    in any other room; while present it is counted if its profile is active.
   */
  lemma CheckedInIsCounted(s: Store, room: Id, child: Id, lease: int, now: Time, ids: (Id, Id),
                           ms: seq<Member>, other: Id, t: Time)
    requires Inv(s) && AttendStep(s, ToCheckIn, room, child, lease, now, ids).Ok? && now <= t
    requires child in Rolled(ms, s.rooms[room].facility)
    ensures var f := s.rooms[room].facility;
      var events := AttendStep(s, ToCheckIn, room, child, lease, now, ids).value.events;
      && (child in PresentIds(Rolled(ms, f), events, room, f, t) <==> t < now + lease * SECOND)
      && (child in StaleIds(Rolled(ms, f), events, room, f, t) <==> now + lease * SECOND <= t)
      && (child in CountedSet(ms, events, room, f, t) <==> t < now + lease * SECOND && IsActive(ms, child, f))
      && (other != room ==> !Here(events, child, other, f, t))
  {
    CheckInTakesEffect(s, room, child, lease, now, ids);
    var events := AttendStep(s, ToCheckIn, room, child, lease, now, ids).value.events;
    assert StayIs(CurrentAttendance(events, child, t), t, s.rooms[room].facility, room, now, now,
                  now + lease * SECOND);
  }

  /** A child that was checked out of a room, or released from it, is not counted there, present or stale. */
  lemma CheckedOutIsNotCounted(s: Store, room: Id, child: Id, lease: int, now: Time, ids: (Id, Id), f: Id, t: Time)
    requires Inv(s) && AttendStep(s, ToCheckOut, room, child, lease, now, ids).Ok?
    ensures var events := AttendStep(s, ToCheckOut, room, child, lease, now, ids).value.events;
      !Here(events, child, room, f, t)
  {
    CheckOutTakesEffect(s, room, child, lease, now, ids);
    var s' := AttendStep(s, ToCheckOut, room, child, lease, now, ids).value;
    assert CurrentAttendance(s'.events, child, t).Open? ==> CurrentAttendance(s.events, child, now).Open?;
  }
}
