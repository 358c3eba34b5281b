/** Laws of the attendance count: its window, its index, its independence of order, its partition. */
module ChildCountLaws {
  import opened Base
  import opened Attendance
  import opened ChildCount
  import P = Presence

  // ------------------------------------------------------------------------------ window

  ghost predicate NotAhead(latest: Option<Event>, now: Time) {
    latest.Some? && Opens(latest.value) ==> latest.value.occurredAt - now <= MAX_FUTURE_SKEW
  }

  // No active child's open stay in this room lies further ahead of `now` than the permitted skew.
  ghost predicate NoneAhead(ms: seq<Member>, events: seq<Event>, room: Id, facility: Id, now: Time) {
    forall c :: c in Rolled(ms, facility) && IsActive(ms, c, facility) && Here(events, c, room, facility, now) ==>
      NotAhead(Latest(events, c), now)
  }

  ghost function CountedSet(ms: seq<Member>, events: seq<Event>, room: Id, facility: Id, now: Time): set<Id> {
    CountedIds(Rolled(ms, facility), ms, events, room, facility, now)
  }

  lemma PresenceAt(events: seq<Event>, child: Id, room: Id, facility: Id, now: Time, t: Time)
    requires now <= t && (Here(events, child, room, facility, now) ==> NotAhead(Latest(events, child), now))
    ensures PresentHere(events, child, room, facility, t) <==>
              PresentHere(events, child, room, facility, now) && t < Lease(events, child, now)
    ensures Here(events, child, room, facility, t) <==> Here(events, child, room, facility, now)
  {
  }

  // With nothing beyond the skew, time only removes children, each at its own lease.
  lemma CountedAt(ms: seq<Member>, events: seq<Event>, room: Id, facility: Id, now: Time, t: Time)
    requires now <= t && NoneAhead(ms, events, room, facility, now)
    ensures forall c :: c in CountedSet(ms, events, room, facility, t) <==>
              c in CountedSet(ms, events, room, facility, now) && t < Lease(events, c, now)
  {
    forall c | c in Rolled(ms, facility) && IsActive(ms, c, facility)
      ensures PresentHere(events, c, room, facility, t) <==>
                PresentHere(events, c, room, facility, now) && t < Lease(events, c, now)
    {
      PresenceAt(events, c, room, facility, now, t);
    }
  }

  lemma NoneAheadStays(ms: seq<Member>, events: seq<Event>, room: Id, facility: Id, now: Time, t: Time)
    requires now <= t && NoneAhead(ms, events, room, facility, now)
    ensures NoneAhead(ms, events, room, facility, t)
  {
    forall c | c in Rolled(ms, facility) && IsActive(ms, c, facility) && Here(events, c, room, facility, t)
      ensures NotAhead(Latest(events, c), t)
    {
      assert Here(events, c, room, facility, now);
    }
  }

  // The stay of a child that lies ahead is not counted yet and will be.
  lemma AheadJoins(ms: seq<Member>, events: seq<Event>, room: Id, facility: Id, now: Time, c: Id) returns (u: Time)
    requires forall e :: e in events ==> TableCheck(e)
    requires c in Rolled(ms, facility) && IsActive(ms, c, facility) && Here(events, c, room, facility, now)
    requires !NotAhead(Latest(events, c), now)
    ensures now <= u
    ensures c !in CountedSet(ms, events, room, facility, now) && c in CountedSet(ms, events, room, facility, u)
  {
    var e := Latest(events, c).value;
    u := e.occurredAt - MAX_FUTURE_SKEW;
    assert TableCheck(e);
  }

  /**
    While nothing is recorded no child ever joins those counted, from `now` on, exactly when no active child's
    stay in this room lies beyond the permitted skew.
   */
  lemma NobodyJoinsIff(ms: seq<Member>, events: seq<Event>, room: Id, facility: Id, now: Time)
    requires forall e :: e in events ==> TableCheck(e)
    ensures NoneAhead(ms, events, room, facility, now) <==>
      forall t, u :: now <= t <= u ==>
        CountedSet(ms, events, room, facility, u) <= CountedSet(ms, events, room, facility, t)
  {
    if NoneAhead(ms, events, room, facility, now) {
      forall t, u | now <= t <= u
        ensures CountedSet(ms, events, room, facility, u) <= CountedSet(ms, events, room, facility, t)
      {
        NoneAheadStays(ms, events, room, facility, now, t);
        CountedAt(ms, events, room, facility, t, u);
      }
    } else {
      var c :| c in Rolled(ms, facility) && IsActive(ms, c, facility) && Here(events, c, room, facility, now)
               && !NotAhead(Latest(events, c), now);
      var u := AheadJoins(ms, events, room, facility, now, c);
    }
  }

  // Before the earliest lease runs out nobody has left; when it does, somebody has.
  lemma CountedUntil(v: Time, ms: seq<Member>, events: seq<Event>, room: Id, facility: Id, now: Time, t: Time)
    requires now <= t && NoneAhead(ms, events, room, facility, now)
    requires IsEarliest(Some(v), CountedSet(ms, events, room, facility, now), events, now)
    ensures CountedSet(ms, events, room, facility, t) <= CountedSet(ms, events, room, facility, now)
    ensures CountedSet(ms, events, room, facility, t) == CountedSet(ms, events, room, facility, now) <==> t < v
  {
    CountedAt(ms, events, room, facility, now, t);
    var before := CountedSet(ms, events, room, facility, now);
    var first :| first in before && Lease(events, first, now) == v;
  }

  /**
    The count's window is sound: without new events it never rises, it is the same number at every moment
    before `validUntil`, and at `validUntil` it is strictly smaller.
   */
  lemma CountWindow(r: Resolution, later: Resolution, ms: seq<Member>, events: seq<Event>)
    requires Resolves(r, ms, events) && Resolves(later, ms, events)
    requires later.room == r.room && later.facility == r.facility && r.evaluatedAt <= later.evaluatedAt
    requires NoneAhead(ms, events, r.room, r.facility, r.evaluatedAt)
    ensures later.count <= r.count
    ensures r.validUntil.None? ==> later.count == r.count == 0
    ensures r.validUntil.Some? ==> (later.count == r.count <==> later.evaluatedAt < r.validUntil.value)
  {
    var now, t := r.evaluatedAt, later.evaluatedAt;
    CountedAt(ms, events, r.room, r.facility, now, t);
    if r.validUntil.Some? { CountedUntil(r.validUntil.value, ms, events, r.room, r.facility, now, t); }
    SubsetSize(CountedSet(ms, events, r.room, r.facility, t), CountedSet(ms, events, r.room, r.facility, now));
  }

  // An open stay beyond the skew is what the window law excludes: it starts to count as time passes.
  lemma SkewedEventRaisesCount() returns (ms: seq<Member>, events: seq<Event>, now: Time, later: Time)
    ensures now < later && |ms| == 1 && |events| == 1 && TableCheck(events[0])
    ensures CountedSet(ms, events, 1, 1, now) == {} && CountedSet(ms, events, 1, 1, later) == {0}
  {
    var lease := LEASE_MIN_SECONDS * SECOND;
    events := [Event(0, 0, 1, 1, 1, CheckedIn, 121 * SECOND, Some(121 * SECOND + lease), 121 * SECOND)];
    ms := [Member(0, 1, Active)];
    now, later := 0, SECOND;
    assert events[..0] == [];
    assert Latest(events, 0) == Some(events[0]);
    assert ms[0] in ms;
    assert Rolled(ms, 1) == {0};
  }

  // ------------------------------------------------------ the count handed to the ratio engine

  // Whole seconds the number may be relied on, at least one.
  function ValidForSeconds(r: Resolution): int {
    if r.validUntil.None? then EMPTY_VALIDITY_SECONDS
    else Max(1, Min((r.validUntil.value - r.evaluatedAt) / SECOND, P.MAX_VALIDITY_SECONDS))
  }

  // A roster may hold more children than a presence count may carry.
  function ToPresenceCount(r: Resolution): Result<P.PresenceCount, string> {
    var p := P.PresenceCount(r.room, P.Child, r.count, P.Attendance, r.evaluatedAt, ValidForSeconds(r));
    if P.ValidCount(p) then Ok(p) else Err("invalid_presence_count")
  }

  /**
    The derived presence count exists exactly up to the engine's bound, outlives the leases it was derived
    from by less than a second, and falls short of them by less than a second unless capped.
   */
  lemma PresenceOutlivesLeaseByUnderASecond(r: Resolution, ms: seq<Member>, events: seq<Event>)
    requires Resolves(r, ms, events)
    ensures ToPresenceCount(r).Ok? <==> r.count <= P.MAX_PRESENCE_COUNT
    ensures ToPresenceCount(r).Ok? ==> P.FreshnessOf(Some(ToPresenceCount(r).value), r.evaluatedAt) == P.Fresh
    ensures ToPresenceCount(r).Ok? && r.validUntil.Some? ==>
      && P.ExpiresAt(ToPresenceCount(r).value) - r.validUntil.value < SECOND
      && (r.validUntil.value - r.evaluatedAt < P.MAX_VALIDITY_SECONDS * SECOND ==>
            r.validUntil.value - P.ExpiresAt(ToPresenceCount(r).value) < SECOND)
  {
    if r.validUntil.Some? { ValidUntilIsAhead(r, ms, events); }
    RoundedLease(r);
  }

  lemma ValidUntilIsAhead(r: Resolution, ms: seq<Member>, events: seq<Event>)
    requires Resolves(r, ms, events) && r.validUntil.Some?
    ensures r.evaluatedAt < r.validUntil.value
  {
    var counted := CountedSet(ms, events, r.room, r.facility, r.evaluatedAt);
    var c :| c in counted && Lease(events, c, r.evaluatedAt) == r.validUntil.value;
    assert PresentHere(events, c, r.room, r.facility, r.evaluatedAt);
    FreshLeaseIsAhead(events, c, r.room, r.facility, r.evaluatedAt);
  }

  lemma RoundedLease(r: Resolution)
    requires r.validUntil.Some? ==> r.evaluatedAt < r.validUntil.value
    ensures 1 <= ValidForSeconds(r) <= P.MAX_VALIDITY_SECONDS
    ensures r.validUntil.Some? ==>
      && r.evaluatedAt + ValidForSeconds(r) * SECOND - r.validUntil.value < SECOND
      && (r.validUntil.value - r.evaluatedAt < P.MAX_VALIDITY_SECONDS * SECOND ==>
            r.validUntil.value - (r.evaluatedAt + ValidForSeconds(r) * SECOND) < SECOND)
  {
    if r.validUntil.Some? { WholeSeconds(r.validUntil.value - r.evaluatedAt); }
  }

  // Rounding a lease of `left` microseconds to whole seconds.
  lemma WholeSeconds(left: int)
    requires left > 0
    ensures var seconds := Max(1, Min(left / SECOND, P.MAX_VALIDITY_SECONDS));
      && 1 <= seconds <= P.MAX_VALIDITY_SECONDS
      && seconds * SECOND - left < SECOND
      && (left < P.MAX_VALIDITY_SECONDS * SECOND ==> left - seconds * SECOND < SECOND)
  {
  }

  // It hands on the count itself, as a count of children made from attendance at that moment.
  lemma PresenceCarriesTheCount(r: Resolution)
    requires ToPresenceCount(r).Ok?
    ensures var p := ToPresenceCount(r).value;
      && p.count == r.count && p.role == P.Child && p.room == r.room && p.source == P.Attendance
      && p.observedAt == r.evaluatedAt
  {
  }

  lemma FreshLeaseIsAhead(events: seq<Event>, child: Id, room: Id, facility: Id, now: Time)
    requires PresentHere(events, child, room, facility, now)
    ensures now < Lease(events, child, now)
  {
  }

  // ------------------------------------------------------------------ index and order

  // One latest event for each profile, as the lateral join returns them.
  function LatestIndex(events: seq<Event>, profiles: seq<Id>): (index: seq<Event>)
    ensures forall e :: e in index ==> e.child in profiles && Latest(events, e.child) == Some(e)
    ensures forall c :: c in profiles && Latest(events, c).Some? ==> Latest(events, c).value in index
  {
    if profiles == [] then []
    else
      assert profiles == [profiles[0]] + profiles[1..];
      var latest := Latest(events, profiles[0]);
      (if latest.Some? then [latest.value] else []) + LatestIndex(events, profiles[1..])
  }

  lemma IndexLookup(events: seq<Event>, profiles: seq<Id>, child: Id)
    requires child in profiles
    ensures Latest(LatestIndex(events, profiles), child) == Latest(events, child)
  {
    var index := LatestIndex(events, profiles);
  }

  // Two event tables that agree on every rostered child's latest event.
  ghost predicate SameLatest(ids: set<Id>, a: seq<Event>, b: seq<Event>) {
    forall c :: c in ids ==> Latest(a, c) == Latest(b, c)
  }

  // Two rosters with the same profiles of this facility.
  ghost predicate SameRoster(a: seq<Member>, b: seq<Member>, facility: Id) {
    && Rolled(a, facility) == Rolled(b, facility)
    && forall c :: c in Rolled(a, facility) ==> FirstOf(a, c, facility) == FirstOf(b, c, facility)
  }

  lemma ResolutionDependsOnLatest(r: Resolution, a: seq<Member>, b: seq<Member>, ea: seq<Event>, eb: seq<Event>)
    requires SameRoster(a, b, r.facility) && SameLatest(Rolled(a, r.facility), ea, eb)
    ensures Resolves(r, a, ea) <==> Resolves(r, b, eb)
  {
    var ids := Rolled(a, r.facility);
    var now := r.evaluatedAt;
    assert forall c :: c in ids ==> CurrentAttendance(ea, c, now) == CurrentAttendance(eb, c, now);
    assert PresentIds(ids, ea, r.room, r.facility, now) == PresentIds(ids, eb, r.room, r.facility, now);
    assert StaleIds(ids, ea, r.room, r.facility, now) == StaleIds(ids, eb, r.room, r.facility, now);
    var counted := CountedIds(ids, a, ea, r.room, r.facility, now);
    assert counted == CountedIds(ids, b, eb, r.room, r.facility, now);
    assert forall c :: c in counted ==> Lease(ea, c, now) == Lease(eb, c, now);
  }

  /** Resolving from the one-row-per-child index is resolving from the full event table. */
  lemma IndexResolvesTheSame(r: Resolution, ms: seq<Member>, events: seq<Event>, profiles: seq<Id>)
    requires forall c :: c in Rolled(ms, r.facility) ==> c in profiles
    ensures Resolves(r, ms, LatestIndex(events, profiles)) <==> Resolves(r, ms, events)
  {
    forall c | c in Rolled(ms, r.facility) ensures Latest(LatestIndex(events, profiles), c) == Latest(events, c) {
      IndexLookup(events, profiles, c);
    }
    ResolutionDependsOnLatest(r, ms, ms, LatestIndex(events, profiles), events);
  }

  ghost predicate UniqueKeys(events: seq<Event>) {
    forall d, e :: d in events && e in events && d.child == e.child && d.sequence == e.sequence ==> d == e
  }

  ghost predicate UniqueMembers(ms: seq<Member>) {
    forall m, n :: m in ms && n in ms && m.child == n.child ==> m == n
  }

  /** With unique keys neither the order nor the repetition of rows and profiles changes the answer. */
  lemma OrderIsImmaterial(r: Resolution, a: seq<Member>, b: seq<Member>, ea: seq<Event>, eb: seq<Event>)
    requires UniqueMembers(a) && (forall m :: m in a <==> m in b)
    requires UniqueKeys(ea) && (forall e :: e in ea <==> e in eb)
    ensures Resolves(r, a, ea) <==> Resolves(r, b, eb)
  {
    assert Rolled(a, r.facility) == Rolled(b, r.facility);
    forall c | c in Rolled(a, r.facility) ensures FirstOf(a, c, r.facility) == FirstOf(b, c, r.facility) {
    }
    forall c | c in Rolled(a, r.facility) ensures Latest(ea, c) == Latest(eb, c) {
    }
    ResolutionDependsOnLatest(r, a, b, ea, eb);
  }

  /** A roster and a table have one resolution for each room and moment. */
  lemma ResolutionIsUnique(r: Resolution, q: Resolution, ms: seq<Member>, events: seq<Event>)
    requires Resolves(r, ms, events) && Resolves(q, ms, events)
    requires r.room == q.room && r.facility == q.facility && r.evaluatedAt == q.evaluatedAt
    ensures r == q
  {
    EarliestIsUnique(r.validUntil, q.validUntil, CountedSet(ms, events, r.room, r.facility, r.evaluatedAt),
                     events, r.evaluatedAt);
  }

  lemma EarliestIsUnique(v: Option<Time>, w: Option<Time>, ids: set<Id>, events: seq<Event>, now: Time)
    requires IsEarliest(v, ids, events, now) && IsEarliest(w, ids, events, now)
    ensures v == w
  {
    if v.Some? && w.Some? {
      var c :| c in ids && Lease(events, c, now) == v.value;
      var d :| d in ids && Lease(events, d, now) == w.value;
    }
  }

  /** In one room everybody present is either counted or present with an inactive profile. */
  lemma PresentIsCountedOrInactive(r: Resolution, ms: seq<Member>, events: seq<Event>)
    requires Resolves(r, ms, events)
    ensures r.present == r.count + r.presentInactive
  {
    var ids := Rolled(ms, r.facility);
    var counted := CountedIds(ids, ms, events, r.room, r.facility, r.evaluatedAt);
    var present := PresentIds(ids, events, r.room, r.facility, r.evaluatedAt);
    assert present == counted + (present - counted);
  }

  // --------------------------------------------------------------------------- partition

  // The rostered children whose latest event leaves them in one of `rooms` of this facility.
  ghost function OpenIn(ids: set<Id>, events: seq<Event>, rooms: set<Id>, facility: Id, now: Time): set<Id> {
    set c | c in ids && CurrentAttendance(events, c, now).Open?
            && CurrentAttendance(events, c, now).facility == facility
            && CurrentAttendance(events, c, now).room in rooms
  }

  ghost function RoomSet(rooms: seq<Resolution>): (s: set<Id>)
    ensures forall room :: room in s <==> exists i :: 0 <= i < |rooms| && rooms[i].room == room
  {
    if rooms == [] then {}
    else
      var n := |rooms| - 1;
      assert forall i :: 0 <= i < n ==> rooms[..n][i] == rooms[i];
      RoomSet(rooms[..n]) + {rooms[n].room}
  }

  ghost function PresentPlusStale(rooms: seq<Resolution>): nat {
    if rooms == [] then 0
    else
      var n := |rooms| - 1;
      PresentPlusStale(rooms[..n]) + rooms[n].present + rooms[n].stale
  }

  lemma OneRoom(r: Resolution, ms: seq<Member>, events: seq<Event>)
    requires Resolves(r, ms, events)
    ensures r.present + r.stale
         == |OpenIn(Rolled(ms, r.facility), events, {r.room}, r.facility, r.evaluatedAt)|
  {
    var ids := Rolled(ms, r.facility);
    var present := PresentIds(ids, events, r.room, r.facility, r.evaluatedAt);
    var stale := StaleIds(ids, events, r.room, r.facility, r.evaluatedAt);
    assert present !! stale;
    assert present + stale == OpenIn(ids, events, {r.room}, r.facility, r.evaluatedAt);
  }

  lemma OneMoreRoom(ids: set<Id>, events: seq<Event>, rooms: set<Id>, room: Id, facility: Id, now: Time)
    requires room !in rooms
    ensures |OpenIn(ids, events, rooms + {room}, facility, now)|
         == |OpenIn(ids, events, rooms, facility, now)| + |OpenIn(ids, events, {room}, facility, now)|
  {
    var a := OpenIn(ids, events, rooms, facility, now);
    var b := OpenIn(ids, events, {room}, facility, now);
    assert a !! b;
    assert OpenIn(ids, events, rooms + {room}, facility, now) == a + b;
  }

  /**
    Over any set of different rooms of a facility, present plus stale is exactly the number of rostered
    children whose latest event is open in one of them: nobody is in two rooms and nobody is missed.
   */
  lemma {:induction false} RoomsPartitionOpenStays(rooms: seq<Resolution>, ms: seq<Member>, events: seq<Event>,
                                                   facility: Id, now: Time)
    requires forall i :: 0 <= i < |rooms| ==>
               rooms[i].facility == facility && rooms[i].evaluatedAt == now && Resolves(rooms[i], ms, events)
    requires forall i, j :: 0 <= i < j < |rooms| ==> rooms[i].room != rooms[j].room
    ensures PresentPlusStale(rooms) == |OpenIn(Rolled(ms, facility), events, RoomSet(rooms), facility, now)|
  {
    var ids := Rolled(ms, facility);
    if rooms == [] {
      assert OpenIn(ids, events, RoomSet(rooms), facility, now) == {};
    } else {
      var n := |rooms| - 1;
      var init, last := rooms[..n], rooms[n];
      RoomsPartitionOpenStays(init, ms, events, facility, now);
      OneRoom(last, ms, events);
      assert last.room !in RoomSet(init);
      OneMoreRoom(ids, events, RoomSet(init), last.room, facility, now);
    }
  }
}
