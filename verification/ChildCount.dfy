/** The attendance child count of one classroom: what the counting loop computes and how long it holds. */
module ChildCount {
  import opened Base
  import opened Attendance
  import opened Lists

  const EMPTY_VALIDITY_SECONDS: int := 60

  datatype Member = Member(child: Id, facility: Id, status: Lifecycle)

  datatype Resolution = Resolution(
    room: Id, facility: Id, evaluatedAt: Time,
    count: nat, present: nat, presentInactive: nat, stale: nat, validUntil: Option<Time>)

  // ------------------------------------------------------------------- the roster, sorted

  predicate MemberBefore(m: Member, n: Member) { m.child <= n.child }

  // The stable sort by id that the resolver iterates over.
  function Roster(ms: seq<Member>): (r: seq<Member>)
    ensures |r| == |ms|
  {
    Sort(ms, MemberBefore)
  }

  // The first member of this facility with this id; a repeated profile is considered once.
  function FirstOf(ms: seq<Member>, child: Id, facility: Id): (r: Option<Member>)
    ensures r.Some? ==> r.value in ms && r.value.child == child && r.value.facility == facility
    ensures r.None? ==> forall m :: m in ms ==> !(m.child == child && m.facility == facility)
  {
    if ms == [] then None
    else if ms[0].child == child && ms[0].facility == facility then Some(ms[0])
    else FirstOf(ms[1..], child, facility)
  }

  function Rolled(ms: seq<Member>, facility: Id): set<Id> {
    set m | m in ms && m.facility == facility :: m.child
  }

  lemma {:induction false} InsertKeepsFirst(m: Member, s: seq<Member>, child: Id, facility: Id)
    ensures FirstOf(Insert(m, s, MemberBefore), child, facility) == FirstOf([m] + s, child, facility)
  {
    assert ([m] + s)[1..] == s;
    if s != [] && s[0].child < m.child {
      InsertKeepsFirst(m, s[1..], child, facility);
      assert ([s[0]] + Insert(m, s[1..], MemberBefore))[1..] == Insert(m, s[1..], MemberBefore);
      assert ([m] + s[1..])[1..] == s[1..];
    }
  }

  lemma {:induction false} SortKeepsFirst(ms: seq<Member>, child: Id, facility: Id)
    ensures FirstOf(Roster(ms), child, facility) == FirstOf(ms, child, facility)
  {
    if ms != [] {
      InsertKeepsFirst(ms[0], Roster(ms[1..]), child, facility);
      assert ([ms[0]] + Roster(ms[1..]))[1..] == Roster(ms[1..]);
      SortKeepsFirst(ms[1..], child, facility);
    }
  }

  // -------------------------------------------------------------------- what is counted

  predicate Here(events: seq<Event>, child: Id, room: Id, facility: Id, now: Time) {
    var c := CurrentAttendance(events, child, now);
    InRoom(c, room) && c.facility == facility
  }

  predicate PresentHere(events: seq<Event>, child: Id, room: Id, facility: Id, now: Time) {
    Here(events, child, room, facility, now) && CurrentAttendance(events, child, now).isFresh
  }

  predicate IsActive(ms: seq<Member>, child: Id, facility: Id) {
    var m := FirstOf(ms, child, facility);
    m.Some? && m.value.status == Active
  }

  // The children among `ids` in each class.
  ghost function PresentIds(ids: set<Id>, events: seq<Event>, room: Id, facility: Id, now: Time): set<Id> {
    set c | c in ids && PresentHere(events, c, room, facility, now)
  }

  ghost function StaleIds(ids: set<Id>, events: seq<Event>, room: Id, facility: Id, now: Time): set<Id> {
    set c | c in ids && Here(events, c, room, facility, now) && !PresentHere(events, c, room, facility, now)
  }

  ghost function CountedIds(ids: set<Id>, ms: seq<Member>, events: seq<Event>,
                            room: Id, facility: Id, now: Time): set<Id> {
    set c | c in ids && PresentHere(events, c, room, facility, now) && IsActive(ms, c, facility)
  }

  function Lease(events: seq<Event>, child: Id, now: Time): Time {
    var c := CurrentAttendance(events, child, now);
    if c.Open? then c.validUntil else now
  }

  // The earliest lease among `ids`, if there are any.
  ghost predicate IsEarliest(v: Option<Time>, ids: set<Id>, events: seq<Event>, now: Time) {
    if v.None? then ids == {}
    else
      && (exists c :: c in ids && Lease(events, c, now) == v.value)
      && (forall c :: c in ids ==> v.value <= Lease(events, c, now))
  }

  ghost predicate Tally(r: Resolution, counted: set<Id>, present: set<Id>, stale: set<Id>, events: seq<Event>) {
    && r.count == |counted| && r.present == |present| && r.presentInactive == |present - counted|
    && r.stale == |stale|
    && IsEarliest(r.validUntil, counted, events, r.evaluatedAt)
  }

  ghost predicate Tallies(r: Resolution, ids: set<Id>, ms: seq<Member>, events: seq<Event>) {
    Tally(r, CountedIds(ids, ms, events, r.room, r.facility, r.evaluatedAt),
          PresentIds(ids, events, r.room, r.facility, r.evaluatedAt),
          StaleIds(ids, events, r.room, r.facility, r.evaluatedAt), events)
  }

  // `r` is the resolution of this roster and these events, by set and not by position.
  ghost predicate Resolves(r: Resolution, ms: seq<Member>, events: seq<Event>) {
    Tallies(r, Rolled(ms, r.facility), ms, events)
  }

  // One more child considered: how the tallies change.
  function Consider(r: Resolution, m: Member, events: seq<Event>): Resolution {
    var c := CurrentAttendance(events, m.child, r.evaluatedAt);
    if !InRoom(c, r.room) || c.facility != r.facility then r
    else if !c.isFresh then r.(stale := r.stale + 1)
    else if m.status != Active then r.(present := r.present + 1, presentInactive := r.presentInactive + 1)
    else r.(present := r.present + 1, count := r.count + 1,
            validUntil := Some(if r.validUntil.Some? then Min(r.validUntil.value, c.validUntil) else c.validUntil))
  }

  ghost function When(b: bool, child: Id): set<Id> { if b then {child} else {} }

  lemma WhenAdds(ids: set<Id>, b: bool, child: Id)
    ensures ids + When(b, child) == if b then ids + {child} else ids
  {
  }

  lemma PresentGrows(seen: set<Id>, child: Id, events: seq<Event>, room: Id, facility: Id, now: Time)
    ensures PresentIds(seen + {child}, events, room, facility, now)
         == PresentIds(seen, events, room, facility, now)
            + When(PresentHere(events, child, room, facility, now), child)
    ensures StaleIds(seen + {child}, events, room, facility, now)
         == StaleIds(seen, events, room, facility, now)
            + When(Here(events, child, room, facility, now)
                   && !PresentHere(events, child, room, facility, now), child)
  {
  }

  lemma CountedGrows(seen: set<Id>, child: Id, ms: seq<Member>, events: seq<Event>,
                     room: Id, facility: Id, now: Time)
    ensures CountedIds(seen + {child}, ms, events, room, facility, now)
         == CountedIds(seen, ms, events, room, facility, now)
            + When(PresentHere(events, child, room, facility, now) && IsActive(ms, child, facility), child)
  {
  }

  lemma OneMore(counted: set<Id>, present: set<Id>, child: Id)
    requires child !in present && child !in counted
    ensures |present + {child}| == |present| + 1 && |(present + {child}) - counted| == |present - counted| + 1
    ensures |counted + {child}| == |counted| + 1
    ensures (present + {child}) - (counted + {child}) == present - counted
  {
    assert (present + {child}) - counted == (present - counted) + {child};
  }

  lemma AddPresent(r: Resolution, counted: set<Id>, present: set<Id>, stale: set<Id>,
                   child: Id, events: seq<Event>)
    requires Tally(r, counted, present, stale, events) && child !in present && child !in counted
    ensures Tally(r.(present := r.present + 1, presentInactive := r.presentInactive + 1),
                  counted, present + {child}, stale, events)
  {
    OneMore(counted, present, child);
  }

  lemma AddCounted(r: Resolution, counted: set<Id>, present: set<Id>, stale: set<Id>,
                   child: Id, events: seq<Event>)
    requires Tally(r, counted, present, stale, events) && child !in present && child !in counted
    ensures var l := Lease(events, child, r.evaluatedAt);
      Tally(r.(present := r.present + 1, count := r.count + 1,
               validUntil := Some(if r.validUntil.Some? then Min(r.validUntil.value, l) else l)),
            counted + {child}, present + {child}, stale, events)
  {
    OneMore(counted, present, child);
    EarliestOfMore(r.validUntil, counted, child, events, r.evaluatedAt);
  }

  // The same step, class by class: what one child adds to the three sets.
  lemma ConsiderTally(r: Resolution, counted: set<Id>, present: set<Id>, stale: set<Id>,
                      m: Member, events: seq<Event>)
    requires Tally(r, counted, present, stale, events)
    requires m.child !in counted && m.child !in present && m.child !in stale
    ensures var here := Here(events, m.child, r.room, r.facility, r.evaluatedAt);
      var isPresent := PresentHere(events, m.child, r.room, r.facility, r.evaluatedAt);
      Tally(Consider(r, m, events), counted + When(isPresent && m.status == Active, m.child),
            present + When(isPresent, m.child), stale + When(here && !isPresent, m.child), events)
  {
    var here := Here(events, m.child, r.room, r.facility, r.evaluatedAt);
    var isPresent := PresentHere(events, m.child, r.room, r.facility, r.evaluatedAt);
    WhenAdds(counted, isPresent && m.status == Active, m.child);
    WhenAdds(present, isPresent, m.child);
    WhenAdds(stale, here && !isPresent, m.child);
    if isPresent {
      if m.status == Active {
        AddCounted(r, counted, present, stale, m.child, events);
      } else {
        AddPresent(r, counted, present, stale, m.child, events);
      }
    }
  }

  lemma ConsiderTallies(r: Resolution, seen: set<Id>, m: Member, ms: seq<Member>, events: seq<Event>)
    requires Tallies(r, seen, ms, events) && m.child !in seen && FirstOf(ms, m.child, r.facility) == Some(m)
    ensures Tallies(Consider(r, m, events), seen + {m.child}, ms, events)
  {
    PresentGrows(seen, m.child, events, r.room, r.facility, r.evaluatedAt);
    CountedGrows(seen, m.child, ms, events, r.room, r.facility, r.evaluatedAt);
    ConsiderTally(r, CountedIds(seen, ms, events, r.room, r.facility, r.evaluatedAt),
                  PresentIds(seen, events, r.room, r.facility, r.evaluatedAt),
                  StaleIds(seen, events, r.room, r.facility, r.evaluatedAt), m, events);
    assert IsActive(ms, m.child, r.facility) == (m.status == Active);
  }

  lemma EarliestOfMore(v: Option<Time>, ids: set<Id>, child: Id, events: seq<Event>, now: Time)
    requires IsEarliest(v, ids, events, now)
    ensures var l := Lease(events, child, now);
      IsEarliest(Some(if v.Some? then Min(v.value, l) else l), ids + {child}, events, now)
  {
    var l := Lease(events, child, now);
    var w := if v.Some? then Min(v.value, l) else l;
    if v.Some? && v.value <= l {
      var c :| c in ids && Lease(events, c, now) == v.value;
      assert c in ids + {child};
    } else {
      assert child in ids + {child};
    }
  }

  lemma NothingTallied(r: Resolution, ms: seq<Member>, events: seq<Event>)
    requires r == Resolution(r.room, r.facility, r.evaluatedAt, 0, 0, 0, 0, None)
    ensures Tallies(r, {}, ms, events) && Rolled([], r.facility) == {}
  {
    assert PresentIds({}, events, r.room, r.facility, r.evaluatedAt) == {};
    assert StaleIds({}, events, r.room, r.facility, r.evaluatedAt) == {};
    assert CountedIds({}, ms, events, r.room, r.facility, r.evaluatedAt) == {};
  }

  lemma RolledAppend(s: seq<Member>, i: nat, facility: Id)
    requires i < |s|
    ensures Rolled(s[..i + 1], facility)
         == Rolled(s[..i], facility) + When(s[i].facility == facility, s[i].child)
  {
    assert s[..i + 1] == s[..i] + [s[i]];
  }

  // One turn of the loop, for a child not seen before.
  lemma TurnTallies(sorted: seq<Member>, i: nat, ms: seq<Member>, events: seq<Event>, r: Resolution)
    requires sorted == Roster(ms) && i < |sorted|
    requires sorted[i].facility == r.facility && sorted[i].child !in Rolled(sorted[..i], r.facility)
    requires Tallies(r, Rolled(sorted[..i], r.facility), ms, events)
    ensures Tallies(Consider(r, sorted[i], events), Rolled(sorted[..i + 1], r.facility), ms, events)
    ensures Rolled(sorted[..i + 1], r.facility) == Rolled(sorted[..i], r.facility) + {sorted[i].child}
  {
    FirstAtPosition(sorted, i, r.facility);
    SortKeepsFirst(ms, sorted[i].child, r.facility);
    RolledAppend(sorted, i, r.facility);
    ConsiderTallies(r, Rolled(sorted[..i], r.facility), sorted[i], ms, events);
  }

  lemma SkipTallies(sorted: seq<Member>, i: nat, facility: Id)
    requires i < |sorted|
    requires sorted[i].facility != facility || sorted[i].child in Rolled(sorted[..i], facility)
    ensures Rolled(sorted[..i + 1], facility) == Rolled(sorted[..i], facility)
  {
    RolledAppend(sorted, i, facility);
  }

  lemma SortKeepsRolled(ms: seq<Member>, facility: Id)
    ensures Rolled(Roster(ms), facility) == Rolled(ms, facility)
  {
    SortMembers(ms, MemberBefore);
  }

  /** The loop over the sorted roster computes exactly the resolution of the set of profiles. */
  method ResolveChildCount(room: Id, facility: Id, now: Time, members: seq<Member>, events: seq<Event>)
    returns (r: Resolution)
    ensures r.room == room && r.facility == facility && r.evaluatedAt == now
    ensures Resolves(r, members, events)
  {
    var sorted := Roster(members);
    var seen: set<Id> := {};
    r := Resolution(room, facility, now, 0, 0, 0, 0, None);
    NothingTallied(r, members, events);
    for i := 0 to |sorted|
      invariant r.room == room && r.facility == facility && r.evaluatedAt == now
      invariant seen == Rolled(sorted[..i], facility)
      invariant Tallies(r, Rolled(sorted[..i], facility), members, events)
    {
      var m := sorted[i];
      if m.child in seen || m.facility != facility {
        SkipTallies(sorted, i, facility);
        continue;
      }
      TurnTallies(sorted, i, members, events, r);
      seen := seen + {m.child};
      r := Counted(r, m, events);
    }
    assert sorted[..|sorted|] == sorted;
    SortKeepsRolled(members, facility);
  }

  // The body of the loop: which counters one child's current attendance moves.
  method Counted(before: Resolution, m: Member, events: seq<Event>) returns (r: Resolution)
    ensures r == Consider(before, m, events)
    ensures r.room == before.room && r.facility == before.facility && r.evaluatedAt == before.evaluatedAt
  {
    r := before;
    var current := CurrentAttendance(events, m.child, r.evaluatedAt);
    if !InRoom(current, r.room) || current.facility != r.facility { return; }
    if !current.isFresh {
      r := r.(stale := r.stale + 1);
      return;
    }
    r := r.(present := r.present + 1);
    if m.status != Active {
      r := r.(presentInactive := r.presentInactive + 1);
      return;
    }
    r := r.(count := r.count + 1);
    if r.validUntil.None? || current.validUntil < r.validUntil.value {
      r := r.(validUntil := Some(current.validUntil));
    }
  }

  lemma {:induction false} FirstAtPosition(s: seq<Member>, i: nat, facility: Id)
    requires i < |s| && s[i].facility == facility && s[i].child !in Rolled(s[..i], facility)
    ensures FirstOf(s, s[i].child, facility) == Some(s[i])
  {
    if i > 0 {
      assert s[0] in s[..i];
      assert s[0].facility == facility ==> s[0].child in Rolled(s[..i], facility);
      assert forall m :: m in s[1..][..i - 1] ==> m in s[..i];
      FirstAtPosition(s[1..], i - 1, facility);
    }
  }
}
