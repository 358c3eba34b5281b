/** What every step of the care protocol keeps, and what therefore holds in every run. */
module CareInvariants {
  import opened Base
  import opened Lists
  import opened Attendance
  import opened PickupDecision
  import opened CareProtocol

  ghost predicate EventsOk(events: seq<Event>, children: map<Id, Party>) {
    && AllSerial(events)
    && (forall i, j :: 0 <= i < j < |events| ==> events[i].id != events[j].id)
    && forall i :: 0 <= i < |events| ==> EventAtHome(events[i], children)
  }

  // The composite foreign key of an event: it is at its child's own facility.
  ghost predicate EventAtHome(e: Event, children: map<Id, Party>) {
    e.child in children && children[e.child].facility == e.facility
  }

  ghost predicate LinksOk(links: seq<Link>, children: map<Id, Party>, contacts: map<Id, Party>) {
    && (forall i :: 0 <= i < |links| ==> LinkOk(links[i], children, contacts))
    && (forall i, j :: 0 <= i < j < |links| ==> links[i].id != links[j].id)
    && (forall i, j :: 0 <= i < j < |links| ==> !BothActive(links[i], links[j]))
  }

  ghost predicate LinkOk(l: Link, children: map<Id, Party>, contacts: map<Id, Party>) {
    && l.child in children && children[l.child].facility == l.facility
    && l.contact in contacts && contacts[l.contact].facility == l.facility
    && l.revision >= 1 && ValidPeriod(l.effectiveFrom, l.effectiveUntil)
  }

  ghost predicate BothActive(a: Link, b: Link) {
    a.active && b.active && a.child == b.child && a.contact == b.contact
  }

  // The release row describes exactly this check-out.
  ghost predicate Records(r: Release, e: Event) {
    && r.event == e.id && e.kind == CheckedOut
    && r.child == e.child && r.room == e.room && r.facility == e.facility && r.releasedAt == e.occurredAt
  }

  // The release row rests on this link, at this or an earlier revision.
  ghost predicate RestsOn(r: Release, l: Link) {
    && r.link == l.id && r.child == l.child && r.contact == l.contact && r.facility == l.facility
    && 1 <= r.linkRevision <= l.revision
    && (r.linkRevision == l.revision ==> Grants(l, r.releasedAt))
  }

  ghost predicate ReleaseOk(r: Release, events: seq<Event>, links: seq<Link>) {
    && (exists j :: 0 <= j < |events| && Records(r, events[j]))
    && (exists i :: 0 <= i < |links| && RestsOn(r, links[i]))
  }

  ghost predicate ReleasesOk(releases: seq<Release>, events: seq<Event>, links: seq<Link>) {
    && (forall k :: 0 <= k < |releases| ==> ReleaseOk(releases[k], events, links))
    && (forall k, m :: 0 <= k < m < |releases| ==>
          releases[k].event != releases[m].event && releases[k].id != releases[m].id)
  }

  ghost predicate Inv(s: Store) {
    && EventsOk(s.events, s.children)
    && LinksOk(s.links, s.children, s.contacts)
    && ReleasesOk(s.releases, s.events, s.links)
  }

  // --------------------------------------------------------------- each step keeps the invariant

  // Parties may change status and new ones may join; nobody changes facility.
  ghost predicate PartiesEvolve(before: map<Id, Party>, after: map<Id, Party>) {
    forall p :: p in before ==> p in after && after[p].facility == before[p].facility
  }

  lemma RosterStepKeepsInv(s: Store, s': Store)
    requires Inv(s) && PartiesEvolve(s.children, s'.children) && PartiesEvolve(s.contacts, s'.contacts)
    requires s'.events == s.events && s'.links == s.links && s'.releases == s.releases
    ensures Inv(s')
  {
    forall i | 0 <= i < |s.links| ensures LinkOk(s'.links[i], s'.children, s'.contacts) {
      assert LinkOk(s.links[i], s.children, s.contacts);
    }
    forall i | 0 <= i < |s.events| ensures EventAtHome(s'.events[i], s'.children) {
      assert EventAtHome(s.events[i], s.children);
    }
  }

  lemma AppendedEventsKeepReleases(releases: seq<Release>, events: seq<Event>, rows: seq<Event>, links: seq<Link>)
    requires ReleasesOk(releases, events, links)
    ensures ReleasesOk(releases, events + rows, links)
  {
    forall k | 0 <= k < |releases| ensures ReleaseOk(releases[k], events + rows, links) {
      assert ReleaseOk(releases[k], events, links);
      var j :| 0 <= j < |events| && Records(releases[k], events[j]);
      assert (events + rows)[j] == events[j];
    }
  }

  lemma AppendKeepsEventsOk(events: seq<Event>, e: Event, children: map<Id, Party>)
    requires EventsOk(events, children) && AllSerial(events + [e])
    requires Admits(events, e) && EventAtHome(e, children)
    ensures EventsOk(events + [e], children)
  {
  }

  lemma CurrentIsLast(s: Store, child: Id, now: Time)
    requires Inv(s)
    ensures CurrentAttendance(s.events, child, now)
         == CurrentFrom(Before(Stream(s.events, child), |Stream(s.events, child)|), now)
    ensures var c := CurrentAttendance(s.events, child, now);
      c.Open? ==> child in s.children && c.facility == s.children[child].facility
  {
    LatestIsLast(s.events, child);
    var latest := Latest(s.events, child);
    if latest.Some? {
      var i :| 0 <= i < |s.events| && s.events[i] == latest.value;
      assert EventAtHome(s.events[i], s.children);
    }
  }

  lemma AttendKeepsInv(s: Store, request: AttendanceRequest, room: Id, child: Id, lease: int,
                       now: Time, ids: (Id, Id))
    requires Inv(s) && AttendStep(s, request, room, child, lease, now, ids).Ok?
    ensures Inv(AttendStep(s, request, room, child, lease, now, ids).value)
  {
    CurrentIsLast(s, child, now);
    var c := CurrentAttendance(s.events, child, now);
    var action := ActionFor(request, room, s.rooms[room], s.children[child], lease);
    var rows := Rows(Plan(c, action, now).value, child, ids);
    CommitKeepsSerial(s.events, child, |Stream(s.events, child)|, action, now, ids);
    RowsAtHome(c, request, room, s.rooms[room], child, s.children, lease, now, ids);
    InsertKeepsEventsOk(s.events, rows, s.children);
    AppendedEventsKeepReleases(s.releases, s.events, rows, s.links);
  }

  lemma RowsAtHome(c: Current, request: AttendanceRequest, room: Id, at: Room, child: Id,
                   children: map<Id, Party>, lease: int, now: Time, ids: (Id, Id))
    requires child in children && children[child].facility == at.facility
    requires c.Open? ==> c.facility == children[child].facility
    requires Plan(c, ActionFor(request, room, at, children[child], lease), now).Ok?
    ensures var rows := Rows(Plan(c, ActionFor(request, room, at, children[child], lease), now).value, child, ids);
      |rows| <= 2 && forall i :: 0 <= i < |rows| ==> EventAtHome(rows[i], children)
  {
  }

  lemma InsertKeepsEventsOk(events: seq<Event>, rows: seq<Event>, children: map<Id, Party>)
    requires EventsOk(events, children) && AllSerial(events + rows)
    requires |rows| <= 2 && Insertable(events, rows)
    requires forall i :: 0 <= i < |rows| ==> EventAtHome(rows[i], children)
    ensures EventsOk(events + rows, children)
  {
    var all := events + rows;
    if |rows| >= 1 {
      assert rows[..1] == [rows[0]];
      assert |rows| == 2 ==> AdmitsRow(events + [rows[0]], rows[1..][0]);
    }
    forall i, j | 0 <= i < j < |all| ensures all[i].id != all[j].id {
      if j == |events| {
        assert Admits(events, rows[0]) && all[i] == events[i];
      } else if j > |events| {
        assert Admits(events + [rows[0]], rows[1]) && all[i] == (events + [rows[0]])[i];
      }
    }
    forall i | 0 <= i < |all| ensures EventAtHome(all[i], children) {
      assert all[i] == if i < |events| then events[i] else rows[i - |events|];
    }
  }

  lemma NewLinkKeepsInv(s: Store, child: Id, input: LinkInput, now: Time, id: Id)
    requires Inv(s) && CreateLinkStep(s, child, input, now, id).Ok?
    ensures Inv(CreateLinkStep(s, child, input, now, id).value)
  {
    var s' := CreateLinkStep(s, child, input, now, id).value;
    var n := |s.links|;
    forall i, j | 0 <= i < j < |s'.links| ensures !BothActive(s'.links[i], s'.links[j]) {
      if j < n { assert !BothActive(s.links[i], s.links[j]); }
    }
    forall i | 0 <= i < |s'.links| ensures LinkOk(s'.links[i], s'.children, s'.contacts) {
      if i < n { assert LinkOk(s.links[i], s.children, s.contacts); }
    }
    forall k | 0 <= k < |s.releases| ensures ReleaseOk(s.releases[k], s'.events, s'.links) {
      assert ReleaseOk(s.releases[k], s.events, s.links);
      var i :| 0 <= i < n && RestsOn(s.releases[k], s.links[i]);
      assert s'.links[i] == s.links[i];
    }
  }

  // An edit or a deactivation raises the revision and touches neither the parties nor other links.
  lemma RevisedLinkKeepsInv(s: Store, i: int, l: Link)
    requires Inv(s) && 0 <= i < |s.links| && s.links[i].active
    requires l.id == s.links[i].id && l.child == s.links[i].child && l.contact == s.links[i].contact
    requires l.facility == s.links[i].facility && l.revision == s.links[i].revision + 1
    requires ValidPeriod(l.effectiveFrom, l.effectiveUntil)
    ensures Inv(s.(links := s.links[i := l]))
  {
    var links := s.links[i := l];
    assert LinkOk(s.links[i], s.children, s.contacts);
    forall a, b | 0 <= a < b < |links| ensures !BothActive(links[a], links[b]) {
      assert !BothActive(s.links[a], s.links[b]);
    }
    forall k | 0 <= k < |s.releases| ensures ReleaseOk(s.releases[k], s.events, links) {
      assert ReleaseOk(s.releases[k], s.events, s.links);
      var m :| 0 <= m < |s.links| && RestsOn(s.releases[k], s.links[m]);
      assert RestsOn(s.releases[k], links[m]);
    }
  }

  lemma UpdateKeepsInv(s: Store, child: Id, id: Id, change: LinkChange)
    requires Inv(s) && UpdateLinkStep(s, child, id, change).Ok?
    ensures Inv(UpdateLinkStep(s, child, id, change).value)
  {
    var i := IndexOf(s.links, LinkId, id);
    var l := Changed(s.links[i], change);
    if l != s.links[i] { RevisedLinkKeepsInv(s, i, l.(revision := l.revision + 1)); }
  }

  lemma DeactivateKeepsInv(s: Store, child: Id, id: Id)
    requires Inv(s) && DeactivateLinkStep(s, child, id).Ok?
    ensures Inv(DeactivateLinkStep(s, child, id).value)
  {
    var i := IndexOf(s.links, LinkId, id);
    if s.links[i].active {
      assert LinkOk(s.links[i], s.children, s.contacts);
      RevisedLinkKeepsInv(s, i, s.links[i].(active := false, revision := s.links[i].revision + 1));
    }
  }

  // What a successful release saw and wrote.
  ghost predicate Justified(s: Store, r: Release) {
    && r.child in s.children && s.children[r.child] == Party(r.facility, Active)
    && r.contact in s.contacts && s.contacts[r.contact] == Party(r.facility, Active)
    && r.room in s.rooms && s.rooms[r.room].facility == r.facility
    && r.verification in VERIFICATION_METHODS
    && Latest(s.events, r.child).Some?
    && (var e := Latest(s.events, r.child).value;
        Opens(e) && e.room == r.room && FreshAt(e, r.releasedAt))
    && (exists i :: SoleActive(s.links, r.child, r.contact, i) && Names(r, s.links[i]))
  }

  // The release names this link at its present revision, and the link grants it.
  ghost predicate Names(r: Release, l: Link) {
    r.link == l.id && r.linkRevision == l.revision && Grants(l, r.releasedAt)
  }

  lemma ReleaseIsJustified(s: Store, room: Id, child: Id, contact: Id, verification: string, now: Time,
                           eventId: Id, releaseId: Id)
    requires Inv(s) && ReleaseStep(s, room, child, contact, verification, now, eventId, releaseId).Ok?
    ensures var s' := ReleaseStep(s, room, child, contact, verification, now, eventId, releaseId).value;
      && |s'.releases| == |s.releases| + 1
      && s'.releases[..|s.releases|] == s.releases
      && |s'.events| == |s.events| + 1
      && Justified(s, s'.releases[|s.releases|])
      && Records(s'.releases[|s.releases|], s'.events[|s.events|])
      && s'.releases[|s.releases|].child == child && s'.releases[|s.releases|].contact == contact
  {
    CurrentIsLast(s, child, now);
    AuthorizedIff(child, s.children[child], contact, s.contacts[contact], s.links, s.rooms[room].facility, now);
    var i :| SoleActive(s.links, child, contact, i) && Grants(s.links[i], now);
    var s' := ReleaseStep(s, room, child, contact, verification, now, eventId, releaseId).value;
    assert Names(s'.releases[|s.releases|], s.links[i]);
  }

  lemma ReleaseKeepsEvents(s: Store, child: Id, room: Id, now: Time, e: Event)
    requires Inv(s)
    requires var c := CurrentAttendance(s.events, child, now);
      InRoom(c, room) && e == Event(e.id, child, c.facility, room, c.sequence + 1, CheckedOut, now, None, c.checkedInAt)
    requires AdmitsRow(s.events, e)
    ensures EventsOk(s.events + [e], s.children)
  {
    CurrentIsLast(s, child, now);
    var stream := Stream(s.events, child);
    LatestIsLast(s.events, child);
    assert Follows(LastOf(stream), e);
    AppendKeepsSerial(s.events, e);
    AppendKeepsEventsOk(s.events, e, s.children);
  }

  lemma NewReleaseKeepsReleases(releases: seq<Release>, r: Release, events: seq<Event>, links: seq<Link>)
    requires ReleasesOk(releases, events, links) && ReleaseOk(r, events, links)
    requires forall k :: 0 <= k < |releases| ==> releases[k].id != r.id && releases[k].event != r.event
    ensures ReleasesOk(releases + [r], events, links)
  {
  }

  lemma ReleaseKeepsInv(s: Store, room: Id, child: Id, contact: Id, verification: string, now: Time,
                        eventId: Id, releaseId: Id)
    requires Inv(s) && ReleaseStep(s, room, child, contact, verification, now, eventId, releaseId).Ok?
    ensures Inv(ReleaseStep(s, room, child, contact, verification, now, eventId, releaseId).value)
  {
    var s' := ReleaseStep(s, room, child, contact, verification, now, eventId, releaseId).value;
    ReleaseIsJustified(s, room, child, contact, verification, now, eventId, releaseId);
    var n, e := |s.releases|, s'.events[|s.events|];
    ReleaseKeepsEvents(s, child, room, now, e);
    AppendedEventsKeepReleases(s.releases, s.events, [e], s.links);
    var i :| SoleActive(s.links, child, contact, i) && Names(s'.releases[n], s.links[i]);
    assert LinkOk(s.links[i], s.children, s.contacts);
    assert RestsOn(s'.releases[n], s.links[i]);
    assert Records(s'.releases[n], s'.events[|s.events|]);
    NewReleaseKeepsReleases(s.releases, s'.releases[n], s'.events, s.links);
    assert s'.releases == s.releases + [s'.releases[n]];
  }

  lemma StepKeepsInv(s: Store, op: Op)
    requires Inv(s)
    ensures Inv(Apply(s, op))
  {
    if Step(s, op).Ok? {
      match op
      case Attend(request, room, child, lease, now, ids) => AttendKeepsInv(s, request, room, child, lease, now, ids);
      case CreateLink(child, input, now, id) => NewLinkKeepsInv(s, child, input, now, id);
      case UpdateLink(child, id, change) => UpdateKeepsInv(s, child, id, change);
      case DeactivateLink(child, id) => DeactivateKeepsInv(s, child, id);
      case ReleaseChild(room, child, contact, verification, now, eventId, releaseId) =>
        ReleaseKeepsInv(s, room, child, contact, verification, now, eventId, releaseId);
      case _ => RosterStepKeepsInv(s, Step(s, op).value);
    }
  }

  lemma {:induction false} InvAlways(ops: seq<Op>)
    ensures Inv(After(ops))
  {
    if ops != [] {
      InvAlways(ops[..|ops| - 1]);
      StepKeepsInv(After(ops[..|ops| - 1]), ops[|ops| - 1]);
    }
  }
}
