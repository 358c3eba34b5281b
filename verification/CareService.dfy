/**
  The service object: rows changed in place and rows appended, one transaction a method. Each method is
  proved against the step of CareProtocol that the run theorems are about.
 */
module CareService {
  import opened Base
  import opened Lists
  import opened Attendance
  import opened PickupDecision
  import opened CareProtocol
  import opened CareInvariants
  import opened CareRuns
  import opened AttendanceEffects
  import opened LinkEffects

  datatype Candidate = Candidate(contact: Id, link: Id, effectiveUntil: Option<Time>)

  datatype Unavailable = Unavailable(contact: Id, reason: Decision)

  datatype ChildOptions = ChildOptions(child: Id, candidates: seq<Candidate>, unavailable: seq<Unavailable>)

  // The transaction committed `outcome`, or was refused and rolled back whole.
  ghost predicate Settled(before: Store, outcome: Outcome, r: Result<(), Problem>, after: Store) {
    match outcome
    case Ok(s) => r == Ok(()) && after == s
    case Err(p) => r == Err(p) && after == before
  }

  // The first ACTIVE link of the pair, in the order the rows are read.
  function FirstActive(links: seq<Link>): (r: Option<Link>)
    ensures r.Some? ==> r.value in links && r.value.active
    ensures r.None? <==> forall l :: l in links ==> !l.active
  {
    if links == [] then None
    else if links[0].active then Some(links[0])
    else FirstActive(links[1..])
  }

  ghost predicate CandidateOk(s: Store, room: Id, child: Id, at: Time, c: Candidate) {
    && Offered(s, room, child, c.contact, at)
    && exists i :: SoleActive(s.links, child, c.contact, i) && s.links[i].id == c.link
                   && s.links[i].effectiveUntil == c.effectiveUntil
  }

  // Linked now, but the decision refuses it for this reason.
  ghost predicate UnavailableOk(s: Store, room: Id, child: Id, at: Time, u: Unavailable) {
    && Listed(s, room, child, at) && u.contact in s.contacts
    && HasActivePair(s.links, child, u.contact)
    && u.reason == PairDecision(s, room, child, u.contact, at).0 && u.reason != Authorized
  }

  // The candidate list is right, names nobody twice and, for the contacts in `done`, is complete.
  ghost predicate CandidatesOk(s: Store, room: Id, at: Time, child: Id, list: seq<Candidate>, done: set<Id>) {
    && (forall i, j :: 0 <= i < j < |list| ==> list[i].contact != list[j].contact)
    && (forall c :: c in list ==> c.contact in done && CandidateOk(s, room, child, at, c))
    && (forall contact :: contact in done && Offered(s, room, child, contact, at) ==>
          exists c :: c in list && c.contact == contact)
  }

  // So is the list of the linked contacts who may not collect the child.
  ghost predicate UnavailablesOk(s: Store, room: Id, at: Time, child: Id, list: seq<Unavailable>, done: set<Id>) {
    && (forall i, j :: 0 <= i < j < |list| ==> list[i].contact != list[j].contact)
    && (forall u :: u in list ==> u.contact in done && UnavailableOk(s, room, child, at, u))
    && (forall contact :: contact in done && contact in s.contacts && HasActivePair(s.links, child, contact)
                          && !Offered(s, room, child, contact, at) ==>
          exists u :: u in list && u.contact == contact)
  }

  ghost predicate ChildOptionsOk(s: Store, room: Id, at: Time, o: ChildOptions, done: set<Id>) {
    && Listed(s, room, o.child, at)
    && CandidatesOk(s, room, at, o.child, o.candidates, done)
    && UnavailablesOk(s, room, at, o.child, o.unavailable, done)
  }

  ghost predicate HasEntry(entries: seq<ChildOptions>, child: Id) {
    exists i :: 0 <= i < |entries| && entries[i].child == child
  }

  // Right entries, one for each child in `done` and no other.
  ghost predicate EntriesOk(s: Store, room: Id, at: Time, entries: seq<ChildOptions>, done: set<Id>) {
    && (forall i :: 0 <= i < |entries| ==>
          && entries[i].child in done
          && ChildOptionsOk(s, room, at, entries[i], LinkedContacts(s.links, entries[i].child)))
    && (forall i, j :: 0 <= i < j < |entries| ==> entries[i].child != entries[j].child)
    && (forall child :: child in done ==> HasEntry(entries, child))
  }

  lemma EntryAdded(s: Store, room: Id, at: Time, entries: seq<ChildOptions>, done: set<Id>, o: ChildOptions)
    requires EntriesOk(s, room, at, entries, done) && o.child !in done
    requires ChildOptionsOk(s, room, at, o, LinkedContacts(s.links, o.child))
    ensures EntriesOk(s, room, at, entries + [o], done + {o.child})
  {
    var all := entries + [o];
    assert all[|entries|] == o;
    forall child | child in done + {o.child} ensures HasEntry(all, child) {
      if child != o.child {
        assert HasEntry(entries, child);
        var i :| 0 <= i < |entries| && entries[i].child == child;
        assert all[i] == entries[i];
      }
    }
  }

  lemma PairHasActive(links: seq<Link>, child: Id, contact: Id)
    ensures FirstActive(PairLinks(links, child, contact)).Some? <==> HasActivePair(links, child, contact)
  {
    var pair := PairLinks(links, child, contact);
    if HasActivePair(links, child, contact) {
      var i :| 0 <= i < |links| && OfPair(links[i], child, contact) && links[i].active;
      assert links[i] in pair;
    }
  }

  lemma OfferedIsCandidate(s: Store, room: Id, child: Id, contact: Id, at: Time, l: Link)
    requires Offered(s, room, child, contact, at)
    requires FirstActive(PairLinks(s.links, child, contact)) == Some(l)
    ensures CandidateOk(s, room, child, at, Candidate(contact, l.id, l.effectiveUntil))
  {
    AuthorizedIff(child, s.children[child], contact, s.contacts[contact], s.links, s.rooms[room].facility, at);
    var i :| SoleActive(s.links, child, contact, i);
    var j :| 0 <= j < |s.links| && s.links[j] == l;
    assert j == i;
  }

  lemma CandidateAdded(s: Store, room: Id, at: Time, child: Id, list: seq<Candidate>, done: set<Id>, c: Candidate)
    requires CandidatesOk(s, room, at, child, list, done) && CandidateOk(s, room, child, at, c)
    requires c.contact !in done
    ensures CandidatesOk(s, room, at, child, list + [c], done + {c.contact})
  {
    var all := list + [c];
    assert all[|list|] == c;
    forall contact | contact in done + {c.contact} && Offered(s, room, child, contact, at)
      ensures exists c' :: c' in all && c'.contact == contact
    {
      if contact == c.contact {
        assert c in all;
      } else {
        var c' :| c' in list && c'.contact == contact;
        assert c' in all;
      }
    }
  }

  lemma UnavailableAdded(s: Store, room: Id, at: Time, child: Id, list: seq<Unavailable>, done: set<Id>,
                         u: Unavailable)
    requires UnavailablesOk(s, room, at, child, list, done) && UnavailableOk(s, room, child, at, u)
    requires u.contact !in done
    ensures UnavailablesOk(s, room, at, child, list + [u], done + {u.contact})
  {
    var all := list + [u];
    assert all[|list|] == u;
    forall contact | contact in done + {u.contact} && contact in s.contacts
                     && HasActivePair(s.links, child, contact) && !Offered(s, room, child, contact, at)
      ensures exists u' :: u' in all && u'.contact == contact
    {
      if contact == u.contact {
        assert u in all;
      } else {
        var u' :| u' in list && u'.contact == contact;
        assert u' in all;
      }
    }
  }

  lemma CandidatesSkip(s: Store, room: Id, at: Time, child: Id, list: seq<Candidate>, done: set<Id>, contact: Id)
    requires CandidatesOk(s, room, at, child, list, done) && !Offered(s, room, child, contact, at)
    ensures CandidatesOk(s, room, at, child, list, done + {contact})
  {
  }

  lemma UnavailablesSkip(s: Store, room: Id, at: Time, child: Id, list: seq<Unavailable>, done: set<Id>, contact: Id)
    requires UnavailablesOk(s, room, at, child, list, done)
    requires contact in s.contacts && HasActivePair(s.links, child, contact) ==> Offered(s, room, child, contact, at)
    ensures UnavailablesOk(s, room, at, child, list, done + {contact})
  {
  }

  // One turn over the contacts: an offered one joins the candidates.
  lemma CandidateTurn(s: Store, room: Id, at: Time, o: ChildOptions, done: set<Id>, contact: Id, l: Link)
    requires ChildOptionsOk(s, room, at, o, done) && contact !in done && Offered(s, room, o.child, contact, at)
    requires FirstActive(PairLinks(s.links, o.child, contact)) == Some(l)
    ensures var c := Candidate(contact, l.id, l.effectiveUntil);
      ChildOptionsOk(s, room, at, o.(candidates := o.candidates + [c]), done + {contact})
  {
    OfferedIsCandidate(s, room, o.child, contact, at, l);
    CandidateAdded(s, room, at, o.child, o.candidates, done, Candidate(contact, l.id, l.effectiveUntil));
    UnavailablesSkip(s, room, at, o.child, o.unavailable, done, contact);
  }

  // A linked one that the decision refuses joins the others, with the reason.
  lemma UnavailableTurn(s: Store, room: Id, at: Time, o: ChildOptions, done: set<Id>, contact: Id)
    requires ChildOptionsOk(s, room, at, o, done) && contact !in done && contact in s.contacts
    requires HasActivePair(s.links, o.child, contact)
    requires PairDecision(s, room, o.child, contact, at).0 != Authorized
    ensures var u := Unavailable(contact, PairDecision(s, room, o.child, contact, at).0);
      ChildOptionsOk(s, room, at, o.(unavailable := o.unavailable + [u]), done + {contact})
  {
    var u := Unavailable(contact, PairDecision(s, room, o.child, contact, at).0);
    UnavailableAdded(s, room, at, o.child, o.unavailable, done, u);
    CandidatesSkip(s, room, at, o.child, o.candidates, done, contact);
  }

  // One known only from history is neither.
  lemma HistoryTurn(s: Store, room: Id, at: Time, o: ChildOptions, done: set<Id>, contact: Id)
    requires ChildOptionsOk(s, room, at, o, done)
    requires contact !in s.contacts || !HasActivePair(s.links, o.child, contact)
    ensures ChildOptionsOk(s, room, at, o, done + {contact})
  {
    if contact in s.contacts {
      AuthorizedIff(o.child, s.children[o.child], contact, s.contacts[contact], s.links,
                    s.rooms[room].facility, at);
    }
    CandidatesSkip(s, room, at, o.child, o.candidates, done, contact);
    UnavailablesSkip(s, room, at, o.child, o.unavailable, done, contact);
  }

  // The contacts a child has, or has had, a link with.
  function LinkedContacts(links: seq<Link>, child: Id): set<Id> {
    set i | 0 <= i < |links| && links[i].child == child :: links[i].contact
  }

  class GuardianService {
    var rooms: map<Id, Room>
    var children: map<Id, Party>
    var contacts: map<Id, Party>
    var events: seq<Event>
    var links: seq<Link>
    var releases: seq<Release>

    function Value(): Store
      reads this
    {
      Store(rooms, children, contacts, events, links, releases)
    }

    // Streams serial, at most one ACTIVE link a pair, each release bound to its own check-out.
    ghost predicate Valid()
      reads this
    {
      Inv(Value())
    }

    constructor ()
      ensures Valid() && Value() == EMPTY
    {
      rooms, children, contacts := map[], map[], map[];
      events, links, releases := [], [], [];
    }

    // A room is opened, or switched on or off in its own facility.
    method SetRoom(room: Id, facility: Id, active: bool) returns (r: Result<(), Problem>)
      requires Valid()
      modifies this`rooms
      ensures Valid()
      ensures Settled(old(Value()), SetRoomStep(old(Value()), room, facility, active), r, Value())
    {
      StepKeepsInv(Value(), Op.SetRoom(room, facility, active));
      if room in rooms && rooms[room].facility != facility { return Err(UnknownId); }
      rooms := rooms[room := Room(facility, active)];
      return Ok(());
    }

    method AddChild(child: Id, facility: Id) returns (r: Result<(), Problem>)
      requires Valid()
      modifies this`children
      ensures Valid()
      ensures Settled(old(Value()), AddChildStep(old(Value()), child, facility), r, Value())
    {
      StepKeepsInv(Value(), Op.AddChild(child, facility));
      if child in children { return Err(UnknownId); }
      children := children[child := Party(facility, Active)];
      return Ok(());
    }

    method AddContact(contact: Id, facility: Id) returns (r: Result<(), Problem>)
      requires Valid()
      modifies this`contacts
      ensures Valid()
      ensures Settled(old(Value()), AddContactStep(old(Value()), contact, facility), r, Value())
    {
      StepKeepsInv(Value(), Op.AddContact(contact, facility));
      if contact in contacts { return Err(UnknownId); }
      contacts := contacts[contact := Party(facility, Active)];
      return Ok(());
    }

    method SetChildStatus(child: Id, target: Lifecycle) returns (r: Result<(), Problem>)
      requires Valid()
      modifies this`children
      ensures Valid()
      ensures Settled(old(Value()), SetChildStatusStep(old(Value()), child, target), r, Value())
    {
      StepKeepsInv(Value(), Op.SetChildStatus(child, target));
      if child !in children { return Err(UnknownId); }
      var row := children[child];
      if row.status == target { return Ok(()); }
      if row.status == Archived { return Err(Roster(ChildArchived)); }
      children := children[child := row.(status := target)];
      return Ok(());
    }

    method SetGuardianStatus(contact: Id, target: Lifecycle) returns (r: Result<(), Problem>)
      requires Valid()
      modifies this`contacts
      ensures Valid()
      ensures Settled(old(Value()), SetContactStatusStep(old(Value()), contact, target), r, Value())
    {
      StepKeepsInv(Value(), Op.SetContactStatus(contact, target));
      if contact !in contacts { return Err(UnknownId); }
      var row := contacts[contact];
      if row.status == target { return Ok(()); }
      if row.status == Archived { return Err(ContactArchived); }
      contacts := contacts[contact := row.(status := target)];
      return Ok(());
    }

    // The transition behind check-in, refresh and check-out.
    method Transition(request: AttendanceRequest, room: Id, child: Id, lease: int, now: Time, ids: (Id, Id))
      returns (r: Result<(), Problem>)
      requires Valid()
      modifies this`events
      ensures Valid()
      ensures Settled(old(Value()), AttendStep(old(Value()), request, room, child, lease, now, ids), r, Value())
      ensures r.Ok? ==> InEffect(old(Value()), Value(), request, room, child, lease, now)
    {
      ghost var before, op := Value(), Op.Attend(request, room, child, lease, now, ids);
      StepKeepsInv(before, op);
      r := Record(request, room, child, lease, now, ids);
      assert Value() == Apply(before, op);
      if r.Ok? { AttendTakesEffect(before, request, room, child, lease, now, ids); }
    }

    // Load, lock, decide, append.
    method Record(request: AttendanceRequest, room: Id, child: Id, lease: int, now: Time, ids: (Id, Id))
      returns (r: Result<(), Problem>)
      modifies this`events
      ensures Settled(old(Value()), AttendStep(old(Value()), request, room, child, lease, now, ids), r, Value())
    {
      if request != ToCheckOut && !ValidLease(lease) { return Err(Roster(InvalidLeaseSeconds)); }
      if room !in rooms { return Err(UnknownId); }
      var area := rooms[room];
      if child !in children || children[child].facility != area.facility { return Err(UnknownId); }
      var current := CurrentAttendance(events, child, now);
      var profile := children[child];
      var planned;
      match request {
        case ToCheckIn =>
          planned := PlanCheckIn(current, CheckIn(room, area.facility, profile.facility, lease,
                                                  profile.status, area.active), now);
        case ToRefresh =>
          planned := PlanRefresh(current, Refresh(room, lease, profile.status, area.active), now);
        case ToCheckOut =>
          planned := PlanCheckOut(current, room, now);
      }
      if planned.Err? { return Err(Roster(planned.error)); }
      var rows := Rows(planned.value, child, ids);
      if !Insertable(events, rows) { return Err(Roster(AttendanceStateChanged)); }
      events := events + rows;
      return Ok(());
    }

    method CreateLink(child: Id, input: LinkInput, now: Time, id: Id) returns (r: Result<(), Problem>)
      requires Valid()
      modifies this`links
      ensures Valid()
      ensures Settled(old(Value()), CreateLinkStep(old(Value()), child, input, now, id), r, Value())
    {
      StepKeepsInv(Value(), Op.CreateLink(child, input, now, id));
      var begins := if input.effectiveFrom.Some? then input.effectiveFrom.value else now;
      if !ValidPeriod(begins, input.effectiveUntil) { return Err(EffectivePeriodInverted); }
      if child !in children || input.contact !in contacts { return Err(UnknownId); }
      if contacts[input.contact].facility != children[child].facility { return Err(FacilityDiffers); }
      if children[child].status == Archived { return Err(Roster(ChildArchived)); }
      if contacts[input.contact].status == Archived { return Err(ContactArchived); }
      if HasActivePair(links, child, input.contact) { return Err(AssociationExists); }
      if ActiveCount(links, child) >= MAX_ACTIVE_LINKS_PER_CHILD { return Err(AssociationLimitReached); }
      if LinkIdUsed(links, id) { return Err(AssociationExists); }
      var row := Link(id, child, input.contact, children[child].facility, true, input.pickup,
                      begins, input.effectiveUntil, input.relationship, input.note, 1);
      links := links + [row];
      return Ok(());
    }

    method UpdateLink(child: Id, id: Id, change: LinkChange) returns (r: Result<(), Problem>)
      requires Valid()
      modifies this`links
      ensures Valid()
      ensures Settled(old(Value()), UpdateLinkStep(old(Value()), child, id, change), r, Value())
      ensures r.Ok? ==> exists p, q :: p in old(links) && p.id == id && q in links && Edited(p, q, change)
    {
      ghost var before, op := Value(), Op.UpdateLink(child, id, change);
      StepKeepsInv(before, op);
      r := ReviseLink(child, id, change);
      assert Value() == Apply(before, op);
      if r.Ok? { ghost var p, q := EditTakesEffect(before, child, id, change); }
    }

    method ReviseLink(child: Id, id: Id, change: LinkChange) returns (r: Result<(), Problem>)
      modifies this`links
      ensures Settled(old(Value()), UpdateLinkStep(old(Value()), child, id, change), r, Value())
    {
      if child !in children { return Err(UnknownId); }
      var i := Find(links, LinkId, id);
      if i == |links| || links[i].child != child { return Err(UnknownId); }
      var row := links[i];
      if !row.active { return Err(LinkInactive); }
      if children[child].status == Archived { return Err(Roster(ChildArchived)); }
      if row.contact !in contacts { return Err(UnknownId); }
      if contacts[row.contact].status == Archived { return Err(ContactArchived); }
      var begins := if change.effectiveFrom.Some? then change.effectiveFrom.value else row.effectiveFrom;
      var ends := if change.setEffectiveUntil then change.effectiveUntil else row.effectiveUntil;
      if !ValidPeriod(begins, ends) { return Err(EffectivePeriodInverted); }
      var changed;
      row, changed := EditRow(row, change, begins, ends);
      if changed {
        row := row.(revision := row.revision + 1);
        links := links[i := row];
      }
      return Ok(());
    }

    // Assign the fields that differ, and say whether any did.
    static method EditRow(before: Link, change: LinkChange, begins: Time, ends: Option<Time>)
      returns (row: Link, changed: bool)
      requires begins == Changed(before, change).effectiveFrom && ends == Changed(before, change).effectiveUntil
      ensures row == Changed(before, change) && Edited(before, row, change) && (changed <==> row != before)
    {
      row, changed := before, false;
      if change.relationship.Some? && change.relationship.value != row.relationship {
        row, changed := row.(relationship := change.relationship.value), true;
      }
      if change.pickup.Some? && change.pickup.value != row.pickup {
        row, changed := row.(pickup := change.pickup.value), true;
      }
      if begins != row.effectiveFrom { row, changed := row.(effectiveFrom := begins), true; }
      if ends != row.effectiveUntil { row, changed := row.(effectiveUntil := ends), true; }
      if change.setNote && change.note != row.note { row, changed := row.(note := change.note), true; }
    }

    method DeactivateLink(child: Id, id: Id) returns (r: Result<(), Problem>)
      requires Valid()
      modifies this`links
      ensures Valid()
      ensures Settled(old(Value()), DeactivateLinkStep(old(Value()), child, id), r, Value())
    {
      StepKeepsInv(Value(), Op.DeactivateLink(child, id));
      if child !in children { return Err(UnknownId); }
      var i := Find(links, LinkId, id);
      if i == |links| || links[i].child != child { return Err(UnknownId); }
      if links[i].active {
        links := links[i := links[i].(active := false, revision := links[i].revision + 1)];
      }
      return Ok(());
    }

    // The decision, the check-out and the release record in one transaction.
    method ReleaseChild(room: Id, child: Id, contact: Id, verification: string, now: Time,
                        eventId: Id, releaseId: Id)
      returns (r: Result<(), Problem>)
      requires Valid()
      modifies this`events, this`releases
      ensures Valid()
      ensures Settled(old(Value()),
                      ReleaseStep(old(Value()), room, child, contact, verification, now, eventId, releaseId),
                      r, Value())
    {
      ghost var before, op := Value(), Op.ReleaseChild(room, child, contact, verification, now, eventId, releaseId);
      StepKeepsInv(before, op);
      r := HandOver(room, child, contact, verification, now, eventId, releaseId);
      assert Value() == Apply(before, op);
    }

    method HandOver(room: Id, child: Id, contact: Id, verification: string, now: Time, eventId: Id, releaseId: Id)
      returns (r: Result<(), Problem>)
      modifies this`events, this`releases
      ensures Settled(old(Value()),
                      ReleaseStep(old(Value()), room, child, contact, verification, now, eventId, releaseId),
                      r, Value())
    {
      var authorized := Authorize(room, child, contact, verification, now);
      if authorized.Err? { return Err(authorized.error); }
      var (current, link) := authorized.value;
      var planned := PlanCheckOut(current, room, now);
      r := Commit(Row(planned.value[0], child, eventId), contact, link, verification, releaseId);
    }

    method Authorize(room: Id, child: Id, contact: Id, verification: string, now: Time)
      returns (r: Result<(Current, Link), Problem>)
      ensures r == AuthorizeRelease(Value(), room, child, contact, verification, now)
    {
      if verification !in VERIFICATION_METHODS { return Err(InvalidVerificationMethod); }
      if room !in rooms { return Err(UnknownId); }
      var facility := rooms[room].facility;
      if child !in children || children[child].facility != facility { return Err(UnknownId); }
      if contact !in contacts { return Err(UnknownId); }
      var current := CurrentAttendance(events, child, now);
      if !InRoom(current, room) {
        return Err(Roster(if current.Open? && current.isFresh then ChildInAnotherClassroom
                          else ChildNotCheckedIn));
      }
      if !current.isFresh { return Err(Roster(AttendanceExpired)); }
      var decision := DecidePickup(child, children[child], contact, contacts[contact], links, facility, now);
      if decision.0 != Authorized || decision.1.None? { return Err(Pickup(decision.0)); }
      return Ok((current, decision.1.value));
    }

    // An inserted check-out is rolled back when the release record clashes.
    method Commit(checkout: Event, contact: Id, link: Link, verification: string, id: Id)
      returns (r: Result<(), Problem>)
      modifies this`events, this`releases
      ensures Settled(old(Value()), CommitRelease(old(Value()), checkout, contact, link, verification, id), r, Value())
    {
      if !AdmitsRow(events, checkout) { return Err(Roster(AttendanceStateChanged)); }
      var before := events;
      events := events + [checkout];
      if exists k :: 0 <= k < |releases| && (releases[k].id == id || releases[k].event == checkout.id) {
        events := before;
        return Err(ReleaseStateChanged);
      }
      releases := releases + [ReleaseRow(checkout, contact, link, verification, id)];
      return Ok(());
    }

    // For each listed child: who may collect them now, and why the other linked contacts may not.
    method ReleaseOptions(room: Id, at: Time) returns (r: Result<seq<ChildOptions>, Problem>)
      ensures room !in rooms ==> r == Err(UnknownId)
      ensures room in rooms ==> r.Ok? && EntriesOk(Value(), room, at, r.value, ListedChildren(room, at))
    {
      if room !in rooms { return Err(UnknownId); }
      var entries: seq<ChildOptions> := [];
      var present := ListedChildren(room, at);
      var todo := present;
      while todo != {}
        invariant todo <= present
        invariant EntriesOk(Value(), room, at, entries, present - todo)
        decreases todo
      {
        var child :| child in todo;
        ghost var done := present - todo;
        var entry := OptionsOf(room, child, at);
        EntryAdded(Value(), room, at, entries, done, entry);
        entries := entries + [entry];
        todo := todo - {child};
        assert present - todo == done + {child};
      }
      assert present - todo == present;
      return Ok(entries);
    }

    function ListedChildren(room: Id, at: Time): set<Id>
      reads this
    {
      set child | child in children && Listed(Value(), room, child, at)
    }

    method OptionsOf(room: Id, child: Id, at: Time) returns (entry: ChildOptions)
      requires Listed(Value(), room, child, at)
      ensures entry.child == child
      ensures ChildOptionsOk(Value(), room, at, entry, LinkedContacts(links, child))
    {
      entry := ChildOptions(child, [], []);
      var linked := LinkedContacts(links, child);
      var todo := linked;
      while todo != {}
        invariant todo <= linked && entry.child == child
        invariant ChildOptionsOk(Value(), room, at, entry, linked - todo)
        decreases todo
      {
        var contact :| contact in todo;
        ghost var done := linked - todo;
        todo := todo - {contact};
        assert linked - todo == done + {contact};
        var active := FirstActive(PairLinks(links, child, contact));
        PairHasActive(links, child, contact);
        if active.Some? && contact in contacts {
          var decision := DecidePickup(child, children[child], contact, contacts[contact], links,
                                       rooms[room].facility, at);
          if decision.0 == Authorized && decision.1.Some? {
            CandidateTurn(Value(), room, at, entry, done, contact, active.value);
            var c := Candidate(contact, active.value.id, active.value.effectiveUntil);
            entry := entry.(candidates := entry.candidates + [c]);
          } else {
            UnavailableTurn(Value(), room, at, entry, done, contact);
            entry := entry.(unavailable := entry.unavailable + [Unavailable(contact, decision.0)]);
          }
        } else {
          HistoryTurn(Value(), room, at, entry, done, contact);
        }
      }
    }
  }
}
