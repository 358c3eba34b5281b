/** Statements about whole runs of the care protocol, from the empty store and under any operations. */
module CareRuns {
  import opened Base
  import opened Attendance
  import opened PickupDecision
  import opened CareProtocol
  import opened CareInvariants

  // ------------------------------------------------------------------ links over a run

  // A link keeps its parties; its revision never falls and fixes the whole row; INACTIVE is final.
  ghost predicate LinkEvolves(a: Link, b: Link) {
    && a.id == b.id && a.child == b.child && a.contact == b.contact && a.facility == b.facility
    && a.revision <= b.revision
    && (a.revision == b.revision ==> a == b)
    && (!a.active ==> a == b)
  }

  ghost predicate LinksEvolve(before: seq<Link>, after: seq<Link>) {
    && |before| <= |after|
    && forall i :: 0 <= i < |before| ==> LinkEvolves(before[i], after[i])
  }

  lemma StepEvolvesLinks(s: Store, op: Op)
    ensures LinksEvolve(s.links, Apply(s, op).links)
  {
  }

  lemma {:induction false} LinksEvolveOver(ops: seq<Op>, m: nat)
    requires m <= |ops|
    ensures LinksEvolve(After(ops[..m]).links, After(ops).links)
  {
    if m == |ops| {
      assert ops[..m] == ops;
    } else {
      var shorter := ops[..|ops| - 1];
      assert shorter[..m] == ops[..m];
      LinksEvolveOver(shorter, m);
      StepEvolvesLinks(After(shorter), ops[|ops| - 1]);
    }
  }

  /**
    Between any two moments of a run a (link, revision) pair names one row, unchanged; the pair of child and
    contact never changes, and an INACTIVE link stays as it is.
   */
  lemma LinkTermsAreFixed(ops: seq<Op>, m: nat, p: Link, q: Link)
    requires m <= |ops| && p in After(ops[..m]).links && q in After(ops).links && p.id == q.id
    ensures p.revision == q.revision ==> p == q
    ensures p != q ==> p.revision < q.revision
    ensures p.child == q.child && p.contact == q.contact
    ensures !p.active ==> p == q
  {
    var before, after := After(ops[..m]).links, After(ops).links;
    LinksEvolveOver(ops, m);
    InvAlways(ops);
    var i :| 0 <= i < |before| && before[i] == p;
    var j :| 0 <= j < |after| && after[j] == q;
    assert LinkEvolves(before[i], after[i]);
    assert i == j;
  }

  // ---------------------------------------------------------------- releases over a run

  // What one step does to the releases: nothing, or one more, justified by the state it came from.
  ghost predicate Grows(s: Store, s': Store) {
    && s.events <= s'.events
    && (s'.releases == s.releases
        || (&& |s'.releases| == |s.releases| + 1 && s.releases <= s'.releases
            && |s.events| < |s'.events|
            && Justified(s, s'.releases[|s.releases|])
            && Records(s'.releases[|s.releases|], s'.events[|s.events|])))
  }

  lemma OtherStepsKeepReleases(s: Store, op: Op)
    requires !op.ReleaseChild?
    ensures s.events <= Apply(s, op).events && Apply(s, op).releases == s.releases
  {
  }

  // The release carries the arguments of this call.
  ghost predicate Requested(op: Op, r: Release) {
    && op.ReleaseChild?
    && r.room == op.room && r.child == op.child && r.contact == op.contact && r.verification == op.verification
    && r.releasedAt == op.now && r.event == op.eventId && r.id == op.releaseId
  }

  lemma StepGrows(s: Store, op: Op)
    requires Inv(s)
    ensures Grows(s, Apply(s, op))
    ensures Apply(s, op).releases != s.releases ==> Requested(op, Apply(s, op).releases[|s.releases|])
  {
    if op.ReleaseChild? {
      if Step(s, op).Ok? {
        ReleaseIsJustified(s, op.room, op.child, op.contact, op.verification, op.now, op.eventId, op.releaseId);
      }
    } else {
      OtherStepsKeepReleases(s, op);
    }
  }

  // In a trace that grows step by step from no releases, release `k` was written out of state `i`.
  lemma {:induction false} WrittenOnce(trace: seq<Store>, k: nat) returns (i: nat)
    requires trace != [] && trace[0].releases == []
    requires forall j :: 0 <= j < |trace| - 1 ==> Grows(trace[j], trace[j + 1])
    requires k < |trace[|trace| - 1].releases|
    ensures i < |trace| - 1 && |trace[i].releases| == k && |trace[i + 1].releases| == k + 1
    ensures trace[i + 1].releases[k] == trace[|trace| - 1].releases[k]
    ensures Justified(trace[i], trace[|trace| - 1].releases[k])
    ensures |trace[i].events| < |trace[|trace| - 1].events|
         && Records(trace[|trace| - 1].releases[k], trace[|trace| - 1].events[|trace[i].events|])
  {
    var n := |trace| - 1;
    assert n > 0 && Grows(trace[n - 1], trace[n]);
    if k < |trace[n - 1].releases| {
      i := WrittenOnce(trace[..n], k);
    } else {
      i := n - 1;
    }
  }

  ghost function Trace(ops: seq<Op>): (trace: seq<Store>)
    ensures |trace| == |ops| + 1
    ensures forall i :: 0 <= i <= |ops| ==> trace[i] == After(ops[..i])
  {
    seq(|ops| + 1, i requires 0 <= i <= |ops| => After(ops[..i]))
  }

  /**
    Every stored release was written by one release step, `i`, with the arguments of that call, out of a state in
    which the child was present in that room, child and contact were active at that facility, and the named link,
    at exactly the recorded revision, was the pair's only ACTIVE one and granted pickup at the recorded moment.
   */
  lemma EveryReleaseWasAuthorized(ops: seq<Op>, k: nat) returns (i: nat)
    requires k < |After(ops).releases|
    ensures i < |ops| && Requested(ops[i], After(ops).releases[k])
    ensures Justified(After(ops[..i]), After(ops).releases[k])
    ensures |After(ops[..i]).releases| == k && |After(ops[..i + 1]).releases| == k + 1
    ensures |After(ops[..i]).events| < |After(ops).events|
         && Records(After(ops).releases[k], After(ops).events[|After(ops[..i]).events|])
  {
    var trace := Trace(ops);
    assert ops[..|ops|] == ops;
    assert After(ops[..0]) == EMPTY;
    forall j | 0 <= j < |ops|
      ensures Grows(trace[j], trace[j + 1])
      ensures trace[j + 1].releases != trace[j].releases ==>
                Requested(ops[j], trace[j + 1].releases[|trace[j].releases|])
    {
      InvAlways(ops[..j]);
      assert ops[..j + 1][..j] == ops[..j];
      StepGrows(After(ops[..j]), ops[j]);
    }
    i := WrittenOnce(trace, k);
  }

  /** No two releases share a check-out, and each is recorded by a check-out of that child, room and time. */
  lemma EachReleaseHasItsOwnCheckOut(ops: seq<Op>, k: nat, m: nat)
    requires k < m < |After(ops).releases|
    ensures After(ops).releases[k].event != After(ops).releases[m].event
    ensures exists j :: 0 <= j < |After(ops).events| && Records(After(ops).releases[m], After(ops).events[j])
  {
    InvAlways(ops);
    assert ReleaseOk(After(ops).releases[m], After(ops).events, After(ops).links);
  }

  // A child checked out twice was checked in again in between.
  lemma CheckInBetween(stream: seq<Event>, a: nat, b: nat)
    requires Serial(stream) && a < b < |stream|
    requires stream[a].kind == CheckedOut && stream[b].kind == CheckedOut
    ensures a + 1 < b && stream[a + 1].kind == CheckedIn
  {
    assert Follows(Before(stream, a + 1), stream[a + 1]);
  }

  lemma ReleaseInStream(s: Store, r: Release) returns (i: nat)
    requires Inv(s) && r in s.releases
    ensures i < |Stream(s.events, r.child)| && Records(r, Stream(s.events, r.child)[i])
  {
    var k :| 0 <= k < |s.releases| && s.releases[k] == r;
    assert ReleaseOk(s.releases[k], s.events, s.links);
    var j :| 0 <= j < |s.events| && Records(r, s.events[j]);
    assert s.events[j] in Stream(s.events, r.child);
    i :| 0 <= i < |Stream(s.events, r.child)| && Stream(s.events, r.child)[i] == s.events[j];
  }

  // `a` and `b` are check-outs of the two releases, in either order, and `c` a check-in between them.
  ghost predicate SeparatedBy(stream: seq<Event>, q: Release, r: Release, a: nat, c: nat, b: nat) {
    && a < c < b < |stream| && stream[c].kind == CheckedIn
    && ((Records(q, stream[a]) && Records(r, stream[b])) || (Records(r, stream[a]) && Records(q, stream[b])))
  }

  /** Two releases of one child are two different check-outs with a check-in of that child between them. */
  lemma ReleasesAreSeparatedByACheckIn(ops: seq<Op>, k: nat, m: nat)
    requires k < |After(ops).releases| && m < |After(ops).releases| && k != m
    requires After(ops).releases[k].child == After(ops).releases[m].child
    ensures var s := After(ops);
      exists a: nat, c: nat, b: nat ::
        SeparatedBy(Stream(s.events, s.releases[k].child), s.releases[k], s.releases[m], a, c, b)
  {
    InvAlways(ops);
    SeparatedIn(After(ops), k, m);
  }

  lemma SeparatedIn(s: Store, k: nat, m: nat)
    requires Inv(s) && k < |s.releases| && m < |s.releases| && k != m
    requires s.releases[k].child == s.releases[m].child
    ensures exists a: nat, c: nat, b: nat ::
              SeparatedBy(Stream(s.events, s.releases[k].child), s.releases[k], s.releases[m], a, c, b)
  {
    var stream := Stream(s.events, s.releases[k].child);
    assert Serial(stream);
    var x := ReleaseInStream(s, s.releases[k]);
    var y := ReleaseInStream(s, s.releases[m]);
    assert s.releases[k].event != s.releases[m].event by {
      if k < m {
        assert s.releases[k].event != s.releases[m].event;
      } else {
        assert s.releases[m].event != s.releases[k].event;
      }
    }
    var a, b := Min(x, y), Max(x, y);
    CheckInBetween(stream, a, b);
    assert SeparatedBy(stream, s.releases[k], s.releases[m], a, a + 1, b);
  }

  /** The attendance guarantees hold of the whole protocol too: each child's events are a serial history. */
  lemma EveryStreamIsSerial(ops: seq<Op>, child: Id)
    ensures Serial(Stream(After(ops).events, child))
  {
    InvAlways(ops);
    assert AllSerial(After(ops).events);
  }

  // ------------------------------------------------------------------- archived parties over a run

  ghost predicate ArchivedIn(parties: map<Id, Party>, id: Id) { id in parties && parties[id].status == Archived }

  ghost predicate KeepsArchived(before: map<Id, Party>, after: map<Id, Party>) {
    forall id :: ArchivedIn(before, id) ==> id in after && after[id] == before[id]
  }

  lemma StepKeepsArchived(s: Store, op: Op)
    ensures KeepsArchived(s.children, Apply(s, op).children) && KeepsArchived(s.contacts, Apply(s, op).contacts)
  {
  }

  // The party has the new status and is otherwise as it was, and so is everybody else.
  ghost predicate OnlyStatus(before: map<Id, Party>, after: map<Id, Party>, id: Id, status: Lifecycle) {
    id in before && after == before[id := Party(before[id].facility, status)]
  }

  /** A status is set exactly for a known party that is not ARCHIVED, or stays ARCHIVED, and nothing else changes. */
  lemma StatusTakesEffect(s: Store, id: Id, target: Lifecycle)
    ensures SetChildStatusStep(s, id, target).Ok? <==>
      id in s.children && (s.children[id].status == Archived ==> target == Archived)
    ensures SetContactStatusStep(s, id, target).Ok? <==>
      id in s.contacts && (s.contacts[id].status == Archived ==> target == Archived)
    ensures SetChildStatusStep(s, id, target).Ok? ==>
      var s' := SetChildStatusStep(s, id, target).value;
      OnlyStatus(s.children, s'.children, id, target) && s' == s.(children := s'.children)
    ensures SetContactStatusStep(s, id, target).Ok? ==>
      var s' := SetContactStatusStep(s, id, target).value;
      OnlyStatus(s.contacts, s'.contacts, id, target) && s' == s.(contacts := s'.contacts)
  {
    if id in s.children && s.children[id].status == target {
      assert s.children[id := Party(s.children[id].facility, target)] == s.children;
    }
    if id in s.contacts && s.contacts[id].status == target {
      assert s.contacts[id := Party(s.contacts[id].facility, target)] == s.contacts;
    }
  }

  /** A room never changes its facility, and a new child or contact is ACTIVE at the facility it was added to. */
  lemma RosterTakesEffect(s: Store, id: Id, facility: Id, active: bool)
    ensures SetRoomStep(s, id, facility, active).Ok? <==> (id in s.rooms ==> s.rooms[id].facility == facility)
    ensures SetRoomStep(s, id, facility, active).Ok? ==>
      SetRoomStep(s, id, facility, active).value == s.(rooms := s.rooms[id := Room(facility, active)])
    ensures AddChildStep(s, id, facility).Ok? <==> id !in s.children
    ensures AddChildStep(s, id, facility).Ok? ==>
      AddChildStep(s, id, facility).value == s.(children := s.children[id := Party(facility, Active)])
    ensures AddContactStep(s, id, facility).Ok? <==> id !in s.contacts
    ensures AddContactStep(s, id, facility).Ok? ==>
      AddContactStep(s, id, facility).value == s.(contacts := s.contacts[id := Party(facility, Active)])
  {
  }

  /** ARCHIVED is terminal: an archived child or contact is the same row in every later state. */
  lemma {:induction false} ArchivedIsFinal(ops: seq<Op>, m: nat)
    requires m <= |ops|
    ensures KeepsArchived(After(ops[..m]).children, After(ops).children)
    ensures KeepsArchived(After(ops[..m]).contacts, After(ops).contacts)
  {
    if m == |ops| {
      assert ops[..m] == ops;
    } else {
      var shorter := ops[..|ops| - 1];
      assert shorter[..m] == ops[..m];
      ArchivedIsFinal(shorter, m);
      StepKeepsArchived(After(shorter), ops[|ops| - 1]);
    }
  }

  lemma {:induction false} ReleasesOnlyGrow(ops: seq<Op>, m: nat)
    requires m <= |ops|
    ensures After(ops[..m]).releases <= After(ops).releases && After(ops[..m]).events <= After(ops).events
  {
    if m == |ops| {
      assert ops[..m] == ops;
    } else {
      var shorter := ops[..|ops| - 1];
      assert shorter[..m] == ops[..m];
      ReleasesOnlyGrow(shorter, m);
      InvAlways(shorter);
      StepGrows(After(shorter), ops[|ops| - 1]);
    }
  }

  /** So no release written after a child or a contact was archived concerns that child or that contact. */
  lemma NoReleaseOnceArchived(ops: seq<Op>, m: nat, k: nat)
    requires m <= |ops| && |After(ops[..m]).releases| <= k < |After(ops).releases|
    ensures !ArchivedIn(After(ops[..m]).children, After(ops).releases[k].child)
    ensures !ArchivedIn(After(ops[..m]).contacts, After(ops).releases[k].contact)
  {
    var i := EveryReleaseWasAuthorized(ops, k);
    if i < m {
      assert ops[..m][..i + 1] == ops[..i + 1];
      ReleasesOnlyGrow(ops[..m], i + 1);
    }
    assert ops[..i][..m] == ops[..m];
    ArchivedIsFinal(ops[..i], m);
  }

  // Every event that a step adds for an archived child is a check-out.
  lemma StepOnlyChecksOutArchived(s: Store, op: Op, child: Id, j: nat)
    requires Inv(s) && ArchivedIn(s.children, child)
    requires |s.events| <= j < |Apply(s, op).events| && Apply(s, op).events[j].child == child
    ensures Apply(s, op).events[j].kind == CheckedOut
  {
  }

  /** And an archived child is never checked in or refreshed again: it can only be checked out. */
  lemma {:induction false} ArchivedOnlyLeave(ops: seq<Op>, m: nat, child: Id, j: nat)
    requires m <= |ops| && ArchivedIn(After(ops[..m]).children, child)
    requires |After(ops[..m]).events| <= j < |After(ops).events| && After(ops).events[j].child == child
    ensures After(ops).events[j].kind == CheckedOut
    decreases |ops|
  {
    assert ops[..|ops|] == ops;
    if m < |ops| {
      var shorter := ops[..|ops| - 1];
      assert shorter[..m] == ops[..m];
      ArchivedIsFinal(shorter, m);
      InvAlways(shorter);
      StepGrows(After(shorter), ops[|ops| - 1]);
      if j < |After(shorter).events| {
        ArchivedOnlyLeave(shorter, m, child, j);
      } else {
        StepOnlyChecksOutArchived(After(shorter), ops[|ops| - 1], child, j);
      }
    }
  }

  // ---------------------------------------------------------------- the decision over a run

  lemma NotBothActive(s: Store, i: nat, j: nat)
    requires Inv(s) && i < |s.links| && j < |s.links| && i != j
    ensures !BothActive(s.links[i], s.links[j])
  {
    var a, b := Min(i, j), Max(i, j);
    assert !BothActive(s.links[a], s.links[b]);
  }

  // A pair has no ACTIVE link, or one that the decision rests on.
  lemma PairHasAtMostOneActive(s: Store, child: Id, contact: Id)
    requires Inv(s)
    ensures |ActiveOfPair(s.links, child, contact)| <= 1
    ensures HasActivePair(s.links, child, contact) <==> exists i :: SoleActive(s.links, child, contact, i)
    ensures !HasActivePair(s.links, child, contact) ==> ActiveOfPair(s.links, child, contact) == []
  {
    var active := ActiveOfPair(s.links, child, contact);
    if active != [] {
      var l := active[0];
      assert l in s.links && OfPair(l, child, contact) && l.active;
      var k :| 0 <= k < |s.links| && s.links[k] == l;
      assert HasActivePair(s.links, child, contact);
    }
    if HasActivePair(s.links, child, contact) {
      var i :| 0 <= i < |s.links| && OfPair(s.links[i], child, contact) && s.links[i].active;
      forall j | 0 <= j < |s.links| && j != i ensures !(OfPair(s.links[j], child, contact) && s.links[j].active) {
        NotBothActive(s, i, j);
      }
      assert SoleActive(s.links, child, contact, i);
      SoleActiveIsSingle(s.links, child, contact, i);
    }
  }

  /**
    In every run the pickup decision is never ambiguous, speaks of facilities exactly when the child or the
    contact is at another one, and for active parties is the verdict on the pair's sole ACTIVE link.
   */
  lemma DecisionRestsOnTheSoleLink(ops: seq<Op>, child: Id, contact: Id, facility: Id, at: Time)
    requires child in After(ops).children && contact in After(ops).contacts
    ensures
      var s := After(ops);
      var d := DecidePickup(child, s.children[child], contact, s.contacts[contact], s.links, facility, at).0;
      && d != AssociationAmbiguous
      && (d == FacilityMismatch <==>
            s.children[child].facility != facility || s.contacts[contact].facility != facility)
      && (s.children[child] == Party(facility, Active) && s.contacts[contact] == Party(facility, Active) ==>
            if HasActivePair(s.links, child, contact)
            then exists i :: SoleActive(s.links, child, contact, i) && d == LinkDecision(s.links[i], at)
            else d == NoAssociation || d == AssociationInactive)
  {
    InvAlways(ops);
    DecisionIn(After(ops), child, contact, facility, at);
  }

  lemma DecisionIn(s: Store, child: Id, contact: Id, facility: Id, at: Time)
    requires Inv(s) && child in s.children && contact in s.contacts
    ensures
      var d := DecidePickup(child, s.children[child], contact, s.contacts[contact], s.links, facility, at).0;
      && d != AssociationAmbiguous
      && (d == FacilityMismatch <==>
            s.children[child].facility != facility || s.contacts[contact].facility != facility)
      && (s.children[child] == Party(facility, Active) && s.contacts[contact] == Party(facility, Active) ==>
            if HasActivePair(s.links, child, contact)
            then exists i :: SoleActive(s.links, child, contact, i) && d == LinkDecision(s.links[i], at)
            else d == NoAssociation || d == AssociationInactive)
  {
    PairHasAtMostOneActive(s, child, contact);
    forall l | l in PairLinks(s.links, child, contact) ensures l.facility == s.children[child].facility {
      var i :| 0 <= i < |s.links| && s.links[i] == l;
      assert LinkOk(s.links[i], s.children, s.contacts);
    }
    if HasActivePair(s.links, child, contact) {
      var i :| SoleActive(s.links, child, contact, i);
      SoleActiveIsSingle(s.links, child, contact, i);
    }
  }

  // The pair's links, in the words of the refusals.
  ghost predicate EverLinked(s: Store, child: Id, contact: Id) { exists l :: l in s.links && OfPair(l, child, contact) }

  /**
    Every refusal says what stands in the way, the first of: another facility, the child's status, the contact's
    status, no link ever, none ACTIVE, and for the one ACTIVE link no pickup, a period to come or one that is over.
   */
  lemma RefusalNamesItsCause(ops: seq<Op>, child: Id, contact: Id, facility: Id, at: Time)
    requires child in After(ops).children && contact in After(ops).contacts
    ensures
      var s := After(ops);
      var d := DecidePickup(child, s.children[child], contact, s.contacts[contact], s.links, facility, at).0;
      var home := s.children[child].facility == facility && s.contacts[contact].facility == facility;
      var both := home && s.children[child].status == Active && s.contacts[contact].status == Active;
      && (d == FacilityMismatch <==> !home)
      && (d == ChildInactive <==> home && s.children[child].status != Active)
      && (d == AuthorizedPersonInactive <==>
            home && s.children[child].status == Active && s.contacts[contact].status != Active)
      && (d == NoAssociation <==> both && !EverLinked(s, child, contact))
      && (d == AssociationInactive <==>
            both && EverLinked(s, child, contact)
            && forall l :: l in s.links && OfPair(l, child, contact) ==> !l.active)
  {
    InvAlways(ops);
    DecisionIn(After(ops), child, contact, facility, at);
    LinkRefusals(After(ops), child, contact, facility, at);
  }

  lemma LinkRefusals(s: Store, child: Id, contact: Id, facility: Id, at: Time)
    requires Inv(s) && child in s.children && contact in s.contacts
    ensures
      var d := DecidePickup(child, s.children[child], contact, s.contacts[contact], s.links, facility, at).0;
      var home := s.children[child].facility == facility && s.contacts[contact].facility == facility;
      var both := home && s.children[child].status == Active && s.contacts[contact].status == Active;
      && (d == FacilityMismatch <==> !home)
      && (d == ChildInactive <==> home && s.children[child].status != Active)
      && (d == AuthorizedPersonInactive <==>
            home && s.children[child].status == Active && s.contacts[contact].status != Active)
      && (d == NoAssociation <==> both && !EverLinked(s, child, contact))
      && (d == AssociationInactive <==>
            both && EverLinked(s, child, contact)
            && forall l :: l in s.links && OfPair(l, child, contact) ==> !l.active)
  {
    DecisionIn(s, child, contact, facility, at);
    var pair := PairLinks(s.links, child, contact);
    var active := ActiveLinks(pair);
    assert pair != [] ==> pair[0] in s.links;
    assert active != [] ==> active[0] in s.links && active[0].active && OfPair(active[0], child, contact);
    assert forall l :: l in s.links && OfPair(l, child, contact) ==> l in pair;
    assert forall l :: l in s.links && OfPair(l, child, contact) && l.active ==> l in active;
  }

  // ------------------------------------------------------------ offered exactly when releasable

  // The child appears in the room's release list.
  predicate Listed(s: Store, room: Id, child: Id, at: Time) {
    && room in s.rooms && child in s.children
    && s.children[child] == Party(s.rooms[room].facility, Active)
    && InRoom(CurrentAttendance(s.events, child, at), room)
    && CurrentAttendance(s.events, child, at).isFresh
  }

  // What the decision says about a contact of a listed child.
  function PairDecision(s: Store, room: Id, child: Id, contact: Id, at: Time): (Decision, Option<Link>)
    requires room in s.rooms && child in s.children && contact in s.contacts
  {
    DecidePickup(child, s.children[child], contact, s.contacts[contact],
                 s.links, s.rooms[room].facility, at)
  }

  ghost predicate Offered(s: Store, room: Id, child: Id, contact: Id, at: Time) {
    && Listed(s, room, child, at) && contact in s.contacts
    && PairDecision(s, room, child, contact, at).0 == Authorized
  }

  ghost predicate FreshIds(s: Store, eventId: Id, releaseId: Id) {
    && (forall i :: 0 <= i < |s.events| ==> s.events[i].id != eventId)
    && (forall k :: 0 <= k < |s.releases| ==> s.releases[k].id != releaseId)
  }

  lemma FreshEventIdIsUnreleased(s: Store, eventId: Id)
    requires Inv(s) && forall i :: 0 <= i < |s.events| ==> s.events[i].id != eventId
    ensures forall k :: 0 <= k < |s.releases| ==> s.releases[k].event != eventId
  {
    forall k | 0 <= k < |s.releases| ensures s.releases[k].event != eventId {
      assert ReleaseOk(s.releases[k], s.events, s.links);
    }
  }

  lemma CheckOutIsAdmitted(s: Store, child: Id, at: Time, e: Event)
    requires Inv(s) && CurrentAttendance(s.events, child, at).Open?
    requires e.child == child && e.kind == CheckedOut && e.validUntil == None && e.occurredAt == at
    requires e.sequence == CurrentAttendance(s.events, child, at).sequence + 1
    requires e.checkedInAt == CurrentAttendance(s.events, child, at).checkedInAt
    requires forall i :: 0 <= i < |s.events| ==> s.events[i].id != e.id
    ensures AdmitsRow(s.events, e) <==> e.checkedInAt <= at
  {
    LatestIsChecked(s.events, child);
    forall i | 0 <= i < |s.events| && s.events[i].child == child ensures s.events[i].sequence < e.sequence {
      assert s.events[i] in s.events;
    }
  }

  /**
    In every reachable state a contact is offered for a child exactly when releasing the child to that
    contact at the same moment succeeds, unless the clock stands before the stay's own start.
   */
  lemma OfferedIffReleasable(ops: seq<Op>, room: Id, child: Id, contact: Id, verification: string, at: Time,
                             eventId: Id, releaseId: Id)
    requires verification in VERIFICATION_METHODS && FreshIds(After(ops), eventId, releaseId)
    ensures var s := After(ops);
      ReleaseStep(s, room, child, contact, verification, at, eventId, releaseId).Ok?
      <==> Offered(s, room, child, contact, at) && CurrentAttendance(s.events, child, at).checkedInAt <= at
  {
    InvAlways(ops);
    OfferedIffReleasableIn(After(ops), room, child, contact, verification, at, eventId, releaseId);
  }

  lemma OfferedIffReleasableIn(s: Store, room: Id, child: Id, contact: Id, verification: string, at: Time,
                               eventId: Id, releaseId: Id)
    requires Inv(s) && verification in VERIFICATION_METHODS && FreshIds(s, eventId, releaseId)
    ensures ReleaseStep(s, room, child, contact, verification, at, eventId, releaseId).Ok?
       <==> Offered(s, room, child, contact, at) && CurrentAttendance(s.events, child, at).checkedInAt <= at
  {
    FreshEventIdIsUnreleased(s, eventId);
    var c := CurrentAttendance(s.events, child, at);
    if c.Open? {
      CheckOutIsAdmitted(s, child, at, Event(eventId, child, c.facility, room, c.sequence + 1, CheckedOut,
                                             at, None, c.checkedInAt));
    }
    if room in s.rooms && child in s.children && contact in s.contacts {
      AuthorizedIff(child, s.children[child], contact, s.contacts[contact], s.links,
                    s.rooms[room].facility, at);
      assert s.children[child] == Party(s.children[child].facility, s.children[child].status);
    }
  }

  lemma AfterAppend(ops: seq<Op>, op: Op)
    ensures After(ops + [op]) == Apply(After(ops), op)
  {
    assert (ops + [op])[..|ops|] == ops;
  }

  // A room, a child and a contact of one facility.
  const SETTING: Store :=
    Store(map[1 := Room(1, true)], map[1 := Party(1, Active)], map[1 := Party(1, Active)], [], [], [])

  const GRANT: Link := Link(1, 1, 1, 1, true, true, 0, None, "", None, 1)

  const STAY: Event := Event(1, 1, 1, 1, 1, CheckedIn, 10 * SECOND,
                             Some(10 * SECOND + LEASE_MIN_SECONDS * SECOND), 10 * SECOND)

  lemma SettingIsReachable() returns (ops: seq<Op>)
    ensures After(ops) == SETTING
  {
    var a, b, c := SetRoom(1, 1, true), AddChild(1, 1), AddContact(1, 1);
    AfterAppend([], a);
    assert [] + [a] == [a];
    AfterAppend([a], b);
    AfterAppend([a] + [b], c);
    ops := [a] + [b] + [c];
    assert After([a] + [b]) == Store(map[1 := Room(1, true)], map[1 := Party(1, Active)], map[], [], [], []);
  }

  lemma GrantIsReachable() returns (ops: seq<Op>)
    ensures After(ops) == SETTING.(links := [GRANT])
  {
    ops := SettingIsReachable();
    var link := Op.CreateLink(1, LinkInput(1, "", true, Some(0), None, None), 0, 1);
    AfterAppend(ops, link);
    ops := ops + [link];
    assert [] + [GRANT] == [GRANT];
  }

  lemma GrantedStayIsReachable() returns (ops: seq<Op>)
    ensures After(ops) == SETTING.(links := [GRANT], events := [STAY])
  {
    ops := GrantIsReachable();
    var checkIn := Attend(ToCheckIn, 1, 1, LEASE_MIN_SECONDS, 10 * SECOND, (1, 2));
    AfterAppend(ops, checkIn);
    ops := ops + [checkIn];
    FirstCheckIn(SETTING.(links := [GRANT]));
  }

  lemma FirstCheckIn(s: Store)
    requires s.events == [] && s.rooms == SETTING.rooms && s.children == SETTING.children
    ensures AttendStep(s, ToCheckIn, 1, 1, LEASE_MIN_SECONDS, 10 * SECOND, (1, 2)) == Ok(s.(events := [STAY]))
  {
    var action := ActionFor(ToCheckIn, 1, Room(1, true), Party(1, Active), LEASE_MIN_SECONDS);
    assert CurrentAttendance([], 1, 10 * SECOND) == Absent(0);
    var planned := Planned(CheckedIn, 1, 1, 1, 10 * SECOND, STAY.validUntil, 10 * SECOND);
    assert Plan(Absent(0), action, 10 * SECOND) == Ok([planned]);
    assert Rows([planned], 1, (1, 2)) == [STAY];
    assert [STAY][1..] == [] && [] + [STAY] == [STAY];
    assert AdmitsRow([], STAY);
    assert Insertable([], [STAY]);
    assert s.events + [STAY] == [STAY];
  }

  lemma SoleLinkDecides(l: Link, at: Time)
    requires l.active
    ensures DecidePickup(l.child, Party(l.facility, Active), l.contact, Party(l.facility, Active), [l], l.facility, at)
         == (LinkDecision(l, at), Some(l))
  {
    assert [l][..0] == [];
    assert PairLinks([l], l.child, l.contact) == [l];
    assert ActiveLinks([l]) == [l];
  }

  // That exception is real: a second before the stay began, by a clock that stepped back, the contact is
  // offered and the release is refused.
  lemma OfferedYetRefused() returns (ops: seq<Op>)
    ensures Offered(After(ops), 1, 1, 1, 9 * SECOND)
    ensures ReleaseStep(After(ops), 1, 1, 1, "KNOWN_TO_STAFF", 9 * SECOND, 9, 9) == Err(Roster(AttendanceStateChanged))
  {
    ops := GrantedStayIsReachable();
    assert [STAY][..0] == [];
    assert Latest([STAY], 1) == Some(STAY);
    SoleLinkDecides(GRANT, 9 * SECOND);
  }
}
