/**
  Rooms, child profiles, attendance events, guardian contacts, links and releases of one tenant, with each
  database transaction as one atomic step that either produces the next state or names its refusal.
 */
module CareProtocol {
  import opened Base
  import opened Lists
  import opened Attendance
  import opened PickupDecision

  const MAX_ACTIVE_LINKS_PER_CHILD: int := 20

  datatype Room = Room(facility: Id, active: bool)

  // An append-only record of one authorized handover.
  datatype Release = Release(
    id: Id, facility: Id, room: Id, child: Id, contact: Id, link: Id, linkRevision: int,
    verification: string, event: Id, releasedAt: Time)

  datatype Store = Store(
    rooms: map<Id, Room>, children: map<Id, Party>, contacts: map<Id, Party>,
    events: seq<Event>, links: seq<Link>, releases: seq<Release>)

  datatype Problem =
    | Roster(refusal: Refusal) | Pickup(decision: Decision)
    | UnknownId | FacilityDiffers | ContactArchived | AssociationExists | AssociationLimitReached
    | LinkInactive | EffectivePeriodInverted | InvalidVerificationMethod | ReleaseStateChanged

  type Outcome = Result<Store, Problem>

  datatype AttendanceRequest = ToCheckIn | ToRefresh | ToCheckOut

  datatype LinkInput = LinkInput(
    contact: Id, relationship: string, pickup: bool,
    effectiveFrom: Option<Time>, effectiveUntil: Option<Time>, note: Option<string>)

  datatype LinkChange = LinkChange(
    relationship: Option<string>, pickup: Option<bool>, effectiveFrom: Option<Time>,
    effectiveUntil: Option<Time>, setEffectiveUntil: bool, note: Option<string>, setNote: bool)

  const VERIFICATION_METHODS: set<string> := {"KNOWN_TO_STAFF", "OPERATOR_CONFIRMED", "PHOTO_ID_CHECKED"}

  // ----------------------------------------------------------------------- roster steps

  // Changing a lifecycle status: false means it already is there; ARCHIVED is terminal.
  function StatusTransition(current: Lifecycle, target: Lifecycle): Option<bool> {
    if current == target then Some(false) else if current == Archived then None else Some(true)
  }

  function SetRoomStep(s: Store, room: Id, facility: Id, active: bool): Outcome {
    if room in s.rooms && s.rooms[room].facility != facility then Err(UnknownId)
    else Ok(s.(rooms := s.rooms[room := Room(facility, active)]))
  }

  function AddChildStep(s: Store, child: Id, facility: Id): Outcome {
    if child in s.children then Err(UnknownId)
    else Ok(s.(children := s.children[child := Party(facility, Active)]))
  }

  function AddContactStep(s: Store, contact: Id, facility: Id): Outcome {
    if contact in s.contacts then Err(UnknownId)
    else Ok(s.(contacts := s.contacts[contact := Party(facility, Active)]))
  }

  function SetChildStatusStep(s: Store, child: Id, target: Lifecycle): Outcome {
    if child !in s.children then Err(UnknownId)
    else match StatusTransition(s.children[child].status, target)
      case None => Err(Roster(ChildArchived))
      case Some(changes) =>
        Ok(if changes then s.(children := s.children[child := s.children[child].(status := target)]) else s)
  }

  function SetContactStatusStep(s: Store, contact: Id, target: Lifecycle): Outcome {
    if contact !in s.contacts then Err(UnknownId)
    else match StatusTransition(s.contacts[contact].status, target)
      case None => Err(ContactArchived)
      case Some(changes) =>
        Ok(if changes then s.(contacts := s.contacts[contact := s.contacts[contact].(status := target)]) else s)
  }

  // ------------------------------------------------------------------- attendance steps

  function ActionFor(request: AttendanceRequest, room: Id, at: Room, child: Party, lease: int): Action {
    match request
    case ToCheckIn => CheckIn(room, at.facility, child.facility, lease, child.status, at.active)
    case ToRefresh => Refresh(room, lease, child.status, at.active)
    case ToCheckOut => CheckOut(room)
  }

  function AttendStep(s: Store, request: AttendanceRequest, room: Id, child: Id, lease: int,
                      now: Time, ids: (Id, Id)): Outcome
  {
    if request != ToCheckOut && !ValidLease(lease) then Err(Roster(InvalidLeaseSeconds))
    else if room !in s.rooms then Err(UnknownId)
    else if child !in s.children || s.children[child].facility != s.rooms[room].facility then Err(UnknownId)
    else
      var action := ActionFor(request, room, s.rooms[room], s.children[child], lease);
      match Plan(CurrentAttendance(s.events, child, now), action, now)
      case Err(refusal) => Err(Roster(refusal))
      case Ok(planned) =>
        var rows := Rows(planned, child, ids);
        if Insertable(s.events, rows) then Ok(s.(events := s.events + rows))
        else Err(Roster(AttendanceStateChanged))
  }

  // ------------------------------------------------------------------------- link steps

  function LinkId(l: Link): Id { l.id }

  function ActiveCount(links: seq<Link>, child: Id): nat {
    if links == [] then 0
    else
      var n := |links| - 1;
      ActiveCount(links[..n], child) + (if links[n].child == child && links[n].active then 1 else 0)
  }

  predicate HasActivePair(links: seq<Link>, child: Id, contact: Id) {
    exists i :: 0 <= i < |links| && OfPair(links[i], child, contact) && links[i].active
  }

  predicate LinkIdUsed(links: seq<Link>, id: Id) {
    exists i :: 0 <= i < |links| && links[i].id == id
  }

  function CreateLinkStep(s: Store, child: Id, input: LinkInput, now: Time, id: Id): Outcome {
    var begins := if input.effectiveFrom.Some? then input.effectiveFrom.value else now;
    if !ValidPeriod(begins, input.effectiveUntil) then Err(EffectivePeriodInverted)
    else if child !in s.children || input.contact !in s.contacts then Err(UnknownId)
    else if s.contacts[input.contact].facility != s.children[child].facility then Err(FacilityDiffers)
    else if s.children[child].status == Archived then Err(Roster(ChildArchived))
    else if s.contacts[input.contact].status == Archived then Err(ContactArchived)
    else if HasActivePair(s.links, child, input.contact) then Err(AssociationExists)
    else if ActiveCount(s.links, child) >= MAX_ACTIVE_LINKS_PER_CHILD then Err(AssociationLimitReached)
    else if LinkIdUsed(s.links, id) then Err(AssociationExists)
    else Ok(s.(links := s.links + [Link(id, child, input.contact, s.children[child].facility, true,
                                        input.pickup, begins, input.effectiveUntil,
                                        input.relationship, input.note, 1)]))
  }

  function Changed(l: Link, change: LinkChange): Link {
    l.(relationship := if change.relationship.Some? then change.relationship.value else l.relationship,
       pickup := if change.pickup.Some? then change.pickup.value else l.pickup,
       effectiveFrom := if change.effectiveFrom.Some? then change.effectiveFrom.value else l.effectiveFrom,
       effectiveUntil := if change.setEffectiveUntil then change.effectiveUntil else l.effectiveUntil,
       note := if change.setNote then change.note else l.note)
  }

  function UpdateLinkStep(s: Store, child: Id, id: Id, change: LinkChange): Outcome {
    if child !in s.children then Err(UnknownId)
    else
      var i := IndexOf(s.links, LinkId, id);
      if i == |s.links| || s.links[i].child != child then Err(UnknownId)
      else if !s.links[i].active then Err(LinkInactive)
      else if s.children[child].status == Archived then Err(Roster(ChildArchived))
      else if s.links[i].contact !in s.contacts then Err(UnknownId)
      else if s.contacts[s.links[i].contact].status == Archived then Err(ContactArchived)
      else
        var l := Changed(s.links[i], change);
        if !ValidPeriod(l.effectiveFrom, l.effectiveUntil) then Err(EffectivePeriodInverted)
        else if l == s.links[i] then Ok(s)
        else Ok(s.(links := s.links[i := l.(revision := l.revision + 1)]))
  }

  function DeactivateLinkStep(s: Store, child: Id, id: Id): Outcome {
    if child !in s.children then Err(UnknownId)
    else
      var i := IndexOf(s.links, LinkId, id);
      if i == |s.links| || s.links[i].child != child then Err(UnknownId)
      else if !s.links[i].active then Ok(s)
      else Ok(s.(links := s.links[i := s.links[i].(active := false, revision := s.links[i].revision + 1)]))
  }

  // ----------------------------------------------------------------------- release step

  // The child's stay and the one link that lets the contact collect the child now, or why not.
  function AuthorizeRelease(s: Store, room: Id, child: Id, contact: Id, verification: string, now: Time)
    : (r: Result<(Current, Link), Problem>)
    ensures r.Ok? ==> InRoom(r.value.0, room)
  {
    if verification !in VERIFICATION_METHODS then Err(InvalidVerificationMethod)
    else if room !in s.rooms then Err(UnknownId)
    else if child !in s.children || s.children[child].facility != s.rooms[room].facility then Err(UnknownId)
    else if contact !in s.contacts then Err(UnknownId)
    else
      var current := CurrentAttendance(s.events, child, now);
      if !InRoom(current, room) then
        Err(Roster(if current.Open? && current.isFresh then ChildInAnotherClassroom else ChildNotCheckedIn))
      else if !current.isFresh then Err(Roster(AttendanceExpired))
      else
        var d := DecidePickup(child, s.children[child], contact, s.contacts[contact], s.links,
                              s.rooms[room].facility, now);
        if d.0 != Authorized || d.1.None? then Err(Pickup(d.0)) else Ok((current, d.1.value))
  }

  function CheckOutRow(current: Current, child: Id, room: Id, now: Time, id: Id): Event
    requires current.Open?
  {
    Event(id, child, current.facility, room, current.sequence + 1, CheckedOut, now, None, current.checkedInAt)
  }

  function ReleaseRow(checkout: Event, contact: Id, link: Link, verification: string, id: Id): Release {
    Release(id, checkout.facility, checkout.room, checkout.child, contact, link.id, link.revision, verification,
            checkout.id, checkout.occurredAt)
  }

  // The check-out and the release record are inserted together or not at all.
  function CommitRelease(s: Store, checkout: Event, contact: Id, link: Link, verification: string, id: Id): Outcome {
    if !AdmitsRow(s.events, checkout) then Err(Roster(AttendanceStateChanged))
    else if exists k :: 0 <= k < |s.releases|
              && (s.releases[k].id == id || s.releases[k].event == checkout.id)
    then Err(ReleaseStateChanged)
    else
      Ok(s.(events := s.events + [checkout],
            releases := s.releases + [ReleaseRow(checkout, contact, link, verification, id)]))
  }

  function ReleaseStep(s: Store, room: Id, child: Id, contact: Id, verification: string,
                       now: Time, eventId: Id, releaseId: Id): Outcome
  {
    match AuthorizeRelease(s, room, child, contact, verification, now)
    case Err(problem) => Err(problem)
    case Ok((current, link)) =>
      CommitRelease(s, CheckOutRow(current, child, room, now, eventId), contact, link, verification, releaseId)
  }

  // ------------------------------------------------------------------------------- runs

  datatype Op =
    | SetRoom(room: Id, facility: Id, roomActive: bool)
    | AddChild(child: Id, facility: Id)
    | AddContact(contact: Id, facility: Id)
    | SetChildStatus(child: Id, target: Lifecycle)
    | SetContactStatus(contact: Id, target: Lifecycle)
    | Attend(request: AttendanceRequest, room: Id, child: Id, lease: int, now: Time, ids: (Id, Id))
    | CreateLink(child: Id, input: LinkInput, now: Time, id: Id)
    | UpdateLink(child: Id, id: Id, change: LinkChange)
    | DeactivateLink(child: Id, id: Id)
    | ReleaseChild(room: Id, child: Id, contact: Id, verification: string, now: Time,
                   eventId: Id, releaseId: Id)

  function Step(s: Store, op: Op): Outcome {
    match op
    case SetRoom(room, facility, active) => SetRoomStep(s, room, facility, active)
    case AddChild(child, facility) => AddChildStep(s, child, facility)
    case AddContact(contact, facility) => AddContactStep(s, contact, facility)
    case SetChildStatus(child, target) => SetChildStatusStep(s, child, target)
    case SetContactStatus(contact, target) => SetContactStatusStep(s, contact, target)
    case Attend(request, room, child, lease, now, ids) => AttendStep(s, request, room, child, lease, now, ids)
    case CreateLink(child, input, now, id) => CreateLinkStep(s, child, input, now, id)
    case UpdateLink(child, id, change) => UpdateLinkStep(s, child, id, change)
    case DeactivateLink(child, id) => DeactivateLinkStep(s, child, id)
    case ReleaseChild(room, child, contact, verification, now, eventId, releaseId) =>
      ReleaseStep(s, room, child, contact, verification, now, eventId, releaseId)
  }

  // A refused transaction is rolled back whole.
  function Apply(s: Store, op: Op): Store {
    match Step(s, op)
    case Ok(s') => s'
    case Err(_) => s
  }

  const EMPTY: Store := Store(map[], map[], map[], [], [], [])

  function After(ops: seq<Op>): Store {
    if ops == [] then EMPTY else Apply(After(ops[..|ops| - 1]), ops[|ops| - 1])
  }
}
