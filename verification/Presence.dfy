/** One authoritative count of one role in one classroom, and how long it may be relied on. */
module Presence {
  import opened Base

  const MAX_PRESENCE_COUNT: int := 500
  const MIN_VALIDITY_SECONDS: int := 1
  const MAX_VALIDITY_SECONDS: int := 12 * 60 * 60

  datatype Role = QualifiedStaff | Child | Visitor | Unknown

  datatype Source = Manual | Attendance | StaffRoster | StaffRecognition | OtherApprovedSource

  datatype Freshness = Fresh | Stale | Missing

  datatype PresenceCount = PresenceCount(
    room: Id, role: Role, count: int, source: Source, observedAt: Time, validFor: int)

  // Which sources may assert which roles; no source is a camera.
  predicate MayAssert(source: Source, role: Role) {
    match source
    case Manual => true
    case Attendance => role != QualifiedStaff
    case StaffRoster => role == QualifiedStaff
    case StaffRecognition => role == QualifiedStaff
    case OtherApprovedSource => true
  }

  predicate ValidCount(p: PresenceCount) {
    && MayAssert(p.source, p.role)
    && 0 <= p.count <= MAX_PRESENCE_COUNT
    && MIN_VALIDITY_SECONDS <= p.validFor <= MAX_VALIDITY_SECONDS
  }

  function ExpiresAt(p: PresenceCount): Time { p.observedAt + p.validFor * SECOND }

  function FreshnessOf(p: Option<PresenceCount>, now: Time): Freshness {
    if p.None? then Missing
    else if p.value.observedAt - now > MAX_FUTURE_SKEW then Stale
    else if now < ExpiresAt(p.value) then Fresh
    else Stale
  }
}
