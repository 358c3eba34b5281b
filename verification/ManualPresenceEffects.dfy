/** What an operator report says to the ratio engine: whose numbers, for how long, and when nothing at all. */
module ManualPresenceEffects {
  import opened Base
  import opened Lists
  import opened Presence
  import P = RatioPolicy
  import opened RatioEvaluation
  import opened ManualPresence
  import opened ManualPresenceLaws

  // ------------------------------------------------------------------------------ the slots

  // The slot is empty without a number, and otherwise carries it for its role from this report.
  ghost predicate Carries(slot: Option<PresenceCount>, role: Role, number: Option<int>, r: Report) {
    && (slot.Some? <==> number.Some?)
    && (slot.Some? ==>
          && slot.value.count == number.value && slot.value.role == role && slot.value.room == r.room
          && slot.value.source == Manual && slot.value.observedAt == r.observedAt
          && ExpiresAt(slot.value) == r.validUntil)
  }

  /** Each count of a report stands in its own role's slot, and no other slot is filled. */
  lemma SnapshotCarriesTheReport(r: Report)
    requires ValidReport(r)
    ensures var s := ToSnapshot(r);
      && s.room == r.room
      && Carries(s.children, Child, r.children, r)
      && Carries(s.staff, QualifiedStaff, r.staff, r)
      && Carries(s.visitors, Visitor, Some(r.visitors), r)
      && s.unknown.None?
  {
    assert ValidForSeconds(r) * SECOND == r.validUntil - r.observedAt;
  }

  // ----------------------------------------------------------------------------- submissions

  /** A submission is accepted exactly with counts in range for what the room's sources leave to the operator. */
  lemma SubmissionAcceptedIff(rows: seq<Report>, c: Classroom, id: Id, input: Input, observed: Time, created: Time)
    ensures Submit(rows, c, id, input, observed, created).1.None? <==>
      && c.active
      && (input.children.Some? <==> !c.childrenFromAttendance)
      && (input.staff.Some? <==> !c.staffFromRoster)
      && (c.childrenFromAttendance ==> input.visitorsSupplied)
      && (input.children.Some? ==> 0 <= input.children.value <= 150)
      && (input.staff.Some? ==> 0 <= input.staff.value <= 50)
      && 0 <= input.visitors <= 50
      && 30 <= input.validFor <= 15 * 60
      && (forall r :: r in rows ==> r.id != id)
      && observed <= created + MAX_FUTURE_SKEW
    ensures Submit(rows, c, id, input, observed, created).1.Some? ==>
      Submit(rows, c, id, input, observed, created).0 == rows
  {
    assert Known(rows, id) <==> exists r :: r in rows && r.id == id;
  }

  // The evaluation speaks of the numbers that were submitted.
  ghost predicate SpeaksOf(e: Evaluation, input: Input) {
    input.children.Some? && input.staff.Some? ==> e.children == input.children && e.staff == input.staff
  }

  /**
    From submission to evaluation: a report that takes over gives, within its window, a snapshot with exactly the
    submitted numbers, and the policy in force is measured against them.
   */
  lemma SubmittedNumbersAreEvaluated(
    states: seq<seq<Report>>, ops: seq<Op>, k: nat,
    c: Classroom, id: Id, input: Input, observed: Time, created: Time, now: Time,
    e: Evaluation, policy: Option<P.Terms>, ambiguous: bool)
    requires Run(states, ops) && k < |states|
    requires Submit(states[k], c, id, input, observed, created).1.None?
    requires observed - MAX_FUTURE_SKEW <= now < observed + input.validFor * SECOND
    requires forall x :: x in states[k] && x.room == c.id ==> Newer(NewReport(c, id, input, observed, created), x)
    ensures
      var resolution := Resolve(Submit(states[k], c, id, input, observed, created).0, c.id, now);
      && resolution.availability == PresenceFresh && resolution.snapshot.Some?
      && var s := resolution.snapshot.value;
      && (s.children.Some? <==> input.children.Some?)
      && (s.children.Some? ==> s.children.value.count == input.children.value)
      && (s.staff.Some? <==> input.staff.Some?)
      && (s.staff.Some? ==> s.staff.value.count == input.staff.value)
      && s.visitors.Some? && s.visitors.value.count == input.visitors
      && (policy.Some? && P.AppliesAt(policy.value, now) && Evaluates(e, policy, Some(s), now, true, ambiguous) ==>
            SpeaksOf(e, input))
  {
    var after := Submit(states[k], c, id, input, observed, created).0;
    var r := NewReport(c, id, input, observed, created);
    InvAlways(states, ops, k);
    SubmitKeepsInv(states[k], c, id, input, observed, created);
    SubmissionTakesOverIff(states, ops, k, c, id, input, observed, created, now);
    assert after[|states[k]|] == r;
    SpeaksIsAuthority(after, c.id, now, r);
    NewReportIsValid(c, id, input, observed, created);
    SnapshotCarriesTheReport(r);
    WindowIsFreshness(r, Child, 0, now);
    FreshFromReport(r, now);
    assert Resolve(after, c.id, now).snapshot == Some(ToSnapshot(r));
  }

  // Every slot that carries a number of the report is as fresh as the report.
  lemma FreshFromReport(r: Report, now: Time)
    requires ValidReport(r) && Within(r, now)
    ensures forall role :: Slot(ToSnapshot(r), role).Some? ==> FreshnessOf(Slot(ToSnapshot(r), role), now) == Fresh
  {
    forall role | Slot(ToSnapshot(r), role).Some? ensures FreshnessOf(Slot(ToSnapshot(r), role), now) == Fresh {
      SnapshotSharesTheWindow(r, role, now);
    }
  }

  // ----------------------------------------------------------------------------- revocation

  /** A revocation that names a report of the room marks it, at the first such time, and it never speaks again. */
  lemma RevokedIsSilent(rows: seq<Report>, room: Id, id: Id, at: Time, now: Time)
    requires Inv(rows) && Revoke(rows, room, id, at).1.None?
    ensures var after := Revoke(rows, room, id, at).0;
      && Inv(after) && Grows(rows, after) && |after| == |rows|
      && (exists i :: 0 <= i < |rows| && rows[i].id == id && rows[i].room == room
            && after == rows[i := after[i]]
            && after[i].revokedAt == if rows[i].revokedAt.Some? then rows[i].revokedAt else Some(at))
      && !Speaks(after, room, now, id)
  {
    StepKeepsInv(rows, RevokeReport(room, id, at));
    var after := Revoke(rows, room, id, at).0;
    var i := IndexOf(rows, IdOf, id);
    assert after == rows[i := after[i]];
    RevokedNeverSpeaks(after, i, now);
  }

  lemma RevokedNeverSpeaks(rows: seq<Report>, i: nat, now: Time)
    requires Inv(rows) && i < |rows| && rows[i].revokedAt.Some?
    ensures !Speaks(rows, rows[i].room, now, rows[i].id)
  {
    if Speaks(rows, rows[i].room, now, rows[i].id) {
      var n := SpeakerAt(rows, rows[i].room, now, rows[i].id);
    }
  }

  /** What is said when nobody is the authority: no report, a revoked one, a lapsed one or one ahead of its time. */
  lemma AvailabilityMeans(rows: seq<Report>, room: Id, now: Time)
    requires Inv(rows)
    ensures var a := Resolve(rows, room, now).availability;
      && (a == NotConnected <==> forall r :: r in rows ==> r.room != room)
      && forall r :: IsNewest(rows, r) && r.room == room ==>
           && Resolve(rows, room, now).report == Some(r)
           && (a == PresenceRevoked <==> r.revokedAt.Some?)
           && (a == NotYetValid <==> r.revokedAt.None? && now < r.observedAt - MAX_FUTURE_SKEW)
           && (a == PresenceFresh <==> r.revokedAt.None? && Within(r, now))
           && (a == PresenceStale <==> r.revokedAt.None? && r.validUntil <= now)
  {
    var own := Own(rows, room);
    if own != [] {
      NewestIsNewest(rows, room);
      var latest := Newest(own);
      var i :| 0 <= i < |rows| && rows[i] == latest;
      assert ValidReport(latest);
      WindowIsFreshness(latest, Visitor, latest.visitors, now);
      forall r | IsNewest(rows, r) && r.room == room ensures r == latest {
        NewestIsOne(rows, r, latest);
      }
    }
  }

  lemma NewestIsOne(rows: seq<Report>, r: Report, q: Report)
    requires IsNewest(rows, r) && IsNewest(rows, q) && r.room == q.room
    ensures r == q
  {
  }

  /** The order is by observation, then by creation, then by id: no report of the room is later than the newest. */
  lemma NewestIsLatest(rows: seq<Report>, r: Report, x: Report)
    requires IsNewest(rows, r) && x in rows && x.room == r.room
    ensures x.observedAt <= r.observedAt
    ensures x.observedAt == r.observedAt ==> x.createdAt <= r.createdAt
    ensures x.observedAt == r.observedAt && x.createdAt == r.createdAt ==> x.id <= r.id
  {
  }
}
