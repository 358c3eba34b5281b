/** One classroom judged at one instant: which configured limits are exceeded, and by how much. */
module RatioEvaluation {
  import opened Base
  import opened Presence
  import opened RatioPolicy

  // The latest authoritative count per role of one room; every slot may be empty.
  datatype Snapshot = Snapshot(
    room: Id, children: Option<PresenceCount>, staff: Option<PresenceCount>,
    visitors: Option<PresenceCount>, unknown: Option<PresenceCount>)

  datatype RatioState =
    | NotConfigured | InsufficientData | NoChildrenPresent
    | WithinConfiguredPolicy | OverConfiguredRatio | OverConfiguredGroupSize

  datatype Explanation =
    | PolicyNotConfigured | RoomInactive | SelectionAmbiguous
    | ChildCountMissing | ChildCountStale | StaffCountMissing | StaffCountStale
    | NoChildren | NoQualifiedStaff | StaffBelowRequired | GroupSizeExceeded | WithinPolicy

  // The policy stands for the id, revision and limits that the answer repeats.
  datatype Evaluation = Evaluation(
    state: RatioState, conditions: seq<RatioState>, explanations: seq<Explanation>,
    children: Option<int>, staff: Option<int>, required: Option<int>, deficit: Option<int>,
    childFreshness: Freshness, staffFreshness: Freshness, policy: Option<Terms>, at: Time)

  // --------------------------------------------------------------------- the latest counts

  function Slot(s: Snapshot, role: Role): Option<PresenceCount> {
    match role
    case Child => s.children
    case QualifiedStaff => s.staff
    case Visitor => s.visitors
    case Unknown => s.unknown
  }

  predicate Concerns(p: PresenceCount, room: Id, role: Role) { p.room == room && p.role == role }

  // No relevant count is later than number `i`, and none read before it is as late.
  ghost predicate NewestFrom(counts: seq<PresenceCount>, i: nat, room: Id, role: Role)
    requires i < |counts|
  {
    && Concerns(counts[i], room, role)
    && forall j :: 0 <= j < |counts| && Concerns(counts[j], room, role) ==>
         if j < i then counts[j].observedAt < counts[i].observedAt else counts[j].observedAt <= counts[i].observedAt
  }

  ghost predicate IsLatest(slot: Option<PresenceCount>, counts: seq<PresenceCount>, room: Id, role: Role) {
    match slot
    case None => forall i :: 0 <= i < |counts| ==> !Concerns(counts[i], room, role)
    case Some(p) => exists i :: 0 <= i < |counts| && counts[i] == p && NewestFrom(counts, i, room, role)
  }

  function Lookup(best: map<Role, PresenceCount>, role: Role): Option<PresenceCount> {
    if role in best then Some(best[role]) else None
  }

  ghost function Later(slot: Option<PresenceCount>, value: PresenceCount, room: Id, role: Role): Option<PresenceCount> {
    if Concerns(value, room, role) && (slot.None? || value.observedAt > slot.value.observedAt) then Some(value)
    else slot
  }

  lemma LatestExtends(
    slot: Option<PresenceCount>, counts: seq<PresenceCount>, value: PresenceCount, room: Id, role: Role)
    requires IsLatest(slot, counts, room, role)
    ensures IsLatest(Later(slot, value, room, role), counts + [value], room, role)
  {
    var more := counts + [value];
    assert more[|counts|] == value;
    if slot.Some? {
      var i :| 0 <= i < |counts| && counts[i] == slot.value && NewestFrom(counts, i, room, role);
      assert more[i] == slot.value;
      assert NewestFrom(more, i, room, role) || NewestFrom(more, |counts|, room, role);
    } else {
      assert Concerns(value, room, role) ==> NewestFrom(more, |counts|, room, role);
    }
  }

  // PresenceSnapshot.latest: other rooms are ignored.
  method Latest(room: Id, counts: seq<PresenceCount>) returns (s: Snapshot)
    ensures s.room == room
    ensures forall role :: IsLatest(Slot(s, role), counts, room, role)
  {
    var best: map<Role, PresenceCount> := map[];
    for k := 0 to |counts|
      invariant forall role :: IsLatest(Lookup(best, role), counts[..k], room, role)
    {
      var value := counts[k];
      assert counts[..k + 1] == counts[..k] + [value];
      forall role ensures IsLatest(Later(Lookup(best, role), value, room, role), counts[..k + 1], room, role) {
        LatestExtends(Lookup(best, role), counts[..k], value, room, role);
      }
      ghost var seen := best;
      if value.room == room && (value.role !in best || value.observedAt > best[value.role].observedAt) {
        best := best[value.role := value];
      }
      forall role ensures Lookup(best, role) == Later(Lookup(seen, role), value, room, role) {}
    }
    assert counts[..|counts|] == counts;
    s := Snapshot(
      room, Lookup(best, Child), Lookup(best, QualifiedStaff), Lookup(best, Visitor), Lookup(best, Unknown));
    forall role ensures Slot(s, role) == Lookup(best, role) {}
  }

  // --------------------------------------------------------------------- staff arithmetic

  // What a configured ratio and minimum ask of a room: nothing of an empty one.
  predicate MeetsRatio(n: Numbers, children: int, staff: int) {
    children <= 0 || (staff >= n.minimum && staff * n.ratio >= children)
  }

  predicate MeetsRatioWith(n: Numbers, children: int, staff: int, added: nat) {
    MeetsRatio(n, children, staff + added)
  }

  function RequiredStaff(children: int, ratio: int, minimum: int): int
    requires ratio > 0
  {
    if children <= 0 then 0 else Max(minimum, (children + ratio - 1) / ratio)
  }

  lemma CeilingIsLeast(children: int, ratio: int, staff: int)
    requires ratio > 0
    ensures staff >= (children + ratio - 1) / ratio <==> staff * ratio >= children
  {
    var q := (children + ratio - 1) / ratio;
    assert q * ratio <= children + ratio - 1 < q * ratio + ratio;
    if staff >= q {
      assert staff * ratio >= q * ratio;
    } else {
      assert staff * ratio <= (q - 1) * ratio;
    }
  }

  // The number the engine reports is the least staff that satisfies the policy.
  lemma RequiredStaffIsLeast(n: Numbers, children: int, staff: int)
    requires Validate(n).None? && staff >= 0
    ensures MeetsRatio(n, children, staff) <==> staff >= RequiredStaff(children, n.ratio, n.minimum)
  {
    CeilingIsLeast(children, n.ratio, staff);
  }

  // --------------------------------------------------------------------- what an answer says

  function ChildSlot(presence: Option<Snapshot>): Option<PresenceCount> {
    if presence.None? then None else presence.value.children
  }

  function StaffSlot(presence: Option<Snapshot>): Option<PresenceCount> {
    if presence.None? then None else presence.value.staff
  }

  predicate InForce(policy: Option<Terms>, now: Time, roomActive: bool) {
    roomActive && policy.Some? && AppliesAt(policy.value, now)
  }

  predicate Usable(presence: Option<Snapshot>, now: Time) {
    FreshnessOf(ChildSlot(presence), now).Fresh? && FreshnessOf(StaffSlot(presence), now).Fresh?
  }

  predicate OverRatio(n: Numbers, children: int, staff: int) { !MeetsRatio(n, children, staff) }

  predicate OverGroupSize(n: Numbers, children: int) { n.groupSize.Some? && children > n.groupSize.value }

  function When<T>(holds: bool, x: T): seq<T> { if holds then [x] else [] }

  // Every limit that is exceeded, and no other.
  function Exceeded(n: Numbers, children: int, staff: int): seq<RatioState> {
    When(OverRatio(n, children, staff), OverConfiguredRatio) +
    When(OverGroupSize(n, children), OverConfiguredGroupSize)
  }

  function Findings(n: Numbers, children: int, staff: int): seq<Explanation> {
    if children == 0 then [NoChildren]
    else
      When(OverRatio(n, children, staff) && staff == 0, NoQualifiedStaff) +
      When(OverRatio(n, children, staff) && staff > 0, StaffBelowRequired) +
      When(OverGroupSize(n, children), GroupSizeExceeded) +
      When(!OverRatio(n, children, staff) && !OverGroupSize(n, children), WithinPolicy)
  }

  function Unusable(child: Freshness, staff: Freshness): seq<Explanation> {
    When(child == Missing, ChildCountMissing) + When(child == Stale, ChildCountStale) +
    When(staff == Missing, StaffCountMissing) + When(staff == Stale, StaffCountStale)
  }

  // The numbers of an answer about `children` and `staff`: the limits exceeded, the least staff that would do,
  // and the least addition to the staff present that would do.
  ghost predicate Measures(e: Evaluation, n: Numbers, children: int, staff: int) {
    && e.children == Some(children) && e.staff == Some(staff)
    && e.conditions == Exceeded(n, children, staff)
    && e.state == (if children == 0 then NoChildrenPresent
                   else if e.conditions == [] then WithinConfiguredPolicy else e.conditions[0])
    && e.required.Some? && e.required.value >= 0
    && (forall s: nat :: MeetsRatio(n, children, s) <==> s >= e.required.value)
    && e.deficit.Some? && e.deficit.value >= 0
    && (forall added: nat :: MeetsRatioWith(n, children, staff, added) <==> added >= e.deficit.value)
  }

  ghost predicate Evaluates(
    e: Evaluation, policy: Option<Terms>, presence: Option<Snapshot>, now: Time, roomActive: bool, ambiguous: bool)
  {
    var child, staff := ChildSlot(presence), StaffSlot(presence);
    && e.policy == policy && e.at == now
    && e.childFreshness == FreshnessOf(child, now) && e.staffFreshness == FreshnessOf(staff, now)
    && if InForce(policy, now, roomActive) && Usable(presence, now) then
         && Measures(e, policy.value.numbers, child.value.count, staff.value.count)
         && e.explanations == When(ambiguous, SelectionAmbiguous)
              + Findings(policy.value.numbers, child.value.count, staff.value.count)
       else
         && e.conditions == [] && e.children.None? && e.staff.None? && e.required.None? && e.deficit.None?
         && if InForce(policy, now, roomActive) then
              && e.state == InsufficientData
              && e.explanations == When(ambiguous, SelectionAmbiguous) + Unusable(e.childFreshness, e.staffFreshness)
            else
              && e.state == NotConfigured
              && e.explanations == [if roomActive then PolicyNotConfigured else RoomInactive]
  }

  // A policy and counts as their constructors let them through.
  predicate ValidInputs(policy: Option<Terms>, presence: Option<Snapshot>) {
    && (policy.Some? ==> ValidTerms(policy.value))
    && (ChildSlot(presence).Some? ==> ValidCount(ChildSlot(presence).value))
    && (StaffSlot(presence).Some? ==> ValidCount(StaffSlot(presence).value))
  }

  // ------------------------------------------------------------------------- the evaluation

  method EvaluateRatio(
    policy: Option<Terms>, presence: Option<Snapshot>, now: Time, roomActive: bool, ambiguous: bool)
    returns (e: Evaluation)
    requires ValidInputs(policy, presence)
    ensures Evaluates(e, policy, presence, now, roomActive, ambiguous)
  {
    var child, staff := ChildSlot(presence), StaffSlot(presence);
    var childFresh, staffFresh := FreshnessOf(child, now), FreshnessOf(staff, now);
    var silent := Evaluation(NotConfigured, [], [], None, None, None, None, childFresh, staffFresh, policy, now);
    if !roomActive { return silent.(explanations := [RoomInactive]); }
    if policy.None? || !AppliesAt(policy.value, now) { return silent.(explanations := [PolicyNotConfigured]); }
    var prefix := if ambiguous then [SelectionAmbiguous] else [];
    var missing := MissingCounts(childFresh, staffFresh);
    if missing != [] { return silent.(state := InsufficientData, explanations := prefix + missing); }
    e := Measure(policy.value.numbers, child.value.count, staff.value.count, prefix, silent);
  }

  method MissingCounts(child: Freshness, staff: Freshness) returns (missing: seq<Explanation>)
    ensures missing == Unusable(child, staff)
    ensures missing == [] <==> child == Fresh && staff == Fresh
  {
    missing := [];
    if child == Missing { missing := missing + [ChildCountMissing]; }
    else if child == Stale { missing := missing + [ChildCountStale]; }
    if staff == Missing { missing := missing + [StaffCountMissing]; }
    else if staff == Stale { missing := missing + [StaffCountStale]; }
  }

  // Both counts are fresh.
  method Measure(n: Numbers, children: int, staff: int, prefix: seq<Explanation>, silent: Evaluation)
    returns (e: Evaluation)
    requires Validate(n).None? && children >= 0 && staff >= 0 && silent.conditions == []
    ensures Measures(e, n, children, staff)
    ensures e.explanations == prefix + Findings(n, children, staff)
    ensures e.policy == silent.policy && e.at == silent.at
    ensures e.childFreshness == silent.childFreshness && e.staffFreshness == silent.staffFreshness
  {
    LeastStaff(n, children, staff);
    if children == 0 {
      return silent.(state := NoChildrenPresent, explanations := prefix + [NoChildren],
        children := Some(0), staff := Some(staff), required := Some(0), deficit := Some(0));
    }
    var needed := RequiredStaff(children, n.ratio, n.minimum);
    var deficit := Max(0, needed - staff);
    var conditions, explanations := [], prefix;
    if deficit > 0 {
      conditions := conditions + [OverConfiguredRatio];
      explanations := explanations + [if staff == 0 then NoQualifiedStaff else StaffBelowRequired];
    }
    if n.groupSize.Some? && children > n.groupSize.value {
      conditions := conditions + [OverConfiguredGroupSize];
      explanations := explanations + [GroupSizeExceeded];
    }
    if conditions == [] { explanations := explanations + [WithinPolicy]; }
    e := silent.(state := if conditions == [] then WithinConfiguredPolicy else conditions[0],
      conditions := conditions, explanations := explanations,
      children := Some(children), staff := Some(staff), required := Some(needed), deficit := Some(deficit));
  }

  lemma LeastStaff(n: Numbers, children: int, staff: int)
    requires Validate(n).None? && staff >= 0
    ensures forall s: nat :: MeetsRatio(n, children, s) <==> s >= RequiredStaff(children, n.ratio, n.minimum)
    ensures forall added: nat :: MeetsRatioWith(n, children, staff, added) <==>
      added >= Max(0, RequiredStaff(children, n.ratio, n.minimum) - staff)
  {
    forall s: nat ensures MeetsRatio(n, children, s) <==> s >= RequiredStaff(children, n.ratio, n.minimum) {
      RequiredStaffIsLeast(n, children, s);
    }
  }

  // ------------------------------------------------------------------------------- the laws

  // The slot is empty exactly without a count of that room and role, and no such count is later than its own.
  lemma LatestMeans(slot: Option<PresenceCount>, counts: seq<PresenceCount>, room: Id, role: Role)
    requires IsLatest(slot, counts, room, role)
    ensures slot.None? <==> forall p :: p in counts ==> !(p.room == room && p.role == role)
    ensures slot.Some? ==>
      && slot.value in counts && slot.value.room == room && slot.value.role == role
      && (forall p :: p in counts && p.room == room && p.role == role ==> p.observedAt <= slot.value.observedAt)
      && exists i :: 0 <= i < |counts| && counts[i] == slot.value
           && forall j :: 0 <= j < i && counts[j].room == room && counts[j].role == role ==>
                counts[j].observedAt < slot.value.observedAt
  {
    if slot.Some? {
      var i :| 0 <= i < |counts| && counts[i] == slot.value && NewestFrom(counts, i, room, role);
    }
  }

  // A count that may be used: given, not from the far future, and not lapsed.
  ghost predicate Current(slot: Option<PresenceCount>, now: Time) {
    && slot.Some? && slot.value.observedAt <= now + MAX_FUTURE_SKEW
    && now < slot.value.observedAt + slot.value.validFor * SECOND
  }

  ghost predicate Governs(policy: Option<Terms>, now: Time) {
    && policy.Some? && policy.value.active && policy.value.numbers.from <= now
    && (policy.value.numbers.until.Some? ==> now < policy.value.numbers.until.value)
  }

  // `c` children and `s` qualified staff against the configured numbers.
  ghost predicate JudgedAsConfigured(e: Evaluation, n: Numbers, c: int, s: int) {
    var short := c > 0 && (s < n.minimum || s * n.ratio < c);
    var crowded := n.groupSize.Some? && n.groupSize.value < c;
    && e.children == Some(c) && e.staff == Some(s)
    && (e.state == NoChildrenPresent <==> c == 0)
    && (e.state == WithinConfiguredPolicy <==> c > 0 && !short && !crowded)
    && (e.state == OverConfiguredRatio <==> short)
    && (e.state == OverConfiguredGroupSize <==> crowded && !short)
    && (OverConfiguredRatio in e.conditions <==> short)
    && (OverConfiguredGroupSize in e.conditions <==> crowded)
    && (NoChildren in e.explanations <==> c == 0)
    && (NoQualifiedStaff in e.explanations <==> short && s == 0)
    && (StaffBelowRequired in e.explanations <==> short && s > 0)
    && (GroupSizeExceeded in e.explanations <==> crowded)
    && (WithinPolicy in e.explanations <==> c > 0 && !short && !crowded)
  }

  lemma FreshMeans(slot: Option<PresenceCount>, now: Time)
    ensures FreshnessOf(slot, now) == Fresh <==> Current(slot, now)
    ensures FreshnessOf(slot, now) == Missing <==> slot.None?
  {
  }

  lemma Among<T>(x: T, a: seq<T>, b: seq<T>)
    ensures x in a + b <==> x in a || x in b
  {
  }

  lemma UnusableAre(child: Freshness, staff: Freshness, ambiguous: bool, x: Explanation)
    ensures x in When(ambiguous, SelectionAmbiguous) + Unusable(child, staff) <==>
      || (x == SelectionAmbiguous && ambiguous)
      || (x == ChildCountMissing && child == Missing) || (x == ChildCountStale && child == Stale)
      || (x == StaffCountMissing && staff == Missing) || (x == StaffCountStale && staff == Stale)
  {
    var a, b := When(child == Missing, ChildCountMissing), When(child == Stale, ChildCountStale);
    var c, d := When(staff == Missing, StaffCountMissing), When(staff == Stale, StaffCountStale);
    Among(x, When(ambiguous, SelectionAmbiguous), Unusable(child, staff));
    Among(x, a + b + c, d);
    Among(x, a + b, c);
    Among(x, a, b);
  }

  lemma FindingsAre(n: Numbers, children: int, staff: int, ambiguous: bool, x: Explanation)
    ensures x in When(ambiguous, SelectionAmbiguous) + Findings(n, children, staff) <==>
      || (x == SelectionAmbiguous && ambiguous)
      || (x == NoChildren && children == 0)
      || (x == NoQualifiedStaff && children != 0 && OverRatio(n, children, staff) && staff == 0)
      || (x == StaffBelowRequired && children != 0 && OverRatio(n, children, staff) && staff > 0)
      || (x == GroupSizeExceeded && children != 0 && OverGroupSize(n, children))
      || (x == WithinPolicy && children != 0 && !OverRatio(n, children, staff) && !OverGroupSize(n, children))
  {
    var over, crowded := OverRatio(n, children, staff), OverGroupSize(n, children);
    var a, b := When(over && staff == 0, NoQualifiedStaff), When(over && staff > 0, StaffBelowRequired);
    var c, d := When(crowded, GroupSizeExceeded), When(!over && !crowded, WithinPolicy);
    Among(x, When(ambiguous, SelectionAmbiguous), Findings(n, children, staff));
    if children != 0 {
      Among(x, a + b + c, d);
      Among(x, a + b, c);
      Among(x, a, b);
    }
  }

  lemma FindingsMean(e: Evaluation, n: Numbers, c: int, s: int, ambiguous: bool)
    requires Measures(e, n, c, s) && c >= 0 && s >= 0 && Validate(n).None?
    requires e.explanations == When(ambiguous, SelectionAmbiguous) + Findings(n, c, s)
    ensures JudgedAsConfigured(e, n, c, s)
    ensures e.state != NotConfigured && e.state != InsufficientData
    ensures RoomInactive !in e.explanations && PolicyNotConfigured !in e.explanations
    ensures SelectionAmbiguous in e.explanations <==> ambiguous
  {
    forall x { FindingsAre(n, c, s, ambiguous, x); }
    Among(OverConfiguredRatio, When(OverRatio(n, c, s), OverConfiguredRatio),
          When(OverGroupSize(n, c), OverConfiguredGroupSize));
    Among(OverConfiguredGroupSize, When(OverRatio(n, c, s), OverConfiguredRatio),
          When(OverGroupSize(n, c), OverConfiguredGroupSize));
  }

  // Which count is missing or stale, when one is.
  ghost predicate NamesUnusable(e: Evaluation, presence: Snapshot, now: Time) {
    && (ChildCountMissing in e.explanations <==> presence.children.None?)
    && (ChildCountStale in e.explanations <==> presence.children.Some? && !Current(presence.children, now))
    && (StaffCountMissing in e.explanations <==> presence.staff.None?)
    && (StaffCountStale in e.explanations <==> presence.staff.Some? && !Current(presence.staff, now))
  }

  lemma UnusableMeans(e: Evaluation, presence: Snapshot, now: Time, ambiguous: bool)
    requires e.explanations == When(ambiguous, SelectionAmbiguous)
               + Unusable(FreshnessOf(presence.children, now), FreshnessOf(presence.staff, now))
    ensures NamesUnusable(e, presence, now)
    ensures RoomInactive !in e.explanations && PolicyNotConfigured !in e.explanations
    ensures SelectionAmbiguous in e.explanations <==> ambiguous
  {
    var child, staff := FreshnessOf(presence.children, now), FreshnessOf(presence.staff, now);
    FreshMeans(presence.children, now);
    FreshMeans(presence.staff, now);
    forall x { UnusableAre(child, staff, ambiguous, x); }
  }

  // What each answer means in terms of the policy, the two counts and the moment.
  lemma AnswerMeans(
    e: Evaluation, policy: Option<Terms>, presence: Snapshot, now: Time, roomActive: bool, ambiguous: bool)
    requires Evaluates(e, policy, Some(presence), now, roomActive, ambiguous)
    requires ValidInputs(policy, Some(presence))
    ensures e.at == now && e.policy == policy
    ensures e.state == NotConfigured <==> !roomActive || !Governs(policy, now)
    ensures RoomInactive in e.explanations <==> !roomActive
    ensures PolicyNotConfigured in e.explanations <==> roomActive && !Governs(policy, now)
    ensures roomActive && Governs(policy, now) ==>
      && (SelectionAmbiguous in e.explanations <==> ambiguous)
      && (e.state == InsufficientData <==> !Current(presence.children, now) || !Current(presence.staff, now))
      && if Current(presence.children, now) && Current(presence.staff, now)
         then JudgedAsConfigured(e, policy.value.numbers, presence.children.value.count, presence.staff.value.count)
         else NamesUnusable(e, presence, now)
  {
    FreshMeans(presence.children, now);
    FreshMeans(presence.staff, now);
    assert InForce(policy, now, roomActive) <==> roomActive && Governs(policy, now);
    if InForce(policy, now, roomActive) {
      if Usable(Some(presence), now) {
        FindingsMean(e, policy.value.numbers, presence.children.value.count, presence.staff.value.count, ambiguous);
      } else {
        UnusableMeans(e, presence, now, ambiguous);
      }
    }
  }

  // The description leaves no freedom: the inputs fix the whole answer.
  lemma EvaluationIsUnique(
    e: Evaluation, f: Evaluation,
    policy: Option<Terms>, presence: Option<Snapshot>, now: Time, roomActive: bool, ambiguous: bool)
    requires Evaluates(e, policy, presence, now, roomActive, ambiguous)
    requires Evaluates(f, policy, presence, now, roomActive, ambiguous)
    ensures e == f
  {
    if InForce(policy, now, roomActive) && Usable(presence, now) {
      var n, c, s := policy.value.numbers, ChildSlot(presence).value.count, StaffSlot(presence).value.count;
      assert MeetsRatio(n, c, e.required.value) && MeetsRatio(n, c, f.required.value);
      assert MeetsRatioWith(n, c, s, e.deficit.value) && MeetsRatioWith(n, c, s, f.deficit.value);
    }
  }

  // More staff in the same room never adds a condition, and clears the ratio exactly from the deficit on.
  lemma AddingStaffNeverAddsACondition(
    e: Evaluation, f: Evaluation, policy: Option<Terms>, before: Snapshot, added: nat,
    now: Time, roomActive: bool, ambiguous: bool)
    requires before.staff.Some?
    requires var after := before.(staff := Some(before.staff.value.(count := before.staff.value.count + added)));
      && Evaluates(e, policy, Some(before), now, roomActive, ambiguous)
      && Evaluates(f, policy, Some(after), now, roomActive, ambiguous)
    ensures forall limit :: limit in f.conditions ==> limit in e.conditions
    ensures e.deficit.Some? ==> (OverConfiguredRatio in f.conditions <==> added < e.deficit.value)
    ensures e.deficit.Some? ==> f.deficit == Some(Max(0, e.deficit.value - added)) && f.required == e.required
  {
    if InForce(policy, now, roomActive) && Usable(Some(before), now) {
      var n, c, s := policy.value.numbers, before.children.value.count, before.staff.value.count;
      var d, g := e.deficit.value, f.deficit.value;
      assert MeetsRatioWith(n, c, s, 0) <==> d == 0;
      assert MeetsRatioWith(n, c, s, added) <==> added >= d;
      assert MeetsRatioWith(n, c, s, added + g) == MeetsRatioWith(n, c, s + added, g);
      var rest := Max(0, d - added);
      assert MeetsRatioWith(n, c, s, added + rest) == MeetsRatioWith(n, c, s + added, rest);
      if g > 0 {
        assert MeetsRatioWith(n, c, s, added + (g - 1)) == MeetsRatioWith(n, c, s + added, g - 1);
      }
      assert MeetsRatio(n, c, e.required.value) && MeetsRatio(n, c, f.required.value);
    }
  }
}
