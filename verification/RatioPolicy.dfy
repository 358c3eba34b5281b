/**
  The configured ratio policies of one classroom: half-open periods, the writes that keep the ACTIVE ones
  apart, and the choice of the policy in force.
 */
module RatioPolicy {
  import opened Base
  import opened Lists

  const MAX_POLICIES_PER_CLASSROOM: nat := 100
  const MAX_CHILDREN_PER_STAFF_LIMIT: int := 100
  const MAX_MINIMUM_STAFF: int := 50
  const MAX_GROUP_SIZE_LIMIT: int := 500

  // What an operator enters, with the local days already turned into [from, until).
  datatype Numbers = Numbers(ratio: int, minimum: int, groupSize: Option<int>, from: Time, until: Option<Time>)

  datatype Terms = Terms(id: Id, room: Id, numbers: Numbers, active: bool, revision: int)

  datatype PolicyError =
    | ClassroomInactive
    | InvalidMaxChildrenPerStaff | InvalidMinimumStaff | InvalidMaximumGroupSize | EffectivePeriodInverted
    | PolicyLimitReached | NotFound | PolicyInactive | PolicyPeriodOverlaps
    | IdTaken   // the table's primary key

  // ----------------------------------------------------------------------------- periods

  predicate InPeriod(n: Numbers, at: Time) { n.from <= at && (n.until.None? || at < n.until.value) }

  predicate AppliesAt(p: Terms, at: Time) { p.active && InPeriod(p.numbers, at) }

  predicate PeriodsOverlap(a: Numbers, b: Numbers) {
    && (a.until.None? || b.from < a.until.value)
    && (b.until.None? || a.from < b.until.value)
  }

  function Validate(n: Numbers): Option<PolicyError> {
    if !(0 < n.ratio <= MAX_CHILDREN_PER_STAFF_LIMIT) then Some(InvalidMaxChildrenPerStaff)
    else if !(0 <= n.minimum <= MAX_MINIMUM_STAFF) then Some(InvalidMinimumStaff)
    else if n.groupSize.Some? && !(0 < n.groupSize.value <= MAX_GROUP_SIZE_LIMIT) then Some(InvalidMaximumGroupSize)
    else if n.until.Some? && n.until.value <= n.from then Some(EffectivePeriodInverted)
    else None
  }

  predicate ValidTerms(p: Terms) { Validate(p.numbers).None? && p.revision >= 1 }

  // For the periods that validation lets through, the comparison of ends says "some instant is in both".
  lemma OverlapIffCommonInstant(a: Numbers, b: Numbers)
    requires Validate(a).None? && Validate(b).None?
    ensures PeriodsOverlap(a, b) <==> exists at :: InPeriod(a, at) && InPeriod(b, at)
  {
    if PeriodsOverlap(a, b) {
      assert InPeriod(a, Max(a.from, b.from)) && InPeriod(b, Max(a.from, b.from));
    }
  }

  // ----------------------------------------------------------------------------- overlap

  predicate Conflicts(candidate: Terms, other: Terms) {
    && candidate.active && other.active
    && other.id != candidate.id && other.room == candidate.room
    && PeriodsOverlap(candidate.numbers, other.numbers)
  }

  method FindOverlap(candidate: Terms, existing: seq<Terms>) returns (found: Option<Terms>)
    ensures found.None? <==> forall i :: 0 <= i < |existing| ==> !Conflicts(candidate, existing[i])
    ensures found.Some? ==>
      exists i :: 0 <= i < |existing| && found.value == existing[i] && Conflicts(candidate, existing[i])
               && forall j :: 0 <= j < i ==> !Conflicts(candidate, existing[j])
  {
    if !candidate.active { return None; }
    for i := 0 to |existing|
      invariant forall j :: 0 <= j < i ==> !Conflicts(candidate, existing[j])
    {
      var other := existing[i];
      if other.id == candidate.id || other.room != candidate.room { continue; }
      if other.active && PeriodsOverlap(candidate.numbers, other.numbers) { return Some(other); }
    }
    return None;
  }

  // --------------------------------------------------------------------------- selection

  datatype Selection = Selection(policy: Option<Terms>, ambiguous: bool)

  function Applicable(policies: seq<Terms>, at: Time): (r: seq<Terms>)
    ensures forall p :: p in r <==> p in policies && AppliesAt(p, at)
  {
    if policies == [] then []
    else
      var n := |policies| - 1;
      Applicable(policies[..n], at) + if AppliesAt(policies[n], at) then [policies[n]] else []
  }

  // The descending sort key: start of the period, then revision, then id.
  predicate Outranks(a: Terms, b: Terms) {
    || a.numbers.from > b.numbers.from
    || (a.numbers.from == b.numbers.from && a.revision > b.revision)
    || (a.numbers.from == b.numbers.from && a.revision == b.revision && a.id > b.id)
  }

  // The first policy of the list sorted by that key.
  function First(policies: seq<Terms>): (r: Terms)
    requires policies != []
    ensures r in policies
    ensures forall p :: p in policies ==> !Outranks(p, r)
  {
    var n := |policies| - 1;
    if n == 0 then policies[0]
    else
      var best := First(policies[..n]);
      assert policies == policies[..n] + [policies[n]];
      if Outranks(policies[n], best) then policies[n] else best
  }

  function SelectPolicy(policies: seq<Terms>, at: Time): (r: Selection)
    ensures r.policy.None? <==> forall p :: p in policies ==> !AppliesAt(p, at)
    ensures r.policy.Some? ==> r.policy.value in policies && AppliesAt(r.policy.value, at)
  {
    var applicable := Applicable(policies, at);
    if applicable == [] then Selection(None, false)
    else
      assert applicable[0] in applicable;
      Selection(Some(First(applicable)), |applicable| > 1)
  }

  ghost predicate IdsDistinct(rows: seq<Terms>) {
    forall i, j :: 0 <= i < j < |rows| ==> rows[i].id != rows[j].id
  }

  // ------------------------------------------------------------------------------- writes

  datatype Book = Book(room: Id, open: bool, rows: seq<Terms>)

  datatype Op =
    | CreatePolicy(id: Id, numbers: Numbers)
    | UpdatePolicy(id: Id, numbers: Numbers)
    | DeactivatePolicy(id: Id)
    | SetClassroomActive(active: bool)

  function IdOf(p: Terms): Id { p.id }

  ghost predicate Free(candidate: Terms, rows: seq<Terms>) {
    forall i :: 0 <= i < |rows| ==> !Conflicts(candidate, rows[i])
  }

  ghost function Create(b: Book, id: Id, n: Numbers): (Book, Option<PolicyError>) {
    var row := Terms(id, b.room, n, true, 1);
    if !b.open then (b, Some(ClassroomInactive))
    else if Validate(n).Some? then (b, Validate(n))
    else if |b.rows| >= MAX_POLICIES_PER_CLASSROOM then (b, Some(PolicyLimitReached))
    else if !Free(row, b.rows) then (b, Some(PolicyPeriodOverlaps))
    else if IndexOf(b.rows, IdOf, id) < |b.rows| then (b, Some(IdTaken))
    else (b.(rows := b.rows + [row]), None)
  }

  ghost function Update(b: Book, id: Id, n: Numbers): (Book, Option<PolicyError>) {
    var i := IndexOf(b.rows, IdOf, id);
    if !b.open then (b, Some(ClassroomInactive))
    else if Validate(n).Some? then (b, Validate(n))
    else if i == |b.rows| then (b, Some(NotFound))
    else if !b.rows[i].active then (b, Some(PolicyInactive))
    else
      var row := b.rows[i].(numbers := n, revision := b.rows[i].revision + 1);
      if !Free(row, b.rows) then (b, Some(PolicyPeriodOverlaps))
      else (b.(rows := b.rows[i := row]), None)
  }

  ghost function Deactivate(b: Book, id: Id): (Book, Option<PolicyError>) {
    var i := IndexOf(b.rows, IdOf, id);
    if i == |b.rows| then (b, Some(NotFound))
    else if !b.rows[i].active then (b, None)
    else (b.(rows := b.rows[i := b.rows[i].(active := false, revision := b.rows[i].revision + 1)]), None)
  }

  ghost function Step(b: Book, op: Op): (Book, Option<PolicyError>) {
    match op
    case CreatePolicy(id, n) => Create(b, id, n)
    case UpdatePolicy(id, n) => Update(b, id, n)
    case DeactivatePolicy(id) => Deactivate(b, id)
    case SetClassroomActive(active) => (b.(open := active), None)
  }

  // Every state of a run of writes on a new classroom's book, the empty book first.
  ghost predicate Run(states: seq<Book>, ops: seq<Op>) {
    && |states| == |ops| + 1
    && states[0].rows == []
    && forall k :: 0 <= k < |ops| ==> states[k + 1] == Step(states[k], ops[k]).0
  }
}
