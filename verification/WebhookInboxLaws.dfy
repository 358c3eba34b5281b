/** What every run of deliveries and workers keeps: exclusive claims, bounded retries, final outcomes. */
module WebhookInboxLaws {
  import opened Base
  import opened Lists
  import opened WebhookInbox

  // One call of one of the three functions by anyone, in the order the row locks serialise them.
  datatype Op =
    | Deliver(id: Id, request: string, at: Time)
    | Claim(id: Id, now: Time, locked: set<Id>)
    | ClaimNothing(now: Time, locked: set<Id>)
    | Settle(id: Id, outcome: State, failure: Option<string>, retryAt: Option<Time>, now: Time)

  ghost predicate Next(a: seq<Row>, op: Op, b: seq<Row>) {
    match op
    case Deliver(id, request, at) => b == Ingest(a, id, request, at).0
    case Claim(id, now, locked) =>
      var i := IndexOf(a, IdOf, id);
      MayClaim(a, i, now, locked) && b == a[i := Claimed(a[i])]
    case ClaimNothing(now, locked) => NothingToClaim(a, now, locked) && b == a
    case Settle(id, outcome, failure, retryAt, now) => b == Finish(a, id, outcome, failure, retryAt, now).0
  }

  ghost predicate Run(states: seq<seq<Row>>, ops: seq<Op>) {
    && |states| == |ops| + 1
    && states[0] == []
    && forall k :: 0 <= k < |ops| ==> Next(states[k], ops[k], states[k + 1])
  }

  ghost predicate Inv(rows: seq<Row>) {
    && (forall i, j :: 0 <= i < j < |rows| ==> rows[i].id != rows[j].id && rows[i].request != rows[j].request)
    && forall i :: 0 <= i < |rows| ==>
      && rows[i].attempts <= MAX_ATTEMPTS
      && (rows[i].processedAt.Some? <==> Terminal(rows[i].state))
  }

  lemma NextKeepsInv(a: seq<Row>, op: Op, b: seq<Row>)
    requires Inv(a) && Next(a, op, b)
    ensures Inv(b)
  {}

  lemma {:induction false} InvAlways(states: seq<seq<Row>>, ops: seq<Op>, k: nat)
    requires Run(states, ops) && k < |states|
    ensures Inv(states[k])
  {
    if k > 0 {
      InvAlways(states, ops, k - 1);
      NextKeepsInv(states[k - 1], ops[k - 1], states[k]);
    }
  }

  // ------------------------------------------------------------------ claims and completions

  // Whether the call completes the row: its finish function returns true.
  ghost predicate Completes(a: seq<Row>, op: Op, id: Id) {
    op.Settle? && op.id == id && Finish(a, id, op.outcome, op.failure, op.retryAt, op.now).1 == Ok(true)
  }

  predicate ClaimOf(op: Op, id: Id) { op.Claim? && op.id == id }

  ghost function Claims(ops: seq<Op>, k: nat, id: Id): nat
    requires k <= |ops|
  {
    if k == 0 then 0 else Claims(ops, k - 1, id) + if ClaimOf(ops[k - 1], id) then 1 else 0
  }

  ghost function Completions(states: seq<seq<Row>>, ops: seq<Op>, k: nat, id: Id): nat
    requires |states| == |ops| + 1 && k <= |ops|
  {
    if k == 0 then 0
    else Completions(states, ops, k - 1, id) + if Completes(states[k - 1], ops[k - 1], id) then 1 else 0
  }

  // How many claims of the row are open.
  function Held(r: Row): nat { if r.state == Processing then 1 else 0 }

  ghost predicate Balanced(rows: seq<Row>, id: Id, claims: nat, completions: nat) {
    var i := IndexOf(rows, IdOf, id);
    if i == |rows| then claims == 0 == completions
    else claims == rows[i].attempts <= MAX_ATTEMPTS && claims == completions + Held(rows[i])
  }

  lemma NextKeepsBalance(a: seq<Row>, op: Op, b: seq<Row>, id: Id, claims: nat, completions: nat)
    requires Next(a, op, b) && Balanced(a, id, claims, completions)
    ensures Balanced(b, id,
      claims + if ClaimOf(op, id) then 1 else 0, completions + if Completes(a, op, id) then 1 else 0)
  {
    PlaceIsKept(a, op, b, id);
    match op
    case Deliver(_, _, _) =>
    case Claim(other, now, locked) => ClaimKeepsBalance(a, other, now, locked, b, id, claims, completions);
    case ClaimNothing(_, _) =>
    case Settle(other, _, _, _, _) => PlaceIsKept(a, op, b, other);
  }

  lemma ClaimKeepsBalance(a: seq<Row>, other: Id, now: Time, locked: set<Id>, b: seq<Row>, id: Id, claims: nat,
                          completions: nat)
    requires Next(a, Op.Claim(other, now, locked), b) && Balanced(a, id, claims, completions)
    ensures Balanced(b, id, claims + if other == id then 1 else 0, completions)
  {
    PlaceIsKept(a, Op.Claim(other, now, locked), b, id);
    assert IndexOf(a, IdOf, other) < |a|;
  }

  lemma StepKeepsBalance(states: seq<seq<Row>>, ops: seq<Op>, m: nat, id: Id)
    requires Run(states, ops) && m < |ops|
    requires Balanced(states[m], id, Claims(ops, m, id), Completions(states, ops, m, id))
    ensures Balanced(states[m + 1], id, Claims(ops, m + 1, id), Completions(states, ops, m + 1, id))
  {
    assert Next(states[m], ops[m], states[m + 1]);
    NextKeepsBalance(states[m], ops[m], states[m + 1], id, Claims(ops, m, id), Completions(states, ops, m, id));
  }

  // At every moment of every run a row has been claimed as often as its attempts say, at most five times, and
  // completed once per claim except for the single claim that holds it while it is PROCESSING.
  lemma {:induction false} ClaimsBalance(states: seq<seq<Row>>, ops: seq<Op>, k: nat, id: Id)
    requires Run(states, ops) && k <= |ops|
    ensures Balanced(states[k], id, Claims(ops, k, id), Completions(states, ops, k, id))
  {
    if k > 0 {
      ClaimsBalance(states, ops, k - 1, id);
      StepKeepsBalance(states, ops, k - 1, id);
    }
  }

  // Rows are only added at the end and keep their id.
  lemma PlaceIsKept(a: seq<Row>, op: Op, b: seq<Row>, id: Id)
    requires Next(a, op, b)
    ensures |a| <= |b| <= |a| + 1
    ensures IndexOf(a, IdOf, id) < |a| ==> IndexOf(b, IdOf, id) == IndexOf(a, IdOf, id)
    ensures IndexOf(a, IdOf, id) == |a| && IndexOf(b, IdOf, id) < |b| ==>
      op.Deliver? && op.id == id && IndexOf(b, IdOf, id) == |a| && b == a + [NewRow(id, op.request, op.at)]
  {
    forall i | 0 <= i < |a| ensures a[i].id == b[i].id {}
  }

  // -------------------------------------------------------------------- what each call leaves

  // All rows but number `i` are as they were.
  ghost predicate OnlyRow(a: seq<Row>, b: seq<Row>, i: nat) {
    |b| == |a| && forall j :: 0 <= j < |a| && j != i ==> b[j] == a[j]
  }

  // What a delivery keeps in the row for good.
  ghost predicate SameDelivery(r: Row, q: Row) {
    q.id == r.id && q.request == r.request && q.receivedAt == r.receivedAt
  }

  /** A delivery with a new request id waits, unclaimed and due at once; a known one changes nothing. */
  lemma DeliveredWaits(a: seq<Row>, id: Id, request: string, at: Time, b: seq<Row>)
    requires Next(a, Op.Deliver(id, request, at), b)
    ensures Ingest(a, id, request, at).1 <==> forall r :: r in a ==> r.request != request && r.id != id
    ensures if (exists r :: r in a && (r.request == request || r.id == id)) then b == a
            else
              && |b| == |a| + 1 && a <= b
              && b[|a|].id == id && b[|a|].request == request && b[|a|].receivedAt == at
              && b[|a|].state == Received && b[|a|].attempts == 0 && b[|a|].nextAttemptAt.None?
  {
    assert Known(a, request) <==> exists r :: r in a && r.request == request;
    var i := IndexOf(a, IdOf, id);
    assert i < |a| ==> a[i] in a;
  }

  // Received or to be retried, used up neither, due, and not locked by another worker.
  ghost predicate Waiting(r: Row, now: Time, locked: set<Id>) {
    && (r.state == Received || r.state == FailedRetryable) && r.attempts < 5
    && (r.nextAttemptAt.Some? ==> r.nextAttemptAt.value <= now)
    && r.id !in locked
  }

  /** Any row may be claimed that is waiting and received no later than any other waiting one, and only such rows. */
  lemma MayClaimIff(a: seq<Row>, i: nat, now: Time, locked: set<Id>)
    requires i < |a|
    ensures MayClaim(a, i, now, locked) <==>
      Waiting(a[i], now, locked) && forall r :: r in a && Waiting(r, now, locked) ==> a[i].receivedAt <= r.receivedAt
  {
    assert forall j :: 0 <= j < |a| ==> (Ready(a[j], now, locked) <==> Waiting(a[j], now, locked)) && a[j] in a;
    if MayClaim(a, i, now, locked) {
      forall r | r in a && Waiting(r, now, locked) ensures a[i].receivedAt <= r.receivedAt {
        var j :| 0 <= j < |a| && a[j] == r;
      }
    }
  }

  /** A claim holds an open, due row of the inbox with one more attempt, and no other row changes. */
  lemma ClaimedIsHeld(a: seq<Row>, id: Id, now: Time, locked: set<Id>, b: seq<Row>) returns (i: nat)
    requires Next(a, Op.Claim(id, now, locked), b)
    ensures i < |a| && OnlyRow(a, b, i) && SameDelivery(a[i], b[i]) && a[i].id == id && id !in locked
    ensures a[i].state == Received || a[i].state == FailedRetryable
    ensures a[i].nextAttemptAt.Some? ==> a[i].nextAttemptAt.value <= now
    ensures a[i].attempts < 5 && b[i].attempts == a[i].attempts + 1 && b[i].state == Processing
  {
    i := IndexOf(a, IdOf, id);
  }

  /** Nothing is claimed exactly when no row is waiting. */
  lemma NothingClaimedIff(a: seq<Row>, now: Time, locked: set<Id>, b: seq<Row>)
    ensures Next(a, ClaimNothing(now, locked), b) <==> b == a && forall r :: r in a ==> !Waiting(r, now, locked)
  {
    assert forall j :: 0 <= j < |a| ==> (Ready(a[j], now, locked) <==> Waiting(a[j], now, locked)) && a[j] in a;
    if Next(a, ClaimNothing(now, locked), b) {
      forall r | r in a ensures !Waiting(r, now, locked) {
        var j :| 0 <= j < |a| && a[j] == r;
      }
    }
  }

  /** A completion records what it was asked to: the outcome, its reason, the next attempt and when it was final. */
  lemma FinishedRecords(a: seq<Row>, id: Id, outcome: State, failure: Option<string>, retryAt: Option<Time>,
                        now: Time, b: seq<Row>)
    requires Next(a, Op.Settle(id, outcome, failure, retryAt, now), b)
    ensures var i := IndexOf(a, IdOf, id);
      if i < |a| && a[i].state == Processing
         && (outcome == Processed || outcome == FailedRetryable || outcome == FailedPermanent) then
        && OnlyRow(a, b, i) && SameDelivery(a[i], b[i]) && b[i].attempts == a[i].attempts
        && b[i].state == outcome && b[i].failure == failure && b[i].nextAttemptAt == retryAt
        && b[i].processedAt == (if outcome == FailedRetryable then None else Some(now))
      else b == a
  {
  }

  // ------------------------------------------------------------------------- final outcomes

  lemma NextKeepsTerminal(a: seq<Row>, op: Op, b: seq<Row>, i: nat)
    requires Next(a, op, b) && i < |a| && Terminal(a[i].state)
    ensures i < |b| && b[i] == a[i]
  {}

  // A row that reached PROCESSED or FAILED_PERMANENT is never changed again.
  lemma {:induction false} TerminalIsFinal(states: seq<seq<Row>>, ops: seq<Op>, j: nat, k: nat, i: nat)
    requires Run(states, ops) && j <= k < |states| && i < |states[j]|
    requires states[j][i].state == Processed || states[j][i].state == FailedPermanent
    ensures i < |states[k]| && states[k][i] == states[j][i]
    decreases k
  {
    if j < k {
      TerminalIsFinal(states, ops, j, k - 1, i);
      assert Next(states[k - 1], ops[k - 1], states[k]);
      NextKeepsTerminal(states[k - 1], ops[k - 1], states[k], i);
    }
  }

  // ------------------------------------------------------------------------- delayed retries

  ghost predicate Waits(rows: seq<Row>, id: Id, until: Time) {
    var i := IndexOf(rows, IdOf, id);
    i < |rows| && rows[i].state == FailedRetryable && rows[i].nextAttemptAt == Some(until)
  }

  lemma NextKeepsWaiting(a: seq<Row>, op: Op, b: seq<Row>, id: Id, until: Time)
    requires Next(a, op, b) && Waits(a, id, until) && !ClaimOf(op, id)
    ensures Waits(b, id, until)
  {
    PlaceIsKept(a, op, b, id);
    match op
    case Deliver(_, _, _) =>
    case Claim(other, _, _) => PlaceIsKept(a, op, b, other);
    case ClaimNothing(_, _) =>
    case Settle(other, _, _, _, _) => PlaceIsKept(a, op, b, other);
  }

  lemma StepKeepsWaiting(states: seq<seq<Row>>, ops: seq<Op>, m: nat, id: Id, until: Time)
    requires Run(states, ops) && m < |ops| && Waits(states[m], id, until) && !ClaimOf(ops[m], id)
    ensures Waits(states[m + 1], id, until)
  {
    assert Next(states[m], ops[m], states[m + 1]);
    NextKeepsWaiting(states[m], ops[m], states[m + 1], id, until);
  }

  lemma {:induction false} StillWaiting(states: seq<seq<Row>>, ops: seq<Op>, j: nat, k: nat, id: Id, until: Time)
    requires Run(states, ops) && j <= k < |states| && Waits(states[j], id, until)
    requires forall m :: j <= m < k ==> !ClaimOf(ops[m], id)
    ensures Waits(states[k], id, until)
    decreases k
  {
    if j < k {
      StillWaiting(states, ops, j, k - 1, id, until);
      StepKeepsWaiting(states, ops, k - 1, id, until);
    }
  }

  // After a completion that asks for a retry at a given time, the next claim of the row is not before it.
  lemma RetryWaitsItsTime(states: seq<seq<Row>>, ops: seq<Op>, j: nat, k: nat, id: Id)
    requires Run(states, ops) && j < k < |ops|
    requires Completes(states[j], ops[j], id) && ops[j].outcome == FailedRetryable && ops[j].retryAt.Some?
    requires ClaimOf(ops[k], id) && forall m :: j < m < k ==> !ClaimOf(ops[m], id)
    ensures ops[k].now >= ops[j].retryAt.value
  {
    var until := ops[j].retryAt.value;
    PlaceIsKept(states[j], ops[j], states[j + 1], id);
    assert Waits(states[j + 1], id, until);
    StillWaiting(states, ops, j + 1, k, id, until);
    assert Next(states[k], ops[k], states[k + 1]);
  }

  // -------------------------------------------------------------------------- bounded work

  // What is still ahead of a row: two calls per attempt left and one to complete an open claim.
  function WorkOf(r: Row): nat {
    (if r.attempts <= MAX_ATTEMPTS then 2 * (MAX_ATTEMPTS - r.attempts) else 0) + Held(r)
  }

  function Sum(rows: seq<Row>, weight: Row -> nat): nat {
    if rows == [] then 0 else Sum(rows[..|rows| - 1], weight) + weight(rows[|rows| - 1])
  }

  function Work(rows: seq<Row>): nat { Sum(rows, WorkOf) }

  lemma {:induction false} SumAfterUpdate(rows: seq<Row>, i: nat, r: Row, weight: Row -> nat)
    requires i < |rows|
    ensures Sum(rows[i := r], weight) == Sum(rows, weight) - weight(rows[i]) + weight(r)
    decreases |rows|
  {
    var n := |rows| - 1;
    if i == n {
      assert rows[i := r][..n] == rows[..n];
    } else {
      assert rows[i := r][..n] == rows[..n][i := r];
      SumAfterUpdate(rows[..n], i, r, weight);
    }
  }

  // Whether the call claims or completes anything.
  ghost predicate Works(a: seq<Row>, op: Op) { op.Claim? || (op.Settle? && Completes(a, op, op.id)) }

  lemma DeliveryAddsWork(a: seq<Row>, op: Op, b: seq<Row>)
    requires op.Deliver? && Next(a, op, b)
    ensures b == a || (!Known(a, op.request) && |b| == |a| + 1 && Work(b) == Work(a) + 2 * MAX_ATTEMPTS)
  {
    if b != a { assert b[..|a|] == a; }
  }

  lemma ClaimUsesWork(a: seq<Row>, op: Op, b: seq<Row>)
    requires op.Claim? && Inv(a) && Next(a, op, b)
    ensures Work(b) < Work(a) && |b| == |a|
  {
    var i := IndexOf(a, IdOf, op.id);
    SumAfterUpdate(a, i, Claimed(a[i]), WorkOf);
  }

  lemma CompletionUsesWork(a: seq<Row>, op: Op, b: seq<Row>)
    requires op.Settle? && Inv(a) && Next(a, op, b)
    ensures if Completes(a, op, op.id) then Work(b) < Work(a) && |b| == |a| else b == a
  {
    var i := IndexOf(a, IdOf, op.id);
    if Completes(a, op, op.id) {
      SumAfterUpdate(a, i, Finished(a[i], op.outcome, op.failure, op.retryAt, op.now), WorkOf);
    }
  }

  // Every claim and every completion uses up work, and only a new request id adds any: a termination measure.
  lemma WorkDecreases(a: seq<Row>, op: Op, b: seq<Row>)
    requires Inv(a) && Next(a, op, b)
    ensures Works(a, op) ==> Work(b) < Work(a) && |b| == |a|
    ensures !Works(a, op) ==>
      || b == a
      || (op.Deliver? && !Known(a, op.request) && |b| == |a| + 1 && Work(b) == Work(a) + 2 * MAX_ATTEMPTS)
  {
    match op
    case Deliver(_, _, _) => DeliveryAddsWork(a, op, b);
    case Claim(_, _, _) => ClaimUsesWork(a, op, b);
    case ClaimNothing(_, _) =>
    case Settle(_, _, _, _, _) => CompletionUsesWork(a, op, b);
  }

  ghost function Effort(a: seq<Row>, op: Op): nat { if Works(a, op) then 1 else 0 }

  ghost function WorkDone(states: seq<seq<Row>>, ops: seq<Op>, k: nat): nat
    requires |states| == |ops| + 1 && k <= |ops|
  {
    if k == 0 then 0 else WorkDone(states, ops, k - 1) + Effort(states[k - 1], ops[k - 1])
  }

  function RequestsOf(ops: seq<Op>): set<string> {
    set k | 0 <= k < |ops| && ops[k].Deliver? :: ops[k].request
  }

  function Stored(rows: seq<Row>): set<string> { set i | 0 <= i < |rows| :: rows[i].request }

  lemma StoredSplits(rows: seq<Row>)
    requires rows != []
    ensures var n := |rows| - 1; Stored(rows) == Stored(rows[..n]) + {rows[n].request}
  {
    var n := |rows| - 1;
    forall r | r in Stored(rows[..n]) ensures r in Stored(rows) {
      var i :| 0 <= i < n && rows[..n][i].request == r;
      assert rows[i].request == r;
    }
  }

  lemma {:induction false} OneRowPerRequest(rows: seq<Row>)
    requires Inv(rows)
    ensures |Stored(rows)| == |rows|
    decreases |rows|
  {
    if rows != [] {
      var n := |rows| - 1;
      OneRowPerRequest(rows[..n]);
      StoredSplits(rows);
    }
  }

  lemma StoredGrows(a: seq<Row>, op: Op, b: seq<Row>, requests: set<string>)
    requires Next(a, op, b) && Stored(a) <= requests && (op.Deliver? ==> op.request in requests)
    ensures Stored(b) <= requests
  {
    forall i | 0 <= i < |b| ensures b[i].request in requests {
      if i < |a| { assert b[i].request == a[i].request && a[i].request in Stored(a); }
    }
  }

  lemma Delivered(ops: seq<Op>, k: nat)
    requires k < |ops| && ops[k].Deliver?
    ensures ops[k].request in RequestsOf(ops)
  {}

  lemma {:induction false} StoredWereDelivered(states: seq<seq<Row>>, ops: seq<Op>, k: nat)
    requires Run(states, ops) && k <= |ops|
    ensures Stored(states[k]) <= RequestsOf(ops)
  {
    if k > 0 {
      StoredWereDelivered(states, ops, k - 1);
      if ops[k - 1].Deliver? { Delivered(ops, k - 1); }
      StoredGrows(states[k - 1], ops[k - 1], states[k], RequestsOf(ops));
    }
  }

  ghost predicate Paid(states: seq<seq<Row>>, ops: seq<Op>, k: nat)
    requires k < |ops| && |states| == |ops| + 1
  {
    Effort(states[k], ops[k]) + Work(states[k + 1])
      <= Work(states[k]) + 2 * MAX_ATTEMPTS * (|states[k + 1]| - |states[k]|)
  }

  lemma StepsArePaid(states: seq<seq<Row>>, ops: seq<Op>, k: nat)
    requires Run(states, ops) && k < |ops|
    ensures Paid(states, ops, k)
  {
    InvAlways(states, ops, k);
    WorkDecreases(states[k], ops[k], states[k + 1]);
  }

  lemma {:induction false} WorkIsPaid(states: seq<seq<Row>>, ops: seq<Op>, k: nat)
    requires |states| == |ops| + 1 && states[0] == [] && k <= |ops|
    requires forall i :: 0 <= i < |ops| ==> Paid(states, ops, i)
    ensures WorkDone(states, ops, k) + Work(states[k]) <= 2 * MAX_ATTEMPTS * |states[k]|
  {
    if k > 0 {
      WorkIsPaid(states, ops, k - 1);
      assert Paid(states, ops, k - 1);
    }
  }

  lemma RowsAreRequests(rows: seq<Row>, requests: set<string>)
    requires Inv(rows) && Stored(rows) <= requests
    ensures |rows| <= |requests|
  {
    OneRowPerRequest(rows);
    SubsetSize(Stored(rows), requests);
  }

  // However often webhooks are redelivered and workers call, the claims and completions of a whole run number
  // at most ten per distinct request id.
  lemma WorkIsBounded(states: seq<seq<Row>>, ops: seq<Op>)
    requires Run(states, ops)
    ensures WorkDone(states, ops, |ops|) <= 2 * MAX_ATTEMPTS * |RequestsOf(ops)|
  {
    forall k | 0 <= k < |ops| ensures Paid(states, ops, k) { StepsArePaid(states, ops, k); }
    WorkIsPaid(states, ops, |ops|);
    StoredWereDelivered(states, ops, |ops|);
    InvAlways(states, ops, |ops|);
    RowsAreRequests(states[|ops|], RequestsOf(ops));
  }

  // ---------------------------------------------------------------------------- all claims

  function AttemptsOf(r: Row): nat { r.attempts }

  ghost function AllClaims(ops: seq<Op>, k: nat): nat
    requires k <= |ops|
  {
    if k == 0 then 0 else AllClaims(ops, k - 1) + if ops[k - 1].Claim? then 1 else 0
  }

  lemma NextCountsClaims(a: seq<Row>, op: Op, b: seq<Row>)
    requires Next(a, op, b)
    ensures Sum(b, AttemptsOf) == Sum(a, AttemptsOf) + if op.Claim? then 1 else 0
  {
    match op
    case Deliver(_, _, _) => if b != a { assert b[..|a|] == a; }
    case Claim(id, _, _) => SumAfterUpdate(a, IndexOf(a, IdOf, id), Claimed(a[IndexOf(a, IdOf, id)]), AttemptsOf);
    case ClaimNothing(_, _) =>
    case Settle(id, outcome, failure, retryAt, now) =>
      var i := IndexOf(a, IdOf, id);
      if i < |a| && b != a {
        SumAfterUpdate(a, i, Finished(a[i], outcome, failure, retryAt, now), AttemptsOf);
      }
  }

  lemma {:induction false} ClaimsAreAttempts(states: seq<seq<Row>>, ops: seq<Op>, k: nat)
    requires Run(states, ops) && k <= |ops|
    ensures AllClaims(ops, k) == Sum(states[k], AttemptsOf)
  {
    if k > 0 {
      ClaimsAreAttempts(states, ops, k - 1);
      NextCountsClaims(states[k - 1], ops[k - 1], states[k]);
    }
  }

  lemma {:induction false} AttemptsAreBounded(rows: seq<Row>)
    requires forall i :: 0 <= i < |rows| ==> rows[i].attempts <= MAX_ATTEMPTS
    ensures Sum(rows, AttemptsOf) <= MAX_ATTEMPTS * |rows|
    decreases |rows|
  {
    if rows != [] { AttemptsAreBounded(rows[..|rows| - 1]); }
  }

  // All workers together claim at most five times per distinct request id.
  lemma ClaimsAreBounded(states: seq<seq<Row>>, ops: seq<Op>)
    requires Run(states, ops)
    ensures AllClaims(ops, |ops|) <= MAX_ATTEMPTS * |RequestsOf(ops)|
  {
    var rows := states[|ops|];
    ClaimsAreAttempts(states, ops, |ops|);
    InvAlways(states, ops, |ops|);
    AttemptsAreBounded(rows);
    StoredWereDelivered(states, ops, |ops|);
    RowsAreRequests(rows, RequestsOf(ops));
  }
}
