/**
  The webhook inbox: deliveries stored once per request id, claimed by any number of workers one row at a time,
  retried a bounded number of times.
 */
module WebhookInbox {
  import opened Base
  import opened Lists

  const MAX_ATTEMPTS: nat := 5

  datatype State = Received | Processing | Processed | FailedRetryable | FailedPermanent

  // The payload columns are written once and play no part.
  datatype Row = Row(
    id: Id, request: string, receivedAt: Time,
    state: State, attempts: nat, nextAttemptAt: Option<Time>, failure: Option<string>, processedAt: Option<Time>)

  predicate Terminal(s: State) { s == Processed || s == FailedPermanent }

  ghost predicate Known(rows: seq<Row>, request: string) {
    exists i :: 0 <= i < |rows| && rows[i].request == request
  }

  function IdOf(r: Row): Id { r.id }

  // -------------------------------------------------------------------------------- steps

  function NewRow(id: Id, request: string, at: Time): Row {
    Row(id, request, at, Received, 0, None, None, None)
  }

  // A repeated request id changes nothing; the row's own id is a new random one.
  ghost function Ingest(rows: seq<Row>, id: Id, request: string, at: Time): (seq<Row>, bool) {
    if Known(rows, request) || IndexOf(rows, IdOf, id) < |rows| then (rows, false)
    else (rows + [NewRow(id, request, at)], true)
  }

  predicate Claimable(r: Row, now: Time) {
    && (r.state == Received || r.state == FailedRetryable)
    && (r.nextAttemptAt.None? || r.nextAttemptAt.value <= now)
    && r.attempts < MAX_ATTEMPTS
  }

  predicate Ready(r: Row, now: Time, locked: set<Id>) { Claimable(r, now) && r.id !in locked }

  // The rows locked by other workers' open transactions are skipped; of the others the earliest received goes
  // first, and the database may pick any of equally early ones.
  ghost predicate MayClaim(rows: seq<Row>, i: int, now: Time, locked: set<Id>) {
    && 0 <= i < |rows| && Ready(rows[i], now, locked)
    && forall j :: 0 <= j < |rows| && Ready(rows[j], now, locked) ==> rows[i].receivedAt <= rows[j].receivedAt
  }

  ghost predicate NothingToClaim(rows: seq<Row>, now: Time, locked: set<Id>) {
    forall j :: 0 <= j < |rows| ==> !Ready(rows[j], now, locked)
  }

  function Claimed(r: Row): Row { r.(state := Processing, attempts := r.attempts + 1) }

  predicate Completion(s: State) { s == Processed || s == FailedRetryable || s == FailedPermanent }

  function Finished(r: Row, outcome: State, failure: Option<string>, retryAt: Option<Time>, now: Time): Row {
    r.(state := outcome, failure := failure, nextAttemptAt := retryAt,
       processedAt := if Terminal(outcome) then Some(now) else None)
  }

  // Err: the requested state is none of the three completions.
  ghost function Finish(
    rows: seq<Row>, id: Id, outcome: State, failure: Option<string>, retryAt: Option<Time>, now: Time)
    : (seq<Row>, Result<bool, ()>)
  {
    var i := IndexOf(rows, IdOf, id);
    if !Completion(outcome) then (rows, Err(()))
    else if i == |rows| || rows[i].state != Processing then (rows, Ok(false))
    else (rows[i := Finished(rows[i], outcome, failure, retryAt, now)], Ok(true))
  }
}
