/** The inbox table behind its three functions: deliveries ingested, rows claimed and finished in place. */
module WebhookTable {
  import opened Base
  import opened Lists
  import opened WebhookInbox
  import opened WebhookInboxLaws

  class RingWebhookInbox {
    var rows: seq<Row>

    // One row per request id, at most five attempts, processed times exactly on final rows.
    ghost predicate Valid()
      reads this
    {
      Inv(rows)
    }

    constructor ()
      ensures Valid() && rows == []
    {
      rows := [];
    }

    method IngestRingWebhook(id: Id, request: string, at: Time) returns (inserted: bool)
      requires Valid()
      modifies this
      ensures Valid()
      ensures (rows, inserted) == Ingest(old(rows), id, request, at)
    {
      var own := Find(rows, IdOf, id);
      if own < |rows| { return false; }
      for i := 0 to |rows|
        invariant forall j :: 0 <= j < i ==> rows[j].request != request
      {
        if rows[i].request == request { return false; }
      }
      rows := rows + [NewRow(id, request, at)];
      return true;
    }

    method ClaimNextRingWebhook(now: Time, locked: set<Id>) returns (claimed: Option<Row>)
      requires Valid()
      modifies this
      ensures Valid()
      ensures claimed.None? ==> rows == old(rows) && NothingToClaim(rows, now, locked)
      ensures claimed.Some? ==> exists i ::
        && MayClaim(old(rows), i, now, locked)
        && claimed.value == Claimed(old(rows)[i]) && rows == old(rows)[i := claimed.value]
    {
      var candidate: nat := |rows|;
      for i := 0 to |rows|
        invariant candidate == |rows| || (candidate < i && Ready(rows[candidate], now, locked))
        invariant forall j :: 0 <= j < i && Ready(rows[j], now, locked) ==>
          candidate < |rows| && rows[candidate].receivedAt <= rows[j].receivedAt
      {
        if Ready(rows[i], now, locked) && (candidate == |rows| || rows[i].receivedAt < rows[candidate].receivedAt) {
          candidate := i;
        }
      }
      if candidate == |rows| { return None; }
      assert MayClaim(rows, candidate, now, locked);
      rows := rows[candidate := rows[candidate].(state := Processing, attempts := rows[candidate].attempts + 1)];
      return Some(rows[candidate]);
    }

    method FinishRingWebhook(id: Id, outcome: State, failure: Option<string>, retryAt: Option<Time>, now: Time)
      returns (done: Result<bool, ()>)
      requires Valid()
      modifies this
      ensures Valid()
      ensures (rows, done) == Finish(old(rows), id, outcome, failure, retryAt, now)
    {
      ghost var after := Finish(rows, id, outcome, failure, retryAt, now).0;
      NextKeepsInv(rows, Settle(id, outcome, failure, retryAt, now), after);
      if !(outcome == Processed || outcome == FailedRetryable || outcome == FailedPermanent) { return Err(()); }
      var i := Find(rows, IdOf, id);
      if i == |rows| || rows[i].state != Processing { return Ok(false); }
      var processedAt := if outcome == Processed || outcome == FailedPermanent then Some(now) else None;
      rows := rows[i := rows[i].(
        state := outcome, failure := failure, nextAttemptAt := retryAt, processedAt := processedAt)];
      return Ok(true);
    }
  }
}
