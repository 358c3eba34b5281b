/** The table of operator reports as the service writes it: reports appended, revocations set once. */
module PresenceService {
  import opened Base
  import opened Lists
  import opened ManualPresence
  import opened ManualPresenceLaws

  class PresenceReports {
    var rows: seq<Report>

    // Reports valid, ids distinct.
    ghost predicate Valid()
      reads this
    {
      Inv(rows)
    }

    constructor ()
      ensures Valid() && rows == []
    {
      rows := [];
    }

    method SubmitManualPresence(c: Classroom, id: Id, input: Input, observed: Time, created: Time)
      returns (error: Option<PresenceError>)
      requires Valid()
      modifies this
      ensures Valid()
      ensures (rows, error) == Submit(old(rows), c, id, input, observed, created)
    {
      StepKeepsInv(rows, SubmitReport(c, id, input, observed, created));
      var refusal := Refusal(c, input);
      if refusal.Some? { return refusal; }
      var i := Find(rows, IdOf, id);
      if i < |rows| || observed > created + MAX_FUTURE_SKEW { return Some(ConstraintViolation); }
      rows := rows + [NewReport(c, id, input, observed, created)];
      return None;
    }

    method RevokeManualPresence(room: Id, id: Id, at: Time) returns (error: Option<PresenceError>)
      requires Valid()
      modifies this
      ensures Valid()
      ensures (rows, error) == Revoke(old(rows), room, id, at)
    {
      StepKeepsInv(rows, RevokeReport(room, id, at));
      var i := Find(rows, IdOf, id);
      if i == |rows| || rows[i].room != room { return Some(NotFound); }
      if rows[i].revokedAt.None? {
        if at < rows[i].createdAt { return Some(ConstraintViolation); }
        rows := rows[i := rows[i].(revokedAt := Some(at))];
      }
      return None;
    }
  }
}
