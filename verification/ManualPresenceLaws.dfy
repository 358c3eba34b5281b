/** Authority of operator reports over whole runs: supersession, revocation and expiry are permanent. */
module ManualPresenceLaws {
  import opened Base
  import opened Lists
  import opened Presence
  import opened RatioEvaluation
  import opened ManualPresence

  datatype Op =
    | SubmitReport(room: Classroom, id: Id, input: Input, observed: Time, created: Time)
    | RevokeReport(roomId: Id, id: Id, at: Time)
    | AnyUpdate(id: Id, after: Report)   // whatever UPDATE reaches the table, through the trigger

  ghost function Step(rows: seq<Report>, op: Op): seq<Report> {
    match op
    case SubmitReport(c, id, input, observed, created) => Submit(rows, c, id, input, observed, created).0
    case RevokeReport(room, id, at) => Revoke(rows, room, id, at).0
    case AnyUpdate(id, after) => UpdateRow(rows, id, after).0
  }

  // Every state of the table in a run, the empty table first.
  ghost predicate Run(states: seq<seq<Report>>, ops: seq<Op>) {
    && |states| == |ops| + 1
    && states[0] == []
    && forall k :: 0 <= k < |ops| ==> states[k + 1] == Step(states[k], ops[k])
  }

  ghost predicate Inv(rows: seq<Report>) {
    && (forall i, j :: 0 <= i < j < |rows| ==> rows[i].id != rows[j].id)
    && forall i :: 0 <= i < |rows| ==> ValidReport(rows[i])
  }

  lemma NewReportIsValid(c: Classroom, id: Id, input: Input, observed: Time, created: Time)
    requires Refusal(c, input).None?
    ensures ValidReport(NewReport(c, id, input, observed, created))
  {
    var r := NewReport(c, id, input, observed, created);
    assert r.validUntil - r.observedAt == input.validFor * SECOND;
    assert ValidForSeconds(r) == input.validFor;
  }

  lemma SubmitKeepsInv(rows: seq<Report>, c: Classroom, id: Id, input: Input, observed: Time, created: Time)
    requires Inv(rows)
    ensures Inv(Submit(rows, c, id, input, observed, created).0)
  {
    if Refusal(c, input).None? { NewReportIsValid(c, id, input, observed, created); }
  }

  lemma UpdateKeepsInv(rows: seq<Report>, id: Id, after: Report)
    requires Inv(rows)
    ensures Inv(UpdateRow(rows, id, after).0)
  {
    var i := IndexOf(rows, IdOf, id);
    if i < |rows| && GuardAllows(rows[i], after) {
      assert after == rows[i].(revokedAt := after.revokedAt) && ValidReport(rows[i]);
    }
  }

  lemma StepKeepsInv(rows: seq<Report>, op: Op)
    requires Inv(rows)
    ensures Inv(Step(rows, op))
  {
    match op
    case SubmitReport(c, id, input, observed, created) => SubmitKeepsInv(rows, c, id, input, observed, created);
    case RevokeReport(_, id, at) =>
      var i := IndexOf(rows, IdOf, id);
      if i < |rows| { UpdateKeepsInv(rows, id, rows[i].(revokedAt := Some(at))); }
    case AnyUpdate(id, after) => UpdateKeepsInv(rows, id, after);
  }

  lemma {:induction false} InvAlways(states: seq<seq<Report>>, ops: seq<Op>, k: nat)
    requires Run(states, ops) && k < |states|
    ensures Inv(states[k])
  {
    if k > 0 {
      InvAlways(states, ops, k - 1);
      StepKeepsInv(states[k - 1], ops[k - 1]);
    }
  }

  // Reports are only added, and only their revocation is ever written.
  ghost predicate Grows(a: seq<Report>, b: seq<Report>) {
    && |a| <= |b|
    && forall i :: 0 <= i < |a| ==>
      && b[i] == a[i].(revokedAt := b[i].revokedAt)
      && (a[i].revokedAt.Some? ==> b[i].revokedAt == a[i].revokedAt)
  }

  lemma StepGrows(rows: seq<Report>, op: Op)
    ensures Grows(rows, Step(rows, op))
  {
  }

  lemma {:induction false} RunGrows(states: seq<seq<Report>>, ops: seq<Op>, j: nat, k: nat)
    requires Run(states, ops) && j <= k < |states|
    ensures Grows(states[j], states[k])
    decreases k
  {
    if j < k {
      RunGrows(states, ops, j, k - 1);
      StepGrows(states[k - 1], ops[k - 1]);
      GrowsIsTransitive(states[j], states[k - 1], states[k]);
    }
  }

  lemma GrowsIsTransitive(a: seq<Report>, b: seq<Report>, c: seq<Report>)
    requires Grows(a, b) && Grows(b, c)
    ensures Grows(a, c)
  {
    forall i | 0 <= i < |a|
      ensures c[i] == a[i].(revokedAt := c[i].revokedAt)
      ensures a[i].revokedAt.Some? ==> c[i].revokedAt == a[i].revokedAt
    {
      assert b[i] == a[i].(revokedAt := b[i].revokedAt);
    }
  }

  // ------------------------------------------------------------------ what authority means

  // The report's own window, with the tolerated clock skew.
  predicate Within(r: Report, now: Time) { r.observedAt - MAX_FUTURE_SKEW <= now < r.validUntil }

  lemma WindowIsFreshness(r: Report, role: Role, count: int, now: Time)
    requires ValidReport(r)
    ensures FreshnessOf(Some(CountOf(r, role, count)), now) == Fresh <==> Within(r, now)
  {
    assert ValidForSeconds(r) * SECOND == r.validUntil - r.observedAt;
  }

  // The engine finds every count of a report exactly as fresh as the report itself.
  lemma SnapshotSharesTheWindow(r: Report, role: Role, now: Time)
    requires ValidReport(r) && Slot(ToSnapshot(r), role).Some?
    ensures ValidCount(Slot(ToSnapshot(r), role).value)
    ensures FreshnessOf(Slot(ToSnapshot(r), role), now) == Fresh <==> Within(r, now)
    ensures Some(Slot(ToSnapshot(r), role).value.count) ==
              match role
              case Child => r.children
              case QualifiedStaff => r.staff
              case Visitor => Some(r.visitors)
              case Unknown => None
  {
    WindowIsFreshness(r, role, Slot(ToSnapshot(r), role).value.count, now);
  }

  ghost predicate IsNewest(rows: seq<Report>, r: Report) {
    && r in rows
    && forall x :: x in rows && x.room == r.room && x != r ==> Newer(r, x)
  }

  lemma NewestIsNewest(rows: seq<Report>, room: Id)
    requires Inv(rows) && Own(rows, room) != []
    ensures IsNewest(rows, Newest(Own(rows, room))) && Newest(Own(rows, room)).room == room
  {
    var own := Own(rows, room);
    var r := Newest(own);
    forall x | x in rows && x.room == r.room && x != r ensures Newer(r, x) {
      assert x in own;
      var i :| 0 <= i < |rows| && rows[i] == x;
      var j :| 0 <= j < |rows| && rows[j] == r;
      assert i != j && x.id != r.id;
    }
  }

  // Authority in one line: the room's newest report, unrevoked, within its window.
  lemma AuthorityIff(rows: seq<Report>, room: Id, now: Time, r: Report)
    requires Inv(rows)
    ensures Authority(rows, room, now) == Some(r) <==>
      IsNewest(rows, r) && r.room == room && r.revokedAt.None? && Within(r, now)
  {
    var own := Own(rows, room);
    if own != [] {
      NewestIsNewest(rows, room);
      var latest := Newest(own);
      assert IsNewest(rows, r) && r.room == room ==> r == latest;
      var i :| 0 <= i < |rows| && rows[i] == latest;
      WindowIsFreshness(latest, Visitor, latest.visitors, now);
    } else if r in rows {
      assert r.room == room ==> r in own;
    }
  }

  // ------------------------------------------------------------------------ the run theorems

  predicate Speaks(rows: seq<Report>, room: Id, now: Time, id: Id) {
    Authority(rows, room, now).Some? && Authority(rows, room, now).value.id == id
  }

  lemma NewestEarlier(a: seq<Report>, b: seq<Report>, i: nat)
    requires Inv(a) && Inv(b) && Grows(a, b) && i < |a| && IsNewest(b, b[i])
    ensures IsNewest(a, a[i])
  {
    forall x | x in a && x.room == a[i].room && x != a[i] ensures Newer(a[i], x) {
      var j :| 0 <= j < |a| && a[j] == x;
      assert b[j] != b[i] by { assert b[j].id != b[i].id; }
      assert b[j] in b && Newer(b[i], b[j]);
    }
  }

  lemma IdAt(rows: seq<Report>, i: nat, r: Report)
    requires Inv(rows) && i < |rows| && r in rows && r.id == rows[i].id
    ensures r == rows[i]
  {
    var j :| 0 <= j < |rows| && rows[j] == r;
  }

  // The row that speaks, by its place in the table.
  lemma SpeakerAt(rows: seq<Report>, room: Id, now: Time, id: Id) returns (n: nat)
    requires Inv(rows) && Speaks(rows, room, now, id)
    ensures n < |rows| && rows[n].id == id && rows[n].room == room
    ensures IsNewest(rows, rows[n]) && rows[n].revokedAt.None? && Within(rows[n], now)
  {
    var r := Authority(rows, room, now).value;
    AuthorityIff(rows, room, now, r);
    n :| 0 <= n < |rows| && rows[n] == r;
  }

  // A row that still leads a later table, unrevoked, led every earlier one it was in.
  lemma LedBefore(b: seq<Report>, c: seq<Report>, n: nat, now: Time)
    requires Inv(b) && Inv(c) && Grows(b, c) && n < |b|
    requires IsNewest(c, c[n]) && c[n].revokedAt.None? && Within(c[n], now)
    ensures Authority(b, c[n].room, now) == Some(c[n])
  {
    assert c[n] == b[n];
    NewestEarlier(b, c, n);
    AuthorityIff(b, b[n].room, now, b[n]);
  }

  lemma SamePlace(a: seq<Report>, c: seq<Report>, n: nat, m: nat)
    requires Inv(c) && Grows(a, c) && n < |a| && m < |c| && a[n].id == c[m].id
    ensures n == m && c[m].observedAt == a[n].observedAt
  {
    assert c[n] == a[n].(revokedAt := c[n].revokedAt);
  }

  lemma AuthorityIsConvex(
    a: seq<Report>, b: seq<Report>, c: seq<Report>, t1: Time, t2: Time, t3: Time, room: Id, id: Id)
    requires Inv(a) && Inv(b) && Inv(c) && Grows(a, b) && Grows(b, c) && Grows(a, c) && t1 <= t2 <= t3
    requires Speaks(a, room, t1, id) && Speaks(c, room, t3, id)
    ensures Speaks(b, room, t2, id)
  {
    var n := SpeakerAt(a, room, t1, id);
    var m := SpeakerAt(c, room, t3, id);
    SamePlace(a, c, n, m);
    LedBefore(b, c, m, t2);
  }

  // Whatever is submitted, revoked or attempted, and whatever times the submissions carry: between two moments
  // at which a report is authoritative it is authoritative all along. So a report that lost authority, by
  // supersession, revocation or expiry, never regains it.
  lemma AuthorityIsNeverRegained(
    states: seq<seq<Report>>, ops: seq<Op>, i: nat, j: nat, k: nat, t1: Time, t2: Time, t3: Time, room: Id, id: Id)
    requires Run(states, ops) && i <= j <= k < |states| && t1 <= t2 <= t3
    requires Speaks(states[i], room, t1, id) && !Speaks(states[j], room, t2, id)
    ensures !Speaks(states[k], room, t3, id)
  {
    InvAlways(states, ops, i);
    InvAlways(states, ops, j);
    InvAlways(states, ops, k);
    RunGrows(states, ops, i, j);
    RunGrows(states, ops, j, k);
    RunGrows(states, ops, i, k);
    if Speaks(states[k], room, t3, id) {
      AuthorityIsConvex(states[i], states[j], states[k], t1, t2, t3, room, id);
    }
  }

  lemma LastSpeaksIff(rows: seq<Report>, r: Report, now: Time)
    requires Inv(rows + [r]) && r.revokedAt.None? && Within(r, now)
    ensures Speaks(rows + [r], r.room, now, r.id) <==>
      forall x :: x in rows && x.room == r.room ==> Newer(r, x)
  {
    var after := rows + [r];
    assert after[|rows|] == r;
    forall x | x in rows ensures x in after && x != r {
      var i :| 0 <= i < |rows| && rows[i] == x;
      assert after[i] == x;
    }
    assert IsNewest(after, r) <==> forall x :: x in rows && x.room == r.room ==> Newer(r, x);
    AuthorityIff(after, r.room, now, r);
    if Speaks(after, r.room, now, r.id) {
      var n := SpeakerAt(after, r.room, now, r.id);
      IdAt(after, n, r);
    }
  }

  // An accepted report takes over within its window exactly when the room has no report that is ordered after
  // it, which strictly increasing submission times guarantee.
  lemma SubmissionTakesOverIff(
    states: seq<seq<Report>>, ops: seq<Op>, k: nat,
    c: Classroom, id: Id, input: Input, observed: Time, created: Time, now: Time)
    requires Run(states, ops) && k < |states|
    requires Submit(states[k], c, id, input, observed, created).1.None?
    requires observed - MAX_FUTURE_SKEW <= now < observed + input.validFor * SECOND
    ensures Speaks(Submit(states[k], c, id, input, observed, created).0, c.id, now, id) <==>
      forall x :: x in states[k] && x.room == c.id ==> Newer(NewReport(c, id, input, observed, created), x)
    ensures (forall x :: x in states[k] && x.room == c.id ==> x.observedAt < observed) ==>
      Speaks(Submit(states[k], c, id, input, observed, created).0, c.id, now, id)
  {
    InvAlways(states, ops, k);
    StepKeepsInv(states[k], SubmitReport(c, id, input, observed, created));
    LastSpeaksIff(states[k], NewReport(c, id, input, observed, created), now);
  }

  lemma OlderNeverSpeaks(rows: seq<Report>, i: nat, j: nat, now: Time)
    requires Inv(rows) && i < |rows| && j < |rows| && i != j
    requires rows[i].room == rows[j].room && !Newer(rows[i], rows[j])
    ensures !Speaks(rows, rows[i].room, now, rows[i].id)
  {
    assert rows[j] in rows && rows[j].id != rows[i].id;
    if Speaks(rows, rows[i].room, now, rows[i].id) {
      var n := SpeakerAt(rows, rows[i].room, now, rows[i].id);
    }
  }

  // What outranks a report of its room once keeps it silent for the rest of the run.
  lemma OutrankedNeverSpeaks(states: seq<seq<Report>>, ops: seq<Op>, j: nat, k: nat, x: nat, y: nat, now: Time)
    requires Run(states, ops) && j <= k < |states| && x < |states[j]| && y < |states[j]| && x != y
    requires states[j][x].room == states[j][y].room && !Newer(states[j][x], states[j][y])
    ensures !Speaks(states[k], states[j][x].room, now, states[j][x].id)
  {
    InvAlways(states, ops, k);
    RunGrows(states, ops, j, k);
    OlderNeverSpeaks(states[k], x, y, now);
  }

  // Without that order the newer submission does not count: after the clock steps back by a second, the report
  // that is submitted second is accepted and never speaks, whatever happens later and at whatever moment.
  lemma BackwardClockKeepsTheOldReport(
    states: seq<seq<Report>>, ops: seq<Op>, k: nat, c: Classroom, first: Input, second: Input, now: Time)
    requires Run(states, ops) && 2 <= k < |states| && Refusal(c, first).None? && Refusal(c, second).None?
    requires ops[0] == SubmitReport(c, 1, first, 100 * SECOND, 100 * SECOND)
    requires ops[1] == SubmitReport(c, 2, second, 99 * SECOND, 99 * SECOND)
    ensures Submit(states[1], c, 2, second, 99 * SECOND, 99 * SECOND).1.None?
    ensures !Speaks(states[k], c.id, now, 2)
  {
    assert states[0] == [];
    assert states[1] == Step(states[0], ops[0]) == [NewReport(c, 1, first, 100 * SECOND, 100 * SECOND)];
    assert states[2] == Step(states[1], ops[1]) == states[1] + [NewReport(c, 2, second, 99 * SECOND, 99 * SECOND)];
    OutrankedNeverSpeaks(states, ops, 2, k, 1, 0, now);
  }

  // --------------------------------------------------------------------------- what is read

  // What the ordered and limited query may return.
  ghost predicate Fetched(rows: seq<Report>, room: Id, limit: nat, f: seq<Report>) {
    && |f| <= limit
    && (forall i, j :: 0 <= i < j < |f| ==> Newer(f[i], f[j]))
    && (forall x :: x in f ==> x in rows && x.room == room)
    && (forall x :: x in rows && x.room == room && x !in f ==>
          |f| == limit && forall i :: 0 <= i < |f| ==> Newer(f[i], x))
  }

  lemma OwnOfOne(r: Report, room: Id)
    requires r.room == room
    ensures Own([r], room) == [r] && Newest([r]) == r
  {
    assert [r][..0] == [];
  }

  lemma SameNewestResolves(a: seq<Report>, b: seq<Report>, room: Id, now: Time)
    requires Own(a, room) != [] && Own(b, room) != [] && Newest(Own(a, room)) == Newest(Own(b, room))
    ensures Resolve(a, room, now) == Resolve(b, room, now)
  {
  }

  lemma FirstFetchedIsNewest(rows: seq<Report>, room: Id, limit: nat, f: seq<Report>)
    requires Inv(rows) && limit > 0 && Fetched(rows, room, limit, f) && f != []
    ensures Own(rows, room) != [] && Newest(Own(rows, room)) == f[0]
  {
    var own := Own(rows, room);
    assert f[0] in own;
    NewestIsNewest(rows, room);
    var latest := Newest(own);
    assert latest in rows && latest.room == room;
  }

  lemma NothingFetched(rows: seq<Report>, room: Id, limit: nat)
    requires limit > 0 && Fetched(rows, room, limit, [])
    ensures Own(rows, room) == []
  {
    assert forall x :: x in rows ==> x.room != room;
  }

  // Reading the newest row only decides the same as reading the whole table.
  lemma NewestRowDecides(rows: seq<Report>, room: Id, limit: nat, f: seq<Report>, now: Time)
    requires Inv(rows) && limit > 0 && Fetched(rows, room, limit, f)
    ensures Resolve(f[..Min(1, |f|)], room, now) == Resolve(rows, room, now)
  {
    if f == [] {
      NothingFetched(rows, room, limit);
      assert f[..0] == [];
    } else {
      FirstFetchedIsNewest(rows, room, limit, f);
      assert f[..1] == [f[0]];
      OwnOfOne(f[0], room);
      SameNewestResolves(f[..1], rows, room, now);
    }
  }

  datatype Shown = ShownRevoked | ShownSuperseded | ShownFresh | ShownStale

  // How the history of a room presents its i-th row.
  function ShownAs(f: seq<Report>, i: nat, now: Time): Shown
    requires i < |f|
  {
    if f[i].revokedAt.Some? then ShownRevoked
    else if i != 0 then ShownSuperseded
    else if Resolve([f[i]], f[i].room, now).availability == PresenceFresh then ShownFresh
    else ShownStale
  }

  lemma SpeaksIsAuthority(rows: seq<Report>, room: Id, now: Time, r: Report)
    requires Inv(rows) && r in rows
    ensures Speaks(rows, room, now, r.id) <==> Authority(rows, room, now) == Some(r)
  {
    var j :| 0 <= j < |rows| && rows[j] == r;
    if Speaks(rows, room, now, r.id) {
      var a := Authority(rows, room, now).value;
      AuthorityIff(rows, room, now, a);
      IdAt(rows, j, a);
    }
  }

  // The history shows a row as current exactly when it is the authority, and that is at most its first row.
  lemma HistoryShowsOneAuthority(rows: seq<Report>, room: Id, limit: nat, f: seq<Report>, now: Time, i: nat)
    requires Inv(rows) && limit > 0 && Fetched(rows, room, limit, f) && i < |f|
    ensures ShownAs(f, i, now) == ShownFresh <==> Authority(rows, room, now) == Some(f[i])
    ensures Speaks(rows, room, now, f[i].id) <==> Authority(rows, room, now) == Some(f[i])
    ensures Authority(rows, room, now) == Some(f[i]) ==> i == 0
  {
    SpeaksIsAuthority(rows, room, now, f[i]);
    if i == 0 { FirstShown(rows, room, limit, f, now); } else { LaterShown(rows, room, limit, f, now, i); }
  }

  lemma FirstShown(rows: seq<Report>, room: Id, limit: nat, f: seq<Report>, now: Time)
    requires Inv(rows) && limit > 0 && Fetched(rows, room, limit, f) && f != []
    ensures ShownAs(f, 0, now) == ShownFresh <==> Authority(rows, room, now) == Some(f[0])
  {
    AuthorityIff(rows, room, now, f[0]);
    FirstFetchedIsNewest(rows, room, limit, f);
    OwnOfOne(f[0], room);
    SameNewestResolves([f[0]], rows, room, now);
  }

  lemma LaterShown(rows: seq<Report>, room: Id, limit: nat, f: seq<Report>, now: Time, i: nat)
    requires Inv(rows) && Fetched(rows, room, limit, f) && 0 < i < |f|
    ensures ShownAs(f, i, now) != ShownFresh && Authority(rows, room, now) != Some(f[i])
  {
    AuthorityIff(rows, room, now, f[i]);
    assert f[0] in rows && Newer(f[0], f[i]);
  }
}
