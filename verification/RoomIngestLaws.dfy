/** Exactly-once effect of ingest under retries, splits and reorderings. */
module RoomIngestLaws {
  import opened Base
  import opened RoomIngest

  // The portal lookups of these events are the same in both maps.
  ghost predicate SameLookups(node: Node, a: map<Id, Portal>, b: map<Id, Portal>, events: seq<Input>) {
    forall e :: e in events && e.camera in node.cameras ==>
      (e.portal in a <==> e.portal in b) && (e.portal in a ==> a[e.portal] == b[e.portal])
  }

  lemma {:induction false} FoldDependsOnLookups(t: Table, node: Node, a: map<Id, Portal>, b: map<Id, Portal>,
                                                events: seq<Input>, now: Time)
    requires SameLookups(node, a, b, events)
    ensures Fold(t, node, a, events, now) == Fold(t, node, b, events, now)
  {
    if events != [] {
      var n := |events| - 1;
      assert events == events[..n] + [events[n]];
      FoldDependsOnLookups(t, node, a, b, events[..n], now);
      assert events[n] in events;
    }
  }

  // Loading only the wanted portals is loading them all.
  lemma IngestUsesAllPortals(t: Table, node: Node, events: seq<Input>, now: Time)
    ensures forall p :: p in WantedPortals(node, events) ==> exists e :: e in events && e.portal == p
    ensures Ingest(t, node, events, now) == Fold(t, node, node.portals, events, now)
  {
    FoldDependsOnLookups(t, node, WantedPortals(node, events), node.portals, events, now);
  }

  lemma {:induction false} FoldConcat(t: Table, node: Node, portals: map<Id, Portal>,
                                      a: seq<Input>, b: seq<Input>, now: Time)
    ensures var (mid, first) := Fold(t, node, portals, a, now);
      var (end, second) := Fold(mid, node, portals, b, now);
      Fold(t, node, portals, a + b, now) == (end, first + second)
  {
    var (mid, first) := Fold(t, node, portals, a, now);
    if b == [] {
      assert a + b == a;
      assert first + [] == first;
    } else {
      var n := |b| - 1;
      FoldConcat(t, node, portals, a, b[..n], now);
      assert (a + b)[..|a + b| - 1] == a + b[..n];
      var (almost, some) := Fold(mid, node, portals, b[..n], now);
      var (end, status) := IngestOne(almost, node, portals, b[n], now);
      assert (first + some) + [status] == first + (some + [status]);
    }
  }

  /** Splitting a batch changes neither the table nor any result. */
  lemma SplitBatch(t: Table, node: Node, a: seq<Input>, b: seq<Input>, now: Time)
    ensures var (mid, first) := Ingest(t, node, a, now);
      var (end, second) := Ingest(mid, node, b, now);
      Ingest(t, node, a + b, now) == (end, first + second)
  {
    var mid := Ingest(t, node, a, now).0;
    IngestUsesAllPortals(t, node, a + b, now);
    IngestUsesAllPortals(t, node, a, now);
    IngestUsesAllPortals(mid, node, b, now);
    FoldConcat(t, node, node.portals, a, b, now);
  }

  // ---------------------------------------------------------------------------- retries

  // The row an event would be stored as, if this node may store it at `now`.
  ghost predicate Storable(node: Node, e: Input, now: Time) {
    Refused(node, node.portals, e).None? && InWindow(e, now) && TableCheck(e)
  }

  lemma OneMeans(t: Table, node: Node, e: Input, now: Time)
    ensures var (t', status) := IngestOne(t, node, node.portals, e, now);
      && (t' == if Storable(node, e, now) && e.id !in t then t[e.id := RowOf(node, node.portals, e)] else t)
      && (status == Accepted <==> Storable(node, e, now) && e.id !in t)
      && (status == Duplicate <==> Storable(node, e, now) && e.id in t && SameEvent(node, t[e.id], e))
  {
  }

  // What the node may report: a crossing of its own room's portal, by its own camera, in the window.
  ghost predicate Reportable(node: Node, e: Input, now: Time) {
    && e.camera in node.cameras && e.portal in node.portals
    && node.cameras[e.camera].facility.Some?
    && node.portals[e.portal].camera == e.camera
    && node.cameras[e.camera].room == Some(node.portals[e.portal].room)
    && now - 7 * 86400 * SECOND <= e.occurredAt <= now + 120 * SECOND
    && WellFormed(e)
  }

  ghost predicate WellFormed(e: Input) {
    && 0.0 <= e.x <= 1.0 && 0.0 <= e.y <= 1.0 && 1 <= e.observations <= 100 && 1 <= e.track < 0x8000_0000
    && NamesStream(e.stream)
  }

  // 1 to 64 lower-case letters, digits, underscores and dashes, the first a letter or a digit.
  ghost predicate NamesStream(name: string) {
    && 0 < |name| < 65 && name[0] != '_' && name[0] != '-'
    && forall c :: c in name ==> 'a' <= c <= 'z' || '0' <= c <= '9' || c == '_' || c == '-'
  }

  lemma CheckIff(e: Input)
    ensures TableCheck(e) <==> WellFormed(e)
  {
    if TableCheck(e) {
      forall c | c in e.stream ensures 'a' <= c <= 'z' || '0' <= c <= '9' || c == '_' || c == '-' {
        var i :| 0 <= i < |e.stream| && e.stream[i] == c;
      }
    }
    if WellFormed(e) {
      assert forall i :: 0 <= i < |e.stream| ==> e.stream[i] in e.stream;
    }
  }

  /** An event is accepted exactly when it is reportable and new, and stored whole in the room of its portal. */
  lemma AcceptedIff(t: Table, node: Node, e: Input, now: Time)
    ensures var (t', status) := IngestOne(t, node, node.portals, e, now);
      && (status == Accepted <==> Reportable(node, e, now) && e.id !in t)
      && (status == Accepted ==>
            && e.id in t' && t' == t[e.id := t'[e.id]]
            && t'[e.id].event == e && t'[e.id].tenant == node.tenant && t'[e.id].node == node.id
            && Some(t'[e.id].room) == node.cameras[e.camera].room
            && t'[e.id].room == node.portals[e.portal].room && t'[e.id].facility == node.portals[e.portal].facility)
      && (status != Accepted ==> t' == t)
  {
    CheckIff(e);
  }

  // The stored row is this node's report of the same crossing; where on the line and how often seen may differ.
  ghost predicate SameCrossing(r: Row, node: Node, e: Input) {
    && r.tenant == node.tenant && r.node == node.id
    && r.event == e.(id := r.event.id, x := r.event.x, y := r.event.y, observations := r.event.observations)
  }

  /** Of a known id the same crossing is a duplicate, any other event a conflict, and neither changes the table. */
  lemma KnownIdIs(t: Table, node: Node, e: Input, now: Time)
    requires Reportable(node, e, now) && e.id in t
    ensures IngestOne(t, node, node.portals, e, now) ==
      (t, if SameCrossing(t[e.id], node, e) then Duplicate else Rejected(EventIdConflict))
  {
    CheckIff(e);
  }

  /** Each refusal names the first thing that is wrong. */
  lemma RefusalNamesItsCause(t: Table, node: Node, e: Input, now: Time)
    ensures var status := IngestOne(t, node, node.portals, e, now).1;
      var usable := e.camera in node.cameras && node.cameras[e.camera].room.Some?
                      && node.cameras[e.camera].facility.Some?;
      var placed := usable && e.portal in node.portals && node.portals[e.portal].camera == e.camera
                    && node.cameras[e.camera].room == Some(node.portals[e.portal].room);
      var timely := now - 7 * 86400 * SECOND <= e.occurredAt <= now + 120 * SECOND;
      && (status == Rejected(CameraUnavailable) <==> !usable)
      && (status == Rejected(PortalUnavailable) <==> usable && !placed)
      && (status == Rejected(OutOfWindow) <==> placed && !timely)
      && (status == Rejected(InvalidEvent) <==> placed && timely && !WellFormed(e))
  {
    CheckIff(e);
  }

  ghost predicate Extends(t: Table, t': Table) { forall k :: k in t ==> k in t' && t'[k] == t[k] }

  function Retried(status: Status): Status { if status == Accepted then Duplicate else status }

  // What an event was answered once, it is answered again by any later table, accepted becoming duplicate.
  lemma AnswerAgain(t: Table, later: Table, node: Node, e: Input, now: Time, again: Time)
    requires Extends(IngestOne(t, node, node.portals, e, now).0, later)
    requires InWindow(e, now) <==> InWindow(e, again)
    ensures IngestOne(later, node, node.portals, e, again)
         == (later, Retried(IngestOne(t, node, node.portals, e, now).1))
  {
  }

  lemma {:induction false} FoldAgain(t: Table, later: Table, node: Node, events: seq<Input>, now: Time, again: Time)
    requires Extends(Fold(t, node, node.portals, events, now).0, later)
    requires forall e :: e in events ==> (InWindow(e, now) <==> InWindow(e, again))
    ensures var r := Fold(later, node, node.portals, events, again);
      && r.0 == later
      && forall i :: 0 <= i < |events| ==> r.1[i] == Retried(Fold(t, node, node.portals, events, now).1[i])
  {
    if events != [] {
      var n := |events| - 1;
      var mid := Fold(t, node, node.portals, events[..n], now).0;
      assert events == events[..n] + [events[n]];
      OneMeans(mid, node, events[n], now);
      FoldAgain(t, later, node, events[..n], now, again);
      AnswerAgain(mid, later, node, events[n], now, again);
    }
  }

  /**
    Ingesting a batch again, now or later as long as no event has left or entered its window, leaves the
    table as it is and answers the same, except that what was accepted is now a duplicate.
   */
  lemma RetryIsIdempotent(t: Table, node: Node, events: seq<Input>, now: Time, again: Time)
    requires forall e :: e in events ==> (InWindow(e, now) <==> InWindow(e, again))
    ensures var (t', statuses) := Ingest(t, node, events, now);
      var r := Ingest(t', node, events, again);
      && r.0 == t'
      && forall i :: 0 <= i < |events| ==> r.1[i] == Retried(statuses[i])
  {
    IngestUsesAllPortals(t, node, events, now);
    var t' := Ingest(t, node, events, now).0;
    IngestUsesAllPortals(t', node, events, again);
    FoldAgain(t, t', node, events, now, again);
  }

  // --------------------------------------------------------------------------- schedules

  // A delivery of some node, with the assignments and portals that the server knows at that time.
  datatype Batch = Batch(node: Node, events: seq<Input>, now: Time)

  // The deliveries of all nodes in the order in which they are ingested.
  type Schedule = seq<Batch>

  function Deliver(t: Table, s: Schedule): Table {
    if s == [] then t
    else
      var n := |s| - 1;
      Ingest(Deliver(t, s[..n]), s[n].node, s[n].events, s[n].now).0
  }

  // The batch brings an event that can be stored at its time, as this row.
  ghost predicate Brings(b: Batch, r: Row) {
    && r.event in b.events && Storable(b.node, r.event, b.now)
    && r == RowOf(b.node, b.node.portals, r.event)
  }

  ghost predicate Arrives(s: Schedule, r: Row) { exists i :: 0 <= i < |s| && Brings(s[i], r) }

  // Of what arrives, one id names one row: one event of one node, in one room.
  ghost predicate IdsNameRows(s: Schedule) {
    forall q, r :: Arrives(s, q) && Arrives(s, r) && q.event.id == r.event.id ==> q == r
  }

  // `t'` is `t` with one of the arriving rows for exactly those of their ids that it had no row for.
  ghost predicate Merged(t: Table, t': Table, arrives: Row -> bool) {
    && Extends(t, t')
    && (forall r :: arrives(r) ==> r.event.id in t')
    && (forall k :: k in t' && k !in t ==> arrives(t'[k]) && t'[k].event.id == k)
  }

  ghost function ArrivalsOf(s: Schedule): Row -> bool { (r: Row) => Arrives(s, r) }

  ghost function BroughtBy(b: Batch): Row -> bool { (r: Row) => Brings(b, r) }

  lemma {:induction false} BatchMerges(t: Table, node: Node, events: seq<Input>, now: Time)
    ensures Merged(t, Fold(t, node, node.portals, events, now).0, BroughtBy(Batch(node, events, now)))
  {
    if events != [] {
      var n := |events| - 1;
      var mid := Fold(t, node, node.portals, events[..n], now).0;
      BatchMerges(t, node, events[..n], now);
      OneMeans(mid, node, events[n], now);
      assert events == events[..n] + [events[n]];
      assert forall r :: BroughtBy(Batch(node, events, now))(r) <==>
               BroughtBy(Batch(node, events[..n], now))(r) || BroughtBy(Batch(node, [events[n]], now))(r);
    }
  }

  lemma ArrivesSplits(s: Schedule, r: Row)
    requires s != []
    ensures Arrives(s, r) <==> Arrives(s[..|s| - 1], r) || Brings(s[|s| - 1], r)
  {
    var n := |s| - 1;
    if Arrives(s[..n], r) {
      var i :| 0 <= i < n && Brings(s[..n][i], r);
      assert s[i] == s[..n][i];
    }
    if Arrives(s, r) {
      var i :| 0 <= i < |s| && Brings(s[i], r);
      assert i < n ==> s[..n][i] == s[i];
    }
  }

  // Deliveries add rows for exactly the ids that arrive and had none, and overwrite nothing.
  lemma {:induction false} ScheduleMerges(t: Table, s: Schedule)
    ensures Merged(t, Deliver(t, s), ArrivalsOf(s))
  {
    if s != [] {
      var n := |s| - 1;
      var mid := Deliver(t, s[..n]);
      ScheduleMerges(t, s[..n]);
      IngestUsesAllPortals(mid, s[n].node, s[n].events, s[n].now);
      BatchMerges(mid, s[n].node, s[n].events, s[n].now);
      forall r ensures Arrives(s, r) <==> Arrives(s[..n], r) || BroughtBy(s[n])(r) {
        ArrivesSplits(s, r);
      }
    }
  }

  /**
    However many nodes deliver and however their assignments change: two schedules that bring the same rows, in
    whatever batches, order and repetition, end in the same table, provided that one id names one row.
   */
  lemma SchedulesConverge(t: Table, a: Schedule, b: Schedule)
    requires IdsNameRows(a) && forall r :: Arrives(a, r) <==> Arrives(b, r)
    ensures Deliver(t, a) == Deliver(t, b)
  {
    ScheduleMerges(t, a);
    ScheduleMerges(t, b);
    forall r ensures ArrivalsOf(a)(r) <==> ArrivalsOf(b)(r) {
      assert Arrives(a, r) <==> Arrives(b, r);
    }
    MergesAgree(t, Deliver(t, a), Deliver(t, b), ArrivalsOf(a), ArrivalsOf(b));
  }

  lemma MergesAgree(t: Table, x: Table, y: Table, some: Row -> bool, same: Row -> bool)
    requires Merged(t, x, some) && Merged(t, y, same) && forall r :: some(r) <==> same(r)
    requires forall q, r :: some(q) && some(r) && q.event.id == r.event.id ==> q == r
    ensures x == y
  {
    forall k | k in x ensures k in y && x[k] == y[k] {
      if k !in t { assert some(x[k]) && same(x[k]) && same(y[k]); }
    }
    forall k | k in y ensures k in x {
      if k !in t { assert same(y[k]) && some(y[k]); }
    }
  }

  /** Without that proviso they need not: of two rows under one id the first delivered stays. */
  lemma FirstOfTwoStays(t: Table, a: Batch, b: Batch, q: Row, r: Row)
    requires a.events == [q.event] && b.events == [r.event] && Brings(a, q) && Brings(b, r)
    requires q.event.id == r.event.id && q != r && q.event.id !in t
    ensures Deliver(t, [a, b]) == t[q.event.id := q]
    ensures Deliver(t, [b, a]) == t[q.event.id := r] != Deliver(t, [a, b])
  {
    TwoDelivered(t, a, b, q);
    TwoDelivered(t, b, a, r);
    assert t[q.event.id := q][q.event.id] != t[q.event.id := r][q.event.id];
  }

  lemma TwoDelivered(t: Table, a: Batch, b: Batch, q: Row)
    requires |a.events| == |b.events| == 1 && a.events == [q.event] && Brings(a, q)
    requires b.events[0].id == q.event.id && q.event.id !in t
    ensures Deliver(t, [a, b]) == t[q.event.id := q]
  {
    assert [a, b][..1] == [a] && [a][..0] == [];
    assert Deliver(t, [a]) == Ingest(t, a.node, a.events, a.now).0;
    OneDelivered(t, a);
    OneDelivered(t[q.event.id := q], b);
    OneMeans(t, a.node, a.events[0], a.now);
    OneMeans(t[q.event.id := q], b.node, b.events[0], b.now);
  }

  lemma OneDelivered(t: Table, b: Batch)
    requires |b.events| == 1
    ensures Ingest(t, b.node, b.events, b.now).0 == IngestOne(t, b.node, b.node.portals, b.events[0], b.now).0
  {
    IngestUsesAllPortals(t, b.node, b.events, b.now);
    assert b.events[..0] == [];
    assert Fold(t, b.node, b.node.portals, [], b.now) == (t, []);
  }
}
