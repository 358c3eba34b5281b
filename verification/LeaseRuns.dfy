/** Whole runs of the lease registry: conservation of leases and the life of a tombstone. */
module LeaseRuns {
  import opened Base
  import opened Lists
  import opened LeaseModel
  import opened LeaseInvariants

  lemma {:induction false} RunKeepsInv(b: Bounds, s: Registry, ops: seq<Op>)
    requires ValidBounds(b) && Inv(b, s)
    ensures Inv(b, Run(b, s, ops).state)
  {
    if ops != [] {
      RunKeepsInv(b, s, ops[..|ops| - 1]);
      StepKeepsInv(b, Run(b, s, ops[..|ops| - 1]).state, ops[|ops| - 1]);
    }
  }

  /** Accounting, both capacity bounds, unique names and the tombstone bound hold after every run. */
  lemma InvAlways(b: Bounds, ops: seq<Op>)
    requires ValidBounds(b)
    ensures Inv(b, Run(b, EMPTY, ops).state)
  {
    assert forall k: Node :: HeldBy(map[], k) == {};
    RunKeepsInv(b, EMPTY, ops);
  }

  // ------------------------------------------------------------------------ conservation

  lemma ReleaseConserves(b: Bounds, s: Registry, id: Id, owner: Node, now: Time)
    ensures var (s', answer, l) := ReleaseOwned(b, s, id, owner, now);
      multiset(s'.leases) + multiset(if l.Some? then [l.value] else []) == multiset(s.leases)
  {
    var i := IndexOf(s.leases, LeaseId, id);
    if i < |s.leases| { WithoutCounts(s.leases, i); }
  }

  lemma CommitConserves(b: Bounds, s: Registry, r: nat, id: Id, camera: Id, connection: Id, session: Option<Id>,
                        now: Time)
    ensures match Commit(b, s, r, id, camera, connection, session, now)
            case None => true
            case Some((s', l)) => multiset(s'.leases) == multiset(s.leases) + multiset([l])
  {
  }

  lemma StepConserves(b: Bounds, s: Registry, op: Op)
    ensures var e := Step(b, s, op);
      multiset(e.state.leases) + multiset(e.handed) == multiset(s.leases) + multiset(e.created)
  {
    match op
    case OpReserve(k) =>
    case OpCancel(r) =>
    case OpCommit(r, id, camera, connection, session, now) =>
      CommitConserves(b, s, r, id, camera, connection, session, now);
    case OpRelease(id, owner, now) => ReleaseConserves(b, s, id, owner, now);
    case OpPopExpired(now) => ExpirySplits(s.leases, now, Node(0, 0));
    case OpDrain(now) =>
  }

  lemma ConservedTogether(start: multiset<Lease>, created: seq<Lease>, live: seq<Lease>, handed: seq<Lease>,
                          newer: seq<Lease>, live': seq<Lease>, handed': seq<Lease>)
    requires start + multiset(created) == multiset(live) + multiset(handed)
    requires multiset(live') + multiset(handed') == multiset(live) + multiset(newer)
    ensures start + multiset(created + newer) == multiset(live') + multiset(handed + handed')
  {
    calc {
      start + multiset(created + newer);
      start + multiset(created) + multiset(newer);
      multiset(handed) + (multiset(live) + multiset(newer));
      multiset(handed) + (multiset(live') + multiset(handed'));
      multiset(live') + multiset(handed + handed');
    }
  }

  lemma {:induction false} RunConserves(b: Bounds, s: Registry, ops: seq<Op>)
    ensures var e := Run(b, s, ops);
      multiset(s.leases) + multiset(e.created) == multiset(e.state.leases) + multiset(e.handed)
  {
    if ops != [] {
      var before := Run(b, s, ops[..|ops| - 1]);
      var last := Step(b, before.state, ops[|ops| - 1]);
      RunConserves(b, s, ops[..|ops| - 1]);
      StepConserves(b, before.state, ops[|ops| - 1]);
      ConservedTogether(multiset(s.leases), before.created, before.state.leases, before.handed,
                        last.created, last.state.leases, last.handed);
    }
  }

  /**
    Every lease ever committed is either live or was handed back, exactly once, by release, expiry or
    drain; and nothing is handed back that was not committed.
   */
  lemma LeasesAreConserved(b: Bounds, ops: seq<Op>)
    ensures var e := Run(b, EMPTY, ops);
      multiset(e.created) == multiset(e.state.leases) + multiset(e.handed)
  {
    RunConserves(b, EMPTY, ops);
  }

  // ---------------------------------------------------------------- the life of a tombstone

  // `t` is remembered with at most `n` younger tombstones behind it.
  ghost predicate Remembered(tombs: seq<Tombstone>, t: Tombstone, n: int) {
    exists p :: 0 <= p < |tombs| && tombs[p] == t && |tombs| - 1 - p <= n
  }

  lemma RememberKeeps(b: Bounds, tombs: seq<Tombstone>, l: Lease, now: Time, t: Tombstone, n: int)
    requires ValidBounds(b) && |tombs| <= Capacity(b) && !TombIn(tombs, l.id)
    requires Remembered(tombs, t, n) && n + 1 < Capacity(b)
    ensures Remembered(Remember(b, tombs, l, now), t, n + 1)
  {
    RememberFresh(b, tombs, l, now);
    var p :| 0 <= p < |tombs| && tombs[p] == t && |tombs| - 1 - p <= n;
    var after := Remember(b, tombs, l, now);
    assert after[if |tombs| == Capacity(b) then p - 1 else p] == t;
  }

  lemma {:induction false} RememberAllKeeps(b: Bounds, leases: seq<Lease>, tombs: seq<Tombstone>,
                                            retired: seq<Lease>, now: Time, t: Tombstone, n: int)
    requires ValidBounds(b) && |tombs| <= Capacity(b) && Named(leases + retired, tombs)
    requires Remembered(tombs, t, n) && n + |retired| < Capacity(b)
    ensures Remembered(RememberAll(b, tombs, retired, now), t, n + |retired|)
    decreases |retired|
  {
    if retired != [] {
      var m := |retired| - 1;
      var last := retired[m];
      assert leases + retired == (leases + retired[..m]) + [last];
      NamedMove(leases, retired[..m], last, tombs);
      RememberAllKeeps(b, leases + [last], tombs, retired[..m], now, t, n);
      RememberAllNames(b, leases + [last], tombs, retired[..m], now);
      assert (leases + [last])[|leases|] == last;
      RememberKeeps(b, RememberAll(b, tombs, retired[..m], now), last, now, t, n + m);
    }
  }

  lemma {:induction false} PurgeKeeps(tombs: seq<Tombstone>, now: Time, t: Tombstone, n: int)
    requires Remembered(tombs, t, n) && now < t.expires
    ensures Remembered(Purge(tombs, now), t, n)
  {
    var m := |tombs| - 1;
    var p :| 0 <= p < |tombs| && tombs[p] == t && |tombs| - 1 - p <= n;
    var init := Purge(tombs[..m], now);
    var all := Purge(tombs, now);
    if p == m {
      assert all[|init|] == t;
    } else {
      assert tombs[..m][p] == t;
      PurgeKeeps(tombs[..m], now, t, n - 1);
      var q :| 0 <= q < |init| && init[q] == t && |init| - 1 - q <= n - 1;
      assert all[q] == t;
    }
  }

  function OpTime(op: Op): Option<Time> {
    match op
    case OpCommit(_, _, _, _, _, now) => Some(now)
    case OpRelease(_, _, now) => Some(now)
    case OpPopExpired(now) => Some(now)
    case OpDrain(now) => Some(now)
    case _ => None
  }

  lemma ReleaseRemembers(b: Bounds, s: Registry, id: Id, owner: Node, now: Time, t: Tombstone, n: int)
    requires ValidBounds(b) && Inv(b, s) && Remembered(s.tombstones, t, n)
    requires var l := ReleaseOwned(b, s, id, owner, now).2; l.Some? ==> n + 1 < Capacity(b)
    ensures var (after, _, l) := ReleaseOwned(b, s, id, owner, now);
      Remembered(after.tombstones, t, if l.Some? then n + 1 else n)
  {
    var i := IndexOf(s.leases, LeaseId, id);
    if i < |s.leases| && s.leases[i].owner == owner { RememberKeeps(b, s.tombstones, s.leases[i], now, t, n); }
  }

  lemma ExpiryRemembers(b: Bounds, s: Registry, now: Time, t: Tombstone, n: int)
    requires ValidBounds(b) && Inv(b, s) && Remembered(s.tombstones, t, n) && now < t.expires
    requires n + |Expired(s.leases, now)| < Capacity(b)
    ensures Remembered(PopExpired(b, s, now).0.tombstones, t, n + |Expired(s.leases, now)|)
  {
    var expired := Expired(s.leases, now);
    ExpirySplitsNames(s.leases, s.tombstones, now);
    RememberAllKeeps(b, Unexpired(s.leases, now), s.tombstones, expired, now, t, n);
    PurgeKeeps(RememberAll(b, s.tombstones, expired, now), now, t, n + |expired|);
  }

  lemma StepRemembers(b: Bounds, s: Registry, op: Op, t: Tombstone, n: int)
    requires ValidBounds(b) && Inv(b, s) && Remembered(s.tombstones, t, n)
    requires n + |Step(b, s, op).handed| < Capacity(b)
    requires OpTime(op).Some? ==> OpTime(op).value < t.expires
    ensures Remembered(Step(b, s, op).state.tombstones, t, n + |Step(b, s, op).handed|)
  {
    match op
    case OpRelease(id, owner, now) => ReleaseRemembers(b, s, id, owner, now, t, n);
    case OpPopExpired(now) => ExpiryRemembers(b, s, now, t, n);
    case OpDrain(now) =>
      assert [] + s.leases == s.leases;
      RememberAllKeeps(b, [], s.tombstones, s.leases, now, t, n);
    case _ =>
  }

  lemma {:induction false} RunRemembers(b: Bounds, s: Registry, ops: seq<Op>, t: Tombstone)
    requires ValidBounds(b) && Inv(b, s) && Remembered(s.tombstones, t, 0)
    requires |Run(b, s, ops).handed| < Capacity(b)
    requires forall i :: 0 <= i < |ops| && OpTime(ops[i]).Some? ==> OpTime(ops[i]).value < t.expires
    ensures Inv(b, Run(b, s, ops).state)
    ensures Remembered(Run(b, s, ops).state.tombstones, t, |Run(b, s, ops).handed|)
  {
    if ops != [] {
      var shorter := ops[..|ops| - 1];
      assert forall i :: 0 <= i < |shorter| ==> shorter[i] == ops[i];
      RunRemembers(b, s, shorter, t);
      StepKeepsInv(b, Run(b, s, shorter).state, ops[|ops| - 1]);
      StepRemembers(b, Run(b, s, shorter).state, ops[|ops| - 1], t, |Run(b, s, shorter).handed|);
    }
  }

  lemma FoundIfRemembered(b: Bounds, s: Registry, t: Tombstone, n: int, now: Time)
    requires Inv(b, s) && Remembered(s.tombstones, t, n) && now < t.expires
    ensures ReleaseOwned(b, s, t.lease, t.owner, now) == (s, AlreadyReleased, None)
  {
    var p :| 0 <= p < |s.tombstones| && s.tombstones[p] == t;
    var i := IndexOf(s.tombstones, TombId, t.lease);
    assert i == p;
  }

  /**
    Once its owner has released a lease, whatever happens next, the owner's repeated release is answered
    ALREADY_RELEASED for the whole TTL, unless eight times `maxActive` later leases were handed back.
   */
  lemma RepeatedReleaseIsRecognised(b: Bounds, earlier: seq<Op>, id: Id, owner: Node, released: Time,
                                    later: seq<Op>, now: Time)
    requires ValidBounds(b)
    requires ReleaseOwned(b, Run(b, EMPTY, earlier).state, id, owner, released).1 == Released
    requires var s := ReleaseOwned(b, Run(b, EMPTY, earlier).state, id, owner, released).0;
      |Run(b, s, later).handed| < 8 * b.maxActive
    requires forall i :: 0 <= i < |later| && OpTime(later[i]).Some? ==> OpTime(later[i]).value < released + b.ttl
    requires now < released + b.ttl
    ensures var s := ReleaseOwned(b, Run(b, EMPTY, earlier).state, id, owner, released).0;
      ReleaseOwned(b, Run(b, s, later).state, id, owner, now).1 == AlreadyReleased
  {
    assert 8 * b.maxActive == Capacity(b);
    InvAlways(b, earlier);
    var s0 := Run(b, EMPTY, earlier).state;
    var s := ReleaseOwned(b, s0, id, owner, released).0;
    ReleaseKeepsInv(b, s0, id, owner, released);
    var l := s0.leases[IndexOf(s0.leases, LeaseId, id)];
    var t := Tombstone(id, owner, released + b.ttl);
    assert !TombIn(s0.tombstones, id);
    RememberFresh(b, s0.tombstones, l, released);
    assert s.tombstones[|s.tombstones| - 1] == t;
    RunRemembers(b, s, later, t);
    FoundIfRemembered(b, Run(b, s, later).state, t, |Run(b, s, later).handed|, now);
  }

  // ---------------------------------------------------------------------- order of expiry

  ghost predicate OrderedBy(tombs: seq<Tombstone>, limit: Time) {
    && (forall i, j :: 0 <= i < j < |tombs| ==> tombs[i].expires <= tombs[j].expires)
    && (forall i :: 0 <= i < |tombs| ==> tombs[i].expires <= limit)
  }

  lemma OrderedAppend(tombs: seq<Tombstone>, t: Tombstone, limit: Time)
    requires OrderedBy(tombs, t.expires) && t.expires <= limit
    ensures OrderedBy(tombs + [t], limit)
  {
  }

  lemma OrderedWithout(tombs: seq<Tombstone>, i: nat, limit: Time)
    requires OrderedBy(tombs, limit) && i < |tombs|
    ensures OrderedBy(WithoutAt(tombs, i), limit)
  {
    var rest := WithoutAt(tombs, i);
    forall x, y | 0 <= x < y < |rest| ensures rest[x].expires <= rest[y].expires {
      var x', y' := if x < i then x else x + 1, if y < i then y else y + 1;
      assert rest[x] == tombs[x'] && rest[y] == tombs[y'];
    }
  }

  lemma {:induction false} EvictOrdered(b: Bounds, tombs: seq<Tombstone>, limit: Time)
    requires OrderedBy(tombs, limit)
    ensures OrderedBy(Evict(b, tombs), limit)
  {
    if |tombs| > Capacity(b) && tombs != [] { EvictOrdered(b, tombs[1..], limit); }
  }

  lemma AddedInOrder(b: Bounds, kept: seq<Tombstone>, t: Tombstone)
    requires OrderedBy(kept, t.expires)
    ensures OrderedBy(Evict(b, kept + [t]), t.expires)
  {
    OrderedAppend(kept, t, t.expires);
    EvictOrdered(b, kept + [t], t.expires);
  }

  lemma RememberOrdered(b: Bounds, tombs: seq<Tombstone>, l: Lease, now: Time)
    requires OrderedBy(tombs, now + b.ttl)
    ensures OrderedBy(Remember(b, tombs, l, now), now + b.ttl)
  {
    var i, t := IndexOf(tombs, TombId, l.id), Tombstone(l.id, l.owner, now + b.ttl);
    if i < |tombs| {
      OrderedWithout(tombs, i, now + b.ttl);
      AddedInOrder(b, WithoutAt(tombs, i), t);
    } else {
      AddedInOrder(b, tombs, t);
    }
  }

  lemma {:induction false} RememberAllOrdered(b: Bounds, tombs: seq<Tombstone>, retired: seq<Lease>, now: Time)
    requires OrderedBy(tombs, now + b.ttl)
    ensures OrderedBy(RememberAll(b, tombs, retired, now), now + b.ttl)
  {
    if retired != [] {
      RememberAllOrdered(b, tombs, retired[..|retired| - 1], now);
      RememberOrdered(b, RememberAll(b, tombs, retired[..|retired| - 1], now), retired[|retired| - 1], now);
    }
  }

  lemma {:induction false} PurgeOrdered(tombs: seq<Tombstone>, now: Time, limit: Time)
    requires OrderedBy(tombs, limit)
    ensures OrderedBy(Purge(tombs, now), limit)
  {
    if tombs != [] {
      var n := |tombs| - 1;
      PurgeOrdered(tombs[..n], now, tombs[n].expires);
      if now < tombs[n].expires {
        OrderedAppend(Purge(tombs[..n], now), tombs[n], limit);
      } else {
        assert Purge(tombs, now) == Purge(tombs[..n], now);
      }
    }
  }

  function LastTime(ops: seq<Op>, start: Time): Time {
    if ops == [] then start
    else
      var t := OpTime(ops[|ops| - 1]);
      if t.Some? then t.value else LastTime(ops[..|ops| - 1], start)
  }

  // The clock never goes back.
  ghost predicate Monotone(ops: seq<Op>, start: Time) {
    ops == [] ||
    (Monotone(ops[..|ops| - 1], start) && LastTime(ops[..|ops| - 1], start) <= LastTime(ops, start))
  }

  lemma StepOrdered(b: Bounds, s: Registry, op: Op, limit: Time)
    requires OrderedBy(s.tombstones, limit) && (OpTime(op).Some? ==> OpTime(op).value + b.ttl == limit)
    ensures OrderedBy(Step(b, s, op).state.tombstones, limit)
  {
    match op
    case OpRelease(id, owner, now) =>
      var i := IndexOf(s.leases, LeaseId, id);
      if i < |s.leases| { RememberOrdered(b, s.tombstones, s.leases[i], now); }
    case OpPopExpired(now) =>
      RememberAllOrdered(b, s.tombstones, Expired(s.leases, now), now);
      PurgeOrdered(RememberAll(b, s.tombstones, Expired(s.leases, now), now), now, now + b.ttl);
    case OpDrain(now) => RememberAllOrdered(b, s.tombstones, s.leases, now);
    case _ =>
  }

  /**
    On a clock that never goes back the tombstones stay in order of expiry, so the one that eviction
    drops, the first, is always one of the earliest to expire.
   */
  lemma {:induction false} TombstonesStayOrdered(b: Bounds, ops: seq<Op>, start: Time)
    requires ValidBounds(b) && Monotone(ops, start)
    ensures OrderedBy(Run(b, EMPTY, ops).state.tombstones, LastTime(ops, start) + b.ttl)
  {
    if ops != [] {
      var shorter, op := ops[..|ops| - 1], ops[|ops| - 1];
      TombstonesStayOrdered(b, shorter, start);
      StepOrdered(b, Run(b, EMPTY, shorter).state, op, LastTime(ops, start) + b.ttl);
    }
  }
}
