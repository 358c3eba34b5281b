/** What one lease is, from its commit to the sweep that hands it back, and how long it is remembered. */
module LeaseLife {
  import opened Base
  import opened Lists
  import opened LeaseModel
  import opened LeaseInvariants
  import opened LeaseRuns
  import opened LeaseBroker

  // ----------------------------------------------------------------------- single operations

  /** A slot is given exactly when both capacities, counted over leases and reservations, leave one. */
  lemma ReserveIff(b: Bounds, s: Registry, k: Node)
    requires Inv(b, s)
    ensures Reserve(b, s, k).1.Some? <==>
      |s.leases| + |s.held| < b.maxActive && LeasesOf(s.leases, k) + HeldOf(s.held, k) < b.maxPerNode
    ensures Reserve(b, s, k).1.Some? ==>
      var (s', r) := Reserve(b, s, k);
      r.value !in s.held && s'.held == s.held[r.value := k] && s'.leases == s.leases && s'.tombstones == s.tombstones
    ensures Reserve(b, s, k).1.None? ==> Reserve(b, s, k).0 == s
  {
    assert NodeCount(s.perNode, k) == LeasesOf(s.leases, k) + HeldOf(s.held, k);
  }

  lemma {:induction false} ExpiredMeans(leases: seq<Lease>, now: Time)
    ensures forall l :: l in Expired(leases, now) <==> l in leases && l.expires <= now
    ensures forall l :: l in Unexpired(leases, now) <==> l in leases && now < l.expires
  {
    if leases != [] {
      var n := |leases| - 1;
      ExpiredMeans(leases[..n], now);
      assert leases == leases[..n] + [leases[n]];
    }
  }

  /**
    A commit turns the reservation into a lease of the node that reserved, on the camera and connection it was
    committed with, which a sweep hands back exactly from `ttl` after the commit on.
   */
  lemma CommitTakesEffect(b: Bounds, s: Registry, r: nat, id: Id, camera: Id, connection: Id, session: Option<Id>,
                          now: Time, t: Time)
    requires Inv(b, s) && Drawable(s, id)
    ensures Commit(b, s, r, id, camera, connection, session, now).Some? <==> r in s.held
    ensures r in s.held ==>
      var (s', l) := Commit(b, s, r, id, camera, connection, session, now).value;
      && l.id == id && l.owner == s.held[r] && l.camera == camera && l.connection == connection
      && l.session == session && l.created == now && l.expires == now + b.ttl
      && l in s'.leases && s.leases <= s'.leases && s'.held == s.held - {r} && s'.tombstones == s.tombstones
      && (l in PopExpired(b, s', t).1 <==> now + b.ttl <= t)
      && (l in PopExpired(b, s', t).0.leases <==> t < now + b.ttl)
  {
    if r in s.held {
      var (s', l) := Commit(b, s, r, id, camera, connection, session, now).value;
      assert s'.leases[|s.leases|] == l;
      ExpiredMeans(s'.leases, t);
    }
  }

  /** A release hands the lease back exactly to its owner; anybody else changes nothing and is told NOT_FOUND. */
  lemma ReleaseIff(b: Bounds, s: Registry, id: Id, owner: Node, now: Time)
    requires Inv(b, s)
    ensures var (s', answer, handed) := ReleaseOwned(b, s, id, owner, now);
      && (answer == Released <==> exists l :: l in s.leases && l.id == id && l.owner == owner)
      && (handed.Some? <==> answer == Released)
      && (answer == Released ==>
            && handed.value in s.leases && handed.value.id == id && handed.value.owner == owner
            && !LeaseIdIn(s'.leases, id) && s'.held == s.held)
      && (answer != Released ==> s' == s)
      && ((exists l :: l in s.leases && l.id == id && l.owner != owner) ==> answer == NotFound)
  {
    var i := IndexOf(s.leases, LeaseId, id);
    if i < |s.leases| {
      forall j | 0 <= j < |s.leases| && s.leases[j].id == id ensures j == i { SameLease(s.leases, i, j); }
      assert s.leases[i] in s.leases;
    }
  }

  lemma SameLease(leases: seq<Lease>, i: nat, j: nat)
    requires UniqueLeases(leases) && i < |leases| && j < |leases| && leases[i].id == leases[j].id
    ensures i == j
  {
  }

  /** Draining hands back every lease and leaves none. */
  lemma DrainTakesEffect(b: Bounds, s: Registry, now: Time)
    requires ValidBounds(b) && Inv(b, s)
    ensures var (s', handed) := Drain(b, s, now);
      && handed == s.leases && s'.leases == [] && s'.held == s.held
      && forall k :: NodeCount(s'.perNode, k) == HeldOf(s.held, k)
  {
    DrainKeepsInv(b, s, now);
    var s' := Drain(b, s, now).0;
    forall k ensures NodeCount(s'.perNode, k) == HeldOf(s.held, k) {
      assert NodeCount(s'.perNode, k) == LeasesOf(s'.leases, k) + HeldOf(s'.held, k);
    }
  }

  // ---------------------------------------------------------------------- from commit to sweep

  predicate SweepsAt(op: Op, from: Time) { op.OpPopExpired? && from <= op.now }

  ghost predicate Swept(ops: seq<Op>, from: Time) { exists i :: 0 <= i < |ops| && SweepsAt(ops[i], from) }

  lemma SweptSplits(ops: seq<Op>, from: Time)
    requires ops != []
    ensures Swept(ops, from) <==> Swept(ops[..|ops| - 1], from) || SweepsAt(ops[|ops| - 1], from)
  {
    var init := ops[..|ops| - 1];
    if Swept(init, from) {
      var i :| 0 <= i < |init| && SweepsAt(init[i], from);
      assert ops[i] == init[i];
    }
    if Swept(ops, from) {
      var i :| 0 <= i < |ops| && SweepsAt(ops[i], from);
      assert i < |init| ==> init[i] == ops[i];
    }
  }

  // Nobody releases the lease, drains the registry or draws its id again.
  predicate LeavesAlone(op: Op, id: Id) {
    && !op.OpDrain?
    && !(op.OpRelease? && op.lease == id)
    && !(op.OpCommit? && op.id == id)
  }

  lemma WithoutKeeps(leases: seq<Lease>, i: nat, l: Lease)
    requires i < |leases| && leases[i].id != l.id
    ensures l in leases <==> l in WithoutAt(leases, i)
  {
    WithoutCounts(leases, i);
    assert l in leases <==> l in multiset(leases);
    assert l in WithoutAt(leases, i) <==> l in multiset(WithoutAt(leases, i));
  }

  lemma StepKeepsOrSweeps(b: Bounds, s: Registry, op: Op, l: Lease)
    requires LeavesAlone(op, l.id)
    ensures var e := Step(b, s, op);
      && (l in e.state.leases <==> l in s.leases && !SweepsAt(op, l.expires))
      && (l in e.handed <==> l in s.leases && SweepsAt(op, l.expires))
  {
    match op
    case OpPopExpired(now) => ExpiredMeans(s.leases, now);
    case OpRelease(id, owner, now) =>
      var i := IndexOf(s.leases, LeaseId, id);
      if i < |s.leases| { WithoutKeeps(s.leases, i, l); }
    case _ =>
  }

  /**
    A lease that nobody releases and that is not drained lives until the first sweep at or after its expiry, and
    that sweep hands it back: no earlier one does, and afterwards it is not live.
   */
  lemma {:induction false} LivesUntilSwept(b: Bounds, s: Registry, l: Lease, ops: seq<Op>)
    requires l in s.leases && forall i :: 0 <= i < |ops| ==> LeavesAlone(ops[i], l.id)
    ensures var e := Run(b, s, ops);
      (l in e.state.leases <==> !Swept(ops, l.expires)) && (l in e.handed <==> Swept(ops, l.expires))
  {
    if ops != [] {
      var n := |ops| - 1;
      assert forall i :: 0 <= i < n ==> ops[..n][i] == ops[i];
      LivesUntilSwept(b, s, l, ops[..n]);
      StepKeepsOrSweeps(b, Run(b, s, ops[..n]).state, ops[n], l);
      SweptSplits(ops, l.expires);
    }
  }

  lemma DrawableIff(s: Registry, id: Id)
    ensures Drawable(s, id) <==>
      (forall l :: l in s.leases ==> l.id != id) && forall t :: t in s.tombstones ==> t.lease != id
  {
    assert forall i :: 0 <= i < |s.leases| ==> s.leases[i] in s.leases;
    assert forall i :: 0 <= i < |s.tombstones| ==> s.tombstones[i] in s.tombstones;
  }

  // As an operation of a run: an unused id and an unsettled reservation make one lease, anything else nothing.
  lemma CommitStep(b: Bounds, s: Registry, r: nat, id: Id, camera: Id, connection: Id, session: Option<Id>, now: Time)
    ensures var e := Step(b, s, OpCommit(r, id, camera, connection, session, now));
      if Drawable(s, id) && r in s.held then
        var (s', l) := Commit(b, s, r, id, camera, connection, session, now).value;
        e == Effect(s', [l], []) && l.expires == now + b.ttl
      else e == Effect(s, [], [])
  {
  }

  /** From its commit: a lease left alone is handed back by the first sweep at or after commit plus `ttl`. */
  lemma CommittedLivesForTtl(b: Bounds, s: Registry, r: nat, id: Id, camera: Id, connection: Id, session: Option<Id>,
                             now: Time, later: seq<Op>)
    requires Inv(b, s) && Drawable(s, id) && r in s.held
    requires forall i :: 0 <= i < |later| ==> LeavesAlone(later[i], id)
    ensures var committed := Step(b, s, OpCommit(r, id, camera, connection, session, now));
      var e := Run(b, committed.state, later);
      && |committed.created| == 1
      && var l := committed.created[0];
      && l.id == id && l.owner == s.held[r]
      && (l in e.state.leases <==>
            forall i :: 0 <= i < |later| && later[i].OpPopExpired? ==> later[i].now < now + b.ttl)
      && (l in e.handed <==> exists i :: 0 <= i < |later| && later[i].OpPopExpired? && now + b.ttl <= later[i].now)
  {
    CommitTakesEffect(b, s, r, id, camera, connection, session, now, now);
    CommitStep(b, s, r, id, camera, connection, session, now);
    var (s', l) := Commit(b, s, r, id, camera, connection, session, now).value;
    LivesUntilSwept(b, s', l, later);
    assert forall i :: 0 <= i < |later| ==>
      (SweepsAt(later[i], l.expires) <==> later[i].OpPopExpired? && now + b.ttl <= later[i].now);
  }

  // ---------------------------------------------------------------- how long it is remembered

  // Every memory of this id ends at `until`.
  ghost predicate EndsAt(tombs: seq<Tombstone>, id: Id, until: Time) {
    forall t :: t in tombs && t.lease == id ==> t.expires == until
  }

  lemma {:induction false} EvictIsSubset(b: Bounds, tombs: seq<Tombstone>)
    ensures forall t :: t in Evict(b, tombs) ==> t in tombs
  {
    if |tombs| > Capacity(b) && tombs != [] { EvictIsSubset(b, tombs[1..]); }
  }

  lemma RememberIsSubset(b: Bounds, tombs: seq<Tombstone>, l: Lease, now: Time)
    ensures forall t :: t in Remember(b, tombs, l, now) ==> t in tombs || t == Tombstone(l.id, l.owner, now + b.ttl)
  {
    var i := IndexOf(tombs, TombId, l.id);
    var kept := if i < |tombs| then WithoutAt(tombs, i) else tombs;
    EvictIsSubset(b, kept + [Tombstone(l.id, l.owner, now + b.ttl)]);
  }

  lemma {:induction false} RememberAllIsSubset(b: Bounds, tombs: seq<Tombstone>, leases: seq<Lease>, now: Time)
    ensures forall t :: t in RememberAll(b, tombs, leases, now) ==>
      t in tombs || exists l :: l in leases && t.lease == l.id
  {
    if leases != [] {
      var n := |leases| - 1;
      RememberAllIsSubset(b, tombs, leases[..n], now);
      RememberIsSubset(b, RememberAll(b, tombs, leases[..n], now), leases[n], now);
    }
  }

  // The lease has gone, and whatever is remembered of its id ends at `until`.
  ghost predicate GoneUntil(s: Registry, id: Id, until: Time) {
    !LeaseIdIn(s.leases, id) && EndsAt(s.tombstones, id, until)
  }

  lemma StepKeepsGone(b: Bounds, s: Registry, op: Op, id: Id, until: Time)
    requires GoneUntil(s, id, until) && !(op.OpCommit? && op.id == id)
    ensures GoneUntil(Step(b, s, op).state, id, until)
  {
    assert forall l :: l in s.leases ==> l.id != id;
    match op
    case OpRelease(other, owner, now) =>
      var i := IndexOf(s.leases, LeaseId, other);
      if i < |s.leases| { RememberIsSubset(b, s.tombstones, s.leases[i], now); }
    case OpPopExpired(now) =>
      ExpiredMeans(s.leases, now);
      RememberAllIsSubset(b, s.tombstones, Expired(s.leases, now), now);
      PurgeIsSubsequence(RememberAll(b, s.tombstones, Expired(s.leases, now), now), now);
      StillNoId(Unexpired(s.leases, now), id);
    case OpDrain(now) => RememberAllIsSubset(b, s.tombstones, s.leases, now);
    case _ =>
  }

  lemma StillNoId(leases: seq<Lease>, id: Id)
    requires forall l :: l in leases ==> l.id != id
    ensures !LeaseIdIn(leases, id)
  {
    assert forall i :: 0 <= i < |leases| ==> leases[i] in leases;
  }

  lemma {:induction false} RunKeepsGone(b: Bounds, s: Registry, ops: seq<Op>, id: Id, until: Time)
    requires GoneUntil(s, id, until) && !Redrawn(ops, id)
    ensures GoneUntil(Run(b, s, ops).state, id, until)
  {
    if ops != [] {
      var n := |ops| - 1;
      assert forall i :: 0 <= i < n ==> ops[..n][i] == ops[i];
      RunKeepsGone(b, s, ops[..n], id, until);
      StepKeepsGone(b, Run(b, s, ops[..n]).state, ops[n], id, until);
    }
  }

  lemma ReleasedIsGone(b: Bounds, s: Registry, id: Id, owner: Node, released: Time)
    requires ValidBounds(b) && Inv(b, s) && ReleaseOwned(b, s, id, owner, released).1 == Released
    ensures GoneUntil(ReleaseOwned(b, s, id, owner, released).0, id, released + b.ttl)
  {
    ReleaseIff(b, s, id, owner, released);
    var i := IndexOf(s.leases, LeaseId, id);
    RememberIsSubset(b, s.tombstones, s.leases[i], released);
    assert forall t :: t in s.tombstones ==> t.lease != id;
  }

  /** From `ttl` after its release on, a release of the id is NOT_FOUND to everybody, whatever else went on. */
  lemma ForgottenAfterTtl(b: Bounds, s: Registry, id: Id, owner: Node, released: Time, later: seq<Op>,
                          anybody: Node, now: Time)
    requires ValidBounds(b) && Inv(b, s) && ReleaseOwned(b, s, id, owner, released).1 == Released
    requires !Redrawn(later, id) && released + b.ttl <= now
    ensures var s' := Run(b, ReleaseOwned(b, s, id, owner, released).0, later).state;
      ReleaseOwned(b, s', id, anybody, now) == (s', NotFound, None)
  {
    ReleasedIsGone(b, s, id, owner, released);
    RunKeepsGone(b, ReleaseOwned(b, s, id, owner, released).0, later, id, released + b.ttl);
    var s' := Run(b, ReleaseOwned(b, s, id, owner, released).0, later).state;
    var i := IndexOf(s'.tombstones, TombId, id);
    assert i < |s'.tombstones| ==> s'.tombstones[i] in s'.tombstones;
  }
}
