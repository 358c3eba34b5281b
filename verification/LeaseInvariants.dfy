/** Accounting, capacity and conservation of leases over every run, and the life of a tombstone. */
module LeaseInvariants {
  import opened Base
  import opened Lists
  import opened LeaseModel

  ghost function LeasesOf(leases: seq<Lease>, k: Node): nat {
    if leases == [] then 0
    else
      var n := |leases| - 1;
      LeasesOf(leases[..n], k) + (if leases[n].owner == k then 1 else 0)
  }

  ghost function HeldBy(held: map<nat, Node>, k: Node): set<nat> { set r | r in held && held[r] == k }

  ghost function HeldOf(held: map<nat, Node>, k: Node): nat { |HeldBy(held, k)| }

  ghost predicate Counted(s: Registry) {
    && (forall k: Node :: NodeCount(s.perNode, k) == LeasesOf(s.leases, k) + HeldOf(s.held, k))
    && (forall k: Node :: k in s.perNode ==> s.perNode[k] > 0)
    && s.pending == |s.held|
    && (forall r :: r in s.held ==> r < s.issued)
  }

  ghost predicate UniqueLeases(leases: seq<Lease>) {
    forall i, j :: 0 <= i < j < |leases| ==> leases[i].id != leases[j].id
  }

  ghost predicate UniqueTombs(tombs: seq<Tombstone>) {
    forall i, j :: 0 <= i < j < |tombs| ==> tombs[i].lease != tombs[j].lease
  }

  ghost predicate Disjoint(leases: seq<Lease>, tombs: seq<Tombstone>) {
    forall i, j :: 0 <= i < |leases| && 0 <= j < |tombs| ==> leases[i].id != tombs[j].lease
  }

  ghost predicate Named(leases: seq<Lease>, tombs: seq<Tombstone>) {
    UniqueLeases(leases) && UniqueTombs(tombs) && Disjoint(leases, tombs)
  }

  ghost predicate Inv(b: Bounds, s: Registry) {
    && Counted(s)
    && Named(s.leases, s.tombstones)
    && |s.leases| + s.pending <= b.maxActive
    && (forall k: Node :: NodeCount(s.perNode, k) <= b.maxPerNode)
    && |s.tombstones| <= Capacity(b)
  }

  // ------------------------------------------------------------------- counting lemmas

  lemma LeasesOfAppend(leases: seq<Lease>, l: Lease, k: Node)
    ensures LeasesOf(leases + [l], k) == LeasesOf(leases, k) + (if l.owner == k then 1 else 0)
  {
    assert (leases + [l])[..|leases|] == leases;
  }

  lemma {:induction false} LeasesOfWithout(leases: seq<Lease>, i: nat, k: Node)
    requires i < |leases|
    ensures LeasesOf(WithoutAt(leases, i), k) + (if leases[i].owner == k then 1 else 0) == LeasesOf(leases, k)
  {
    var n := |leases| - 1;
    if i == n {
      assert WithoutAt(leases, i) == leases[..n];
    } else {
      LeasesOfWithout(leases[..n], i, k);
      assert WithoutAt(leases, i) == WithoutAt(leases[..n], i) + [leases[n]];
      LeasesOfAppend(WithoutAt(leases[..n], i), leases[n], k);
    }
  }

  lemma {:induction false} ExpirySplits(leases: seq<Lease>, now: Time, k: Node)
    ensures LeasesOf(Expired(leases, now), k) + LeasesOf(Unexpired(leases, now), k) == LeasesOf(leases, k)
    ensures multiset(Expired(leases, now)) + multiset(Unexpired(leases, now)) == multiset(leases)
    ensures |Expired(leases, now)| + |Unexpired(leases, now)| == |leases|
  {
    if leases != [] {
      var n := |leases| - 1;
      ExpirySplits(leases[..n], now, k);
      assert leases == leases[..n] + [leases[n]];
      if leases[n].expires <= now {
        LeasesOfAppend(Expired(leases[..n], now), leases[n], k);
      } else {
        LeasesOfAppend(Unexpired(leases[..n], now), leases[n], k);
      }
      assert Expired(leases[..n], now) + [] == Expired(leases[..n], now);
      assert Unexpired(leases[..n], now) + [] == Unexpired(leases[..n], now);
    }
  }

  lemma HeldOfAdd(held: map<nat, Node>, r: nat, owner: Node, k: Node)
    requires r !in held
    ensures HeldOf(held[r := owner], k) == HeldOf(held, k) + (if owner == k then 1 else 0)
    ensures |held[r := owner]| == |held| + 1
  {
    assert HeldBy(held[r := owner], k) == HeldBy(held, k) + (if owner == k then {r} else {});
  }

  lemma HeldOfRemove(held: map<nat, Node>, r: nat, k: Node)
    requires r in held
    ensures HeldOf(held - {r}, k) + (if held[r] == k then 1 else 0) == HeldOf(held, k)
    ensures |held - {r}| + 1 == |held|
  {
    var rest := held - {r};
    assert rest[r := held[r]] == held;
    HeldOfAdd(rest, r, held[r], k);
  }

  lemma {:induction false} DecrementAllCounts(perNode: map<Node, int>, leases: seq<Lease>, k: Node)
    requires forall n: Node :: n in perNode ==> perNode[n] > 0
    requires forall n: Node :: LeasesOf(leases, n) <= NodeCount(perNode, n)
    ensures NodeCount(DecrementAll(perNode, leases), k) == NodeCount(perNode, k) - LeasesOf(leases, k)
    ensures forall n: Node :: n in DecrementAll(perNode, leases) ==> DecrementAll(perNode, leases)[n] > 0
  {
    if leases != [] {
      var n := |leases| - 1;
      forall m: Node ensures LeasesOf(leases[..n], m) <= NodeCount(perNode, m) {
        assert LeasesOf(leases, m) >= LeasesOf(leases[..n], m);
      }
      DecrementAllCounts(perNode, leases[..n], k);
      DecrementAllCounts(perNode, leases[..n], leases[n].owner);
      assert LeasesOf(leases, leases[n].owner) == LeasesOf(leases[..n], leases[n].owner) + 1;
    }
  }

  // -------------------------------------------------------------------- tombstone lemmas

  // Remembering a fresh id keeps the newest entries, up to the capacity.
  lemma RememberFresh(b: Bounds, tombs: seq<Tombstone>, l: Lease, now: Time)
    requires ValidBounds(b) && |tombs| <= Capacity(b) && !TombIn(tombs, l.id)
    ensures var all := tombs + [Tombstone(l.id, l.owner, now + b.ttl)];
      Remember(b, tombs, l, now) == (if |tombs| == Capacity(b) then all[1..] else all)
  {
    var all := tombs + [Tombstone(l.id, l.owner, now + b.ttl)];
    if |tombs| == Capacity(b) { assert Evict(b, all[1..]) == all[1..]; }
  }

  lemma {:induction false} RememberAllNames(b: Bounds, leases: seq<Lease>, tombs: seq<Tombstone>,
                                            retired: seq<Lease>, now: Time)
    requires ValidBounds(b) && |tombs| <= Capacity(b)
    requires Named(leases + retired, tombs)
    ensures Named(leases, RememberAll(b, tombs, retired, now))
    ensures |RememberAll(b, tombs, retired, now)| <= Capacity(b)
    decreases |retired|
  {
    if retired == [] {
      assert leases + retired == leases;
    } else {
      var n := |retired| - 1;
      var last := retired[n];
      assert leases + retired == (leases + retired[..n]) + [last];
      NamedMove(leases, retired[..n], last, tombs);
      RememberAllNames(b, leases + [last], tombs, retired[..n], now);
      RememberNames(b, leases, last, RememberAll(b, tombs, retired[..n], now), now);
    }
  }

  lemma NamedMove(leases: seq<Lease>, retired: seq<Lease>, l: Lease, tombs: seq<Tombstone>)
    requires Named((leases + retired) + [l], tombs)
    ensures Named((leases + [l]) + retired, tombs)
  {
    var a, c := (leases + retired) + [l], (leases + [l]) + retired;
    var n := |leases|;
    forall i, j | 0 <= i < j < |c| ensures c[i].id != c[j].id {
      var x := if i < n then i else if i == n then |a| - 1 else i - 1;
      var y := if j < n then j else if j == n then |a| - 1 else j - 1;
      assert a[x] == c[i] && a[y] == c[j] && x != y;
      if x < y { assert a[x].id != a[y].id; } else { assert a[y].id != a[x].id; }
    }
    forall i, j | 0 <= i < |c| && 0 <= j < |tombs| ensures c[i].id != tombs[j].lease {
      var x := if i < n then i else if i == n then |a| - 1 else i - 1;
      assert a[x] == c[i];
    }
  }

  lemma RememberNames(b: Bounds, leases: seq<Lease>, l: Lease, tombs: seq<Tombstone>, now: Time)
    requires ValidBounds(b) && |tombs| <= Capacity(b) && Named(leases + [l], tombs)
    ensures Named(leases, Remember(b, tombs, l, now))
    ensures |Remember(b, tombs, l, now)| <= Capacity(b)
  {
    var n := |leases|;
    assert (leases + [l])[n] == l;
    RememberFresh(b, tombs, l, now);
    assert forall i :: 0 <= i < n ==> (leases + [l])[i] == leases[i];
  }

  lemma {:induction false} PurgeIsSubsequence(tombs: seq<Tombstone>, now: Time)
    ensures |Purge(tombs, now)| <= |tombs|
    ensures forall t :: t in Purge(tombs, now) <==> t in tombs && now < t.expires
    ensures UniqueTombs(tombs) ==> UniqueTombs(Purge(tombs, now))
  {
    if tombs != [] {
      var n := |tombs| - 1;
      assert tombs == tombs[..n] + [tombs[n]];
      PurgeIsSubsequence(tombs[..n], now);
      if UniqueTombs(tombs) {
        var p := Purge(tombs[..n], now);
        forall i | 0 <= i < |p| ensures p[i].lease != tombs[n].lease {
          assert p[i] in tombs[..n];
          var j :| 0 <= j < n && tombs[j] == p[i];
        }
      }
    }
  }

  lemma PurgeNames(leases: seq<Lease>, tombs: seq<Tombstone>, now: Time)
    requires Named(leases, tombs)
    ensures Named(leases, Purge(tombs, now)) && |Purge(tombs, now)| <= |tombs|
  {
    PurgeIsSubsequence(tombs, now);
    var p := Purge(tombs, now);
    forall i, j | 0 <= i < |leases| && 0 <= j < |p| ensures leases[i].id != p[j].lease {
      assert p[j] in tombs;
      var m :| 0 <= m < |tombs| && tombs[m] == p[j];
    }
  }

  // ------------------------------------------------------- each operation keeps the invariant

  lemma ReserveKeepsInv(b: Bounds, s: Registry, k: Node)
    requires ValidBounds(b) && Inv(b, s)
    ensures Inv(b, Reserve(b, s, k).0)
  {
    if Reserve(b, s, k).1.Some? {
      forall n: Node { HeldOfAdd(s.held, s.issued, k, n); }
    }
  }

  lemma CancelKeepsInv(b: Bounds, s: Registry, r: nat)
    requires ValidBounds(b) && Inv(b, s)
    ensures Inv(b, Cancel(s, r))
  {
    if r in s.held {
      forall n: Node { HeldOfRemove(s.held, r, n); }
    }
  }

  lemma CommitKeepsInv(b: Bounds, s: Registry, r: nat, id: Id, camera: Id, connection: Id,
                       session: Option<Id>, now: Time)
    requires ValidBounds(b) && Inv(b, s) && Drawable(s, id)
    requires Commit(b, s, r, id, camera, connection, session, now).Some?
    ensures Inv(b, Commit(b, s, r, id, camera, connection, session, now).value.0)
  {
    var (s', l) := Commit(b, s, r, id, camera, connection, session, now).value;
    forall n: Node
      ensures LeasesOf(s'.leases, n) + HeldOf(s'.held, n) == LeasesOf(s.leases, n) + HeldOf(s.held, n)
    {
      HeldOfRemove(s.held, r, n);
      LeasesOfAppend(s.leases, l, n);
    }
    HeldOfRemove(s.held, r, l.owner);
  }

  lemma ReleaseKeepsInv(b: Bounds, s: Registry, id: Id, owner: Node, now: Time)
    requires ValidBounds(b) && Inv(b, s)
    ensures Inv(b, ReleaseOwned(b, s, id, owner, now).0)
  {
    var i := IndexOf(s.leases, LeaseId, id);
    if i < |s.leases| && s.leases[i].owner == owner {
      forall n: Node { LeasesOfWithout(s.leases, i, n); }
      var l := s.leases[i];
      assert Named(WithoutAt(s.leases, i) + [l], s.tombstones);
      RememberNames(b, WithoutAt(s.leases, i), l, s.tombstones, now);
      assert Counted(ReleaseOwned(b, s, id, owner, now).0);
    }
  }

  lemma {:induction false} ExpirySplitsNames(leases: seq<Lease>, tombs: seq<Tombstone>, now: Time)
    requires Named(leases, tombs)
    ensures Named(Unexpired(leases, now) + Expired(leases, now), tombs)
  {
    if leases != [] {
      var n := |leases| - 1;
      var init, l := leases[..n], leases[n];
      ExpirySplitsNames(init, tombs, now);
      SplitMembers(init, now);
      var u: seq<Lease>, x: seq<Lease> := Unexpired(init, now), Expired(init, now);
      forall i | 0 <= i < |u + x| ensures (u + x)[i].id != l.id {
        assert (u + x)[i] in init;
        var j :| 0 <= j < n && init[j] == (u + x)[i];
      }
      assert Named((u + x) + [l], tombs);
      if l.expires <= now {
        assert Unexpired(leases, now) + Expired(leases, now) == (u + x) + [l];
      } else {
        NamedMove(u, x, l, tombs);
        assert Unexpired(leases, now) + Expired(leases, now) == (u + [l]) + x;
      }
    }
  }

  lemma {:induction false} SplitMembers(leases: seq<Lease>, now: Time)
    ensures forall l :: l in Unexpired(leases, now) || l in Expired(leases, now) ==> l in leases
  {
    if leases != [] {
      SplitMembers(leases[..|leases| - 1], now);
    }
  }

  lemma PopExpiredKeepsInv(b: Bounds, s: Registry, now: Time)
    requires ValidBounds(b) && Inv(b, s)
    ensures Inv(b, PopExpired(b, s, now).0)
  {
    var expired := Expired(s.leases, now);
    var kept := Unexpired(s.leases, now);
    forall k: Node ensures LeasesOf(expired, k) + LeasesOf(kept, k) == LeasesOf(s.leases, k) {
      ExpirySplits(s.leases, now, k);
    }
    RetiredCounts(s, expired, kept);
    ExpirySplits(s.leases, now, Node(0, 0));
    ExpirySplitsNames(s.leases, s.tombstones, now);
    RememberAllNames(b, kept, s.tombstones, expired, now);
    PurgeNames(kept, RememberAll(b, s.tombstones, expired, now), now);
  }

  // Retiring every lease of `retired` leaves each node's counter on what it still holds.
  lemma RetiredCounts(s: Registry, retired: seq<Lease>, kept: seq<Lease>)
    requires Counted(s)
    requires forall k: Node :: LeasesOf(retired, k) + LeasesOf(kept, k) == LeasesOf(s.leases, k)
    ensures Counted(s.(leases := kept, perNode := DecrementAll(s.perNode, retired)))
    ensures forall k: Node :: NodeCount(DecrementAll(s.perNode, retired), k) <= NodeCount(s.perNode, k)
  {
    forall k: Node ensures LeasesOf(retired, k) <= NodeCount(s.perNode, k) {
      assert LeasesOf(retired, k) + LeasesOf(kept, k) == LeasesOf(s.leases, k);
    }
    forall k: Node
      ensures NodeCount(DecrementAll(s.perNode, retired), k) == NodeCount(s.perNode, k) - LeasesOf(retired, k)
    {
      DecrementAllCounts(s.perNode, retired, k);
    }
    DecrementAllCounts(s.perNode, retired, Node(0, 0));
  }

  lemma DrainKeepsInv(b: Bounds, s: Registry, now: Time)
    requires ValidBounds(b) && Inv(b, s)
    ensures Inv(b, Drain(b, s, now).0)
  {
    RetiredCounts(s, s.leases, []);
    assert [] + s.leases == s.leases;
    RememberAllNames(b, [], s.tombstones, s.leases, now);
  }

  lemma StepKeepsInv(b: Bounds, s: Registry, op: Op)
    requires ValidBounds(b) && Inv(b, s)
    ensures Inv(b, Step(b, s, op).state)
  {
    match op
    case OpReserve(k) => ReserveKeepsInv(b, s, k);
    case OpCancel(r) => CancelKeepsInv(b, s, r);
    case OpCommit(r, id, camera, connection, session, now) =>
      if Drawable(s, id) && r in s.held { CommitKeepsInv(b, s, r, id, camera, connection, session, now); }
    case OpRelease(id, owner, now) => ReleaseKeepsInv(b, s, id, owner, now);
    case OpPopExpired(now) => PopExpiredKeepsInv(b, s, now);
    case OpDrain(now) => DrainKeepsInv(b, s, now);
  }
}
