/** The process-local lease registry: four linked fields that every method updates under one lock. */
module WhepRegistry {
  import opened Base
  import opened Lists
  import opened LeaseModel
  import opened LeaseInvariants

  // A capacity slot held while a session is being negotiated.
  class LeaseReservation {
    const owner: Node
    ghost const number: nat
    var settled: bool

    constructor (owner: Node, ghost number: nat)
      ensures this.owner == owner && this.number == number && !settled
    {
      this.owner, this.number, this.settled := owner, number, false;
    }
  }

  // ----------------------------------------------- deleting expired leases one at a time

  ghost function RemoveOne(leases: seq<Lease>, id: Id): seq<Lease> {
    var i := IndexOf(leases, LeaseId, id);
    if i < |leases| then WithoutAt(leases, i) else leases
  }

  ghost function RemoveAll(leases: seq<Lease>, retired: seq<Lease>): seq<Lease> {
    if retired == [] then leases
    else RemoveOne(RemoveAll(leases, retired[..|retired| - 1]), retired[|retired| - 1].id)
  }

  lemma RemoveOnePrefix(leases: seq<Lease>, l: Lease, id: Id)
    requires l.id != id
    ensures RemoveOne(leases + [l], id) == RemoveOne(leases, id) + [l]
  {
    assert (leases + [l])[..|leases|] == leases;
    var i := IndexOf(leases, LeaseId, id);
    if i < |leases| { assert WithoutAt(leases + [l], i) == WithoutAt(leases, i) + [l]; }
  }

  lemma {:induction false} RemoveAllPrefix(leases: seq<Lease>, l: Lease, retired: seq<Lease>)
    requires forall x :: x in retired ==> x.id != l.id
    ensures RemoveAll(leases + [l], retired) == RemoveAll(leases, retired) + [l]
  {
    if retired != [] {
      var n := |retired| - 1;
      RemoveAllPrefix(leases, l, retired[..n]);
      RemoveOnePrefix(RemoveAll(leases, retired[..n]), l, retired[n].id);
    }
  }

  lemma {:induction false} RemovingExpiredLeavesUnexpired(leases: seq<Lease>, now: Time)
    requires UniqueLeases(leases)
    ensures RemoveAll(leases, Expired(leases, now)) == Unexpired(leases, now)
  {
    if leases != [] {
      var n := |leases| - 1;
      var init, l := leases[..n], leases[n];
      var x := Expired(init, now);
      SplitMembers(init, now);
      forall e | e in x || e in Unexpired(init, now) ensures e.id != l.id {
        assert e in init;
        var j :| 0 <= j < n && init[j] == e;
      }
      assert leases == init + [l];
      RemovingExpiredLeavesUnexpired(init, now);
      RemoveAllPrefix(init, l, x);
      if l.expires <= now {
        assert (x + [l])[..|x|] == x;
        RemoveLast(Unexpired(init, now), l);
      } else {
        assert x + [] == x;
      }
    }
  }

  lemma RemoveLast(leases: seq<Lease>, l: Lease)
    requires !LeaseIdIn(leases, l.id)
    ensures RemoveOne(leases + [l], l.id) == leases
  {
    assert (leases + [l])[|leases|] == l;
  }

  lemma {:induction false} PurgeFromFront(t: Tombstone, rest: seq<Tombstone>, now: Time)
    ensures Purge([t] + rest, now) == (if t.expires <= now then [] else [t]) + Purge(rest, now)
  {
    var all := [t] + rest;
    if rest == [] {
      assert all[..0] == [];
    } else {
      var n := |rest| - 1;
      assert all[..|all| - 1] == [t] + rest[..n];
      PurgeFromFront(t, rest[..n], now);
    }
  }

  // One turn of the purge at position `i`: the deleted or kept element, and what stays ahead.
  lemma PurgeAt(tombs: seq<Tombstone>, i: nat, now: Time)
    requires i < |tombs|
    ensures var rest := WithoutAt(tombs, i);
      if tombs[i].expires <= now
      then rest[..i] + Purge(rest[i..], now) == tombs[..i] + Purge(tombs[i..], now)
      else tombs[..i + 1] + Purge(tombs[i + 1..], now) == tombs[..i] + Purge(tombs[i..], now)
  {
    var rest := WithoutAt(tombs, i);
    assert tombs[i..] == [tombs[i]] + tombs[i + 1..];
    PurgeFromFront(tombs[i], tombs[i + 1..], now);
    assert rest[..i] == tombs[..i] && rest[i..] == tombs[i + 1..];
    assert tombs[..i + 1] == tombs[..i] + [tombs[i]];
  }

  class WhepLeaseRegistry {
    const bounds: Bounds
    var leases: seq<Lease>
    var perNode: map<Node, int>
    var pending: int
    var tombstones: seq<Tombstone>
    ghost var issued: seq<LeaseReservation>

    ghost function Held(): map<nat, Node>
      reads this`issued, issued
    {
      map i | 0 <= i < |issued| && !issued[i].settled :: issued[i].owner
    }

    ghost function Value(): Registry
      reads this, issued
    {
      Registry(leases, perNode, pending, tombstones, Held(), |issued|)
    }

    ghost predicate Valid()
      reads this, issued
    {
      Numbered() && Inv(bounds, Value())
    }

    ghost predicate Numbered()
      reads this, issued
    {
      ValidBounds(bounds) && forall i :: 0 <= i < |issued| ==> issued[i].number == i
    }

    // The reservation was issued by this registry.
    ghost predicate Issued(r: LeaseReservation)
      reads this
    {
      r.number < |issued| && issued[r.number] == r
    }

    constructor (bounds: Bounds)
      requires ValidBounds(bounds)
      ensures Valid() && this.bounds == bounds && Value() == EMPTY
    {
      this.bounds := bounds;
      leases, perNode, pending, tombstones, issued := [], map[], 0, [], [];
      new;
      assert Held() == map[];
      assert forall k: Node :: HeldBy(map[], k) == {};
    }

    method Reserve(node: Node) returns (r: LeaseReservation?)
      requires Valid()
      modifies this`perNode, this`pending, this`issued
      ensures Valid()
      ensures Value() == LeaseModel.Reserve(bounds, old(Value()), node).0
      ensures r != null <==> LeaseModel.Reserve(bounds, old(Value()), node).1.Some?
      ensures r != null ==> fresh(r) && r.owner == node && !r.settled && Issued(r) && issued == old(issued) + [r]
      ensures r == null ==> issued == old(issued)
    {
      ReserveKeepsInv(bounds, Value(), node);
      r := TakeSlot(node);
    }

    method TakeSlot(node: Node) returns (r: LeaseReservation?)
      requires Numbered()
      modifies this`perNode, this`pending, this`issued
      ensures Numbered()
      ensures Value() == LeaseModel.Reserve(bounds, old(Value()), node).0
      ensures r != null <==> LeaseModel.Reserve(bounds, old(Value()), node).1.Some?
      ensures r != null ==> fresh(r) && r.owner == node && !r.settled && Issued(r) && issued == old(issued) + [r]
      ensures r == null ==> issued == old(issued)
    {
      if |leases| + pending >= bounds.maxActive { return null; }
      if node in perNode && perNode[node] >= bounds.maxPerNode { return null; }
      if node !in perNode { perNode := perNode[node := 0]; }
      perNode := perNode[node := perNode[node] + 1];
      pending := pending + 1;
      r := new LeaseReservation(node, |issued|);
      issued := issued + [r];
      assert Held() == old(Held())[|old(issued)| := node];
    }

    method CancelReservation(r: LeaseReservation)
      requires Valid() && Issued(r)
      modifies this`pending, this`perNode, r`settled
      ensures Valid() && issued == old(issued) && r.settled
      ensures Value() == Cancel(old(Value()), r.number)
    {
      ghost var before := Value();
      CancelKeepsInv(bounds, before, r.number);
      if r.settled { return; }
      r.settled := true;
      pending := pending - 1;
      DecrementNode(r.owner);
      assert Held() == old(Held()) - {r.number};
      assert Value() == Cancel(before, r.number);
    }

    method DecrementNode(node: Node)
      modifies this`perNode
      ensures perNode == Decrement(old(perNode), node)
    {
      if node in perNode {
        perNode := perNode[node := perNode[node] - 1];
        if perNode[node] <= 0 { perNode := perNode - {node}; }
      }
    }

    // The lease id is drawn at random until it is neither live nor remembered.
    method CommitReservation(r: LeaseReservation, camera: Id, connection: Id, session: Option<Id>, now: Time)
      returns (lease: Option<Lease>)
      requires Valid() && Issued(r)
      modifies this`pending, this`leases, r`settled
      ensures Valid() && issued == old(issued) && r.settled
      ensures lease.None? <==> old(r.settled)
      ensures lease.None? ==> Value() == old(Value())
      ensures lease.Some? ==>
        && Drawable(old(Value()), lease.value.id)
        && Commit(bounds, old(Value()), r.number, lease.value.id, camera, connection, session, now)
           == Some((Value(), lease.value))
      ensures lease.Some? ==>
        && lease.value.owner == r.owner && lease.value.camera == camera && lease.value.connection == connection
        && lease.value.session == session && lease.value.expires == now + bounds.ttl
    {
      if r.settled { return None; }
      UnusedIdExists(leases, tombstones);
      var id: Id :| !LeaseIdIn(leases, id) && !TombIn(tombstones, id);
      ghost var before := Value();
      CommitKeepsInv(bounds, before, r.number, id, camera, connection, session, now);
      var l := SettleAs(r, Lease(id, r.owner, camera, connection, session, now, now + bounds.ttl));
      lease := Some(l);
      assert Commit(bounds, before, r.number, id, camera, connection, session, now) == Some((Value(), l));
    }

    method SettleAs(r: LeaseReservation, l: Lease) returns (lease: Lease)
      requires Numbered() && Issued(r) && !r.settled
      modifies this`pending, this`leases, r`settled
      ensures Numbered() && issued == old(issued) && r.settled && lease == l
      ensures Value() == old(Value()).(pending := old(pending) - 1, leases := old(leases) + [l],
                                       held := old(Held()) - {r.number})
    {
      r.settled := true;
      pending := pending - 1;
      leases := leases + [l];
      lease := l;
      assert Held() == old(Held()) - {r.number};
    }

    method RememberReleased(l: Lease, now: Time)
      modifies this`tombstones
      ensures tombstones == Remember(bounds, old(tombstones), l, now)
    {
      var i := Find(tombstones, TombId, l.id);
      if i < |tombstones| { tombstones := WithoutAt(tombstones, i); }
      tombstones := tombstones + [Tombstone(l.id, l.owner, now + bounds.ttl)];
      ghost var all := tombstones;
      while |tombstones| > Capacity(bounds) && tombstones != []
        invariant Evict(bounds, tombstones) == Evict(bounds, all)
        decreases |tombstones|
      {
        tombstones := tombstones[1..];
      }
    }

    method Release(id: Id, owner: Node, now: Time) returns (answer: Answer, lease: Option<Lease>)
      requires Valid()
      modifies this`leases, this`perNode, this`tombstones
      ensures Valid() && issued == old(issued)
      ensures (Value(), answer, lease) == ReleaseOwned(bounds, old(Value()), id, owner, now)
    {
      ghost var before := Value();
      ReleaseKeepsInv(bounds, before, id, owner, now);
      answer, lease := HandBack(id, owner, now);
      assert Value() == ReleaseOwned(bounds, before, id, owner, now).0;
    }

    method HandBack(id: Id, owner: Node, now: Time) returns (answer: Answer, lease: Option<Lease>)
      modifies this`leases, this`perNode, this`tombstones
      ensures issued == old(issued)
      ensures (Value(), answer, lease) == ReleaseOwned(bounds, old(Value()), id, owner, now)
    {
      var i := Find(leases, LeaseId, id);
      if i < |leases| {
        var l := leases[i];
        if l.owner != owner { return NotFound, None; }
        leases := WithoutAt(leases, i);
        DecrementNode(owner);
        RememberReleased(l, now);
        return Released, Some(l);
      }
      var t := Find(tombstones, TombId, id);
      if t < |tombstones| && tombstones[t].owner == owner && tombstones[t].expires > now {
        return AlreadyReleased, None;
      }
      return NotFound, None;
    }

    method PopExpiredLeases(now: Time) returns (expired: seq<Lease>)
      requires Valid()
      modifies this`leases, this`perNode, this`tombstones
      ensures Valid() && issued == old(issued)
      ensures (Value(), expired) == PopExpired(bounds, old(Value()), now)
    {
      PopExpiredKeepsInv(bounds, Value(), now);
      expired := RetireExpired(now);
      PurgeTombstones(now);
    }

    method RetireExpired(now: Time) returns (expired: seq<Lease>)
      requires UniqueLeases(leases)
      modifies this`leases, this`perNode, this`tombstones
      ensures expired == Expired(old(leases), now) && leases == Unexpired(old(leases), now)
      ensures perNode == DecrementAll(old(perNode), expired)
      ensures tombstones == RememberAll(bounds, old(tombstones), expired, now)
    {
      RemovingExpiredLeavesUnexpired(leases, now);
      expired := Expired(leases, now);
      for i := 0 to |expired|
        invariant leases == RemoveAll(old(leases), expired[..i])
        invariant perNode == DecrementAll(old(perNode), expired[..i])
        invariant tombstones == RememberAll(bounds, old(tombstones), expired[..i], now)
      {
        assert expired[..i + 1][..i] == expired[..i];
        RetireLease(expired[i], now);
      }
      assert expired[..|expired|] == expired;
    }

    method RetireLease(l: Lease, now: Time)
      modifies this`leases, this`perNode, this`tombstones
      ensures leases == RemoveOne(old(leases), l.id)
      ensures perNode == Decrement(old(perNode), l.owner)
      ensures tombstones == Remember(bounds, old(tombstones), l, now)
    {
      var i := Find(leases, LeaseId, l.id);
      if i < |leases| { leases := WithoutAt(leases, i); }
      DecrementNode(l.owner);
      RememberReleased(l, now);
    }

    method PurgeTombstones(now: Time)
      modifies this`tombstones
      ensures tombstones == Purge(old(tombstones), now)
    {
      var i := 0;
      while i < |tombstones|
        invariant 0 <= i <= |tombstones|
        invariant tombstones[..i] + Purge(tombstones[i..], now) == Purge(old(tombstones), now)
        decreases |tombstones| - i
      {
        PurgeAt(tombstones, i, now);
        if tombstones[i].expires <= now {
          tombstones := WithoutAt(tombstones, i);
        } else {
          i := i + 1;
        }
      }
      assert tombstones[..i] == tombstones;
    }

    method DrainAll(now: Time) returns (all: seq<Lease>)
      requires Valid()
      modifies this`leases, this`perNode, this`tombstones
      ensures Valid() && issued == old(issued)
      ensures (Value(), all) == Drain(bounds, old(Value()), now)
    {
      DrainKeepsInv(bounds, Value(), now);
      all := leases;
      ForgetAll(all, now);
      leases := [];
    }

    method ForgetAll(all: seq<Lease>, now: Time)
      modifies this`perNode, this`tombstones
      ensures perNode == DecrementAll(old(perNode), all)
      ensures tombstones == RememberAll(bounds, old(tombstones), all, now)
    {
      for i := 0 to |all|
        invariant perNode == DecrementAll(old(perNode), all[..i])
        invariant tombstones == RememberAll(bounds, old(tombstones), all[..i], now)
      {
        assert all[..i + 1][..i] == all[..i];
        DecrementNode(all[i].owner);
        RememberReleased(all[i], now);
      }
      assert all[..|all|] == all;
    }
  }

  ghost function MaxId(leases: seq<Lease>, tombs: seq<Tombstone>): (m: nat)
    ensures forall i :: 0 <= i < |leases| ==> leases[i].id <= m
    ensures forall i :: 0 <= i < |tombs| ==> tombs[i].lease <= m
  {
    if leases != [] then
      var n := |leases| - 1;
      var m := MaxId(leases[..n], tombs);
      assert forall i :: 0 <= i < n ==> leases[i] == leases[..n][i];
      Max(m, leases[n].id)
    else if tombs != [] then
      var n := |tombs| - 1;
      var m := MaxId(leases, tombs[..n]);
      assert forall i :: 0 <= i < n ==> tombs[i] == tombs[..n][i];
      Max(m, tombs[n].lease)
    else 0
  }

  lemma UnusedIdExists(leases: seq<Lease>, tombs: seq<Tombstone>)
    ensures exists id: Id :: !LeaseIdIn(leases, id) && !TombIn(tombs, id)
  {
    var id: Id := MaxId(leases, tombs) + 1;
    assert !LeaseIdIn(leases, id) && !TombIn(tombs, id);
  }
}
