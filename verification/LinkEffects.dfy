/** What creating, editing and deactivating a link does to the row, to the pickup decision and to later releases. */
module LinkEffects {
  import opened Base
  import opened Lists
  import opened Attendance
  import opened PickupDecision
  import opened CareProtocol
  import opened CareInvariants
  import opened CareRuns

  // Link ids are distinct, so an id names one row.
  lemma RowAt(s: Store, i: nat, l: Link)
    requires Inv(s) && i < |s.links| && l in s.links && l.id == s.links[i].id
    ensures l == s.links[i]
  {
    var j :| 0 <= j < |s.links| && s.links[j] == l;
    assert i == j;
  }

  // The links of all other ids are the same rows.
  ghost predicate OnlyLink(s: Store, s': Store, id: Id) {
    && s' == s.(links := s'.links)
    && forall l: Link :: l.id != id ==> (l in s.links <==> l in s'.links)
  }

  /** An ACTIVE link of active parties decides alone: pickup allowed, and the instant in its half-open period. */
  lemma ActiveLinkDecides(s: Store, l: Link, at: Time)
    requires Inv(s) && l in s.links && l.active
    requires s.children[l.child] == Party(l.facility, Active) && s.contacts[l.contact] == Party(l.facility, Active)
    ensures
      var d := DecidePickup(l.child, s.children[l.child], l.contact, s.contacts[l.contact], s.links, l.facility, at);
      var over := l.effectiveUntil.Some? && l.effectiveUntil.value <= at;
      && (d.0 == Authorized <==> l.pickup && l.effectiveFrom <= at && !over)
      && (d.0 == PickupNotAuthorized <==> !l.pickup)
      && (d.0 == AuthorizationNotStarted <==> l.pickup && at < l.effectiveFrom)
      && (d.0 == AuthorizationExpired <==> l.pickup && l.effectiveFrom <= at && over)
  {
    AuthorizedIff(l.child, s.children[l.child], l.contact, s.contacts[l.contact], s.links, l.facility, at);
    var i :| 0 <= i < |s.links| && s.links[i] == l;
    forall j | 0 <= j < |s.links| && j != i ensures !(OfPair(s.links[j], l.child, l.contact) && s.links[j].active) {
      NotBothActive(s, i, j);
    }
    assert SoleActive(s.links, l.child, l.contact, i);
    SoleActiveIsSingle(s.links, l.child, l.contact, i);
    forall x | x in s.links && OfPair(x, l.child, l.contact) ensures x.facility == l.facility {
      var j :| 0 <= j < |s.links| && s.links[j] == x;
      assert LinkOk(s.links[j], s.children, s.contacts) && LinkOk(s.links[i], s.children, s.contacts);
    }
  }

  // -------------------------------------------------------------------------------- create

  ghost function ActivePlaces(links: seq<Link>, child: Id): set<int> {
    set i | 0 <= i < |links| && links[i].child == child && links[i].active
  }

  lemma {:induction false} ActiveCountCounts(links: seq<Link>, child: Id)
    ensures ActiveCount(links, child) == |ActivePlaces(links, child)|
  {
    if links == [] {
      assert ActivePlaces(links, child) == {};
    } else {
      var n := |links| - 1;
      ActiveCountCounts(links[..n], child);
      assert ActivePlaces(links, child) ==
        ActivePlaces(links[..n], child) + if links[n].child == child && links[n].active then {n} else {};
    }
  }

  ghost predicate MayLink(s: Store, child: Id, input: LinkInput, now: Time, id: Id) {
    && (input.effectiveUntil.Some? ==>
          (if input.effectiveFrom.Some? then input.effectiveFrom.value else now) < input.effectiveUntil.value)
    && child in s.children && s.children[child].status != Archived
    && input.contact in s.contacts && s.contacts[input.contact].status != Archived
    && s.contacts[input.contact].facility == s.children[child].facility
    && (forall l :: l in s.links && l.child == child && l.contact == input.contact ==> !l.active)
    && |ActivePlaces(s.links, child)| < 20
    && forall l :: l in s.links ==> l.id != id
  }

  lemma CreateLinkIff(s: Store, child: Id, input: LinkInput, now: Time, id: Id)
    ensures CreateLinkStep(s, child, input, now, id).Ok? <==> MayLink(s, child, input, now, id)
  {
    ActiveCountCounts(s.links, child);
    assert forall i :: 0 <= i < |s.links| ==> s.links[i] in s.links;
  }

  /** The new link has exactly the requested terms, from now on if no start is given, and decides as they say. */
  lemma CreateTakesEffect(s: Store, child: Id, input: LinkInput, now: Time, id: Id) returns (l: Link)
    requires Inv(s) && CreateLinkStep(s, child, input, now, id).Ok?
    ensures var s' := CreateLinkStep(s, child, input, now, id).value;
      && l in s'.links && OnlyLink(s, s', id)
      && l.id == id && l.child == child && l.contact == input.contact && l.active && l.revision == 1
      && l.pickup == input.pickup && l.relationship == input.relationship && l.note == input.note
      && l.effectiveFrom == (if input.effectiveFrom.Some? then input.effectiveFrom.value else now)
      && l.effectiveUntil == input.effectiveUntil
      && l.facility == s.children[child].facility
  {
    var s' := CreateLinkStep(s, child, input, now, id).value;
    l := s'.links[|s.links|];
  }

  // ---------------------------------------------------------------------------------- edit

  // The edited row has what was asked for and keeps what was not.
  ghost predicate Edited(p: Link, q: Link, change: LinkChange) {
    && q.id == p.id && q.child == p.child && q.contact == p.contact && q.facility == p.facility && q.active == p.active
    && (change.pickup.Some? ==> q.pickup == change.pickup.value)
    && (change.pickup.None? ==> q.pickup == p.pickup)
    && (change.relationship.Some? ==> q.relationship == change.relationship.value)
    && (change.relationship.None? ==> q.relationship == p.relationship)
    && (change.effectiveFrom.Some? ==> q.effectiveFrom == change.effectiveFrom.value)
    && (change.effectiveFrom.None? ==> q.effectiveFrom == p.effectiveFrom)
    && (change.setEffectiveUntil ==> q.effectiveUntil == change.effectiveUntil)
    && (!change.setEffectiveUntil ==> q.effectiveUntil == p.effectiveUntil)
    && (change.setNote ==> q.note == change.note)
    && (!change.setNote ==> q.note == p.note)
  }

  /** After an edit the row of that id has the requested fields, at a new revision exactly if one differs. */
  lemma EditTakesEffect(s: Store, child: Id, id: Id, change: LinkChange) returns (p: Link, q: Link)
    requires Inv(s) && UpdateLinkStep(s, child, id, change).Ok?
    ensures var s' := UpdateLinkStep(s, child, id, change).value;
      && p in s.links && p.id == id && p.child == child && p.active
      && q in s'.links && OnlyLink(s, s', id)
      && Edited(p, q, change)
      && (q == p || q.revision == p.revision + 1)
      && (q.revision == p.revision <==> q == p)
  {
    var s' := UpdateLinkStep(s, child, id, change).value;
    var i := IndexOf(s.links, LinkId, id);
    p, q := s.links[i], s'.links[i];
    OneRowChanged(s, s', i);
  }

  // Replacing the row of one id leaves all others.
  lemma OneRowChanged(s: Store, s': Store, i: nat)
    requires Inv(s) && i < |s.links| && s' == s.(links := s'.links) && |s'.links| == |s.links|
    requires s'.links == s.links[i := s'.links[i]] && s'.links[i].id == s.links[i].id
    ensures OnlyLink(s, s', s.links[i].id)
  {
    forall l: Link | l.id != s.links[i].id ensures l in s.links <==> l in s'.links {
      if l in s.links {
        var j :| 0 <= j < |s.links| && s.links[j] == l;
        assert s'.links[j] == l;
      }
      if l in s'.links {
        var j :| 0 <= j < |s'.links| && s'.links[j] == l;
        assert s.links[j] == l;
      }
    }
  }

  /** An edit is accepted exactly for an ACTIVE link of unarchived parties whose new period is not inverted. */
  lemma EditIff(s: Store, child: Id, id: Id, change: LinkChange)
    requires Inv(s)
    ensures UpdateLinkStep(s, child, id, change).Ok? <==>
      exists p :: p in s.links && p.id == id && p.child == child && p.active
        && s.children[child].status != Archived && s.contacts[p.contact].status != Archived
        && var from := if change.effectiveFrom.Some? then change.effectiveFrom.value else p.effectiveFrom;
           var until := if change.setEffectiveUntil then change.effectiveUntil else p.effectiveUntil;
           until.Some? ==> from < until.value
  {
    var i := IndexOf(s.links, LinkId, id);
    if i < |s.links| {
      assert s.links[i] in s.links && LinkOk(s.links[i], s.children, s.contacts);
      forall p | p in s.links && p.id == id ensures p == s.links[i] { RowAt(s, i, p); }
    } else {
      forall p | p in s.links ensures p.id != id {
        var j :| 0 <= j < |s.links| && s.links[j] == p;
      }
    }
  }

  // ----------------------------------------------------------------------------- deactivate

  /** Deactivating leaves every term as it is and the row INACTIVE, and it is accepted for every link of the child. */
  lemma DeactivateTakesEffect(s: Store, child: Id, id: Id, p: Link)
    requires Inv(s) && p in s.links && p.id == id && p.child == child
    ensures DeactivateLinkStep(s, child, id).Ok?
    ensures var s' := DeactivateLinkStep(s, child, id).value;
      && OnlyLink(s, s', id)
      && (if p.active then p.(active := false, revision := p.revision + 1) else p) in s'.links
      && forall l :: l in s'.links && l.id == id ==> !l.active
  {
    var i := IndexOf(s.links, LinkId, id);
    var j :| 0 <= j < |s.links| && s.links[j] == p;
    assert LinkOk(s.links[j], s.children, s.contacts);
    RowAt(s, i, p);
    var s' := DeactivateLinkStep(s, child, id).value;
    OneRowChanged(s, s', i);
    assert s'.links[i] in s'.links;
    forall l | l in s'.links && l.id == id ensures !l.active {
      var k :| 0 <= k < |s'.links| && s'.links[k] == l;
      assert k == i;
    }
  }

  // ------------------------------------------------------------------ pickup taken away stays so

  ghost predicate NoGrant(s: Store, child: Id, contact: Id) {
    forall l :: l in s.links && OfPair(l, child, contact) && l.active ==> !l.pickup
  }

  // The operation could give this pair a link that allows pickup.
  predicate MayGrant(op: Op, child: Id, contact: Id) {
    || (op.CreateLink? && op.child == child && op.input.contact == contact && op.input.pickup)
    || (op.UpdateLink? && op.child == child && op.change.pickup == Some(true))
  }

  lemma StepKeepsNoGrant(s: Store, op: Op, child: Id, contact: Id)
    requires Inv(s) && NoGrant(s, child, contact) && !MayGrant(op, child, contact)
    ensures NoGrant(Apply(s, op), child, contact)
  {
    if Step(s, op).Ok? {
      match op
      case UpdateLink(c, id, change) =>
        var i := IndexOf(s.links, LinkId, id);
        assert s.links[i] in s.links;
      case DeactivateLink(c, id) =>
        var i := IndexOf(s.links, LinkId, id);
        assert s.links[i] in s.links;
      case _ =>
    }
  }

  lemma NoGrantNoRelease(s: Store, room: Id, child: Id, contact: Id, verification: string, now: Time,
                         eventId: Id, releaseId: Id)
    requires NoGrant(s, child, contact)
    ensures ReleaseStep(s, room, child, contact, verification, now, eventId, releaseId).Err?
    ensures !Offered(s, room, child, contact, now)
  {
    if room in s.rooms && child in s.children && contact in s.contacts {
      AuthorizedIff(child, s.children[child], contact, s.contacts[contact], s.links, s.rooms[room].facility, now);
      assert forall i :: SoleActive(s.links, child, contact, i) ==> s.links[i] in s.links;
    }
  }

  // The operation takes pickup away from the pair's link: by an edit, or by deactivating it.
  ghost predicate Revokes(s: Store, op: Op, l: Link) {
    && l in s.links && l.active && Step(s, op).Ok?
    && ((op.UpdateLink? && op.child == l.child && op.id == l.id && op.change.pickup == Some(false))
        || (op.DeactivateLink? && op.child == l.child && op.id == l.id))
  }

  lemma RevokingLeavesNoGrant(s: Store, op: Op, l: Link)
    requires Inv(s) && Revokes(s, op, l)
    ensures NoGrant(Apply(s, op), l.child, l.contact)
  {
    var i :| 0 <= i < |s.links| && s.links[i] == l;
    var s' := Apply(s, op);
    if op.UpdateLink? {
      var p, q := EditTakesEffect(s, op.child, op.id, op.change);
      RowAt(s, i, p);
    } else {
      DeactivateTakesEffect(s, op.child, op.id, l);
    }
    StepKeepsInv(s, op);
    forall x | x in s'.links && OfPair(x, l.child, l.contact) && x.active ensures !x.pickup {
      if x.id == l.id {
        if op.UpdateLink? {
          var p, q := EditTakesEffect(s, op.child, op.id, op.change);
          var k :| 0 <= k < |s'.links| && s'.links[k] == q;
          RowAt(s', k, x);
        }
      } else {
        assert x in s.links;
        var j :| 0 <= j < |s.links| && s.links[j] == x;
        NotBothActive(s, i, j);
      }
    }
  }

  lemma AfterNext(ops: seq<Op>, m: nat)
    requires m < |ops|
    ensures After(ops[..m + 1]) == Apply(After(ops[..m]), ops[m])
  {
    assert ops[..m + 1][..m] == ops[..m];
  }

  lemma NoGrantOnceRevoked(ops: seq<Op>, m: nat, l: Link)
    requires m < |ops| && Revokes(After(ops[..m]), ops[m], l)
    ensures NoGrant(After(ops[..m + 1]), l.child, l.contact)
  {
    InvAlways(ops[..m]);
    RevokingLeavesNoGrant(After(ops[..m]), ops[m], l);
    AfterNext(ops, m);
  }

  lemma {:induction false} NoGrantSinceRevoked(ops: seq<Op>, m: nat, l: Link)
    requires m < |ops| && Revokes(After(ops[..m]), ops[m], l)
    requires forall k :: m < k < |ops| ==> !MayGrant(ops[k], l.child, l.contact)
    ensures NoGrant(After(ops), l.child, l.contact)
    decreases |ops|
  {
    if m == |ops| - 1 {
      assert ops[..m + 1] == ops;
      NoGrantOnceRevoked(ops, m, l);
    } else {
      var shorter := ops[..|ops| - 1];
      assert shorter[..m] == ops[..m];
      assert forall k :: m < k < |shorter| ==> shorter[k] == ops[k];
      NoGrantSinceRevoked(shorter, m, l);
      InvAlways(shorter);
      StepKeepsNoGrant(After(shorter), ops[|ops| - 1], l.child, l.contact);
    }
  }

  /**
    Once pickup has been taken away from a pair's ACTIVE link, by an edit or by deactivating it, the contact is
    neither offered nor given the child until a link of the pair is made with pickup or an edit of one of the
    child's links grants it.
   */
  lemma RevokedPickupIsRefused(ops: seq<Op>, m: nat, l: Link, room: Id, verification: string, now: Time,
                               eventId: Id, releaseId: Id)
    requires m < |ops| && Revokes(After(ops[..m]), ops[m], l)
    requires forall k :: m < k < |ops| ==> !MayGrant(ops[k], l.child, l.contact)
    ensures ReleaseStep(After(ops), room, l.child, l.contact, verification, now, eventId, releaseId).Err?
    ensures !Offered(After(ops), room, l.child, l.contact, now)
  {
    NoGrantSinceRevoked(ops, m, l);
    NoGrantNoRelease(After(ops), room, l.child, l.contact, verification, now, eventId, releaseId);
  }

  // --------------------------------------------------------------------- bounded active links

  lemma StepKeepsBound(s: Store, op: Op, child: Id)
    requires |ActivePlaces(s.links, child)| <= 20
    ensures |ActivePlaces(Apply(s, op).links, child)| <= 20
  {
    var a, b := ActivePlaces(s.links, child), ActivePlaces(Apply(s, op).links, child);
    if op.CreateLink? && Step(s, op).Ok? && op.child == child {
      CreateLinkIff(s, op.child, op.input, op.now, op.id);
      assert b == a + {|s.links|};
    } else {
      assert b <= a;
      SubsetSize(b, a);
    }
  }

  /** In every run no child has more than 20 ACTIVE links. */
  lemma {:induction false} ActiveLinksAreBounded(ops: seq<Op>, child: Id)
    ensures |ActivePlaces(After(ops).links, child)| <= 20
  {
    if ops == [] {
      assert ActivePlaces(After(ops).links, child) == {};
    } else {
      ActiveLinksAreBounded(ops[..|ops| - 1], child);
      StepKeepsBound(After(ops[..|ops| - 1]), ops[|ops| - 1], child);
    }
  }
}
