/** Whether one contact may collect one child now, decided from ids, statuses and link rows alone. */
module PickupDecision {
  import opened Base
  import opened Attendance

  // One stored child <-> contact link. `relationship` and `note` are operator text and decide nothing.
  datatype Link = Link(
    id: Id, child: Id, contact: Id, facility: Id, active: bool, pickup: bool,
    effectiveFrom: Time, effectiveUntil: Option<Time>, relationship: string, note: Option<string>, revision: int)

  // A child profile or a guardian contact as the decision sees it.
  datatype Party = Party(facility: Id, status: Lifecycle)

  datatype Decision =
    | Authorized | FacilityMismatch | ChildInactive | AuthorizedPersonInactive | NoAssociation
    | AssociationInactive | AssociationAmbiguous | PickupNotAuthorized | AuthorizationNotStarted
    | AuthorizationExpired

  predicate ValidPeriod(from: Time, until: Option<Time>) { until.Some? ==> from < until.value }

  predicate OfPair(l: Link, child: Id, contact: Id) { l.child == child && l.contact == contact }

  function PairLinks(links: seq<Link>, child: Id, contact: Id): (r: seq<Link>)
    ensures forall l :: l in r <==> l in links && OfPair(l, child, contact)
  {
    if links == [] then []
    else
      var n := |links| - 1;
      assert links == links[..n] + [links[n]];
      PairLinks(links[..n], child, contact) + (if OfPair(links[n], child, contact) then [links[n]] else [])
  }

  function ActiveLinks(links: seq<Link>): (r: seq<Link>)
    ensures forall l :: l in r <==> l in links && l.active
  {
    if links == [] then []
    else
      var n := |links| - 1;
      assert links == links[..n] + [links[n]];
      ActiveLinks(links[..n]) + (if links[n].active then [links[n]] else [])
  }

  function LinkDecision(l: Link, at: Time): Decision {
    if !l.active then AssociationInactive
    else if !l.pickup then PickupNotAuthorized
    else if at < l.effectiveFrom then AuthorizationNotStarted
    else if l.effectiveUntil.Some? && l.effectiveUntil.value <= at then AuthorizationExpired
    else Authorized
  }

  // First failure wins; `link` is the ACTIVE link the decision rests on, when there is exactly one.
  function DecidePickup(
    child: Id, childParty: Party, contact: Id, contactParty: Party,
    links: seq<Link>, facility: Id, at: Time): (Decision, Option<Link>)
  {
    var pair := PairLinks(links, child, contact);
    var active := ActiveLinks(pair);
    if childParty.facility != facility || contactParty.facility != facility
       || (exists l :: l in pair && l.facility != facility) then (FacilityMismatch, None)
    else if childParty.status != Active then (ChildInactive, None)
    else if contactParty.status != Active then (AuthorizedPersonInactive, None)
    else if pair == [] then (NoAssociation, None)
    else if active == [] then (AssociationInactive, None)
    else if |active| > 1 then (AssociationAmbiguous, None)
    else (LinkDecision(active[0], at), Some(active[0]))
  }

  // ------------------------------------------------------------------- what it means

  // The terms of `l` let its contact collect its child at `at`: half-open [from, until).
  ghost predicate Grants(l: Link, at: Time) {
    && l.active && l.pickup
    && l.effectiveFrom <= at
    && (l.effectiveUntil.Some? ==> at < l.effectiveUntil.value)
  }

  // Row `i` is the pair's only ACTIVE link.
  ghost predicate SoleActive(links: seq<Link>, child: Id, contact: Id, i: int) {
    && 0 <= i < |links| && OfPair(links[i], child, contact) && links[i].active
    && forall j :: 0 <= j < |links| && OfPair(links[j], child, contact) && links[j].active ==> j == i
  }

  ghost function ActiveOfPair(links: seq<Link>, child: Id, contact: Id): seq<Link> {
    ActiveLinks(PairLinks(links, child, contact))
  }

  lemma ActiveOfAppend(links: seq<Link>, l: Link)
    ensures ActiveLinks(links + [l]) == ActiveLinks(links) + (if l.active then [l] else [])
  {
    assert (links + [l])[..|links|] == links;
  }

  lemma ActiveOfPairAppend(links: seq<Link>, l: Link, child: Id, contact: Id)
    ensures ActiveOfPair(links + [l], child, contact)
         == ActiveOfPair(links, child, contact) + (if OfPair(l, child, contact) && l.active then [l] else [])
  {
    assert (links + [l])[..|links|] == links;
    var pair := PairLinks(links, child, contact);
    if OfPair(l, child, contact) {
      ActiveOfAppend(pair, l);
    } else {
      assert pair + [] == pair;
    }
  }

  lemma NoneActive(links: seq<Link>, child: Id, contact: Id)
    requires ActiveOfPair(links, child, contact) == []
    ensures forall j :: 0 <= j < |links| ==> !(OfPair(links[j], child, contact) && links[j].active)
  {
    forall j | 0 <= j < |links| ensures !(OfPair(links[j], child, contact) && links[j].active) {
      assert links[j] in links;
    }
  }

  lemma {:induction false} SingleActiveIsSole(links: seq<Link>, child: Id, contact: Id) returns (i: int)
    requires |ActiveOfPair(links, child, contact)| == 1
    ensures SoleActive(links, child, contact, i) && ActiveOfPair(links, child, contact) == [links[i]]
  {
    var n := |links| - 1;
    var init, last := links[..n], links[n];
    assert links == init + [last];
    ActiveOfPairAppend(init, last, child, contact);
    if OfPair(last, child, contact) && last.active {
      i := n;
      NoneActive(init, child, contact);
    } else {
      i := SingleActiveIsSole(init, child, contact);
    }
  }

  lemma {:induction false} SoleActiveIsSingle(links: seq<Link>, child: Id, contact: Id, i: int)
    requires SoleActive(links, child, contact, i)
    ensures ActiveOfPair(links, child, contact) == [links[i]]
  {
    var n := |links| - 1;
    var init, last := links[..n], links[n];
    assert links == init + [last];
    ActiveOfPairAppend(init, last, child, contact);
    var before := ActiveOfPair(init, child, contact);
    assert before == [] || (before[0] in init && OfPair(before[0], child, contact) && before[0].active);
    if i < n { SoleActiveIsSingle(init, child, contact, i); }
  }

  /**
    A pickup is authorized exactly when the child and the contact are active at this facility, every
    link of the pair is at it too, and the pair's one and only ACTIVE link grants pickup at this time.
   */
  lemma AuthorizedIff(child: Id, childParty: Party, contact: Id, contactParty: Party,
                      links: seq<Link>, facility: Id, at: Time)
    ensures DecidePickup(child, childParty, contact, contactParty, links, facility, at).0 == Authorized
       <==>
       && childParty == Party(facility, Active)
       && contactParty == Party(facility, Active)
       && (forall l :: l in links && OfPair(l, child, contact) ==> l.facility == facility)
       && (exists i :: SoleActive(links, child, contact, i) && Grants(links[i], at))
    ensures forall i :: SoleActive(links, child, contact, i) ==>
       var d := DecidePickup(child, childParty, contact, contactParty, links, facility, at);
       d.0 == Authorized ==> d.1 == Some(links[i])
  {
    var active := ActiveOfPair(links, child, contact);
    if |active| == 1 { var i := SingleActiveIsSole(links, child, contact); }
    forall i | SoleActive(links, child, contact, i) ensures active == [links[i]] {
      SoleActiveIsSingle(links, child, contact, i);
    }
  }
}
