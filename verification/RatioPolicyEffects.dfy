/** What each policy write does to the policy in force: at which instants, and with which numbers. */
module RatioPolicyEffects {
  import opened Base
  import opened Lists
  import opened RatioPolicy
  import opened RatioPolicyLaws

  // Chosen at `at`: this id with these numbers and this revision.
  ghost predicate InForce(rows: seq<Terms>, at: Time, id: Id, n: Numbers, revision: int) {
    var chosen := SelectPolicy(rows, at).policy;
    chosen.Some? && chosen.value.id == id && chosen.value.numbers == n && chosen.value.revision == revision
  }

  // The half-open period, spelled out.
  ghost predicate Covers(n: Numbers, at: Time) { n.from <= at && (n.until.Some? ==> at < n.until.value) }

  // A book of a run selects exactly the row that applies.
  lemma SelectsWhatApplies(b: Book, p: Terms, at: Time)
    requires Inv(b) && p in b.rows
    ensures AppliesAt(p, at) <==> SelectPolicy(b.rows, at).policy == Some(p)
  {
    if AppliesAt(p, at) {
      var q := SelectPolicy(b.rows, at).policy.value;
      var i :| 0 <= i < |b.rows| && b.rows[i] == p;
      var j :| 0 <= j < |b.rows| && b.rows[j] == q;
      OverlapIffCommonInstant(p.numbers, q.numbers);
    }
  }

  lemma SelectsByRow(b: Book, i: nat, at: Time)
    requires Inv(b) && i < |b.rows|
    ensures InForce(b.rows, at, b.rows[i].id, b.rows[i].numbers, b.rows[i].revision) <==>
              b.rows[i].active && Covers(b.rows[i].numbers, at)
    ensures (exists n, revision :: InForce(b.rows, at, b.rows[i].id, n, revision)) ==>
              b.rows[i].active && Covers(b.rows[i].numbers, at)
  {
    SelectsWhatApplies(b, b.rows[i], at);
    var chosen := SelectPolicy(b.rows, at).policy;
    if chosen.Some? && chosen.value.id == b.rows[i].id {
      SameIdSameRow(b.rows, b.rows[i], chosen.value);
    }
  }

  // What is chosen when it is not this policy.
  lemma OthersAsBefore(b: Book, b': Book, id: Id, at: Time)
    requires Inv(b) && Inv(b')
    requires forall p: Terms :: p.id != id ==> (p in b.rows <==> p in b'.rows)
    ensures forall p: Terms :: p.id != id ==>
      (SelectPolicy(b.rows, at).policy == Some(p) <==> SelectPolicy(b'.rows, at).policy == Some(p))
  {
    forall p: Terms | p.id != id
      ensures SelectPolicy(b.rows, at).policy == Some(p) <==> SelectPolicy(b'.rows, at).policy == Some(p)
    {
      if p in b.rows {
        SelectsWhatApplies(b, p, at);
        SelectsWhatApplies(b', p, at);
      }
    }
  }

  lemma ReplacedAlone(rows: seq<Terms>, i: nat, row: Terms)
    requires i < |rows| && row.id == rows[i].id && IdsDistinct(rows)
    ensures forall p: Terms :: p.id != row.id ==> (p in rows <==> p in rows[i := row])
  {
    var after := rows[i := row];
    forall p: Terms | p.id != row.id ensures p in rows <==> p in after {
      if p in rows {
        var j :| 0 <= j < |rows| && rows[j] == p;
        assert after[j] == p;
      }
      if p in after {
        var j :| 0 <= j < |after| && after[j] == p;
        assert rows[j] == p;
      }
    }
  }

  // ---------------------------------------------------------------------------------- writes

  // Numbers an operator may enter.
  ghost predicate Acceptable(n: Numbers) {
    && 1 <= n.ratio <= 100 && 0 <= n.minimum <= 50
    && (n.groupSize.Some? ==> 1 <= n.groupSize.value <= 500)
    && (n.until.Some? ==> n.from < n.until.value)
  }

  // Every other policy is chosen at exactly the instants it was.
  ghost predicate OnlyThis(b: Book, b': Book, id: Id) {
    && b'.room == b.room && b'.open == b.open
    && forall p: Terms, at :: p.id != id ==>
         (SelectPolicy(b.rows, at).policy == Some(p) <==> SelectPolicy(b'.rows, at).policy == Some(p))
  }

  /** A creation is accepted exactly for acceptable numbers whose period no other ACTIVE policy claims. */
  lemma CreateIff(b: Book, id: Id, n: Numbers)
    requires Inv(b)
    ensures Step(b, CreatePolicy(id, n)).1.None? <==>
      && b.open && Acceptable(n) && |b.rows| < 100 && (forall p :: p in b.rows ==> p.id != id) && !Claimed(b, id, n)
  {
    if Validate(n).None? { FreeIffUnclaimed(b, Terms(id, b.room, n, true, 1)); }
    var i := IndexOf(b.rows, IdOf, id);
    assert i < |b.rows| ==> b.rows[i] in b.rows;
  }

  /** A created policy is in force, with exactly the entered numbers, at exactly the instants of its period. */
  lemma CreatedPolicyIsInForce(b: Book, id: Id, n: Numbers)
    requires Inv(b) && Step(b, CreatePolicy(id, n)).1.None?
    ensures var b' := Step(b, CreatePolicy(id, n)).0;
      && (forall at :: InForce(b'.rows, at, id, n, 1) <==> Covers(n, at))
      && OnlyThis(b, b', id)
  {
    var b' := Step(b, CreatePolicy(id, n)).0;
    StepKeepsInv(b, CreatePolicy(id, n));
    forall at ensures InForce(b'.rows, at, id, n, 1) <==> Covers(n, at) { SelectsByRow(b', |b.rows|, at); }
    forall at { OthersAsBefore(b, b', id, at); }
  }

  /** An edited policy is in force, with the new numbers and one new revision, at exactly the new instants. */
  lemma EditedPolicyIsInForce(b: Book, id: Id, n: Numbers) returns (p: Terms)
    requires Inv(b) && Step(b, UpdatePolicy(id, n)).1.None?
    ensures p in b.rows && p.id == id && p.active
    ensures var b' := Step(b, UpdatePolicy(id, n)).0;
      && (forall at :: InForce(b'.rows, at, id, n, p.revision + 1) <==> Covers(n, at))
      && (forall at :: !Covers(n, at) ==> forall m, revision :: !InForce(b'.rows, at, id, m, revision))
      && OnlyThis(b, b', id)
  {
    var b' := Step(b, UpdatePolicy(id, n)).0;
    StepKeepsInv(b, UpdatePolicy(id, n));
    var i := IndexOf(b.rows, IdOf, id);
    p := b.rows[i];
    ReplacedAlone(b.rows, i, b'.rows[i]);
    forall at { SelectsByRow(b', i, at); }
    forall at { OthersAsBefore(b, b', id, at); }
  }

  /** A deactivated policy is in force at no instant, and the others at theirs. */
  lemma DeactivatedPolicyIsNotInForce(b: Book, id: Id)
    requires Inv(b) && Step(b, DeactivatePolicy(id)).1.None?
    ensures var b' := Step(b, DeactivatePolicy(id)).0;
      && (forall at, n, revision :: !InForce(b'.rows, at, id, n, revision))
      && OnlyThis(b, b', id)
  {
    var b' := Step(b, DeactivatePolicy(id)).0;
    StepKeepsInv(b, DeactivatePolicy(id));
    var i := IndexOf(b.rows, IdOf, id);
    ReplacedAlone(b.rows, i, b'.rows[i]);
    forall at { SelectsByRow(b', i, at); }
    forall at { OthersAsBefore(b, b', id, at); }
  }

  /** Of several applicable rows the latest start is chosen, then the highest revision, then the highest id. */
  lemma SelectsTheLatestStart(policies: seq<Terms>, at: Time, p: Terms)
    requires p in policies && p.active && Covers(p.numbers, at)
    ensures SelectPolicy(policies, at).policy.Some?
    ensures var q := SelectPolicy(policies, at).policy.value;
      && q in policies && q.active && Covers(q.numbers, at)
      && p.numbers.from <= q.numbers.from
      && (p.numbers.from == q.numbers.from ==> p.revision <= q.revision)
      && (p.numbers.from == q.numbers.from && p.revision == q.revision ==> p.id <= q.id)
  {
    var applicable := Applicable(policies, at);
    assert p in applicable;
  }

  /** The flag says that two rows apply at once. */
  lemma AmbiguousIff(policies: seq<Terms>, at: Time)
    requires IdsDistinct(policies)
    ensures SelectPolicy(policies, at).ambiguous <==>
      exists p, q :: p in policies && q in policies && p.id != q.id
        && p.active && q.active && Covers(p.numbers, at) && Covers(q.numbers, at)
  {
    ApplicablePair(policies, at);
    assert forall p: Terms :: AppliesAt(p, at) <==> p.active && Covers(p.numbers, at);
  }
}
