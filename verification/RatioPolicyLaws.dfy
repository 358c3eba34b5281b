/** What every run of policy writes keeps, and what that means for the choice of the policy in force. */
module RatioPolicyLaws {
  import opened Base
  import opened Lists
  import opened RatioPolicy

  // ---------------------------------------------------------------- the books that runs reach

  ghost predicate ActiveApart(rows: seq<Terms>) {
    forall i, j :: 0 <= i < j < |rows| && rows[i].active && rows[j].active ==>
      !PeriodsOverlap(rows[i].numbers, rows[j].numbers)
  }

  ghost predicate Inv(b: Book) {
    && |b.rows| <= MAX_POLICIES_PER_CLASSROOM
    && IdsDistinct(b.rows)
    && ActiveApart(b.rows)
    && forall i :: 0 <= i < |b.rows| ==> ValidTerms(b.rows[i]) && b.rows[i].room == b.room
  }

  lemma ReplaceKeepsApart(rows: seq<Terms>, i: nat, row: Terms)
    requires i < |rows| && IdsDistinct(rows) && ActiveApart(rows)
    requires row.id == rows[i].id && row.room == rows[i].room
    requires forall j :: 0 <= j < |rows| ==> rows[j].room == row.room
    requires row.active ==> Free(row, rows)
    ensures IdsDistinct(rows[i := row]) && ActiveApart(rows[i := row])
  {
    var after := rows[i := row];
    forall a, b | 0 <= a < b < |rows| && after[a].active && after[b].active
      ensures !PeriodsOverlap(after[a].numbers, after[b].numbers)
    {
      if a == i { assert !Conflicts(row, rows[b]); }
      if b == i { assert !Conflicts(row, rows[a]); }
    }
  }

  lemma StepKeepsInv(b: Book, op: Op)
    requires Inv(b)
    ensures Inv(Step(b, op).0)
  {
    match op
    case CreatePolicy(id, n) =>
      var after := Step(b, op).0;
      if after.rows != b.rows {
        var row := Terms(id, b.room, n, true, 1);
        assert after.rows == b.rows + [row];
        forall i | 0 <= i < |b.rows| && b.rows[i].active ensures !PeriodsOverlap(b.rows[i].numbers, n) {
          assert !Conflicts(row, b.rows[i]);
        }
      }
    case UpdatePolicy(id, n) =>
      var i := IndexOf(b.rows, IdOf, id);
      if Step(b, op).1.None? {
        ReplaceKeepsApart(b.rows, i, b.rows[i].(numbers := n, revision := b.rows[i].revision + 1));
      }
    case DeactivatePolicy(id) =>
      var i := IndexOf(b.rows, IdOf, id);
      if i < |b.rows| {
        ReplaceKeepsApart(b.rows, i, b.rows[i].(active := false, revision := b.rows[i].revision + 1));
      }
    case SetClassroomActive(_) =>
  }

  lemma {:induction false} InvAlways(states: seq<Book>, ops: seq<Op>, k: nat)
    requires Run(states, ops) && k < |states|
    ensures Inv(states[k])
  {
    if k > 0 {
      InvAlways(states, ops, k - 1);
      StepKeepsInv(states[k - 1], ops[k - 1]);
    }
  }

  // ------------------------------------------------------------------- which writes are let in

  // Whether an instant of the proposed period already belongs to another ACTIVE policy.
  ghost predicate Claimed(b: Book, id: Id, n: Numbers) {
    exists p, at :: p in b.rows && p.id != id && AppliesAt(p, at) && InPeriod(n, at)
  }

  lemma FreeIffUnclaimed(b: Book, row: Terms)
    requires Inv(b) && row.active && row.room == b.room && Validate(row.numbers).None?
    ensures Free(row, b.rows) <==> !Claimed(b, row.id, row.numbers)
  {
    forall i | 0 <= i < |b.rows|
      ensures Conflicts(row, b.rows[i]) <==>
        b.rows[i].id != row.id && exists at :: AppliesAt(b.rows[i], at) && InPeriod(row.numbers, at)
    {
      OverlapIffCommonInstant(row.numbers, b.rows[i].numbers);
      if Conflicts(row, b.rows[i]) {
        var at :| InPeriod(row.numbers, at) && InPeriod(b.rows[i].numbers, at);
        assert AppliesAt(b.rows[i], at);
      }
    }
  }

  // A well-formed write of a known policy, or of a new one below the limit, is refused for an overlap exactly
  // when some instant would belong to two ACTIVE policies.
  lemma OverlapRefusedIffClaimed(states: seq<Book>, ops: seq<Op>, k: nat, id: Id, n: Numbers)
    requires Run(states, ops) && k < |states| && states[k].open && Validate(n).None?
    ensures |states[k].rows| < MAX_POLICIES_PER_CLASSROOM ==>
      (Step(states[k], CreatePolicy(id, n)).1 == Some(PolicyPeriodOverlaps) <==> Claimed(states[k], id, n))
    ensures (exists p :: p in states[k].rows && p.id == id && p.active) ==>
      (Step(states[k], UpdatePolicy(id, n)).1 == Some(PolicyPeriodOverlaps) <==> Claimed(states[k], id, n))
  {
    var b := states[k];
    InvAlways(states, ops, k);
    FreeIffUnclaimed(b, Terms(id, b.room, n, true, 1));
    var i := IndexOf(b.rows, IdOf, id);
    if i < |b.rows| && b.rows[i].active {
      FreeIffUnclaimed(b, b.rows[i].(numbers := n, revision := b.rows[i].revision + 1));
    }
    if p :| p in b.rows && p.id == id && p.active {
      var j :| 0 <= j < |b.rows| && b.rows[j] == p;
      assert i == j;
    }
  }

  // ---------------------------------------------------------------------- the policy in force

  lemma {:induction false} ApplicablePair(policies: seq<Terms>, at: Time)
    requires IdsDistinct(policies)
    ensures |Applicable(policies, at)| > 1 <==>
      exists p, q :: p in policies && q in policies && p.id != q.id && AppliesAt(p, at) && AppliesAt(q, at)
  {
    if policies != [] {
      var n := |policies| - 1;
      var init, last := policies[..n], policies[n];
      ApplicablePair(init, at);
      assert forall p :: p in policies <==> p in init || p == last;
      var rest := Applicable(init, at);
      if AppliesAt(last, at) && |rest| == 1 {
        assert rest[0] in rest;
        assert rest[0].id != last.id;
      }
      if AppliesAt(last, at) && |rest| == 0 {
        assert forall p :: p in init && AppliesAt(p, at) ==> p in rest;
      }
    }
  }

  // Whatever rows there are, the choice and the ambiguity flag do not depend on the order they are read in.
  lemma SelectionIgnoresOrder(policies: seq<Terms>, shuffled: seq<Terms>, at: Time)
    requires IdsDistinct(policies) && IdsDistinct(shuffled)
    requires forall p :: p in policies <==> p in shuffled
    ensures SelectPolicy(policies, at) == SelectPolicy(shuffled, at)
  {
    ApplicablePair(policies, at);
    ApplicablePair(shuffled, at);
    var a, b := Applicable(policies, at), Applicable(shuffled, at);
    assert forall p :: p in a <==> p in b;
    assert a != [] ==> a[0] in b;
    assert b != [] ==> b[0] in a;
    if a != [] {
      assert First(a) in b && First(b) in a;
      assert !Outranks(First(a), First(b)) && !Outranks(First(b), First(a));
      SameIdSameRow(policies, First(a), First(b));
    }
  }

  lemma SameIdSameRow(rows: seq<Terms>, p: Terms, q: Terms)
    requires IdsDistinct(rows) && p in rows && q in rows && p.id == q.id
    ensures p == q
  {
    var i :| 0 <= i < |rows| && rows[i] == p;
    var j :| 0 <= j < |rows| && rows[j] == q;
    assert i == j;
  }

  // At every instant of every run at most one policy is in force, the selection finds it whatever the row
  // order, and it is never flagged ambiguous.
  lemma SelectionIsNeverAmbiguous(states: seq<Book>, ops: seq<Op>, k: nat, shuffled: seq<Terms>, at: Time)
    requires Run(states, ops) && k < |states|
    requires IdsDistinct(shuffled) && forall p :: p in states[k].rows <==> p in shuffled
    ensures !SelectPolicy(shuffled, at).ambiguous
    ensures forall p :: p in states[k].rows ==>
      (AppliesAt(p, at) <==> SelectPolicy(shuffled, at).policy == Some(p))
  {
    var rows := states[k].rows;
    InvAlways(states, ops, k);
    forall p, q | p in rows && q in rows && AppliesAt(p, at) && AppliesAt(q, at) ensures p == q {
      var i :| 0 <= i < |rows| && rows[i] == p;
      var j :| 0 <= j < |rows| && rows[j] == q;
      OverlapIffCommonInstant(p.numbers, q.numbers);
    }
    ApplicablePair(shuffled, at);
    SelectionIgnoresOrder(rows, shuffled, at);
  }

  // --------------------------------------------------------------------------------- revisions

  ghost predicate Later(b: Book, c: Book) {
    && |b.rows| <= |c.rows|
    && forall i :: 0 <= i < |b.rows| ==>
      && c.rows[i].id == b.rows[i].id && c.rows[i].revision >= b.rows[i].revision
      && (c.rows[i].revision == b.rows[i].revision ==> c.rows[i] == b.rows[i])
      && (c.rows[i].active ==> b.rows[i].active)
  }

  lemma StepIsLater(b: Book, op: Op)
    ensures Later(b, Step(b, op).0)
  {}

  lemma LaterIsTransitive(a: Book, b: Book, c: Book)
    requires Later(a, b) && Later(b, c)
    ensures Later(a, c)
  {
    forall i | 0 <= i < |a.rows| ensures c.rows[i].id == a.rows[i].id {
      assert b.rows[i].id == a.rows[i].id;
    }
  }

  lemma {:induction false} RunIsLater(states: seq<Book>, ops: seq<Op>, j: nat, k: nat)
    requires Run(states, ops) && j <= k < |states|
    ensures Later(states[j], states[k])
    decreases k
  {
    if j < k {
      RunIsLater(states, ops, j, k - 1);
      StepIsLater(states[k - 1], ops[k - 1]);
      LaterIsTransitive(states[j], states[k - 1], states[k]);
    }
  }

  // The pair (policy id, revision) that an evaluation reports names one set of terms for ever, and a policy
  // that was deactivated never applies again.
  lemma RevisionFixesTerms(states: seq<Book>, ops: seq<Op>, j: nat, k: nat, p: Terms, q: Terms)
    requires Run(states, ops) && j <= k < |states|
    requires p in states[j].rows && q in states[k].rows && p.id == q.id
    ensures p.revision == q.revision ==> p == q
    ensures !p.active ==> !q.active
    ensures p != q ==> p.revision < q.revision
  {
    InvAlways(states, ops, k);
    RunIsLater(states, ops, j, k);
    var i :| 0 <= i < |states[j].rows| && states[j].rows[i] == p;
    SameIdSameRow(states[k].rows, states[k].rows[i], q);
  }
}
