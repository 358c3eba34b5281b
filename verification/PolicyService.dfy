/** The policies of one classroom as the service writes them: rows appended and changed in place. */
module PolicyService {
  import opened Base
  import opened Lists
  import opened RatioPolicy
  import opened RatioPolicyLaws

  class PolicyBook {
    const room: Id
    var open: bool
    var rows: seq<Terms>

    ghost function Value(): Book
      reads this
    {
      Book(room, open, rows)
    }

    // ACTIVE periods apart, ids distinct, terms valid, at most 100 policies.
    ghost predicate Valid()
      reads this
    {
      Inv(Value())
    }

    constructor (room: Id)
      ensures Valid() && Value() == Book(room, true, [])
    {
      this.room := room;
      open := true;
      rows := [];
    }

    method SetClassroomActive(active: bool)
      requires Valid()
      modifies `open
      ensures Valid()
      ensures Value() == Step(old(Value()), Op.SetClassroomActive(active)).0
    {
      open := active;
    }

    method CreatePolicy(id: Id, n: Numbers) returns (error: Option<PolicyError>)
      requires Valid()
      modifies `rows
      ensures Valid()
      ensures (Value(), error) == Step(old(Value()), Op.CreatePolicy(id, n))
    {
      StepKeepsInv(Value(), Op.CreatePolicy(id, n));
      if !open { return Some(ClassroomInactive); }
      var invalid := Validate(n);
      if invalid.Some? { return invalid; }
      if |rows| >= MAX_POLICIES_PER_CLASSROOM { return Some(PolicyLimitReached); }
      var row := Terms(id, room, n, true, 1);
      var overlap := FindOverlap(row, rows);
      if overlap.Some? { return Some(PolicyPeriodOverlaps); }
      var taken := Find(rows, IdOf, id);
      if taken < |rows| { return Some(IdTaken); }
      rows := rows + [row];
      return None;
    }

    method UpdatePolicy(id: Id, n: Numbers) returns (error: Option<PolicyError>)
      requires Valid()
      modifies `rows
      ensures Valid()
      ensures (Value(), error) == Step(old(Value()), Op.UpdatePolicy(id, n))
    {
      ghost var before := Value();
      StepKeepsInv(before, Op.UpdatePolicy(id, n));
      error := Replace(id, n);
      assert Value() == Step(before, Op.UpdatePolicy(id, n)).0;
    }

    // The row is changed first and compared with the others afterwards; an overlap rolls the change back.
    method Replace(id: Id, n: Numbers) returns (error: Option<PolicyError>)
      modifies `rows
      ensures (Value(), error) == Step(old(Value()), Op.UpdatePolicy(id, n))
    {
      if !open { return Some(ClassroomInactive); }
      var invalid := Validate(n);
      if invalid.Some? { return invalid; }
      var i := Find(rows, IdOf, id);
      if i == |rows| { return Some(NotFound); }
      if !rows[i].active { return Some(PolicyInactive); }
      var committed := rows;
      rows := rows[i := rows[i].(numbers := n)];
      rows := rows[i := rows[i].(revision := rows[i].revision + 1)];
      assert rows == committed[i := committed[i].(numbers := n, revision := committed[i].revision + 1)];
      var overlap := FindOverlap(rows[i], rows);
      assert forall j :: 0 <= j < |rows| ==> (Conflicts(rows[i], rows[j]) <==> Conflicts(rows[i], committed[j]));
      if overlap.Some? {
        rows := committed;
        return Some(PolicyPeriodOverlaps);
      }
      return None;
    }

    method DeactivatePolicy(id: Id) returns (error: Option<PolicyError>)
      requires Valid()
      modifies `rows
      ensures Valid()
      ensures (Value(), error) == Step(old(Value()), Op.DeactivatePolicy(id))
    {
      StepKeepsInv(Value(), Op.DeactivatePolicy(id));
      var i := Find(rows, IdOf, id);
      if i == |rows| { return Some(NotFound); }
      if rows[i].active {
        ghost var committed := rows;
        rows := rows[i := rows[i].(active := false)];
        rows := rows[i := rows[i].(revision := rows[i].revision + 1)];
        assert rows == committed[i := committed[i].(active := false, revision := committed[i].revision + 1)];
      }
      return None;
    }
  }
}
