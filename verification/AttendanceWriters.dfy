/**
  Any number of writers that read, plan and commit in any interleaving, guarded only by the table's
  (child, sequence) key, primary key and CHECK constraints: no lock and no assumption on their clocks.
 */
module AttendanceWriters {
  import opened Base
  import opened Attendance

  // What one open transaction has read: whose stream, at what clock reading, in what state.
  datatype Reading = Reading(child: Id, now: Time, current: Current)

  datatype System = System(table: seq<Event>, held: map<nat, Reading>)

  datatype Step =
    | Read(writer: nat, child: Id, now: Time)
    | Commit(writer: nat, action: Action, ids: (Id, Id))

  // The rows a commit inserts, or why it inserts none.
  function CommitRows(s: System, writer: nat, action: Action, ids: (Id, Id)): Result<seq<Event>, Refusal>
    requires writer in s.held
  {
    var r := s.held[writer];
    match Plan(r.current, action, r.now)
    case Err(refusal) => Err(refusal)
    case Ok(planned) =>
      var rows := Rows(planned, r.child, ids);
      if Insertable(s.table, rows) then Ok(rows) else Err(AttendanceStateChanged)
  }

  function Next(s: System, step: Step): System {
    match step
    case Read(writer, child, now) =>
      s.(held := s.held[writer := Reading(child, now, CurrentAttendance(s.table, child, now))])
    case Commit(writer, action, ids) =>
      if writer !in s.held then s
      else
        var outcome := CommitRows(s, writer, action, ids);
        System(if outcome.Ok? then s.table + outcome.value else s.table, s.held - {writer})
  }

  function After(steps: seq<Step>): System {
    if steps == [] then System([], map[])
    else Next(After(steps[..|steps| - 1]), steps[|steps| - 1])
  }

  // The reading shows the child's stream as it stood after its first `n` events.
  ghost predicate SeenAt(table: seq<Event>, r: Reading, n: nat) {
    && n <= |Stream(table, r.child)|
    && r.current == CurrentFrom(Before(Stream(table, r.child), n), r.now)
  }

  ghost predicate Inv(s: System) {
    && AllSerial(s.table)
    && forall w :: w in s.held ==> exists n: nat :: SeenAt(s.table, s.held[w], n)
  }

  lemma {:induction false} StreamOfConcat(table: seq<Event>, rows: seq<Event>, child: Id)
    ensures Stream(table + rows, child) == Stream(table, child) + Stream(rows, child)
  {
    if rows == [] {
      assert table + rows == table;
    } else {
      var init, last := rows[..|rows| - 1], rows[|rows| - 1];
      var tail := if last.child == child then [last] else [];
      assert rows == init + [last] && table + rows == (table + init) + [last];
      calc {
        Stream(table + rows, child);
        { StreamOfAppend(table + init, last, child); }
        Stream(table + init, child) + tail;
        { StreamOfConcat(table, init, child); }
        Stream(table, child) + Stream(init, child) + tail;
        Stream(table, child) + (Stream(init, child) + tail);
        { StreamOfAppend(init, last, child); }
        Stream(table, child) + Stream(rows, child);
      }
    }
  }

  lemma SeenStays(table: seq<Event>, rows: seq<Event>, r: Reading, n: nat)
    requires SeenAt(table, r, n)
    ensures SeenAt(table + rows, r, n)
  {
    StreamOfConcat(table, rows, r.child);
    assert Before(Stream(table + rows, r.child), n) == Before(Stream(table, r.child), n);
  }

  lemma ReadKeepsInv(s: System, writer: nat, child: Id, now: Time)
    requires Inv(s)
    ensures Inv(Next(s, Read(writer, child, now)))
  {
    LatestIsLast(s.table, child);
    var s' := Next(s, Read(writer, child, now));
    assert SeenAt(s.table, s'.held[writer], |Stream(s.table, child)|);
  }

  lemma CommitKeepsInv(s: System, writer: nat, action: Action, ids: (Id, Id))
    requires Inv(s) && writer in s.held
    ensures Inv(Next(s, Commit(writer, action, ids)))
  {
    var outcome := CommitRows(s, writer, action, ids);
    if outcome.Ok? {
      var r := s.held[writer];
      var n: nat :| SeenAt(s.table, r, n);
      CommitKeepsSerial(s.table, r.child, n, action, r.now, ids);
      forall w | w in s.held ensures exists m: nat :: SeenAt(s.table + outcome.value, s.held[w], m) {
        var m: nat :| SeenAt(s.table, s.held[w], m);
        SeenStays(s.table, outcome.value, s.held[w], m);
      }
    }
  }

  lemma {:induction false} InvAlways(steps: seq<Step>)
    ensures Inv(After(steps))
  {
    if steps != [] {
      var before := After(steps[..|steps| - 1]);
      InvAlways(steps[..|steps| - 1]);
      match steps[|steps| - 1]
      case Read(w, child, now) => ReadKeepsInv(before, w, child, now);
      case Commit(w, action, ids) =>
        if w in before.held { CommitKeepsInv(before, w, action, ids); }
    }
  }

  /** Whatever the interleaving, every child's committed rows form a serial history numbered 1..n. */
  lemma CommittedStreamsAreSerial(steps: seq<Step>, child: Id)
    ensures Serial(Stream(After(steps).table, child))
    ensures forall i :: 0 <= i < |Stream(After(steps).table, child)| ==>
              Stream(After(steps).table, child)[i].sequence == i + 1
  {
    InvAlways(steps);
    var s := Stream(After(steps).table, child);
    assert Serial(s);
    forall i | 0 <= i < |s| ensures s[i].sequence == i + 1 { SerialNumbering(s, i); }
  }

  /**
    A writer appends only if nobody has appended to that child since it read: whoever loses the race is
    told that the attendance state changed, and what it would have inserted is not inserted.
   */
  lemma OnlyAnUpToDateReaderAppends(steps: seq<Step>, writer: nat, action: Action, ids: (Id, Id))
    requires writer in After(steps).held
    ensures var s := After(steps);
      var r := s.held[writer];
      CommitRows(s, writer, action, ids).Ok? && CommitRows(s, writer, action, ids).value != [] ==>
        r.current == CurrentAttendance(s.table, r.child, r.now)
  {
    InvAlways(steps);
    var s := After(steps);
    var r := s.held[writer];
    var n: nat :| SeenAt(s.table, r, n);
    if CommitRows(s, writer, action, ids).Ok? {
      CommitKeepsSerial(s.table, r.child, n, action, r.now, ids);
      LatestIsLast(s.table, r.child);
    }
  }

  /** Rows are only ever appended: every earlier state of the table is a prefix of the later ones. */
  lemma {:induction false} TableOnlyGrows(steps: seq<Step>, n: nat)
    requires n <= |steps|
    ensures After(steps[..n]).table <= After(steps).table
  {
    if n == |steps| {
      assert steps[..n] == steps;
    } else {
      var shorter := steps[..|steps| - 1];
      TableOnlyGrows(shorter, n);
      assert shorter[..n] == steps[..n];
    }
  }
}
