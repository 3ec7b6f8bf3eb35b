/** The ticket store: the single `tickets` table and the statements run against
    it. The table is a sequence of rows in rowid order; timestamps are whole
    seconds supplied by the caller's clock. */
module Database {

  type Time = int

  datatype Option<T> = None | Some(value: T)

  const Open := "open"
  const Completed := "completed"

  /** One row of the `tickets` table, column for column. */
  datatype Ticket = Ticket(
    id: nat,
    title: string,
    description: string,
    assignedTeam: string,
    priority: string,
    deadline: string,
    submittedBy: string,
    threadId: string,
    status: string,
    createdAt: Option<Time>,
    completedAt: Option<Time>)

  /** The dictionary handed to `save_ticket`: the three assignment keys may be absent. */
  datatype Draft = Draft(
    title: string,
    description: string,
    assignedTeam: Option<string>,
    priority: Option<string>,
    deadline: Option<string>,
    submittedBy: string,
    threadId: string)

  function OrEmpty(o: Option<string>): (s: string)
    ensures o.None? ==> s == ""
    ensures o.Some? ==> s == o.value
  {
    match o
    case None => ""
    case Some(v) => v
  }

  /** The row `save_ticket` inserts for `d` under rowid `id` at time `now`. */
  function NewTicket(id: nat, d: Draft, now: Time): (t: Ticket)
    ensures t.id == id && t.status == Open && t.completedAt == None && t.createdAt == Some(now)
    ensures t.title == d.title && t.description == d.description
    ensures t.submittedBy == d.submittedBy && t.threadId == d.threadId
    ensures d.assignedTeam.None? ==> t.assignedTeam == ""
    ensures d.priority.None? ==> t.priority == ""
    ensures d.deadline.None? ==> t.deadline == ""
    ensures d.assignedTeam.Some? ==> t.assignedTeam == d.assignedTeam.value
    ensures d.priority.Some? ==> t.priority == d.priority.value
    ensures d.deadline.Some? ==> t.deadline == d.deadline.value
    ensures WellFormed(t)
  {
    Ticket(id, d.title, d.description, OrEmpty(d.assignedTeam), OrEmpty(d.priority),
           OrEmpty(d.deadline), d.submittedBy, d.threadId, Open, Some(now), None)
  }

  /** The lifecycle invariant every row the store writes satisfies: a creation
      time, and a completion time exactly when the status is "completed". */
  predicate WellFormed(t: Ticket) {
    && t.createdAt.Some?
    && ((t.status == Open && t.completedAt.None?) || (t.status == Completed && t.completedAt.Some?))
  }

  /** The SET part of the two UPDATE statements. */
  datatype Change =
    | Assign(team: string, priority: string, deadline: string)   // update_ticket
    | Complete(at: Time)                                          // mark_ticket_completed

  /** The row a matching row becomes under `c`: only the SET columns change. */
  function Apply(t: Ticket, c: Change): (u: Ticket)
    ensures u.id == t.id && u.title == t.title && u.description == t.description
    ensures u.submittedBy == t.submittedBy && u.threadId == t.threadId && u.createdAt == t.createdAt
    ensures c.Assign? ==> u.status == t.status && u.completedAt == t.completedAt
    ensures c.Assign? ==> u.assignedTeam == c.team && u.priority == c.priority && u.deadline == c.deadline
    ensures c.Complete? ==> u.assignedTeam == t.assignedTeam && u.priority == t.priority && u.deadline == t.deadline
    ensures c.Complete? ==> u.status == Completed && u.completedAt == Some(c.at)
    ensures WellFormed(t) ==> WellFormed(u)
  {
    match c
    case Assign(team, priority, deadline) =>
      t.(assignedTeam := team, priority := priority, deadline := deadline)
    case Complete(at) =>
      t.(status := Completed, completedAt := Some(at))
  }

  /** `UPDATE tickets SET ... WHERE thread_id = tid`. */
  function UpdateWhere(rows: seq<Ticket>, tid: string, c: Change): (r: seq<Ticket>)
    ensures |r| == |rows|
  {
    if rows == [] then []
    else [if rows[0].threadId == tid then Apply(rows[0], c) else rows[0]] + UpdateWhere(rows[1..], tid, c)
  }

  /** Row by row: a matching row gets the change, every other row is untouched. */
  lemma {:induction false} UpdateWhereAt(rows: seq<Ticket>, tid: string, c: Change, i: nat)
    requires i < |rows|
    ensures UpdateWhere(rows, tid, c)[i] == if rows[i].threadId == tid then Apply(rows[i], c) else rows[i]
  {
    if i > 0 {
      UpdateWhereAt(rows[1..], tid, c, i - 1);
    }
  }

  /** The row-by-row description, for every row at once. */
  lemma UpdateWhereRows(rows: seq<Ticket>, tid: string, c: Change)
    ensures forall i :: 0 <= i < |rows| ==>
      UpdateWhere(rows, tid, c)[i] == if rows[i].threadId == tid then Apply(rows[i], c) else rows[i]
  {
  }

  /** The number of rows whose `thread_id` is `tid`. */
  function CountWhere(rows: seq<Ticket>, tid: string): (n: nat)
    ensures n <= |rows|
  {
    if rows == [] then 0
    else (if rows[0].threadId == tid then 1 else 0) + CountWhere(rows[1..], tid)
  }

  /** No row matches exactly when the count is zero. */
  lemma {:induction false} CountWhereZero(rows: seq<Ticket>, tid: string)
    ensures CountWhere(rows, tid) == 0 <==> forall t :: t in rows ==> t.threadId != tid
  {
    if rows != [] {
      CountWhereZero(rows[1..], tid);
      assert rows == [rows[0]] + rows[1..];
    }
  }

  /** An UPDATE whose WHERE clause matches nothing leaves the table as it is. */
  lemma {:induction false} UpdateWhereNoMatch(rows: seq<Ticket>, tid: string, c: Change)
    requires CountWhere(rows, tid) == 0
    ensures UpdateWhere(rows, tid, c) == rows
  {
    if rows != [] {
      UpdateWhereNoMatch(rows[1..], tid, c);
    }
  }

  /** Completing twice is completing once with the later time: the status stays
      "completed" and only `completed_at` is rewritten. */
  lemma {:induction false} CompleteTwice(rows: seq<Ticket>, tid: string, first: Time, second: Time)
    ensures UpdateWhere(UpdateWhere(rows, tid, Complete(first)), tid, Complete(second))
         == UpdateWhere(rows, tid, Complete(second))
  {
    if rows != [] {
      CompleteTwice(rows[1..], tid, first, second);
    }
  }

  /** `DELETE FROM tickets WHERE thread_id = tid`. */
  function DeleteWhere(rows: seq<Ticket>, tid: string): (r: seq<Ticket>)
    ensures |r| == |rows| - CountWhere(rows, tid)
  {
    if rows == [] then []
    else if rows[0].threadId == tid then DeleteWhere(rows[1..], tid)
    else [rows[0]] + DeleteWhere(rows[1..], tid)
  }

  /** Exactly the rows of other threads survive a deletion. */
  lemma {:induction false} DeleteWhereMembers(rows: seq<Ticket>, tid: string)
    ensures forall t :: t in DeleteWhere(rows, tid) <==> t in rows && t.threadId != tid
  {
    if rows != [] {
      DeleteWhereMembers(rows[1..], tid);
      assert rows == [rows[0]] + rows[1..];
    }
  }

  /** Deletion keeps the surviving rows in their original order: it works on
      each part of the table separately. */
  lemma {:induction false} DeleteWhereAppend(a: seq<Ticket>, b: seq<Ticket>, tid: string)
    ensures DeleteWhere(a + b, tid) == DeleteWhere(a, tid) + DeleteWhere(b, tid)
  {
    if a == [] {
      assert a + b == b;
    } else {
      var ab := a + b;
      assert ab[0] == a[0] && ab[1..] == a[1..] + b;
      DeleteWhereAppend(a[1..], b, tid);
      if a[0].threadId == tid {
        assert DeleteWhere(ab, tid) == DeleteWhere(a[1..] + b, tid);
        assert DeleteWhere(a, tid) == DeleteWhere(a[1..], tid);
      } else {
        assert DeleteWhere(ab, tid) == [a[0]] + DeleteWhere(a[1..] + b, tid);
        assert DeleteWhere(a, tid) == [a[0]] + DeleteWhere(a[1..], tid);
      }
    }
  }

  /** Deleting a `thread_id` no row has leaves the table as it is. */
  lemma {:induction false} DeleteWhereNoMatch(rows: seq<Ticket>, tid: string)
    requires CountWhere(rows, tid) == 0
    ensures DeleteWhere(rows, tid) == rows
  {
    if rows != [] {
      DeleteWhereNoMatch(rows[1..], tid);
    }
  }

  /** Rowids increase along the table (rowid order is the table's scan order). */
  predicate IdsAscending(rows: seq<Ticket>) {
    forall i, j :: 0 <= i < j < |rows| ==> rows[i].id < rows[j].id
  }

  lemma {:induction false} DeleteWhereKeepsOrder(rows: seq<Ticket>, tid: string)
    requires IdsAscending(rows)
    ensures IdsAscending(DeleteWhere(rows, tid))
  {
    if rows != [] {
      assert IdsAscending(rows[1..]);
      DeleteWhereKeepsOrder(rows[1..], tid);
      DeleteWhereMembers(rows[1..], tid);
      var rest := DeleteWhere(rows[1..], tid);
      forall t | t in rest ensures rows[0].id < t.id {
        var k :| 0 <= k < |rows[1..]| && rows[1..][k] == t;
        assert rows[k + 1] == t;
      }
    }
  }

  /** Deletion followed by another deletion of the same `thread_id` changes nothing more. */
  lemma DeleteWhereIdempotent(rows: seq<Ticket>, tid: string)
    ensures DeleteWhere(DeleteWhere(rows, tid), tid) == DeleteWhere(rows, tid)
  {
  }

  /** If the clock did not run backwards past a matching row's creation, its
      completion time is not before its creation time. */
  lemma CompletedNotBeforeCreated(rows: seq<Ticket>, tid: string, now: Time)
    requires forall t :: t in rows && t.threadId == tid && t.createdAt.Some? ==> t.createdAt.value <= now
    ensures forall t :: t in UpdateWhere(rows, tid, Complete(now)) && t.threadId == tid ==>
      t.status == Completed && t.completedAt == Some(now) &&
      (t.createdAt.Some? ==> t.createdAt.value <= t.completedAt.value)
  {
  }

  /** A cell of the exported report. NULL is written as an empty field. */
  datatype Cell =
    | Text(s: string)
    | Stamp(t: Time)
    | Blank
    | Hours(h: real)

  const Header: seq<Cell> := [Text("Title"), Text("Assigned Team"), Text("Submitted By"), Text("Status"),
                              Text("Created At"), Text("Completed At"), Text("Time Taken (hrs)")]

  function StampCell(o: Option<Time>): (c: Cell)
    ensures o.None? <==> c == Blank
    ensures o.Some? ==> c == Stamp(o.value)
  {
    match o
    case None => Blank
    case Some(t) => Stamp(t)
  }

  /** The time taken between the two timestamps, in hours, when both are present. */
  function TimeTaken(created: Option<Time>, completed: Option<Time>): (c: Cell)
    ensures c == Blank <==> created.None? || completed.None?
    ensures created.Some? && completed.Some? ==>
      c == Hours((completed.value - created.value) as real / 3600.0)
  {
    if created.Some? && completed.Some? then Hours((completed.value - created.value) as real / 3600.0)
    else Blank
  }

  /** One data line of the report: the six selected columns, then the time taken. */
  function ReportLine(t: Ticket): (line: seq<Cell>)
    ensures |line| == |Header|
    ensures line[..6] == [Text(t.title), Text(t.assignedTeam), Text(t.submittedBy), Text(t.status),
                          StampCell(t.createdAt), StampCell(t.completedAt)]
    ensures line[6] == TimeTaken(t.createdAt, t.completedAt)
  {
    [Text(t.title), Text(t.assignedTeam), Text(t.submittedBy), Text(t.status),
     StampCell(t.createdAt), StampCell(t.completedAt), TimeTaken(t.createdAt, t.completedAt)]
  }

  /** The whole report for a table: the header, then one line per row in table order. */
  function Report(rows: seq<Ticket>): (out: seq<seq<Cell>>)
    ensures |out| == |rows| + 1 && out[0] == Header
    ensures forall i :: 0 <= i < |rows| ==> out[i + 1] == ReportLine(rows[i])
  {
    if rows == [] then [Header]
    else Report(rows[..|rows| - 1]) + [ReportLine(rows[|rows| - 1])]
  }

  /** A completed ticket created at 00:00:00 and completed at 02:30:00 took 2.5 hours. */
  lemma TwoAndAHalfHours(t: Ticket)
    requires t.createdAt == Some(0) && t.completedAt == Some(9000)
    ensures ReportLine(t)[6] == Hours(2.5)
  {
  }

  /** The `tickets` table of the database file. */
  class TicketTable {
    var tableExists: bool
    var rows: seq<Ticket>
    /** One more than the largest rowid ever issued (SQLite's `sqlite_sequence`). */
    var nextId: nat
    /** Every rowid ever issued, deleted rows included. */
    ghost var issued: set<nat>

    ghost predicate Valid()
      reads this
    {
      && (!tableExists ==> rows == [])
      && 1 <= nextId
      && (forall id :: id in issued ==> id < nextId)
      && (forall i :: 0 <= i < |rows| ==> rows[i].id in issued && WellFormed(rows[i]))
      && IdsAscending(rows)
    }

    /** A database file that has no `tickets` table yet. */
    constructor ()
      ensures Valid() && !tableExists && rows == [] && nextId == 1 && issued == {}
    {
      tableExists := false;
      rows := [];
      nextId := 1;
      issued := {};
    }

    /** `init_db`: `CREATE TABLE IF NOT EXISTS` creates the table when missing
        and never touches the rows of an existing one, so it is idempotent. */
    method InitDb()
      requires Valid()
      modifies this
      ensures Valid() && tableExists
      ensures rows == old(rows) && nextId == old(nextId) && issued == old(issued)
    {
      tableExists := true;
    }

    /** `save_ticket`: appends one open row with a fresh rowid and the current time. */
    method SaveTicket(d: Draft, now: Time)
      requires Valid() && tableExists
      modifies this
      ensures Valid() && tableExists
      ensures rows == old(rows) + [NewTicket(old(nextId), d, now)]
      ensures nextId == old(nextId) + 1 && issued == old(issued) + {old(nextId)}
      ensures forall id :: id in old(issued) ==> id < rows[|rows| - 1].id
    {
      var t := NewTicket(nextId, d, now);
      rows := rows + [t];
      issued := issued + {nextId};
      nextId := nextId + 1;
    }

    /** `update_ticket`: sets team, priority and deadline on every row of the thread. */
    method UpdateTicket(tid: string, team: string, priority: string, deadline: string)
      requires Valid() && tableExists
      modifies this
      ensures Valid() && tableExists && nextId == old(nextId) && issued == old(issued)
      ensures rows == UpdateWhere(old(rows), tid, Assign(team, priority, deadline))
      ensures forall i :: 0 <= i < |rows| ==>
        rows[i] == if old(rows)[i].threadId == tid
                   then old(rows)[i].(assignedTeam := team, priority := priority, deadline := deadline)
                   else old(rows)[i]
      ensures CountWhere(old(rows), tid) == 0 ==> rows == old(rows)
      ensures (forall t :: t in old(rows) ==> t.threadId != tid) ==> rows == old(rows)
    {
      CountWhereZero(rows, tid);
      var c := Assign(team, priority, deadline);
      UpdateWhereRows(rows, tid, c);
      if CountWhere(rows, tid) == 0 {
        UpdateWhereNoMatch(rows, tid, c);
      }
      rows := UpdateWhere(rows, tid, c);
    }

    /** `mark_ticket_completed`: sets status "completed" and the completion time
        on every row of the thread. */
    method MarkTicketCompleted(tid: string, now: Time)
      requires Valid() && tableExists
      modifies this
      ensures Valid() && tableExists && nextId == old(nextId) && issued == old(issued)
      ensures rows == UpdateWhere(old(rows), tid, Complete(now))
      ensures forall i :: 0 <= i < |rows| ==>
        rows[i] == if old(rows)[i].threadId == tid
                   then old(rows)[i].(status := Completed, completedAt := Some(now))
                   else old(rows)[i]
      ensures CountWhere(old(rows), tid) == 0 ==> rows == old(rows)
      ensures (forall t :: t in old(rows) ==> t.threadId != tid) ==> rows == old(rows)
    {
      CountWhereZero(rows, tid);
      var c := Complete(now);
      UpdateWhereRows(rows, tid, c);
      if CountWhere(rows, tid) == 0 {
        UpdateWhereNoMatch(rows, tid, c);
      }
      rows := UpdateWhere(rows, tid, c);
    }

    /** `delete_ticket`: removes every row of the thread, keeping the rest in order. */
    method DeleteTicket(tid: string)
      requires Valid() && tableExists
      modifies this
      ensures Valid() && tableExists && nextId == old(nextId) && issued == old(issued)
      ensures rows == DeleteWhere(old(rows), tid)
      ensures |rows| == |old(rows)| - CountWhere(old(rows), tid)
      ensures forall t :: t in rows <==> t in old(rows) && t.threadId != tid
      ensures CountWhere(old(rows), tid) == 0 ==> rows == old(rows)
      ensures (forall t :: t in old(rows) ==> t.threadId != tid) ==> rows == old(rows)
    {
      CountWhereZero(rows, tid);
      DeleteWhereKeepsOrder(rows, tid);
      DeleteWhereMembers(rows, tid);
      if CountWhere(rows, tid) == 0 {
        DeleteWhereNoMatch(rows, tid);
      }
      rows := DeleteWhere(rows, tid);
    }

    /** `export_ticket_performance_to_csv`: the report lines it writes, header
        first, one line per row in table order. Writing the file is not modelled. */
    method ExportTicketPerformance() returns (out: seq<seq<Cell>>)
      requires Valid() && tableExists
      ensures |out| == |rows| + 1 && out[0] == Header
      ensures forall i :: 0 <= i < |rows| ==> out[i + 1] == ReportLine(rows[i])
      ensures out == Report(rows)
    {
      out := [Header];
      for k := 0 to |rows|
        invariant |out| == k + 1 && out[0] == Header
        invariant forall i :: 0 <= i < k ==> out[i + 1] == ReportLine(rows[i])
      {
        out := out + [ReportLine(rows[k])];
      }
      ReportUnique(rows, out);
    }
  }

  /** The report's shape determines it. */
  lemma {:induction false} ReportUnique(rows: seq<Ticket>, out: seq<seq<Cell>>)
    requires |out| == |rows| + 1 && out[0] == Header
    requires forall i :: 0 <= i < |rows| ==> out[i + 1] == ReportLine(rows[i])
    ensures out == Report(rows)
  {
    if rows == [] {
      assert out == [Header];
    } else {
      var n := |rows| - 1;
      var front := out[..n + 1];
      assert forall i :: 0 <= i < n ==> front[i + 1] == ReportLine(rows[..n][i]) by {
        forall i | 0 <= i < n ensures front[i + 1] == ReportLine(rows[..n][i]) {
          assert front[i + 1] == out[i + 1] && rows[..n][i] == rows[i];
        }
      }
      ReportUnique(rows[..n], front);
      assert out == front + [ReportLine(rows[n])];
    }
  }
}
