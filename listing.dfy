/** What `display_tasks` shows: which tasks get a row, in which order, and
    which rows carry the overdue mark. The current date is a parameter. */
module Listing {
  import opened Wrappers
  import opened Dates
  import opened Tasks

  /** One printed line: completion marker, id, description, category, due
      date, overdue mark and creation time. */
  datatype Row = Row(
    id: int,
    done: bool,
    description: string,
    category: string,
    due: Option<Date>,
    overdue: bool,
    createdAt: string)

  /** Either the "No tasks found." message or the rows that were printed. */
  datatype Display = NoTasksFound | Rows(rows: seq<Row>)

  /** Whether a task is listed: with `incompleteOnly` the completed ones are
      skipped. */
  predicate Shown(t: Task, incompleteOnly: bool) {
    !(incompleteOnly && t.completed)
  }

  /** A task is overdue when it has a due date, is not completed and the
      due date lies strictly before today. */
  predicate Overdue(t: Task, today: Date)
    ensures Overdue(t, today) ==> !t.completed && t.dueDate.Some? && t.dueDate != Some(today)
  {
    t.dueDate.Some? && !t.completed && Before(t.dueDate.value, today)
  }

  function RowOf(t: Task, today: Date): Row {
    Row(t.id, t.completed, t.description, t.category, t.dueDate, Overdue(t, today), t.createdAt)
  }

  /** The rows of the loop over the list. */
  function RowsOf(ts: seq<Task>, incompleteOnly: bool, today: Date): (r: seq<Row>)
    ensures |r| <= |ts|
    ensures !incompleteOnly ==> |r| == |ts|
    ensures incompleteOnly ==> forall k :: 0 <= k < |r| ==> !r[k].done
    decreases |ts|
  {
    if ts == [] then []
    else
      (if Shown(ts[0], incompleteOnly) then [RowOf(ts[0], today)] else [])
      + RowsOf(ts[1..], incompleteOnly, today)
  }

  /** `display_tasks(tasks, incomplete_only)`. The empty-list test comes
      before the filter, so a non-empty list whose tasks are all skipped
      prints no rows and no message. */
  function DisplayTasks(ts: seq<Task>, incompleteOnly: bool, today: Date): (r: Display)
    ensures r == NoTasksFound <==> ts == []
    ensures r.Rows? ==> r.rows == RowsOf(ts, incompleteOnly, today)
  {
    if ts == [] then NoTasksFound else Rows(RowsOf(ts, incompleteOnly, today))
  }

  /** Listing a concatenation lists the first part, then the second: rows
      follow list order. */
  lemma {:induction false} RowsOfAppend(a: seq<Task>, b: seq<Task>, incompleteOnly: bool, today: Date)
    ensures RowsOf(a + b, incompleteOnly, today) == RowsOf(a, incompleteOnly, today) + RowsOf(b, incompleteOnly, today)
    decreases |a|
  {
    if a != [] {
      var head := if Shown(a[0], incompleteOnly) then [RowOf(a[0], today)] else [];
      assert a + b != [] && (a + b)[0] == a[0] && (a + b)[1..] == a[1..] + b;
      RowsOfAppend(a[1..], b, incompleteOnly, today);
      assert RowsOf(a + b, incompleteOnly, today) == head + RowsOf(a[1..] + b, incompleteOnly, today);
      assert RowsOf(a, incompleteOnly, today) == head + RowsOf(a[1..], incompleteOnly, today);
    } else {
      assert a + b == b;
    }
  }

  /** Without the filter every task has its row, at its own position. */
  lemma {:induction false} RowsOfAll(ts: seq<Task>, today: Date)
    ensures |RowsOf(ts, false, today)| == |ts|
    ensures forall k :: 0 <= k < |ts| ==> RowsOf(ts, false, today)[k] == RowOf(ts[k], today)
    decreases |ts|
  {
    if ts != [] {
      RowsOfAll(ts[1..], today);
    }
  }

  /** Every row comes from a listed task of the list, and every listed task
      has its row. */
  lemma {:induction false} RowsOfMembers(ts: seq<Task>, incompleteOnly: bool, today: Date)
    ensures forall r :: r in RowsOf(ts, incompleteOnly, today) ==>
      exists j :: 0 <= j < |ts| && Shown(ts[j], incompleteOnly) && r == RowOf(ts[j], today)
    ensures forall j :: 0 <= j < |ts| && Shown(ts[j], incompleteOnly) ==>
      RowOf(ts[j], today) in RowsOf(ts, incompleteOnly, today)
    decreases |ts|
  {
    if ts != [] {
      var tail := ts[1..];
      RowsOfMembers(tail, incompleteOnly, today);
      forall r | r in RowsOf(ts, incompleteOnly, today)
        ensures exists j :: 0 <= j < |ts| && Shown(ts[j], incompleteOnly) && r == RowOf(ts[j], today)
      {
        if r in RowsOf(tail, incompleteOnly, today) {
          var j :| 0 <= j < |tail| && Shown(tail[j], incompleteOnly) && r == RowOf(tail[j], today);
          assert ts[j + 1] == tail[j];
        }
      }
      forall j | 0 <= j < |ts| && Shown(ts[j], incompleteOnly)
        ensures RowOf(ts[j], today) in RowsOf(ts, incompleteOnly, today)
      {
        if j > 0 {
          assert ts[j] == tail[j - 1];
        }
      }
    }
  }

  /** Number of tasks not yet completed. */
  function CountIncomplete(ts: seq<Task>): nat
    decreases |ts|
  {
    if ts == [] then 0 else (if ts[0].completed then 0 else 1) + CountIncomplete(ts[1..])
  }

  /** With the filter, only incomplete tasks are listed, one row each. */
  lemma {:induction false} RowsOfIncomplete(ts: seq<Task>, today: Date)
    ensures |RowsOf(ts, true, today)| == CountIncomplete(ts)
    ensures forall k :: 0 <= k < |RowsOf(ts, true, today)| ==> !RowsOf(ts, true, today)[k].done
    decreases |ts|
  {
    if ts != [] {
      RowsOfIncomplete(ts[1..], today);
    }
  }

  /** A row carries the overdue mark exactly when its task is overdue; a
      completed task and a task due today are never marked. */
  lemma OverdueRule(t: Task, today: Date)
    ensures RowOf(t, today).overdue <==> t.dueDate.Some? && !t.completed && Before(t.dueDate.value, today)
    ensures t.completed ==> !RowOf(t, today).overdue
    ensures t.dueDate == Some(today) ==> !RowOf(t, today).overdue
  {
  }

  /** The overdue mark against the day count: a task with a valid due date
      is overdue exactly when it is open and its due day number is smaller
      than today's. */
  lemma OverdueByOrdinal(t: Task, today: Date)
    requires t.dueDate.Some? && Valid(t.dueDate.value) && Valid(today)
    ensures RowOf(t, today).overdue <==> !t.completed && Ordinal(t.dueDate.value) < Ordinal(today)
  {
    BeforeIsOrdinalLess(t.dueDate.value, today);
  }

  /** A task due yesterday is overdue while open and not once completed. */
  lemma OverdueExample(now: string)
    ensures RowOf(Task(1, "a", "General", false, now, Some(Date(2026, 10, 13))), Date(2026, 10, 14)).overdue
    ensures !RowOf(Task(1, "a", "General", true, now, Some(Date(2026, 10, 13))), Date(2026, 10, 14)).overdue
    ensures !RowOf(Task(1, "a", "General", false, now, Some(Date(2026, 10, 14))), Date(2026, 10, 14)).overdue
  {
  }

  /** With every task completed, the incomplete-only listing of a
      non-empty list prints neither rows nor the "No tasks found." message. */
  lemma AllCompletedShowsNoRows(ts: seq<Task>, today: Date)
    requires ts != [] && forall j :: 0 <= j < |ts| ==> ts[j].completed
    ensures DisplayTasks(ts, true, today) == Rows([])
  {
    RowsOfMembers(ts, true, today);
    if RowsOf(ts, true, today) != [] {
      assert RowsOf(ts, true, today)[0] in RowsOf(ts, true, today);
    }
  }
}
