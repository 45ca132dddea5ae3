/** The task list and the three operations that change it in place:
    `add_task`, `mark_complete` and `delete_task`.

    The list is the `tasks` field of a `TaskStore`. Every call of
    `save_tasks` is recorded by the ghost counter `saves`; the file itself
    is not modelled. The functions `Added`, `Completed` and `Removed` say
    what each operation makes of the list, and the lemmas below them state
    what the source relies on about ids. */
module Tasks {
  import opened Wrappers
  import opened Dates

  /** One record of the list. `createdAt` is the timestamp text taken when
      the task was added; the due date is stored as the date it names. */
  datatype Task = Task(
    id: int,
    description: string,
    category: string,
    completed: bool,
    createdAt: string,
    dueDate: Option<Date>)

  /** The category `add_task` uses when none is passed. */
  const DefaultCategory := "General"

  /** The record `add_task` builds for a list `ts`: its id is one more than
      the current length of the list. */
  function NewTask(ts: seq<Task>, description: string, category: Option<string>,
                   dueDate: Option<Date>, createdAt: string): Task
  {
    Task(|ts| + 1, description,
         match category case None => DefaultCategory case Some(c) => c,
         false, createdAt, dueDate)
  }

  /** The list after `add_task`. */
  function Added(ts: seq<Task>, description: string, category: Option<string>,
                 dueDate: Option<Date>, createdAt: string): (r: seq<Task>)
    ensures |r| == |ts| + 1 && r[..|ts|] == ts
    ensures r[|ts|].id == |ts| + 1 && !r[|ts|].completed
    ensures r[|ts|].description == description && r[|ts|].dueDate == dueDate
    ensures r[|ts|].createdAt == createdAt
    ensures r[|ts|].category == if category.Some? then category.value else DefaultCategory
  {
    ts + [NewTask(ts, description, category, dueDate, createdAt)]
  }

  /** Position of the first record whose id is `id`, as the scans of
      `mark_complete` and `delete_task` find it. */
  function FirstIndex(ts: seq<Task>, id: int): (r: Option<nat>)
    ensures r.Some? ==> r.value < |ts| && ts[r.value].id == id
    ensures r.Some? ==> forall j :: 0 <= j < r.value ==> ts[j].id != id
    ensures r.None? <==> forall j :: 0 <= j < |ts| ==> ts[j].id != id
    decreases |ts|
  {
    if ts == [] then None
    else if ts[0].id == id then Some(0)
    else
      match FirstIndex(ts[1..], id)
      case None => None
      case Some(k) => Some(k + 1)
  }

  /** The list after `mark_complete(id)`. */
  function Completed(ts: seq<Task>, id: int): (r: seq<Task>)
    ensures |r| == |ts|
    ensures FirstIndex(ts, id).None? ==> r == ts
    ensures FirstIndex(ts, id).Some? ==>
      var i := FirstIndex(ts, id).value;
      r[i] == ts[i].(completed := true) &&
      forall j :: 0 <= j < |ts| && j != i ==> r[j] == ts[j]
  {
    match FirstIndex(ts, id)
    case None => ts
    case Some(i) => ts[i := ts[i].(completed := true)]
  }

  /** The list after `delete_task(id)`. */
  function Removed(ts: seq<Task>, id: int): (r: seq<Task>)
    ensures FirstIndex(ts, id).None? ==> r == ts
    ensures FirstIndex(ts, id).Some? ==>
      var i := FirstIndex(ts, id).value;
      |r| == |ts| - 1 && r == ts[..i] + ts[i + 1..]
  {
    match FirstIndex(ts, id)
    case None => ts
    case Some(i) => ts[..i] + ts[i + 1..]
  }

  predicate HasId(ts: seq<Task>, id: int) {
    exists j :: 0 <= j < |ts| && ts[j].id == id
  }

  class TaskStore {
    /** The in-memory list, in display order. */
    var tasks: seq<Task>
    /** How many times `save_tasks` has been called. */
    ghost var saves: nat

    /** A store holding the list `load_tasks` returned. */
    constructor (loaded: seq<Task>)
      ensures tasks == loaded && saves == 0
    {
      tasks := loaded;
      saves := 0;
    }

    /** `add_task`: append the new record, then save. */
    method AddTask(description: string, category: Option<string>,
                   dueDate: Option<Date>, createdAt: string)
      modifies this
      ensures tasks == Added(old(tasks), description, category, dueDate, createdAt)
      ensures saves == old(saves) + 1
    {
      tasks := tasks + [NewTask(tasks, description, category, dueDate, createdAt)];
      saves := saves + 1;
    }

    /** `mark_complete`: scan for the first record with this id, set it
        completed and save; report whether one was found. */
    method MarkComplete(id: int) returns (found: bool)
      modifies this
      ensures found <==> HasId(old(tasks), id)
      ensures tasks == Completed(old(tasks), id)
      ensures saves == old(saves) + (if found then 1 else 0)
    {
      var i := 0;
      while i < |tasks|
        invariant 0 <= i <= |tasks|
        invariant tasks == old(tasks) && saves == old(saves)
        invariant forall j :: 0 <= j < i ==> tasks[j].id != id
      {
        if tasks[i].id == id {
          tasks := tasks[i := tasks[i].(completed := true)];
          saves := saves + 1;
          return true;
        }
        i := i + 1;
      }
      return false;
    }

    /** `delete_task`: scan for the first record with this id, pop it and
        save; report whether one was found. */
    method DeleteTask(id: int) returns (found: bool)
      modifies this
      ensures found <==> HasId(old(tasks), id)
      ensures tasks == Removed(old(tasks), id)
      ensures saves == old(saves) + (if found then 1 else 0)
    {
      var i := 0;
      while i < |tasks|
        invariant 0 <= i <= |tasks|
        invariant tasks == old(tasks) && saves == old(saves)
        invariant forall j :: 0 <= j < i ==> tasks[j].id != id
      {
        if tasks[i].id == id {
          tasks := tasks[..i] + tasks[i + 1..];
          saves := saves + 1;
          return true;
        }
        i := i + 1;
      }
      return false;
    }
  }

  // ---------------------------------------------------------------------
  // Properties of the operations.

  /** Marking the same id twice gives the list of marking it once. */
  lemma CompleteIdempotent(ts: seq<Task>, id: int)
    ensures Completed(Completed(ts, id), id) == Completed(ts, id)
  {
    SameIdsSameIndex(ts, Completed(ts, id), id);
  }

  /** The first matching position depends only on the ids. */
  lemma SameIdsSameIndex(a: seq<Task>, b: seq<Task>, id: int)
    requires |a| == |b| && forall j :: 0 <= j < |a| ==> a[j].id == b[j].id
    ensures FirstIndex(a, id) == FirstIndex(b, id)
  {
  }

  /** An absent id leaves the list as it was, for both scans. */
  lemma AbsentIdChangesNothing(ts: seq<Task>, id: int)
    requires !HasId(ts, id)
    ensures Completed(ts, id) == ts && Removed(ts, id) == ts
  {
  }

  // ---------------------------------------------------------------------
  // Ids.

  predicate UniqueIds(ts: seq<Task>) {
    forall i, j :: 0 <= i < j < |ts| ==> ts[i].id != ts[j].id
  }

  /** The ids are exactly 1..n, each once, in some order. */
  predicate DenseIds(ts: seq<Task>) {
    UniqueIds(ts) && forall i :: 0 <= i < |ts| ==> 1 <= ts[i].id <= |ts|
  }

  /** With unique ids, adding keeps them unique exactly when the length
      based id is not already taken. */
  lemma AddUniqueIff(ts: seq<Task>, description: string, category: Option<string>,
                     dueDate: Option<Date>, createdAt: string)
    requires UniqueIds(ts)
    ensures UniqueIds(Added(ts, description, category, dueDate, createdAt)) <==> !HasId(ts, |ts| + 1)
  {
    var r := Added(ts, description, category, dueDate, createdAt);
    if HasId(ts, |ts| + 1) {
      var j :| 0 <= j < |ts| && ts[j].id == |ts| + 1;
      assert r[j].id == r[|ts|].id;
    }
  }

  /** While the ids are exactly 1..n the new id n + 1 is fresh, and the
      ids of the longer list are exactly 1..n + 1 again. */
  lemma AddKeepsDense(ts: seq<Task>, description: string, category: Option<string>,
                      dueDate: Option<Date>, createdAt: string)
    requires DenseIds(ts)
    ensures !HasId(ts, |ts| + 1)
    ensures DenseIds(Added(ts, description, category, dueDate, createdAt))
  {
    AddUniqueIff(ts, description, category, dueDate, createdAt);
  }

  /** Marking complete changes no id. */
  lemma CompleteKeepsIds(ts: seq<Task>, id: int)
    ensures forall j :: 0 <= j < |ts| ==> Completed(ts, id)[j].id == ts[j].id
    ensures DenseIds(ts) ==> DenseIds(Completed(ts, id))
  {
  }

  /** Deleting keeps the remaining ids unique. */
  lemma RemoveKeepsUnique(ts: seq<Task>, id: int)
    requires UniqueIds(ts)
    ensures UniqueIds(Removed(ts, id))
  {
    if FirstIndex(ts, id).Some? {
      var i := FirstIndex(ts, id).value;
      var r := Removed(ts, id);
      forall a, b | 0 <= a < b < |r| ensures r[a].id != r[b].id {
        var a' := if a < i then a else a + 1;
        var b' := if b < i then b else b + 1;
        assert r[a] == ts[a'] && r[b] == ts[b'];
      }
    }
  }

  /** The set of ids held by a list. */
  function IdSet(ts: seq<Task>): set<int>
    decreases |ts|
  {
    if ts == [] then {} else IdSet(ts[..|ts| - 1]) + {ts[|ts| - 1].id}
  }

  lemma {:induction false} IdSetMembers(ts: seq<Task>)
    ensures forall x :: x in IdSet(ts) <==> HasId(ts, x)
    decreases |ts|
  {
    if ts != [] {
      var p := ts[..|ts| - 1];
      IdSetMembers(p);
      forall x ensures x in IdSet(ts) <==> HasId(ts, x) {
        if HasId(p, x) {
          var j :| 0 <= j < |p| && p[j].id == x;
          assert ts[j].id == x;
        }
        if HasId(ts, x) && x != ts[|ts| - 1].id {
          var j :| 0 <= j < |ts| && ts[j].id == x;
          assert p[j].id == x;
        }
      }
    }
  }

  lemma {:induction false} IdSetSize(ts: seq<Task>)
    requires UniqueIds(ts)
    ensures |IdSet(ts)| == |ts|
    decreases |ts|
  {
    if ts != [] {
      var p := ts[..|ts| - 1];
      assert UniqueIds(p);
      IdSetSize(p);
      IdSetMembers(p);
      assert ts[|ts| - 1].id !in IdSet(p);
    }
  }

  function Range(n: nat): set<int>
    decreases n
  {
    if n == 0 then {} else Range(n - 1) + {n}
  }

  lemma {:induction false} RangeShape(n: nat)
    ensures |Range(n)| == n
    ensures forall x :: x in Range(n) <==> 1 <= x <= n
    decreases n
  {
    if n > 0 {
      RangeShape(n - 1);
    }
  }

  /** With ids exactly 1..n, every number of 1..n is some task's id. */
  lemma DenseHasEveryId(ts: seq<Task>, k: int)
    requires DenseIds(ts) && 1 <= k <= |ts|
    ensures HasId(ts, k)
  {
    IdSetSize(ts);
    IdSetMembers(ts);
    RangeShape(|ts|);
    var s, r := IdSet(ts), Range(|ts|);
    forall x | x in s ensures x in r {
      var j :| 0 <= j < |ts| && ts[j].id == x;
    }
    assert |r - s| == |r| - |s|;
    assert r - s == {};
    assert k in r;
  }

  /** The length based id is not safe after a deletion: from a list whose
      ids are exactly 1..n, deleting any id other than n and then adding a
      task gives the new task the id n, which is still in use. */
  lemma DeleteThenAddDuplicates(ts: seq<Task>, k: int, description: string,
                                category: Option<string>, dueDate: Option<Date>,
                                createdAt: string)
    requires DenseIds(ts) && 1 <= k < |ts|
    ensures !UniqueIds(Added(Removed(ts, k), description, category, dueDate, createdAt))
  {
    DenseHasEveryId(ts, k);
    DenseHasEveryId(ts, |ts|);
    var i := FirstIndex(ts, k).value;
    var j :| 0 <= j < |ts| && ts[j].id == |ts|;
    var d := Removed(ts, k);
    var j' := if j < i then j else j - 1;
    assert d[j'].id == |ts|;
    var r := Added(d, description, category, dueDate, createdAt);
    assert r[j'].id == r[|d|].id;
  }

  /** The concrete case: ids [1, 2, 3], delete 2, add: the new id is 3. */
  lemma DeleteThenAddExample(a: Task, b: Task, c: Task, now: string)
    requires a.id == 1 && b.id == 2 && c.id == 3
    ensures Removed([a, b, c], 2) == [a, c]
    ensures Added([a, c], "x", None, None, now)[2].id == 3
    ensures !UniqueIds(Added(Removed([a, b, c], 2), "x", None, None, now))
  {
    assert FirstIndex([a, b, c], 2) == Some(1);
    assert [a, b, c][..1] + [a, b, c][2..] == [a, c];
    var r := Added([a, c], "x", None, None, now);
    assert r[1].id == r[2].id;
  }

  /** A session: add "Buy milk" with no category to an empty list, mark
      task 1 complete, delete task 1. */
  lemma SessionExample(now: string)
    ensures Added([], "Buy milk", None, None, now)
         == [Task(1, "Buy milk", "General", false, now, None)]
    ensures Completed([Task(1, "Buy milk", "General", false, now, None)], 1)
         == [Task(1, "Buy milk", "General", true, now, None)]
    ensures Removed([Task(1, "Buy milk", "General", true, now, None)], 1) == []
  {
  }
}
