/**
 * The task collection (src/com/todoapp/TaskManager.java): an insertion-ordered
 * list of tasks, updated in place, with lookups, status changes, deletion and
 * order-preserving completed/pending views.
 */
module TaskManagement {
  import opened Wrappers
  import opened Text
  import opened Sequences
  import opened Tasks

  /** The exception `addTask` throws: Java's `IllegalArgumentException`. */
  datatype Error = IllegalArgument(message: string)

  const EmptyDescriptionMessage := "Task description cannot be empty"

  /** The ids of `ts`, in list order (ids never change, so this reads nothing). */
  function Ids(ts: seq<Task>): seq<int> {
    seq(|ts|, i requires 0 <= i < |ts| => ts[i].id)
  }

  /** The ids of a list of task states, in list order. */
  function StateIds(s: seq<TaskState>): seq<int> {
    seq(|s|, i requires 0 <= i < |s| => s[i].id)
  }

  /** The current fields of every task in `ts`, in list order. */
  function Snapshot(ts: seq<Task>): (r: seq<TaskState>)
    reads ts
    ensures StateIds(r) == Ids(ts)
  {
    seq(|ts|, i requires 0 <= i < |ts| reads ts => ts[i].State())
  }

  /** `addTask` refuses a null description and one that is empty after `trim`. */
  predicate IsBlank(description: Option<string>) {
    description.None? || Trim(description.value) == []
  }

  /** The task a front-to-back search for `id` returns, or null. */
  function Lookup(ts: seq<Task>, id: int): (r: Task?)
    ensures r == null <==> id !in Ids(ts)
    ensures r != null ==> r in ts && r.id == id
  {
    match FirstIndex(Ids(ts), id)
    case None => null
    case Some(k) => ts[k]
  }

  /**
   * The states after setting the flag of the first task with `id` to `done`;
   * unchanged when no task has that id.
   */
  function Marked(s: seq<TaskState>, id: int, done: bool): seq<TaskState> {
    match FirstIndex(StateIds(s), id)
    case None => s
    case Some(k) => s[k := s[k].(completed := done)]
  }

  /** The list after removing the first task with `id`; unchanged when there is none. */
  function RemoveFirst(ts: seq<Task>, id: int): seq<Task> {
    match FirstIndex(Ids(ts), id)
    case None => ts
    case Some(k) => ts[..k] + ts[k + 1..]
  }

  /** The tasks of `ts` whose flag equals `done`, in list order. */
  function Filter(ts: seq<Task>, done: bool): seq<Task>
    reads ts
  {
    if ts == [] then []
    else
      var last := ts[|ts| - 1];
      Filter(ts[..|ts| - 1], done) + (if last.completed == done then [last] else [])
  }

  class TaskManager {
    var tasks: seq<Task>
    const counter: IdCounter
    /** Every id this manager's counter has handed out. */
    ghost var issued: set<int>

    /**
     * Ids strictly increase along the list (so they are unique), every listed
     * id was issued, and every issued id is below the counter, so the counter
     * never hands out an id twice.
     */
    ghost predicate Valid()
      reads this, counter
    {
      StrictlyIncreasing(Ids(tasks))
      && (forall i :: 0 <= i < |tasks| ==> tasks[i].id in issued)
      && (forall x :: x in issued ==> x < counter.next)
    }

    constructor ()
      ensures Valid()
      ensures tasks == [] && issued == {}
      ensures fresh(counter) && counter.next == 1
    {
      tasks := [];
      counter := new IdCounter();
      issued := {};
    }

    /**
     * `addTask`: a null or blank description throws and changes nothing;
     * otherwise a new incomplete task holding the trimmed description is
     * appended, with the counter's value as id, above every id issued so far.
     */
    method AddTask(description: Option<string>) returns (r: Result<Task, Error>)
      requires Valid()
      modifies this, counter
      ensures Valid()
      ensures IsBlank(description) ==>
        && r == Failure(IllegalArgument(EmptyDescriptionMessage))
        && tasks == old(tasks)
        && counter.next == old(counter.next)
        && issued == old(issued)
      ensures !IsBlank(description) ==>
        && r.Success? && fresh(r.value)
        && tasks == old(tasks) + [r.value]
        && unchanged(old(tasks))
        && r.value.State() == TaskState(old(counter.next), Trim(description.value), false)
        && (forall x :: x in old(issued) ==> x < r.value.id)
        && (forall t :: t in old(tasks) ==> t.id < r.value.id)
        && counter.next == old(counter.next) + 1
        && issued == old(issued) + {r.value.id}
    {
      if description.None? || Trim(description.value) == [] {
        return Failure(IllegalArgument(EmptyDescriptionMessage));
      }
      var task := new Task(Trim(description.value), counter);
      tasks := tasks + [task];
      issued := issued + {task.id};
      assert Ids(tasks) == Ids(old(tasks)) + [task.id];
      return Success(task);
    }

    /** `getAllTasks`: a copy with the same tasks in the same order. */
    method GetAllTasks() returns (r: seq<Task>)
      ensures r == tasks
    {
      r := tasks;
    }

    /** `getTaskById`: the first task with `id`, or null exactly when there is none. */
    method GetTaskById(id: int) returns (t: Task?)
      ensures t == Lookup(tasks, id)
    {
      var i := 0;
      while i < |tasks|
        invariant 0 <= i <= |tasks|
        invariant id !in Ids(tasks)[..i]
      {
        if tasks[i].id == id {
          FirstIndexAt(Ids(tasks), id, i);
          return tasks[i];
        }
        assert Ids(tasks)[..i + 1] == Ids(tasks)[..i] + [tasks[i].id];
        i := i + 1;
      }
      return null;
    }

    /**
     * `markTaskComplete`: true exactly when a task has `id`; then that task's
     * flag is set and nothing else changes; otherwise nothing changes.
     */
    method MarkTaskComplete(id: int) returns (found: bool)
      requires Valid()
      modifies tasks
      ensures Valid()
      ensures found <==> id in Ids(tasks)
      ensures tasks == old(tasks)
      ensures forall t :: t in tasks ==>
        && t.description == old(t.description)
        && t.completed == if t.id == id then true else old(t.completed)
      ensures Snapshot(tasks) == Marked(old(Snapshot(tasks)), id, true)
    {
      ghost var before := Snapshot(tasks);
      var task := GetTaskById(id);
      if task != null {
        task.MarkAsCompleted();
      }
      FlagChanged(tasks, before, id, true);
      return task != null;
    }

    /** `markTaskIncomplete`: as `MarkTaskComplete`, clearing the flag instead. */
    method MarkTaskIncomplete(id: int) returns (found: bool)
      requires Valid()
      modifies tasks
      ensures Valid()
      ensures found <==> id in Ids(tasks)
      ensures tasks == old(tasks)
      ensures forall t :: t in tasks ==>
        && t.description == old(t.description)
        && t.completed == if t.id == id then false else old(t.completed)
      ensures Snapshot(tasks) == Marked(old(Snapshot(tasks)), id, false)
    {
      ghost var before := Snapshot(tasks);
      var task := GetTaskById(id);
      if task != null {
        task.MarkAsIncomplete();
      }
      FlagChanged(tasks, before, id, false);
      return task != null;
    }

    /**
     * `deleteTask`: walks the list and removes the first task with `id`;
     * true exactly when there was one. The counter is untouched.
     */
    method DeleteTask(id: int) returns (deleted: bool)
      requires Valid()
      modifies this
      ensures Valid()
      ensures deleted <==> id in Ids(old(tasks))
      ensures tasks == RemoveFirst(old(tasks), id)
      ensures counter.next == old(counter.next) && issued == old(issued)
    {
      var i := 0;
      while i < |tasks|
        invariant 0 <= i <= |tasks|
        invariant id !in Ids(tasks)[..i]
      {
        if tasks[i].id == id {
          FirstIndexAt(Ids(tasks), id, i);
          RemoveAtIncreasing(Ids(tasks), i);
          assert Ids(tasks[..i] + tasks[i + 1..]) == Ids(tasks)[..i] + Ids(tasks)[i + 1..];
          tasks := tasks[..i] + tasks[i + 1..];
          return true;
        }
        assert Ids(tasks)[..i + 1] == Ids(tasks)[..i] + [tasks[i].id];
        i := i + 1;
      }
      return false;
    }

    /** `getCompletedTasks`: the completed tasks, in list order. */
    method GetCompletedTasks() returns (r: seq<Task>)
      ensures r == Filter(tasks, true)
    {
      r := [];
      for i := 0 to |tasks|
        invariant r == Filter(tasks[..i], true)
      {
        assert tasks[..i + 1][..i] == tasks[..i];
        if tasks[i].completed {
          r := r + [tasks[i]];
        }
      }
      assert tasks[..|tasks|] == tasks;
    }

    /** `getPendingTasks`: the tasks not yet completed, in list order. */
    method GetPendingTasks() returns (r: seq<Task>)
      ensures r == Filter(tasks, false)
    {
      r := [];
      for i := 0 to |tasks|
        invariant r == Filter(tasks[..i], false)
      {
        assert tasks[..i + 1][..i] == tasks[..i];
        if !tasks[i].completed {
          r := r + [tasks[i]];
        }
      }
      assert tasks[..|tasks|] == tasks;
    }

    method GetTotalTaskCount() returns (n: nat)
      ensures n == |tasks|
    {
      n := |tasks|;
    }

    /** `getCompletedTaskCount`: the size of the completed view. */
    method GetCompletedTaskCount() returns (n: nat)
      ensures n == |Filter(tasks, true)|
    {
      var completed := GetCompletedTasks();
      n := |completed|;
    }

    /** `getPendingTaskCount`: the size of the pending view, which is the rest of the list. */
    method GetPendingTaskCount() returns (n: nat)
      ensures n == |Filter(tasks, false)|
      ensures n + |Filter(tasks, true)| == |tasks|
    {
      var pending := GetPendingTasks();
      n := |pending|;
      FilterCounts(tasks);
    }

    /** `clearAllTasks`: empties the list but leaves the counter where it was. */
    method ClearAllTasks()
      requires Valid()
      modifies this
      ensures Valid()
      ensures tasks == []
      ensures counter.next == old(counter.next) && issued == old(issued)
    {
      tasks := [];
    }
  }

  /** Under unique ids, looking up the id of a listed task finds that very task. */
  lemma LookupFindsListed(ts: seq<Task>, k: nat)
    requires StrictlyIncreasing(Ids(ts))
    requires k < |ts|
    ensures Lookup(ts, ts[k].id) == ts[k]
  {
    FirstIndexUnique(Ids(ts), ts[k].id, k);
  }

  /**
   * Round trip of `addTask` and `getTaskById`: a task appended with an id
   * above every listed one is what a lookup of that id returns.
   */
  lemma LookupAfterAppend(ts: seq<Task>, t: Task)
    requires forall u :: u in ts ==> u.id < t.id
    ensures Lookup(ts + [t], t.id) == t
  {
    var ids := Ids(ts + [t]);
    assert t.id !in ids[..|ts|] by {
      forall j | 0 <= j < |ts| ensures ids[..|ts|][j] != t.id {
        assert ids[j] == ts[j].id;
      }
    }
    FirstIndexAt(ids, t.id, |ts|);
  }

  /**
   * Under unique ids, setting the flag of the one task with `id` in the heap
   * is what `Marked` describes on the states.
   */
  lemma MarkedOnFlag(ts: seq<Task>, before: seq<TaskState>, id: int, done: bool, k: nat)
    requires StrictlyIncreasing(Ids(ts))
    requires |before| == |ts| && k < |ts| && ts[k].id == id
    requires forall j :: 0 <= j < |ts| ==> before[j].id == ts[j].id
    requires forall j :: 0 <= j < |ts| && j != k ==> ts[j].State() == before[j]
    requires ts[k].State() == before[k].(completed := done)
    ensures Snapshot(ts) == Marked(before, id, done)
  {
    assert StateIds(before) == Ids(ts);
    FirstIndexUnique(Ids(ts), id, k);
    var after := Snapshot(ts);
    assert after == before[k := before[k].(completed := done)];
  }

  /**
   * A status change seen on the states: when every listed task kept its
   * description and only the task with `id` may show a new flag, `done`, the
   * states are `Marked(before, id, done)`. Ids tell the listed tasks apart,
   * and a task whose id is not listed is not in the list.
   */
  lemma FlagChanged(ts: seq<Task>, before: seq<TaskState>, id: int, done: bool)
    requires StrictlyIncreasing(Ids(ts))
    requires |before| == |ts| && StateIds(before) == Ids(ts)
    requires forall j :: 0 <= j < |ts| ==> ts[j].description == before[j].description
    requires forall j :: 0 <= j < |ts| ==>
      ts[j].completed == if Ids(ts)[j] == id then done else before[j].completed
    ensures forall t, u :: t in ts && u in ts && t.id == u.id ==> t == u
    ensures id !in Ids(ts) ==> forall t :: t in ts ==> t.id != id
    ensures Snapshot(ts) == Marked(before, id, done)
  {
    forall t, u | t in ts && u in ts && t.id == u.id ensures t == u {
      var p :| 0 <= p < |ts| && ts[p] == t;
      var q :| 0 <= q < |ts| && ts[q] == u;
      assert Ids(ts)[p] == Ids(ts)[q];
    }
    forall t | t in ts ensures t.id in Ids(ts) {
      var p :| 0 <= p < |ts| && ts[p] == t;
      assert Ids(ts)[p] == t.id;
    }
    match FirstIndex(Ids(ts), id)
    case None =>
      forall j | 0 <= j < |ts| ensures ts[j].State() == before[j] {
        assert StateIds(before)[j] == Ids(ts)[j];
      }
    case Some(k) =>
      forall j | 0 <= j < |ts| && j != k ensures ts[j].State() == before[j] {
        assert Ids(ts)[j] != Ids(ts)[k];
        assert StateIds(before)[j] == Ids(ts)[j];
      }
      assert StateIds(before)[k] == Ids(ts)[k];
      MarkedOnFlag(ts, before, id, done, k);
  }

  /** Under unique ids, `Marked` touches exactly the task with `id`, and only its flag. */
  lemma MarkedTouchesOnlyTarget(s: seq<TaskState>, id: int, done: bool)
    requires StrictlyIncreasing(StateIds(s))
    ensures |Marked(s, id, done)| == |s|
    ensures forall j :: 0 <= j < |s| ==>
      Marked(s, id, done)[j] == if s[j].id == id then s[j].(completed := done) else s[j]
  {
    forall j | 0 <= j < |s| && s[j].id == id
      ensures FirstIndex(StateIds(s), id) == Some(j)
    {
      FirstIndexUnique(StateIds(s), id, j);
    }
  }

  /** Setting a flag twice leaves the same states as setting it once. */
  lemma {:induction false} MarkedIdempotent(s: seq<TaskState>, id: int, done: bool)
    ensures Marked(Marked(s, id, done), id, done) == Marked(s, id, done)
  {
    assert StateIds(Marked(s, id, done)) == StateIds(s);
  }

  /** Marking never changes ids, descriptions, length or order. */
  lemma MarkedKeepsIds(s: seq<TaskState>, id: int, done: bool)
    ensures StateIds(Marked(s, id, done)) == StateIds(s)
    ensures |Marked(s, id, done)| == |s|
    ensures forall j :: 0 <= j < |s| ==> Marked(s, id, done)[j].description == s[j].description
  {
  }

  /**
   * Deleting a present id removes exactly one task, that id disappears, the
   * rest keep their order, and ids still strictly increase.
   */
  lemma RemoveFirstPresent(ts: seq<Task>, id: int)
    requires StrictlyIncreasing(Ids(ts))
    requires id in Ids(ts)
    ensures |RemoveFirst(ts, id)| == |ts| - 1
    ensures id !in Ids(RemoveFirst(ts, id))
    ensures IsSubsequence(RemoveFirst(ts, id), ts)
    ensures StrictlyIncreasing(Ids(RemoveFirst(ts, id)))
    ensures forall t :: t in ts && t.id != id ==> t in RemoveFirst(ts, id)
  {
    var k := FirstIndex(Ids(ts), id).value;
    var r := ts[..k] + ts[k + 1..];
    assert Ids(r) == Ids(ts)[..k] + Ids(ts)[k + 1..];
    RemoveAtDropsValue(Ids(ts), k);
    RemoveAtIsSubsequence(ts, k);
    RemoveAtIncreasing(Ids(ts), k);
    forall t | t in ts && t.id != id ensures t in r {
      var j :| 0 <= j < |ts| && ts[j] == t;
      assert j != k;
      if j < k { assert r[j] == t; } else { assert r[j - 1] == t; }
    }
  }

  /** Deleting an absent id changes nothing. */
  lemma RemoveFirstAbsent(ts: seq<Task>, id: int)
    requires id !in Ids(ts)
    ensures RemoveFirst(ts, id) == ts
  {
  }

  /** A task is in a view exactly when it is in the list with that flag. */
  lemma {:induction false} FilterMembers(ts: seq<Task>, done: bool, t: Task)
    ensures t in Filter(ts, done) <==> t in ts && t.completed == done
  {
    if ts != [] {
      var init := ts[..|ts| - 1];
      FilterMembers(init, done, t);
      assert ts == init + [ts[|ts| - 1]];
    }
  }

  /** A view keeps the tasks it holds in list order. */
  lemma {:induction false} FilterIsSubsequence(ts: seq<Task>, done: bool)
    ensures IsSubsequence(Filter(ts, done), ts)
  {
    if ts != [] {
      var init := ts[..|ts| - 1];
      var f := Filter(ts, done);
      FilterIsSubsequence(init, done);
      assert ts[..|ts| - 1] == init;
      if ts[|ts| - 1].completed == done {
        assert f == Filter(init, done) + [ts[|ts| - 1]];
        assert f[..|f| - 1] == Filter(init, done);
      } else {
        assert f == Filter(init, done);
      }
    }
  }

  /**
   * The completed and pending views partition the list: together they hold
   * every task as often as the list does, so their sizes add up to its size.
   */
  lemma {:induction false} FilterPartition(ts: seq<Task>)
    ensures multiset(Filter(ts, true)) + multiset(Filter(ts, false)) == multiset(ts)
  {
    if ts != [] {
      var init := ts[..|ts| - 1];
      FilterPartition(init);
      assert ts == init + [ts[|ts| - 1]];
    }
  }

  /** `getCompletedTaskCount() + getPendingTaskCount() == getTotalTaskCount()`. */
  lemma FilterCounts(ts: seq<Task>)
    ensures |Filter(ts, true)| + |Filter(ts, false)| == |ts|
  {
    FilterPartition(ts);
    assert |multiset(Filter(ts, true)) + multiset(Filter(ts, false))| == |multiset(ts)|;
  }

  /** A fresh collection holding two new tasks with ids 1 and 2, both pending. */
  method TwoTaskSession(first: string, second: string) returns (m: TaskManager, t1: Task, t2: Task)
    requires Trim(first) != [] && Trim(second) != []
    ensures fresh(m) && fresh(m.counter) && fresh(t1) && fresh(t2) && m.Valid()
    ensures m.tasks == [t1, t2] && t1.id == 1 && t2.id == 2
    ensures !t1.completed && !t2.completed
  {
    m := new TaskManager();
    var r1 := m.AddTask(Some(first));
    t1 := r1.value;
    var r2 := m.AddTask(Some(second));
    t2 := r2.value;
  }

  /** Completing the first of two tasks splits the views between them. */
  method ViewsRun(first: string, second: string)
    requires Trim(first) != [] && Trim(second) != []
  {
    var m, t1, t2 := TwoTaskSession(first, second);
    var ok := m.MarkTaskComplete(1);
    assert ok && t1.completed && !t2.completed;
    var pending := m.GetPendingTasks();
    var completed := m.GetCompletedTasks();
    assert m.tasks[..1] == [t1] && [t1][..0] == [];
    assert pending == Filter([t1], false) + [t2] && Filter([t1], false) == [];
    assert completed == Filter([t1], true) && Filter([t1], true) == [t1];
  }

  /**
   * An unknown id changes nothing; deleting the first of two tasks leaves the
   * second, and the deleted id is no longer found.
   */
  method DeleteRun(first: string, second: string)
    requires Trim(first) != [] && Trim(second) != []
  {
    var m, t1, t2 := TwoTaskSession(first, second);
    var missing := m.MarkTaskComplete(99);
    assert !missing && !t1.completed && !t2.completed;

    var deleted := m.DeleteTask(1);
    var all := m.GetAllTasks();
    assert deleted && all == [t2];
    var gone := m.GetTaskById(1);
    assert gone == null;
  }

  /**
   * Blank and null descriptions are refused and leave the list empty; after
   * three tasks are added and the list cleared, the next task gets id 4, not 1.
   */
  method ClearRun(d: string, blank: string)
    requires d != [] && !IsTrimmable(d[0])
    requires AllTrimmable(blank)
  {
    TrimEmptyIffBlank(d);
    TrimEmptyIffBlank(blank);
    var m := new TaskManager();
    var e1 := m.AddTask(Some(blank));
    var e2 := m.AddTask(None);
    assert e1.Failure? && e2.Failure? && m.tasks == [];

    var r1 := m.AddTask(Some(d));
    var r2 := m.AddTask(Some(d));
    var r3 := m.AddTask(Some(d));
    m.ClearAllTasks();
    var total := m.GetTotalTaskCount();
    assert total == 0;
    var r4 := m.AddTask(Some(d));
    assert r4.value.id == 4;
  }
}
