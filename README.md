# To-do task collection, modelled in Dafny

This project models the core of a console to-do application written in Java:
the task entity (`src/com/todoapp/Task.java`) and the task collection that owns it
(`src/com/todoapp/TaskManager.java`). The collection keeps tasks in insertion order.
It hands out ids from a counter that only grows, even across deletions and clears.
It looks tasks up by id, completes and reopens them, deletes the first task with a
given id, and answers completed/pending views and counts.

Layout, one module per concern:

- `wrappers.dfy` (`Wrappers`): `Option` stands for a Java `null`, `Result` for a thrown exception.
- `text.dfy` (`Text`): Java's `String.trim`, as `addTask` uses it: a scan from the front and a
  scan from the back that skip characters whose code is at most that of the space character.
- `sequences.dfy` (`Sequences`): facts about id sequences. These cover first-match search,
  strictly increasing ids, removal at an index and order-preserving sub-lists.
- `task.dfy` (`Tasks`): `Task.java`. `Task` is a class whose description and flag are updated
  in place; its `id` is a `const`. The static `idCounter` becomes an `IdCounter` object.
  The constructor reads and post-increments that object.
- `task_manager.dfy` (`TaskManagement`): `TaskManager.java`. `TaskManager` is a class with a
  `tasks: seq<Task>` field that its methods reassign, the `IdCounter` it owns, and a ghost
  set `issued` of every id handed out. Its object invariant `Valid()` says three things:
  - ids strictly increase along the list, so they are unique;
  - every listed id was issued;
  - every issued id is below the counter, so no id is ever handed out twice.

  Each method is proved against specification functions:
  - `Lookup` is the first match of a front-to-back search.
  - `Marked` describes the task states after a status change.
  - `RemoveFirst` is the list after a deletion.
  - `Filter` is an order-preserving view.

  Lemmas then prove what those functions promise. The file ends with three client
  scenarios (`ViewsRun`, `DeleteRun`, `ClearRun`), which use only the method contracts.

The collection returns the `Task` objects themselves, as the Java code does. A caller
holding a task can therefore change it, and `MarkTaskComplete` changes the shared object.
The object invariant depends only on the immutable ids and the counter, so such changes
cannot break it.

The Java code checks a description only in `addTask`, and the model does the same:
- The `Task` constructor does not trim or validate its description (`Task.java:17-21`).
  Only `addTask` rejects blank input (`TaskManager.java:27-29`).
- `setDescription` does not validate either (`Task.java:37-39`). So "a listed task's
  description is never blank" is not an invariant of the collection, and the model does
  not claim it. It only proves that `AddTask` stores a non-blank, trimmed description.
- The id counter belongs to each collection rather than to the whole process. With the
  single collection that the application creates, the behaviour is the same.

## Model

| member | source | states |
|---|---|---|
| `Text.SkipLeading` | src/com/todoapp/TaskManager.java:27 | the front scan of `trim` stops at the first kept character at or after its start (or at the end), and everything it skipped is at most `' '` |
| `Text.SkipTrailing` | src/com/todoapp/TaskManager.java:27 | the back scan of `trim` never passes the front index, everything it dropped is at most `' '`, and the last kept character is above `' '` |
| `Text.Trim` | src/com/todoapp/TaskManager.java:27-31 | `trim` returns a contiguous slice of its input; everything cut off on either side is at most `' '`; a non-empty result neither starts nor ends with such a character |
| `Text.TrimEmptyIffBlank` | src/com/todoapp/TaskManager.java:27-29 | `description.trim().isEmpty()` holds exactly when every character is at most `' '` (empty or whitespace-only input) |
| `Text.TrimIdempotent` | src/com/todoapp/TaskManager.java:31 | trimming the stored, already trimmed description again changes nothing |
| `Sequences.FirstIndex` | src/com/todoapp/TaskManager.java:49-56 | the front-to-back search returns `None` exactly when the id is absent; otherwise an index holding it with no earlier occurrence |
| `Sequences.FirstIndexUnique` | src/com/todoapp/TaskManager.java:49-56 | in a strictly increasing id list the first match is the only match |
| `Sequences.RemoveAtIsSubsequence` | src/com/todoapp/TaskManager.java:91-101 | removing one element through the iterator keeps the others in their relative order |
| `Sequences.RemoveAtIncreasing` | src/com/todoapp/TaskManager.java:91-101 | removing one element keeps a strictly increasing id list strictly increasing |
| `Sequences.RemoveAtDropsValue` | src/com/todoapp/TaskManager.java:91-101 | after the removal from a strictly increasing list, the removed id occurs nowhere |
| `Tasks.IdCounter.constructor` | src/com/todoapp/Task.java:8 | the counter starts at 1 |
| `Tasks.Task.constructor` | src/com/todoapp/Task.java:17-21 | a new task takes the counter's current value as its id, and the counter grows by exactly 1; the description is stored exactly as passed, and the task starts incomplete |
| `Tasks.Task.SetDescription` | src/com/todoapp/Task.java:37-39 | the description is replaced without validation; the flag is unchanged, and the id cannot change because it is a `const` |
| `Tasks.Task.MarkAsCompleted` | src/com/todoapp/Task.java:41-43 | the flag becomes true whatever it was, so a second call is a no-op; the description is unchanged |
| `Tasks.Task.MarkAsIncomplete` | src/com/todoapp/Task.java:45-47 | the flag becomes false whatever it was, so a second call is a no-op; the description is unchanged |
| `Tasks.Task.Equals` | src/com/todoapp/Task.java:65-70 | `equals` holds exactly for a `Task` with the same id, whatever its description and flag; it is false for null and for other classes |
| `Tasks.EqualsIsEquivalence` | src/com/todoapp/Task.java:65-70 | `equals` is reflexive, symmetric and transitive |
| `Tasks.HashCodeAgreesWithEquals` | src/com/todoapp/Task.java:77-79 | `hashCode` depends only on the id: two tasks are equal exactly when their hash codes are equal |
| `TaskManagement.Lookup` | src/com/todoapp/TaskManager.java:49-56 | the lookup result is null exactly when no listed task has the id; otherwise it is a listed task with that id |
| `TaskManagement.TaskManager.constructor` | src/com/todoapp/TaskManager.java:17-19 | a new collection is empty, owns a fresh counter at 1, and satisfies the invariant |
| `TaskManagement.TaskManager.AddTask` | src/com/todoapp/TaskManager.java:26-34 | see the list below the table |
| `TaskManagement.TaskManager.GetAllTasks` | src/com/todoapp/TaskManager.java:40-42 | returns the same tasks in the same order, as a value that later changes to the list do not affect |
| `TaskManagement.TaskManager.GetTaskById` | src/com/todoapp/TaskManager.java:49-56 | the loop returns the first task with the id, and null exactly when there is none |
| `TaskManagement.TaskManager.MarkTaskComplete` | src/com/todoapp/TaskManager.java:63-70 | returns true exactly when a task has the id; that task's flag becomes true; every other flag, every description and the list itself stay as they were; the new states equal `Marked(old states, id, true)` |
| `TaskManagement.TaskManager.MarkTaskIncomplete` | src/com/todoapp/TaskManager.java:77-84 | the same as `MarkTaskComplete`, but the flag becomes false |
| `TaskManagement.FlagChanged` | src/com/todoapp/TaskManager.java:63-84 | with ids strictly increasing, two listed tasks with the same id are the same task, an unlisted id belongs to no listed task, and a change that keeps every description and gives only the task with the id the flag `done` turns the states into `Marked(before, id, done)` |
| `TaskManagement.TaskManager.DeleteTask` | src/com/todoapp/TaskManager.java:91-101 | returns true exactly when the id was listed; the new list is the old one without its first task with that id; the counter is untouched; the invariant is kept |
| `TaskManagement.TaskManager.GetCompletedTasks` | src/com/todoapp/TaskManager.java:107-115 | the loop returns exactly the order-preserving filter of the list on a true flag |
| `TaskManagement.TaskManager.GetPendingTasks` | src/com/todoapp/TaskManager.java:121-129 | the loop returns exactly the order-preserving filter of the list on a false flag |
| `TaskManagement.TaskManager.GetTotalTaskCount` | src/com/todoapp/TaskManager.java:135-137 | the size of the list |
| `TaskManagement.TaskManager.GetCompletedTaskCount` | src/com/todoapp/TaskManager.java:143-145 | the size of the completed view |
| `TaskManagement.TaskManager.GetPendingTaskCount` | src/com/todoapp/TaskManager.java:151-153 | the size of the pending view; added to the completed count it gives the total count |
| `TaskManagement.TaskManager.ClearAllTasks` | src/com/todoapp/TaskManager.java:158-160 | the list becomes empty; the counter and the issued ids stay, so a later `AddTask` gets an id above every id issued before the clear |
| `TaskManagement.LookupFindsListed` | src/com/todoapp/TaskManager.java:49-56 | in a list with unique ids, looking up the id of a listed task returns that very task |
| `TaskManagement.LookupAfterAppend` | src/com/todoapp/TaskManager.java:31-33 | round trip: a lookup of the id of a task that `addTask` just appended (its id is above every listed id) returns that task |
| `TaskManagement.MarkedTouchesOnlyTarget` | src/com/todoapp/TaskManager.java:63-84 | with unique ids, a status change sets the flag of the task with the id and leaves every other task state unchanged |
| `TaskManagement.MarkedIdempotent` | src/com/todoapp/TaskManager.java:63-84 | applying the same status change twice gives the same states as applying it once |
| `TaskManagement.MarkedKeepsIds` | src/com/todoapp/TaskManager.java:63-84 | a status change keeps the length, the ids in order, and every description |
| `TaskManagement.RemoveFirstPresent` | src/com/todoapp/TaskManager.java:91-101 | deleting a listed id from a list with increasing ids has five effects, listed below the table |
| `TaskManagement.RemoveFirstAbsent` | src/com/todoapp/TaskManager.java:91-101 | deleting an id that is not listed leaves the list unchanged |
| `TaskManagement.FilterMembers` | src/com/todoapp/TaskManager.java:107-129 | a task is in a view exactly when it is listed with that flag |
| `TaskManagement.FilterIsSubsequence` | src/com/todoapp/TaskManager.java:107-129 | each view keeps its tasks in list order |
| `TaskManagement.FilterPartition` | src/com/todoapp/TaskManager.java:107-129 | the completed and pending views together hold every listed task exactly as often as the list does, so they partition it |
| `TaskManagement.FilterCounts` | src/com/todoapp/TaskManager.java:135-153 | completed count plus pending count equals total count |

What `AddTask` promises:
- A null or blank description gives `IllegalArgument("Task description cannot be empty")` and changes nothing.
- Otherwise exactly one fresh task is appended, and no other task changes.
- That task holds the trimmed description and is incomplete.
- Its id is the counter's old value. That id is above every listed id and above every id issued before.
- The counter grows by 1.

What `RemoveFirstPresent` promises:
- The length drops by exactly 1.
- The id is no longer listed.
- The remaining tasks keep their order.
- The ids still strictly increase.
- Every task with another id is still listed.

## Left out

- `Task.toString` (`Task.java:54-57`): display formatting only. Its status marker is also a mis-encoded glyph.
- `TodoApp.java` as a whole is not part of this model. It holds the console menu, the parsing of numbers the user types, the yes/no prompts before delete and clear, and the completion-rate percentage and progress bar, which use floating point.
- `TodoAppDemo.java` is not part of this model. It only prints a demo run. `ViewsRun` replays the shape of that run with two tasks.
- Java `int` overflow of the id counter. Ids and the counter are unbounded `nat`s. In the Java class, ids would wrap around after 2^31 creations and could then repeat.
- The process-wide static counter. Each collection owns its own `IdCounter`. Two collections in one process would share an id space in Java, and here they do not.
- `null` strings other than the `addTask` argument. `addTask`'s argument is an `Option<string>`. The `Task` constructor and `setDescription` take a plain `string`, so passing them `null` is not modelled.
- Exceptions are values. `addTask`'s `IllegalArgumentException` is the `Failure` case of its `Result`.
- Copying of returned lists. `getAllTasks` and the two filters build new `ArrayList`s. Here the returned `seq`s are values, so the list copy needs no modelling. The task objects in them are shared with the collection, as in Java.
- `Tasks.Task.GetId`, `GetDescription`, `IsCompleted` and `HashCode` are plain field reads (`Task.java:24-34`, `Task.java:77-79`). They carry no contract of their own. What `hashCode` promises is stated by `Tasks.HashCodeAgreesWithEquals`.
- `Task.equals` uses `getClass()`. Only `Task` exists here and nothing subclasses it, so the test is `is Task`.
