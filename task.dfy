/**
 * A single to-do item (src/com/todoapp/Task.java): an id fixed at creation,
 * a description and a completion flag that are updated in place.
 */
module Tasks {

  /**
   * The counter that hands out task ids. In the Java class it is the static
   * field `idCounter`, starting at 1; here it is an object of its own that
   * whoever creates tasks owns and passes to the constructor.
   */
  class IdCounter {
    var next: nat

    constructor ()
      ensures next == 1
    {
      next := 1;
    }
  }

  /** The observable fields of a task at one moment. */
  datatype TaskState = TaskState(id: nat, description: string, completed: bool)

  class Task {
    const id: nat
    var description: string
    var completed: bool

    /**
     * `new Task(description)`: takes the counter's current value as id and
     * increments the counter; the description is stored exactly as given,
     * without trimming or validation, and the task starts incomplete.
     */
    constructor (description: string, counter: IdCounter)
      modifies counter
      ensures id == old(counter.next)
      ensures counter.next == old(counter.next) + 1
      ensures this.description == description
      ensures !completed
    {
      id := counter.next;
      this.description := description;
      completed := false;
      counter.next := counter.next + 1;
    }

    function GetId(): nat {
      id
    }

    function GetDescription(): string
      reads this
    {
      description
    }

    function IsCompleted(): bool
      reads this
    {
      completed
    }

    /** The task's fields as a value. */
    function State(): TaskState
      reads this
    {
      TaskState(id, description, completed)
    }

    /** Replaces the description, with no validation; id and status stay. */
    method SetDescription(description: string)
      modifies this
      ensures this.description == description
      ensures completed == old(completed)
    {
      this.description := description;
    }

    /**
     * Sets the flag. The new state does not depend on the old flag, so a
     * second call leaves the state as the first one did.
     */
    method MarkAsCompleted()
      modifies this
      ensures completed
      ensures description == old(description)
    {
      completed := true;
    }

    method MarkAsIncomplete()
      modifies this
      ensures !completed
      ensures description == old(description)
    {
      completed := false;
    }

    /**
     * `equals(Object)`: true exactly for another task with the same id,
     * whatever the descriptions and flags are; false for null and for
     * objects of other classes.
     */
    function Equals(obj: object?): (r: bool)
      ensures r <==> obj is Task && (obj as Task).id == id
    {
      if this == obj then true
      else if obj == null || !(obj is Task) then false
      else (obj as Task).id == id
    }

    /** `hashCode()`: `Integer.hashCode(id)`, which is the id itself. */
    function HashCode(): int {
      id
    }
  }

  /** `equals` is an equivalence relation on tasks. */
  lemma EqualsIsEquivalence(a: Task, b: Task, c: Task)
    ensures a.Equals(a)
    ensures a.Equals(b) <==> b.Equals(a)
    ensures a.Equals(b) && b.Equals(c) ==> a.Equals(c)
  {
  }

  /** Equal tasks have equal hash codes, and so do tasks with the same id. */
  lemma HashCodeAgreesWithEquals(a: Task, b: Task)
    ensures a.Equals(b) <==> a.HashCode() == b.HashCode()
  {
  }
}
