/**
 * One to-do item (class `Tarea`): a description and a completion flag. It is
 * a mutable object, and the list holds references to it, so toggling a task
 * taken out of the list changes the task the list holds.
 */
module Tasks {

  /** The value of a task: what the task file stores and what a load produces. */
  datatype TaskRecord = TaskRecord(description: string, completed: bool)

  class Task {
    var description: string
    var completed: bool

    /** `new Tarea(descripcion)`: a task with that description, not yet completed. */
    constructor (description: string)
      ensures this.description == description && !completed
      ensures View() == TaskRecord(description, false)
    {
      this.description := description;
      completed := false;
    }

    /** The task's current value. */
    function View(): TaskRecord
      reads this
    {
      TaskRecord(description, completed)
    }

    /** `getDescripcion`: the current description, leaving the task as it is. */
    method GetDescription() returns (d: string)
      ensures d == description
    {
      d := description;
    }

    /** `isCompletada`: the current completion flag, leaving the task as it is. */
    method IsCompleted() returns (b: bool)
      ensures b == completed
    {
      b := completed;
    }

    /** `toggleCompletada`: negates the flag and keeps the description. */
    method Toggle()
      modifies this
      ensures completed == !old(completed)
      ensures description == old(description)
      ensures View() == old(View()).(completed := !old(completed))
    {
      completed := !completed;
    }

    /** `toString`: the list shows a task by its description alone. */
    method ToString() returns (s: string)
      ensures s == description
    {
      s := description;
    }
  }

  /** Toggling a task twice gives back the task as it was, on the same object. */
  method ToggleTwice(t: Task)
    modifies t
    ensures t.View() == old(t.View())
  {
    t.Toggle();
    t.Toggle();
  }
}
