/** Tasks of the to-do list and the builder that issues them.

    A `Task` is an immutable value. Only a `Builder` creates one, and every
    `Builder` draws a new identifier from one counter shared by the whole
    program (`TaskIdCounter`, the static `nextTaskId`). */
module Tasks {

  /** An immutable task record. The accessors of the original class are the
      datatype's destructors. An empty `dueDate` means no due date. */
  datatype Task = Task(taskId: int, description: string, completed: bool, dueDate: string)

  /** The program-wide identifier counter. It holds the last identifier
      handed out and starts at 0. In the source it is private to the builder;
      here too the `Builder` constructor is the only member that modifies it,
      and it only increments it. */
  class TaskIdCounter {
    var nextTaskId: nat

    constructor ()
      ensures nextTaskId == 0
    {
      nextTaskId := 0;
    }
  }

  /** Staged construction of a task: fix the description and take a fresh
      identifier, optionally set a due date or mark it completed, then build. */
  class Builder {
    const taskId: int
    var description: string
    var completed: bool
    var dueDate: string

    /** Increments the shared counter and takes its new value as the
        identifier, so identifiers start at 1 and each one is larger than
        every identifier issued before it. */
    constructor (counter: TaskIdCounter, description: string)
      modifies counter
      ensures counter.nextTaskId == old(counter.nextTaskId) + 1
      ensures taskId == counter.nextTaskId && taskId >= 1
      ensures this.description == description && !completed && dueDate == ""
    {
      counter.nextTaskId := counter.nextTaskId + 1;
      taskId := counter.nextTaskId;
      this.description := description;
      completed := false;
      dueDate := "";
    }

    method SetDueDate(dueDate: string)
      modifies this
      ensures this.dueDate == dueDate
      ensures description == old(description) && completed == old(completed)
    {
      this.dueDate := dueDate;
    }

    method MarkCompleted()
      modifies this
      ensures completed
      ensures description == old(description) && dueDate == old(dueDate)
    {
      completed := true;
    }

    /** The task carries exactly the builder's staged fields; building does
        not touch the counter or the builder. */
    method Build() returns (t: Task)
      ensures t.taskId == taskId && t.description == description
      ensures t.completed == completed && t.dueDate == dueDate
    {
      t := Task(taskId, description, completed, dueDate);
    }
  }
}
