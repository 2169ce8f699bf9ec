/** The to-do list object: the task list and its two history stacks,
    updated in place. Each mutating method is proved to leave exactly the
    state that the matching function of `TaskListModel` computes, which
    keeps main.cpp's history behaviour: snapshots are taken after a
    mutation, `Undo` never changes the list, and `Redo` with a non-empty
    redo stack ends at a read of an empty stack. */
module ToDo {
  import opened Tasks
  import opened TaskListModel

  /** What `markTaskCompleted` and `deleteTask` report; `TaskNotFound`
      stands for the thrown `invalid_argument("Task not found")`. */
  datatype Status = Ok | TaskNotFound

  /** What `redo` comes to. `TopOfEmptyRedoStack`: the source reads the top
      of a redo stack that `saveState` has just emptied, whose behaviour
      C++ leaves undefined; the model stops there. */
  datatype RedoOutcome = NothingToRedo | TopOfEmptyRedoStack

  class ToDoList {
    var tasks: seq<Task>
    var undoStack: seq<Snapshot>
    var redoStack: seq<Snapshot>
    /** The program-wide identifier counter, which `MarkTaskCompleted`
        draws from through a new `Builder`. */
    const ids: TaskIdCounter

    function Model(): State
      reads this
    {
      State(tasks, undoStack, redoStack)
    }

    constructor (ids: TaskIdCounter)
      ensures tasks == [] && undoStack == [] && redoStack == []
      ensures this.ids == ids
    {
      tasks := [];
      undoStack := [];
      redoStack := [];
      this.ids := ids;
    }

    method AddTask(t: Task)
      modifies this
      ensures Model() == TaskListModel.AddTask(old(Model()), t)
      ensures tasks == old(tasks) + [t]
      ensures undoStack == old(undoStack) + [tasks] && redoStack == []
    {
      tasks := tasks + [t];
      var _ := SaveState();
    }

    /** On success the first task with identifier `id` is replaced, at the
        same position, by a completed copy that carries a NEW identifier,
        one more than the counter held before. On failure nothing changes,
        the counter included. */
    method MarkTaskCompleted(id: int) returns (st: Status)
      modifies this, ids
      ensures st == Ok <==> HasTask(old(tasks), id)
      ensures st == Ok ==>
        && ids.nextTaskId == old(ids.nextTaskId) + 1
        && Model() == TaskListModel.MarkTaskCompleted(old(Model()), IndexOf(old(tasks), id), ids.nextTaskId)
      ensures st == TaskNotFound ==> Model() == old(Model()) && ids.nextTaskId == old(ids.nextTaskId)
    {
      var i := FindTask(id);
      if i < |tasks| {
        var builder := new Builder(ids, tasks[i].description);
        builder.SetDueDate(tasks[i].dueDate);
        builder.MarkCompleted();
        var t := builder.Build();
        tasks := tasks[i := t];
        var _ := SaveState();
        st := Ok;
      } else {
        st := TaskNotFound;
      }
    }

    /** On success the first task with identifier `id` is erased; on
        failure nothing changes. */
    method DeleteTask(id: int) returns (st: Status)
      modifies this
      ensures st == Ok <==> HasTask(old(tasks), id)
      ensures st == Ok ==> Model() == TaskListModel.DeleteTask(old(Model()), IndexOf(old(tasks), id))
      ensures st == TaskNotFound ==> Model() == old(Model())
    {
      var i := FindTask(id);
      if i < |tasks| {
        tasks := tasks[..i] + tasks[i + 1..];
        var _ := SaveState();
        st := Ok;
      } else {
        st := TaskNotFound;
      }
    }

    /** `applied` is false ("Nothing to undo.") exactly when the undo stack
        is empty. Either way the list and the undo stack end as they were. */
    method Undo() returns (applied: bool)
      modifies this
      ensures applied <==> old(undoStack) != []
      ensures Model() == TaskListModel.Undo(old(Model()))
      ensures tasks == old(tasks) && undoStack == old(undoStack)
      ensures applied ==> redoStack == [tasks]
      ensures !applied ==> redoStack == old(redoStack)
    {
      applied := undoStack != [];
      if applied {
        var saved := SaveState();
        redoStack := redoStack + [saved];
        tasks := undoStack[|undoStack| - 1];
        undoStack := undoStack[..|undoStack| - 1];
        assert old(undoStack) + [old(tasks)] == undoStack + [tasks];
      }
    }

    /** With an empty redo stack nothing changes ("Nothing to redo.").
        Otherwise the state is the one in which the source reads the top of
        the then empty redo stack. */
    method Redo() returns (r: RedoOutcome)
      modifies this
      ensures r == NothingToRedo <==> old(redoStack) == []
      ensures r == NothingToRedo ==> Model() == old(Model())
      ensures r == TopOfEmptyRedoStack ==> Model() == RedoUpToTop(old(Model())) && redoStack == []
    {
      if redoStack == [] {
        r := NothingToRedo;
      } else {
        var saved := SaveState();
        undoStack := undoStack + [saved];
        assert redoStack == [];
        r := TopOfEmptyRedoStack;
      }
    }

    /** `findTask`: the position of the first task with identifier `id`, or
        `|tasks|` when there is none. */
    method FindTask(id: int) returns (i: nat)
      ensures i == IndexOf(tasks, id)
      ensures i <= |tasks|
      ensures forall j :: 0 <= j < i ==> tasks[j].taskId != id
      ensures i < |tasks| ==> tasks[i].taskId == id
    {
      i := 0;
      while i < |tasks| && tasks[i].taskId != id
        invariant i <= |tasks|
        invariant forall j :: 0 <= j < i ==> tasks[j].taskId != id
      {
        i := i + 1;
      }
    }

    /** `getFilteredTasks`: the completed tasks for "Show completed", the
        pending ones for "Show pending", the whole list for anything else.
        Nothing changes. */
    method GetFilteredTasks(filter: string) returns (r: seq<Task>)
      ensures filter == ShowCompleted ==> r == Filter(tasks, true)
      ensures filter == ShowPending ==> r == Filter(tasks, false)
      ensures filter != ShowCompleted && filter != ShowPending ==> r == tasks
      ensures forall t :: t in r ==> t in tasks
    {
      if filter == ShowCompleted {
        r := GetCompletedTasks();
        forall t | t in r ensures t in tasks { FilterMembership(tasks, true, t); }
      } else if filter == ShowPending {
        r := GetPendingTasks();
        forall t | t in r ensures t in tasks { FilterMembership(tasks, false, t); }
      } else {
        r := tasks;
      }
    }

    /** `getCompletedTasks`: exactly the completed tasks, in list order. */
    method GetCompletedTasks() returns (r: seq<Task>)
      ensures r == Filter(tasks, true)
      ensures forall t :: t in r <==> t in tasks && t.completed
    {
      r := [];
      var k := 0;
      while k < |tasks|
        invariant k <= |tasks|
        invariant r == Filter(tasks[..k], true)
      {
        if tasks[k].completed {
          r := r + [tasks[k]];
        }
        FilterAppend(tasks[..k], [tasks[k]], true);
        assert tasks[..k + 1] == tasks[..k] + [tasks[k]];
        k := k + 1;
      }
      assert tasks[..k] == tasks;
      forall t ensures t in r <==> t in tasks && t.completed {
        FilterMembership(tasks, true, t);
      }
    }

    /** `getPendingTasks`: exactly the tasks not completed, in list order. */
    method GetPendingTasks() returns (r: seq<Task>)
      ensures r == Filter(tasks, false)
      ensures forall t :: t in r <==> t in tasks && !t.completed
    {
      r := [];
      var k := 0;
      while k < |tasks|
        invariant k <= |tasks|
        invariant r == Filter(tasks[..k], false)
      {
        if !tasks[k].completed {
          r := r + [tasks[k]];
        }
        FilterAppend(tasks[..k], [tasks[k]], false);
        assert tasks[..k + 1] == tasks[..k] + [tasks[k]];
        k := k + 1;
      }
      assert tasks[..k] == tasks;
      forall t ensures t in r <==> t in tasks && !t.completed {
        FilterMembership(tasks, false, t);
      }
    }

    /** `saveState`: pushes a copy of the current list on the undo stack,
        empties the redo stack and returns another copy of the list. */
    method SaveState() returns (m: Snapshot)
      modifies this
      ensures Model() == TaskListModel.SaveState(old(Model()))
      ensures m == tasks
    {
      undoStack := undoStack + [tasks];
      redoStack := [];
      m := tasks;
    }
  }
}
