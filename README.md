# To-do list manager: a Dafny model

This project models the core of a small C++ program, a personal to-do list manager, in `main.cpp`. It covers three parts:

- **Tasks.** A `Task` is an immutable record: identifier, description, completion flag and due date. Only a `Task::Builder` creates one. Every builder draws the next identifier from a program-wide counter, the static `nextTaskId`.
- **The list.** A `ToDoList` object holds the ordered tasks, an undo stack and a redo stack. Each stack entry is a snapshot, a full copy of the task list. The object adds tasks, marks them completed, deletes them, lists them through a filter, and runs undo and redo.
- **The history.** Each mutation calls `saveState`. It pushes a copy of the list onto the undo stack and empties the redo stack.

The model follows the code as written. The program itself suggests a different intent in three places:

- It keeps `Memento` snapshots (main.cpp:70-81) so that the list can be restored from them.
- It reports "Undo performed." and "Redo performed." (main.cpp:269, 273).
- It shows each task's id when the task is added (main.cpp:228), so users refer to tasks by id.

The code behaves differently in four ways; the first is the cause behind the second:

- `saveState` runs after the mutation, so the snapshot it pushes is the list after the change.
- `undo` calls `saveState` and then pops the snapshot that call just pushed, so the list never changes. The only effect is a redo stack holding one copy of the current list.
- `redo` calls `saveState`, which empties the redo stack, before it reads the top of that stack. With a non-empty redo stack, `redo` therefore reads the top of an empty `std::stack`, which C++ leaves undefined. The model ends this branch with an explicit outcome, `TopOfEmptyRedoStack`, in the state reached at that read.
- `markTaskCompleted` rebuilds the task through a new `Builder`, so the completed task gets a new identifier.

Files:

- `tasks.dfy`, module `Tasks`: the `Task` datatype, the `TaskIdCounter` class (the static counter) and the `Builder` class.
- `task_list_model.dfy`, module `TaskListModel`: the list and its stacks as a value (`State`), one function per operation, and lemmas about the operations alone and in sequence. It also defines the first-match lookup `IndexOf` and the completion filter `Filter`.
- `todo_list.dfy`, module `ToDo`: the `ToDoList` class. Its fields are updated in place. Each mutating method is proved to produce the state that the matching `TaskListModel` function computes. `FindTask`, `GetCompletedTasks` and `GetPendingTasks` are loops proved against `IndexOf` and `Filter`. `GetFilteredTasks` is a three-way dispatch on the filter string, with no loop.
- `intended_history.dfy`, module `IntendedHistory`: the corrected history and edit behaviour, with its round-trip properties proved. See "Findings".

Snapshots are `seq<Task>` and stacks are sequences with their top at the end. The thrown `invalid_argument("Task not found")` becomes the status `TaskNotFound`. The "Nothing to undo/redo" messages become a result (`applied == false`, `NothingToRedo`) together with an unchanged state.

## Model

| member | source | states |
|---|---|---|
| Tasks.TaskIdCounter.constructor | main.cpp:68 | the identifier counter starts at 0 |
| Tasks.Builder.constructor | main.cpp:43-44 | each builder increments the shared counter and takes its new value as identifier, so ids start at 1 and strictly increase; description as given, not completed, empty due date |
| Tasks.Builder.SetDueDate | main.cpp:46-49 | sets the due date and nothing else |
| Tasks.Builder.MarkCompleted | main.cpp:51-54 | sets the completion flag and nothing else |
| Tasks.Builder.Build | main.cpp:56-58 | the built task carries exactly the builder's identifier, description, flag and due date |
| TaskListModel.IndexOf | main.cpp:148-151 | the position of the first task with the id, or the list length when none has it; no earlier task has the id |
| TaskListModel.HasTask | main.cpp:91-92 | the lookup found a task: the first-match position is before the end of the list (the test against `tasks.end()` at lines 92 and 104) |
| TaskListModel.HasTaskIff | main.cpp:148-151 | the lookup succeeds exactly when some task carries the id |
| TaskListModel.Filter | main.cpp:163-181 | the tasks whose completion flag equals the requested one, in list order; never longer than the list |
| TaskListModel.FilterMembership | main.cpp:163-181 | a task is in the completed (pending) filter exactly when it is in the list and completed (not completed) |
| TaskListModel.FilterAppend | main.cpp:163-181 | filtering distributes over concatenation, so the kept tasks keep list order |
| TaskListModel.FilterPartition | main.cpp:163-181 | the completed and pending filters together hold every task exactly once (lengths add up, multisets add up) |
| TaskListModel.SaveState | main.cpp:183-187 | the list is kept, a copy of it is pushed on the undo stack, and the redo stack becomes empty |
| TaskListModel.AddTask | main.cpp:85-88 | the task is appended to the list, then `SaveState` applies to the new list |
| TaskListModel.MarkTaskCompleted | main.cpp:90-96 | the task at the found position is replaced by a completed task with the same description and due date and the newly drawn id, then `SaveState` applies to the new list |
| TaskListModel.DeleteTask | main.cpp:102-106 | the task at the found position is erased, then `SaveState` applies to the new list |
| TaskListModel.Undo | main.cpp:123-131 | empty undo stack: unchanged; otherwise saveState's push, its copy pushed on the redo stack, then the list restored from the undo top and that top popped |
| TaskListModel.RedoUpToTop | main.cpp:133-136 | the state at redo's read of the redo top: saveState's push and clear, then its returned copy pushed on the undo stack |
| TaskListModel.AddTaskEffect | main.cpp:85-88 | append at the end with earlier tasks unchanged; the pushed snapshot is the list after the append; redo stack emptied |
| TaskListModel.MarkTaskCompletedEffect | main.cpp:90-96 | the task at the found position is replaced in place by a completed task with the same description and due date and the new id; other positions and the length unchanged; snapshot of the new list pushed; redo emptied |
| TaskListModel.DeleteTaskEffect | main.cpp:102-106 | one task fewer; the others keep their order; the multiset loses exactly the deleted task; snapshot of the new list pushed; redo emptied |
| TaskListModel.UndoEffect | main.cpp:123-131 | with an empty undo stack nothing changes; otherwise the list and undo stack are unchanged and the redo stack is exactly one copy of the list |
| TaskListModel.RedoReadsEmptyStack | main.cpp:133-136 | at the read of the redo top, the redo stack is empty and the undo stack has gained two copies of the list |
| TaskListModel.UndoAfterAddKeepsTask | main.cpp:123-131 | an undo right after an add leaves the added task in the list |
| TaskListModel.AddUndoRedoReadsEmptyStack | main.cpp:133-141 | after add then undo the redo stack is non-empty, so redo takes the branch that reads the top of the emptied stack |
| TaskListModel.MutationAfterUndoClearsRedo | main.cpp:123-131 | an undo with a non-empty undo stack fills the redo stack; any add, mark or delete after it empties the redo stack again, so the next redo finds nothing to do |
| TaskListModel.MarkedTaskIsListedCompleted | main.cpp:90-96 | a task just marked completed is in the completed filter and not in the pending one |
| TaskListModel.MarkedTaskLosesItsId | main.cpp:93-95 | with unique ids and a fresh new id, after marking, the old id is no longer found and the new id is found at the same position |
| TaskListModel.DeleteThenNotFound | main.cpp:102-109 | with unique ids, after deleting an id a second lookup of that id fails |
| TaskListModel.AddKeepsIdsFresh | main.cpp:85-88 | adding a task whose id is above every listed id keeps ids unique, and the new id bounds the new list |
| TaskListModel.MarkKeepsIdsFresh | main.cpp:90-96 | marking with a fresh id keeps ids unique, and the fresh id bounds the new list |
| TaskListModel.DeleteKeepsIdsFresh | main.cpp:102-106 | deleting keeps ids unique and under the same bound |
| TaskListModel.Step | main.cpp:216-270 | one menu action: add builds a task with the next id and adds it; mark and delete act on the first match or change nothing when the id is absent; undo |
| TaskListModel.Run | main.cpp:212-282 | the state and counter after a sequence of menu actions, applied in order |
| TaskListModel.RunKeepsIdsUnique | main.cpp:216-270 | over any session of menu adds (a freshly built task each), marks, deletes and undos, listed ids stay unique and at most the counter (the last identifier issued), and the counter never decreases |
| ToDo.ToDoList.constructor | main.cpp:143-146 | a new list is empty with empty undo and redo stacks |
| ToDo.ToDoList.AddTask | main.cpp:85-88 | the new list is the old one plus the task; the undo stack gains the new list; redo is empty |
| ToDo.ToDoList.MarkTaskCompleted | main.cpp:90-99 | succeeds exactly when the id is present; on success the counter is incremented and the state is the model's mark at the first match with the new id; on failure list, stacks and counter are unchanged |
| ToDo.ToDoList.DeleteTask | main.cpp:102-109 | succeeds exactly when the id is present; on success the first match is erased and the state is saved; on failure nothing changes |
| ToDo.ToDoList.Undo | main.cpp:123-131 | applied exactly when the undo stack was non-empty; list and undo stack unchanged either way; if applied the redo stack is exactly one copy of the list |
| ToDo.ToDoList.Redo | main.cpp:133-141 | nothing to redo exactly when the redo stack was empty, and then nothing changes; otherwise it ends at the read of the empty redo stack's top, in the state reached there |
| ToDo.ToDoList.FindTask | main.cpp:148-151 | the first position holding the id, or the list length; agrees with `IndexOf` |
| ToDo.ToDoList.GetFilteredTasks | main.cpp:153-161 | "Show completed" gives the completed filter, "Show pending" the pending filter, any other string the whole list; only listed tasks are returned |
| ToDo.ToDoList.GetCompletedTasks | main.cpp:163-171 | exactly the completed tasks, in list order |
| ToDo.ToDoList.GetPendingTasks | main.cpp:173-181 | exactly the tasks not completed, in list order |
| ToDo.ToDoList.SaveState | main.cpp:183-187 | pushes a copy of the current list on the undo stack, empties the redo stack, returns a copy of the list |
| IntendedHistory.Commit | main.cpp:183-187 | corrected `saveState`: the list before the change is pushed on the undo stack, the list becomes the changed one, the redo stack is emptied |
| IntendedHistory.AddTask | main.cpp:85-88 | corrected add: append, recording the list from before the append |
| IntendedHistory.MarkTaskCompleted | main.cpp:90-96 | corrected mark: the task at the position becomes completed and keeps its id; the list from before is recorded |
| IntendedHistory.DeleteTask | main.cpp:102-106 | corrected delete: erase at the position, recording the list from before |
| IntendedHistory.Undo | main.cpp:123-131 | corrected undo: empty undo stack: unchanged; otherwise the current list goes on the redo stack and the undo top becomes the list |
| IntendedHistory.Redo | main.cpp:133-141 | corrected redo: empty redo stack: unchanged; otherwise the current list goes on the undo stack and the redo top becomes the list |
| IntendedHistory.UndoRevertsCommit | main.cpp:183-187 | corrected: with the snapshot taken before a mutation, an undo restores the list and undo stack and keeps the mutated list for redo |
| IntendedHistory.UndoAfterAddRemovesTask | main.cpp:85-88 | corrected: an undo right after an add restores the list from before the add |
| IntendedHistory.UndoAfterDeleteRestoresTask | main.cpp:102-106 | corrected: an undo right after a delete gives back the list with the deleted task at its place |
| IntendedHistory.UndoAfterMarkRestoresTask | main.cpp:90-96 | corrected: an undo right after marking gives back the list with the task as it was |
| IntendedHistory.RedoAfterUndo | main.cpp:133-141 | corrected: redo after undo returns to the state before the undo |
| IntendedHistory.UndoAfterRedo | main.cpp:123-131 | corrected: undo after redo returns to the state before the redo |
| IntendedHistory.MarkKeepsId | main.cpp:93-95 | corrected: marking keeps the id, so the task is still found under it, at the same position, completed, with the same description and due date |

## Findings

| source | as written | input that shows it | evidently intended | confidence | as-written member | corrected member |
|---|---|---|---|---|---|---|
| main.cpp:123-131 | `saveState` pushes the list after the mutation, and `undo` pops the copy it has just pushed, so undo never changes the list | empty list; `addTask(T)`; `undo()` leaves `[T]` | undo restores the list from before the last mutation | high (not executed) | TaskListModel.UndoAfterAddKeepsTask | IntendedHistory.UndoAfterAddRemovesTask |
| main.cpp:133-141 | `redo` calls `saveState`, which empties the redo stack, and then reads that stack's top | `addTask(T)`; `undo()`; `redo()` reads the top of an empty stack | redo restores the list that undo replaced | high (not executed) | TaskListModel.AddUndoRedoReadsEmptyStack | IntendedHistory.RedoAfterUndo |
| main.cpp:93-95 | the completed task is rebuilt by a new `Builder`, which draws a new id | task with id 1 while the counter is at 1; `markTaskCompleted(1)` gives it id 2; `deleteTask(1)` then fails | the task keeps its id when completed | high (not executed) | TaskListModel.MarkedTaskLosesItsId | IntendedHistory.MarkKeepsId |

`ToDo.ToDoList` keeps the behaviour as written. The corrected definitions live in `IntendedHistory` beside it.

## Left out

- `main` and `displayMenuAndGetChoice` (main.cpp:191-285): the console menu, prompts and input reading are left out. `Step` and `Run` model the dispatch of menu cases 1-3 and 5: building and adding a task, and marking, deleting and undoing, with a caught `invalid_argument` changing nothing. Viewing, quitting and invalid choices change no state. Redo (case 6) is not part of `Run`.
- `viewTasks` (main.cpp:112-121): console formatting only. The model covers the sequence it prints, `GetFilteredTasks`.
- Console messages ("Nothing to undo.", "Nothing to redo.", error output): modelled as a result value together with an unchanged state.
- Tasks.Builder.constructor: the counter is an unbounded `nat`. The C++ `int` counter would overflow after 2^31 - 1 tasks, which is undefined behaviour and is not modelled.
- ToDo.ToDoList.Redo: what happens after the undefined read of an empty stack's top is not modelled. The method stops there and reports `TopOfEmptyRedoStack`.
- The `Memento` class is represented by the `seq<Task>` it wraps. The fluent `return *this` chaining, `friend` access and `std::move` carry no behaviour and are not modelled.
- The Task getters (main.cpp:13-27) are the destructors of the `Task` datatype.
- Uniqueness of ids is not an invariant of `ToDo.ToDoList`. `addTask` (main.cpp:85) accepts any `Task` value, including a copy of one already in the list, so uniqueness is up to the caller in the source as well. The model proves it for sessions that add only freshly built tasks, as the menu does (`RunKeepsIdsUnique`).
- Redo is not a command of the `RunKeepsIdsUnique` session: with a non-empty redo stack it reaches the undefined read, and with an empty one it changes nothing.
