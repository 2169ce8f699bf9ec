/** The to-do list as a value: the task list with its undo and redo stacks,
    and one function per operation giving the state the operation leaves
    behind, exactly as main.cpp computes it. The class `ToDo.ToDoList` is
    proved to follow these functions; the lemmas here state what the
    operations do, alone and in sequence. */
module TaskListModel {
  import opened Tasks

  /** A history entry (the Memento): a full copy of the task list. */
  type Snapshot = seq<Task>

  /** Stacks are sequences with their top at the end. */
  datatype State = State(tasks: seq<Task>, undoStack: seq<Snapshot>, redoStack: seq<Snapshot>)

  /** The filter strings `getFilteredTasks` recognises; every other string shows all tasks. */
  const ShowCompleted: string := "Show completed"
  const ShowPending: string := "Show pending"

  // ---------------------------------------------------------------- lookup

  /** Position of the first task with identifier `id`, or `|s|` (the end
      iterator) when there is none: the linear scan of `findTask`. */
  function IndexOf(s: seq<Task>, id: int): (i: nat)
    ensures i <= |s|
    ensures forall j :: 0 <= j < i ==> s[j].taskId != id
    ensures i < |s| ==> s[i].taskId == id
  {
    if s == [] then 0
    else if s[0].taskId == id then 0
    else 1 + IndexOf(s[1..], id)
  }

  predicate HasTask(s: seq<Task>, id: int) {
    IndexOf(s, id) < |s|
  }

  /** The lookup succeeds exactly when some task carries the identifier. */
  lemma HasTaskIff(s: seq<Task>, id: int)
    ensures HasTask(s, id) <==> exists j :: 0 <= j < |s| && s[j].taskId == id
  {
    if !HasTask(s, id) {
      assert forall j :: 0 <= j < |s| ==> s[j].taskId != id;
    }
  }

  /** No two tasks of the list share an identifier. */
  predicate UniqueIds(s: seq<Task>) {
    forall i, j :: 0 <= i < j < |s| ==> s[i].taskId != s[j].taskId
  }

  /** Every identifier in the list is below `bound`, so `bound` is a fresh one. */
  predicate IdsBelow(s: seq<Task>, bound: int) {
    forall j :: 0 <= j < |s| ==> s[j].taskId < bound
  }

  // ------------------------------------------------------------- filtering

  /** The tasks of `s` whose completion flag is `wantCompleted`, in order. */
  function Filter(s: seq<Task>, wantCompleted: bool): (r: seq<Task>)
    ensures |r| <= |s|
  {
    if s == [] then []
    else (if s[0].completed == wantCompleted then [s[0]] else []) + Filter(s[1..], wantCompleted)
  }

  /** A task is in the filtered list exactly when it is in the list and has
      the requested completion flag. */
  lemma {:induction false} FilterMembership(s: seq<Task>, wantCompleted: bool, t: Task)
    ensures t in Filter(s, wantCompleted) <==> t in s && t.completed == wantCompleted
  {
    if s != [] {
      FilterMembership(s[1..], wantCompleted, t);
      assert s == [s[0]] + s[1..];
    }
  }

  /** Filtering commutes with concatenation: the relative order of the kept
      tasks is the order of the list. */
  lemma {:induction false} FilterAppend(a: seq<Task>, b: seq<Task>, wantCompleted: bool)
    ensures Filter(a + b, wantCompleted) == Filter(a, wantCompleted) + Filter(b, wantCompleted)
  {
    if a == [] {
      assert a + b == b;
    } else {
      assert (a + b)[1..] == a[1..] + b;
      FilterAppend(a[1..], b, wantCompleted);
    }
  }

  /** The completed and the pending tasks together are the whole list: each
      task lands in exactly one of the two filters. */
  lemma {:induction false} FilterPartition(s: seq<Task>)
    ensures |Filter(s, true)| + |Filter(s, false)| == |s|
    ensures multiset(Filter(s, true)) + multiset(Filter(s, false)) == multiset(s)
  {
    if s != [] {
      FilterPartition(s[1..]);
      assert s == [s[0]] + s[1..];
    }
  }

  // ------------------------------------------------------------ operations

  /** `saveState`: pushes a copy of the CURRENT list onto the undo stack and
      empties the redo stack. */
  function SaveState(s: State): State {
    State(s.tasks, s.undoStack + [s.tasks], [])
  }

  /** `addTask`: append, then `saveState`. */
  function AddTask(s: State, t: Task): State {
    SaveState(s.(tasks := s.tasks + [t]))
  }

  /** `markTaskCompleted` after `findTask` found position `i`: the task is
      rebuilt by a fresh `Builder`, so it gets the identifier `newId` drawn
      from the counter; then `saveState`. */
  function MarkTaskCompleted(s: State, i: nat, newId: int): State
    requires i < |s.tasks|
  {
    var t := s.tasks[i];
    SaveState(s.(tasks := s.tasks[i := Task(newId, t.description, true, t.dueDate)]))
  }

  /** `deleteTask` after `findTask` found position `i`: erase, then `saveState`. */
  function DeleteTask(s: State, i: nat): State
    requires i < |s.tasks|
  {
    SaveState(s.(tasks := s.tasks[..i] + s.tasks[i + 1..]))
  }

  /** `undo`: with an empty undo stack nothing happens. Otherwise
      `saveState` pushes the current list, its copy is pushed on the redo
      stack, and the list is restored from the undo top, which is the copy
      just pushed, and popped. */
  function Undo(s: State): State {
    if s.undoStack == [] then s
    else
      var saved := SaveState(s);
      var redo := saved.redoStack + [saved.tasks];
      var n := |saved.undoStack|;
      State(saved.undoStack[n - 1], saved.undoStack[..n - 1], redo)
  }

  /** The state in which `redo` with a non-empty redo stack reads the top of
      the redo stack: `saveState` has pushed the current list and emptied the
      redo stack, and the copy it returned has been pushed on the undo stack
      as well. */
  function RedoUpToTop(s: State): State {
    var saved := SaveState(s);
    State(saved.tasks, saved.undoStack + [saved.tasks], saved.redoStack)
  }

  // ------------------------------------------------- each operation alone

  /** `addTask` appends and keeps the earlier tasks; the snapshot it pushes
      is the list AFTER the append; the redo stack is emptied. */
  lemma AddTaskEffect(s: State, t: Task)
    ensures |AddTask(s, t).tasks| == |s.tasks| + 1
    ensures AddTask(s, t).tasks[..|s.tasks|] == s.tasks && AddTask(s, t).tasks[|s.tasks|] == t
    ensures AddTask(s, t).undoStack == s.undoStack + [s.tasks + [t]]
    ensures AddTask(s, t).redoStack == []
  {
    assert (s.tasks + [t])[..|s.tasks|] == s.tasks;
  }

  /** `markTaskCompleted` replaces the task at `i` in place by a completed
      task with the same description and due date and the new identifier;
      no other position changes; the pushed snapshot is the new list. */
  lemma MarkTaskCompletedEffect(s: State, i: nat, newId: int)
    requires i < |s.tasks|
    ensures var r := MarkTaskCompleted(s, i, newId);
      && |r.tasks| == |s.tasks|
      && r.tasks[i].taskId == newId && r.tasks[i].completed
      && r.tasks[i].description == s.tasks[i].description
      && r.tasks[i].dueDate == s.tasks[i].dueDate
      && (forall j :: 0 <= j < |s.tasks| && j != i ==> r.tasks[j] == s.tasks[j])
      && r.undoStack == s.undoStack + [r.tasks]
      && r.redoStack == []
  {
  }

  /** `deleteTask` removes exactly the task at `i`: one task fewer, the
      others in their original order, the same tasks apart from that one. */
  lemma DeleteTaskEffect(s: State, i: nat)
    requires i < |s.tasks|
    ensures var r := DeleteTask(s, i);
      && |r.tasks| == |s.tasks| - 1
      && (forall j :: 0 <= j < i ==> r.tasks[j] == s.tasks[j])
      && (forall j :: i <= j < |r.tasks| ==> r.tasks[j] == s.tasks[j + 1])
      && multiset(r.tasks) + multiset{s.tasks[i]} == multiset(s.tasks)
      && r.undoStack == s.undoStack + [r.tasks]
      && r.redoStack == []
  {
    assert s.tasks == s.tasks[..i] + [s.tasks[i]] + s.tasks[i + 1..];
  }

  /** `undo` never changes the task list or the undo stack; when the undo
      stack is non-empty it leaves exactly one snapshot, the current list, on
      the redo stack. */
  lemma UndoEffect(s: State)
    ensures s.undoStack == [] ==> Undo(s) == s
    ensures s.undoStack != [] ==>
      Undo(s).tasks == s.tasks && Undo(s).undoStack == s.undoStack && Undo(s).redoStack == [s.tasks]
  {
    if s.undoStack != [] {
      assert (s.undoStack + [s.tasks])[..|s.undoStack|] == s.undoStack;
    }
  }

  /** When `redo` reaches its read of the redo stack's top, that stack is
      empty and the undo stack has grown by two copies of the current list. */
  lemma RedoReadsEmptyStack(s: State)
    ensures RedoUpToTop(s).redoStack == []
    ensures RedoUpToTop(s).tasks == s.tasks
    ensures RedoUpToTop(s).undoStack == s.undoStack + [s.tasks, s.tasks]
  {
  }

  // ------------------------------------------------- operations in sequence

  /** An undo right after an add does not remove the added task. */
  lemma UndoAfterAddKeepsTask(s: State, t: Task)
    ensures Undo(AddTask(s, t)).tasks == s.tasks + [t]
    ensures Undo(AddTask(s, t)).tasks != s.tasks
  {
    UndoEffect(AddTask(s, t));
    assert |Undo(AddTask(s, t)).tasks| == |s.tasks| + 1;
  }

  /** add, undo, redo: the undo fills the redo stack, so the redo takes its
      non-empty branch, and there the stack it reads is already empty. */
  lemma AddUndoRedoReadsEmptyStack(s: State, t: Task)
    ensures Undo(AddTask(s, t)).redoStack != []
    ensures RedoUpToTop(Undo(AddTask(s, t))).redoStack == []
  {
    UndoEffect(AddTask(s, t));
  }

  /** After an undo has filled the redo stack, any successful add, mark or
      delete empties it again, so a redo right after finds nothing to redo. */
  lemma MutationAfterUndoClearsRedo(h: State, t: Task, i: nat, newId: int)
    ensures h.undoStack != [] ==> Undo(h).redoStack != []
    ensures AddTask(Undo(h), t).redoStack == []
    ensures i < |Undo(h).tasks| ==> MarkTaskCompleted(Undo(h), i, newId).redoStack == []
    ensures i < |Undo(h).tasks| ==> DeleteTask(Undo(h), i).redoStack == []
  {
    UndoEffect(h);
  }

  /** A task marked completed shows under the completed filter and not
      under the pending one. */
  lemma MarkedTaskIsListedCompleted(s: State, i: nat, newId: int)
    requires i < |s.tasks|
    ensures var r := MarkTaskCompleted(s, i, newId);
      r.tasks[i] in Filter(r.tasks, true) && r.tasks[i] !in Filter(r.tasks, false)
  {
    var r := MarkTaskCompleted(s, i, newId);
    FilterMembership(r.tasks, true, r.tasks[i]);
    FilterMembership(r.tasks, false, r.tasks[i]);
  }

  /** With unique identifiers and a fresh `newId`, marking the task with
      identifier `id` completed moves it to `newId`: a later lookup of `id`
      fails, and `newId` is found where the task was. */
  lemma {:induction false} MarkedTaskLosesItsId(s: State, id: int, newId: int)
    requires UniqueIds(s.tasks) && IdsBelow(s.tasks, newId)
    requires HasTask(s.tasks, id)
    ensures var r := MarkTaskCompleted(s, IndexOf(s.tasks, id), newId);
      !HasTask(r.tasks, id) && IndexOf(r.tasks, newId) == IndexOf(s.tasks, id)
  {
    var i := IndexOf(s.tasks, id);
    var r := MarkTaskCompleted(s, i, newId);
    assert r.tasks[i].taskId == newId;
    assert forall j :: 0 <= j < |r.tasks| ==> r.tasks[j].taskId != id by {
      forall j | 0 <= j < |r.tasks|
        ensures r.tasks[j].taskId != id
      {
        if j != i {
          assert r.tasks[j] == s.tasks[j];
          if j < i {
            assert s.tasks[j].taskId != s.tasks[i].taskId;
          } else {
            assert s.tasks[i].taskId != s.tasks[j].taskId;
          }
        }
      }
    }
    HasTaskIff(r.tasks, id);
    assert forall j :: 0 <= j < i ==> r.tasks[j].taskId != newId by {
      forall j | 0 <= j < i
        ensures r.tasks[j].taskId != newId
      {
        assert r.tasks[j] == s.tasks[j];
      }
    }
  }

  /** With unique identifiers, deleting the task with identifier `id`
      removes the only one: a second delete of `id` finds nothing. */
  lemma DeleteThenNotFound(s: State, id: int)
    requires UniqueIds(s.tasks)
    requires HasTask(s.tasks, id)
    ensures !HasTask(DeleteTask(s, IndexOf(s.tasks, id)).tasks, id)
  {
    var i := IndexOf(s.tasks, id);
    var r := DeleteTask(s, i);
    DeleteTaskEffect(s, i);
    forall j | 0 <= j < |r.tasks|
      ensures r.tasks[j].taskId != id
    {
      if j >= i {
        assert r.tasks[j] == s.tasks[j + 1];
      }
    }
    HasTaskIff(r.tasks, id);
  }

  /** Adding a task whose identifier is above every listed one keeps the
      identifiers unique, and the new identifier bounds the new list. */
  lemma AddKeepsIdsFresh(s: State, t: Task)
    requires UniqueIds(s.tasks) && IdsBelow(s.tasks, t.taskId)
    ensures UniqueIds(AddTask(s, t).tasks)
    ensures IdsBelow(AddTask(s, t).tasks, t.taskId + 1)
  {
  }

  /** Marking with a fresh identifier keeps the identifiers unique, and the
      fresh identifier bounds the new list. */
  lemma MarkKeepsIdsFresh(s: State, i: nat, newId: int)
    requires UniqueIds(s.tasks) && IdsBelow(s.tasks, newId)
    requires i < |s.tasks|
    ensures UniqueIds(MarkTaskCompleted(s, i, newId).tasks)
    ensures IdsBelow(MarkTaskCompleted(s, i, newId).tasks, newId + 1)
  {
  }

  /** Deleting keeps the identifiers unique and under the same bound. */
  lemma DeleteKeepsIdsFresh(s: State, i: nat, bound: int)
    requires UniqueIds(s.tasks) && IdsBelow(s.tasks, bound)
    requires i < |s.tasks|
    ensures UniqueIds(DeleteTask(s, i).tasks)
    ensures IdsBelow(DeleteTask(s, i).tasks, bound)
  {
    DeleteTaskEffect(s, i);
    var d := DeleteTask(s, i).tasks;
    forall a, b | 0 <= a < b < |d|
      ensures d[a].taskId != d[b].taskId
    {
      var a' := if a < i then a else a + 1;
      var b' := if b < i then b else b + 1;
      assert d[a] == s.tasks[a'] && d[b] == s.tasks[b'];
    }
  }

  // ------------------------------------------------------------- sessions

  /** One menu action of a session (main.cpp's `main` loop). Adding builds a
      task with a fresh identifier and adds it; marking and deleting with an
      unknown identifier fail and change nothing. Redo is not a command:
      with a non-empty redo stack it reaches an undefined read, and with an
      empty one it changes nothing. */
  datatype Command = Add(description: string, dueDate: string) | Mark(id: int) | Delete(id: int) | UndoCommand

  /** The state and counter after one command; `next` is the counter, the
      last identifier issued. */
  function Step(s: State, next: nat, c: Command): (State, nat) {
    match c
    case Add(d, due) => (AddTask(s, Task(next + 1, d, false, due)), next + 1)
    case Mark(id) =>
      if HasTask(s.tasks, id) then (MarkTaskCompleted(s, IndexOf(s.tasks, id), next + 1), next + 1)
      else (s, next)
    case Delete(id) =>
      if HasTask(s.tasks, id) then (DeleteTask(s, IndexOf(s.tasks, id)), next) else (s, next)
    case UndoCommand => (Undo(s), next)
  }

  function Run(s: State, next: nat, cs: seq<Command>): (State, nat)
    decreases |cs|
  {
    if cs == [] then (s, next)
    else
      var (s', next') := Step(s, next, cs[0]);
      Run(s', next', cs[1..])
  }

  /** Over any session of adds, marks, deletes and undos, the listed
      identifiers stay unique and at most the counter (the last identifier
      issued), and the counter never goes down. */
  lemma {:induction false} RunKeepsIdsUnique(s: State, next: nat, cs: seq<Command>)
    requires UniqueIds(s.tasks) && IdsBelow(s.tasks, next + 1)
    ensures UniqueIds(Run(s, next, cs).0.tasks)
    ensures IdsBelow(Run(s, next, cs).0.tasks, Run(s, next, cs).1 + 1)
    ensures Run(s, next, cs).1 >= next
    decreases |cs|
  {
    if cs != [] {
      var (s', next') := Step(s, next, cs[0]);
      match cs[0] {
        case Add(d, due) =>
          AddKeepsIdsFresh(s, Task(next + 1, d, false, due));
        case Mark(id) =>
          if HasTask(s.tasks, id) {
            MarkKeepsIdsFresh(s, IndexOf(s.tasks, id), next + 1);
          }
        case Delete(id) =>
          if HasTask(s.tasks, id) {
            DeleteKeepsIdsFresh(s, IndexOf(s.tasks, id), next + 1);
          }
        case UndoCommand =>
          UndoEffect(s);
      }
      RunKeepsIdsUnique(s', next', cs[1..]);
    }
  }
}
