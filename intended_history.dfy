/** The history behaviour main.cpp evidently intends: every mutation
    records the list as it was BEFORE the change, `Undo` goes back to that
    list and `Redo` comes forward again, and marking a task completed keeps
    its identifier. These definitions stand beside the as-written ones of
    `TaskListModel` to show, for each discrepancy, what the correct
    behaviour is and that it has the promised property. */
module IntendedHistory {
  import opened Tasks
  import opened TaskListModel

  /** A successful mutation: the list becomes `next`, the previous list is
      pushed on the undo stack, and the redo stack is emptied. */
  function Commit(s: State, next: seq<Task>): State {
    State(next, s.undoStack + [s.tasks], [])
  }

  function AddTask(s: State, t: Task): State {
    Commit(s, s.tasks + [t])
  }

  /** Marks the task at `i` completed and keeps its identifier. */
  function MarkTaskCompleted(s: State, i: nat): State
    requires i < |s.tasks|
  {
    Commit(s, s.tasks[i := s.tasks[i].(completed := true)])
  }

  function DeleteTask(s: State, i: nat): State
    requires i < |s.tasks|
  {
    Commit(s, s.tasks[..i] + s.tasks[i + 1..])
  }

  /** Moves the current list to the redo stack and restores the undo top. */
  function Undo(s: State): State {
    if s.undoStack == [] then s
    else
      var n := |s.undoStack|;
      State(s.undoStack[n - 1], s.undoStack[..n - 1], s.redoStack + [s.tasks])
  }

  /** Moves the current list to the undo stack and restores the redo top. */
  function Redo(s: State): State {
    if s.redoStack == [] then s
    else
      var n := |s.redoStack|;
      State(s.redoStack[n - 1], s.undoStack + [s.tasks], s.redoStack[..n - 1])
  }

  /** An undo right after any mutation restores the list and the undo stack
      as they were before it, and keeps the mutated list for redo. */
  lemma UndoRevertsCommit(s: State, next: seq<Task>)
    ensures Undo(Commit(s, next)) == State(s.tasks, s.undoStack, [next])
  {
    assert (s.undoStack + [s.tasks])[..|s.undoStack|] == s.undoStack;
  }

  /** In particular an undo right after an add removes the added task. */
  lemma UndoAfterAddRemovesTask(s: State, t: Task)
    ensures Undo(AddTask(s, t)).tasks == s.tasks
  {
    UndoRevertsCommit(s, s.tasks + [t]);
  }

  /** An undo right after a delete gives the deleted task back at its place. */
  lemma UndoAfterDeleteRestoresTask(s: State, i: nat)
    requires i < |s.tasks|
    ensures Undo(DeleteTask(s, i)).tasks == s.tasks
  {
    UndoRevertsCommit(s, s.tasks[..i] + s.tasks[i + 1..]);
  }

  /** An undo right after marking gives back the task as it was, not completed
      if it was not. */
  lemma UndoAfterMarkRestoresTask(s: State, i: nat)
    requires i < |s.tasks|
    ensures Undo(MarkTaskCompleted(s, i)).tasks == s.tasks
  {
    UndoRevertsCommit(s, s.tasks[i := s.tasks[i].(completed := true)]);
  }

  /** Redo after undo comes back to the state before the undo. */
  lemma RedoAfterUndo(h: State)
    requires h.undoStack != []
    ensures Redo(Undo(h)) == h
  {
    var n := |h.undoStack|;
    assert h.undoStack[..n - 1] + [h.undoStack[n - 1]] == h.undoStack;
    assert (h.redoStack + [h.tasks])[..|h.redoStack|] == h.redoStack;
  }

  /** Undo after redo comes back to the state before the redo. */
  lemma UndoAfterRedo(h: State)
    requires h.redoStack != []
    ensures Undo(Redo(h)) == h
  {
    var n := |h.redoStack|;
    assert h.redoStack[..n - 1] + [h.redoStack[n - 1]] == h.redoStack;
    assert (h.undoStack + [h.tasks])[..|h.undoStack|] == h.undoStack;
  }

  /** Marking the task with identifier `id` completed leaves it findable
      under `id`, at the same position, now completed. */
  lemma MarkKeepsId(s: State, id: int)
    requires HasTask(s.tasks, id)
    ensures var i := IndexOf(s.tasks, id);
      var r := MarkTaskCompleted(s, i);
      IndexOf(r.tasks, id) == i && r.tasks[i].completed
      && r.tasks[i].description == s.tasks[i].description
      && r.tasks[i].dueDate == s.tasks[i].dueDate
  {
    var i := IndexOf(s.tasks, id);
    var r := MarkTaskCompleted(s, i);
    assert r.tasks[i].taskId == id;
    assert forall j :: 0 <= j < i ==> r.tasks[j] == s.tasks[j];
  }
}
