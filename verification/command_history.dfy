/**
 * CommandHistory: the undo and redo stacks of the editor. Each stack is a deque whose front is the
 * top; a push that makes a stack reach maxCommands entries drops its oldest (back) entry. A
 * command's own execute and undo act on the whole application and are not part of this model:
 * here each call is recorded, in order, in a ghost log.
 */
module CommandHistories {

  /** commandhistory.hpp: maxCommands. */
  const MaxCommands: int := 100

  /** A call the history makes into a command. */
  datatype Call<C> = Executed(command: C) | Undone(command: C)

  /** The two stacks, fronts first. */
  datatype Stacks<C> = Stacks(undo: seq<C>, redo: seq<C>)

  /** Both stacks are shorter than the bound. */
  predicate Bounded<C>(h: Stacks<C>)
  {
    |h.undo| < MaxCommands && |h.redo| < MaxCommands
  }

  /** push_front, then pop_back when the size has become exactly maxCommands. */
  function Push<C>(s: seq<C>, c: C): (t: seq<C>)
    ensures 0 < |t| <= |s| + 1 && t[0] == c && t[1..] == s[..|t| - 1]
    ensures |s| < MaxCommands ==> |t| < MaxCommands
    ensures |s| + 1 < MaxCommands ==> t == [c] + s
  {
    var u := [c] + s;
    if |u| == MaxCommands then u[..|u| - 1] else u
  }

  /** insert: the redo stack is emptied and the command goes on top of the undo stack. */
  function AfterInsert<C>(h: Stacks<C>, c: C): Stacks<C>
  {
    Stacks(Push(h.undo, c), [])
  }

  /** undo: the top undo command moves to the top of the redo stack; nothing when there is none. */
  function AfterUndo<C>(h: Stacks<C>): Stacks<C>
  {
    if h.undo == [] then h else Stacks(h.undo[1..], Push(h.redo, h.undo[0]))
  }

  /** redo: the top redo command moves to the top of the undo stack; nothing when there is none. */
  function AfterRedo<C>(h: Stacks<C>): Stacks<C>
  {
    if h.redo == [] then h else Stacks(Push(h.undo, h.redo[0]), h.redo[1..])
  }

  // ---- facts about the transitions ----

  /** Every transition keeps both stacks shorter than maxCommands. */
  lemma TransitionsBounded<C>(h: Stacks<C>, c: C)
    requires Bounded(h)
    ensures Bounded(AfterInsert(h, c)) && Bounded(AfterUndo(h)) && Bounded(AfterRedo(h))
  {
  }

  /** insert leaves the new command on top of the undo stack, over the previous entries, and no redo. */
  lemma InsertOnTop<C>(h: Stacks<C>, c: C)
    ensures var g := AfterInsert(h, c);
      g.redo == [] && g.undo[0] == c && g.undo[1..] == h.undo[..|g.undo| - 1]
  {
  }

  /** Undoing a command and then redoing it restores both stacks while neither reaches the bound. */
  lemma UndoThenRedo<C>(h: Stacks<C>)
    requires h.undo != [] && Bounded(h) && |h.redo| + 1 < MaxCommands
    ensures AfterRedo(AfterUndo(h)) == h
  {
    var g := AfterUndo(h);
    assert g.redo == [h.undo[0]] + h.redo;
    assert [h.undo[0]] + h.undo[1..] == h.undo;
    assert g.redo[1..] == h.redo;
    assert Push(h.undo[1..], h.undo[0]) == h.undo;
    assert AfterRedo(g) == Stacks(Push(h.undo[1..], h.undo[0]), h.redo);
  }

  /** Redoing a command and then undoing it restores both stacks while neither reaches the bound. */
  lemma RedoThenUndo<C>(h: Stacks<C>)
    requires h.redo != [] && Bounded(h) && |h.undo| + 1 < MaxCommands
    ensures AfterUndo(AfterRedo(h)) == h
  {
    var g := AfterRedo(h);
    assert g.undo == [h.redo[0]] + h.undo;
    assert [h.redo[0]] + h.redo[1..] == h.redo;
    assert g.undo[1..] == h.undo;
    assert Push(h.redo[1..], h.redo[0]) == h.redo;
    assert AfterUndo(g) == Stacks(h.undo, Push(h.redo[1..], h.redo[0]));
  }

  /** At the bound an undo loses the oldest redo entry, so a redo cannot restore it. */
  lemma UndoAtBoundDrops<C>(h: Stacks<C>)
    requires h.undo != [] && |h.redo| == MaxCommands - 1
    ensures |AfterUndo(h).redo| == MaxCommands - 1 && AfterUndo(h).redo[1..] == h.redo[..|h.redo| - 1]
  {
  }

  // ---- the history ----

  class CommandHistory<C> {
    var undoStack: seq<C>   // m_undoStack, front first
    var redoStack: seq<C>   // m_redoStack, front first
    ghost var log: seq<Call<C>>   // the calls made into commands, oldest first

    function State(): Stacks<C>
      reads this
    {
      Stacks(undoStack, redoStack)
    }

    constructor ()
      ensures undoStack == [] && redoStack == [] && log == []
    {
      undoStack, redoStack := [], [];
      log := [];
    }

    /** undo: runs undo on the top undo command, once, and moves it to the redo stack. */
    method Undo()
      modifies this
      ensures State() == AfterUndo(old(State()))
      ensures log == old(log) + if old(undoStack) == [] then [] else [Undone(old(undoStack)[0])]
    {
      if undoStack == [] {
        return;
      }
      var last := undoStack[0];
      log := log + [Undone(last)];
      redoStack := [last] + redoStack;
      if |redoStack| == MaxCommands {
        redoStack := redoStack[..|redoStack| - 1];
      }
      undoStack := undoStack[1..];
    }

    /** redo: runs execute on the top redo command, once, and moves it to the undo stack. */
    method Redo()
      modifies this
      ensures State() == AfterRedo(old(State()))
      ensures log == old(log) + if old(redoStack) == [] then [] else [Executed(old(redoStack)[0])]
    {
      if redoStack == [] {
        return;
      }
      var next := redoStack[0];
      log := log + [Executed(next)];
      undoStack := [next] + undoStack;
      if |undoStack| == MaxCommands {
        undoStack := undoStack[..|undoStack| - 1];
      }
      redoStack := redoStack[1..];
    }

    /** insert: drains the redo stack, runs execute on the command once and pushes it for undo. */
    method Insert(command: C)
      modifies this
      ensures State() == AfterInsert(old(State()), command)
      ensures log == old(log) + [Executed(command)]
    {
      while redoStack != []
        invariant undoStack == old(undoStack) && log == old(log)
        decreases |redoStack|
      {
        redoStack := redoStack[1..];
      }
      log := log + [Executed(command)];
      undoStack := [command] + undoStack;
      if |undoStack| == MaxCommands {
        undoStack := undoStack[..|undoStack| - 1];
      }
    }

    /** clear: empties both stacks and runs no command. */
    method Clear()
      modifies this
      ensures undoStack == [] && redoStack == [] && log == old(log)
    {
      undoStack, redoStack := [], [];
    }
  }
}
