/**
 * The undo/redo stack of src/undo.js. A command's `do` and `undo` act on the
 * application state; either may throw, and the state it leaves behind is
 * whatever it had changed before throwing. The stack catches the exception
 * and the throw decides which stacks change.
 */
module Undo {
  /** What running `do` or `undo` did: it completed, or it threw, leaving the given state. */
  datatype Outcome<S> = Completed(state: S) | Threw(state: S)

  /** A command: its `do` (run) and its `undo` (revert). */
  datatype Command<!S> = Command(run: S -> Outcome<S>, revert: S -> Outcome<S>)

  /** The application state with the undo stack (`done`, top last) and the redo stack (`undone`, top last). */
  datatype History<!S> = History(state: S, done: seq<Command<S>>, undone: seq<Command<S>>)

  /** exec: on success the command is pushed and the redo stack emptied; a throw leaves both stacks. */
  function AfterExec<S>(h: History<S>, cmd: Command<S>): History<S> {
    match cmd.run(h.state)
    case Completed(s) => History(s, h.done + [cmd], [])
    case Threw(s) => History(s, h.done, h.undone)
  }

  /** undo: pop the top command and revert it; on success it goes onto the redo stack, on a throw it is lost. */
  function AfterUndo<S>(h: History<S>): History<S> {
    if h.done == [] then h
    else
      var c, rest := h.done[|h.done| - 1], h.done[..|h.done| - 1];
      match c.revert(h.state)
      case Completed(s) => History(s, rest, h.undone + [c])
      case Threw(s) => History(s, rest, h.undone)
  }

  /** redo: pop the top of the redo stack and run it again; on success it goes back onto the undo stack. */
  function AfterRedo<S>(h: History<S>): History<S> {
    if h.undone == [] then h
    else
      var c, rest := h.undone[|h.undone| - 1], h.undone[..|h.undone| - 1];
      match c.run(h.state)
      case Completed(s) => History(s, h.done + [c], rest)
      case Threw(s) => History(s, h.done, rest)
  }

  class CommandStack<!S> {
    var state: S
    var stack: seq<Command<S>>
    var redoStack: seq<Command<S>>

    function Snapshot(): History<S>
      reads this
    {
      History(state, stack, redoStack)
    }

    constructor (state: S)
      ensures Snapshot() == History(state, [], [])
    {
      this.state := state;
      stack, redoStack := [], [];
    }

    method Exec(cmd: Command<S>)
      modifies this
      ensures Snapshot() == AfterExec(old(Snapshot()), cmd)
    {
      var outcome := cmd.run(state);
      state := outcome.state;
      if outcome.Completed? {
        stack := stack + [cmd];
        redoStack := [];
      }
    }

    method Undo()
      modifies this
      ensures Snapshot() == AfterUndo(old(Snapshot()))
    {
      if |stack| == 0 {
        return;
      }
      var c := stack[|stack| - 1];
      stack := stack[..|stack| - 1];
      var outcome := c.revert(state);
      state := outcome.state;
      if outcome.Completed? {
        redoStack := redoStack + [c];
      }
    }

    method Redo()
      modifies this
      ensures Snapshot() == AfterRedo(old(Snapshot()))
    {
      if |redoStack| == 0 {
        return;
      }
      var c := redoStack[|redoStack| - 1];
      redoStack := redoStack[..|redoStack| - 1];
      var outcome := c.run(state);
      state := outcome.state;
      if outcome.Completed? {
        stack := stack + [c];
      }
    }
  }

  // ---------------------------------------------------------------------
  // Properties

  /** A successful exec pushes the command and clears the redo stack; a throwing one keeps both stacks. */
  lemma ExecStacks<S>(h: History<S>, cmd: Command<S>)
    ensures cmd.run(h.state).Completed? ==> AfterExec(h, cmd).done == h.done + [cmd] && AfterExec(h, cmd).undone == []
    ensures cmd.run(h.state).Threw? ==> AfterExec(h, cmd).done == h.done && AfterExec(h, cmd).undone == h.undone
    ensures AfterExec(h, cmd).state == cmd.run(h.state).state
  {
  }

  /** undo with an empty undo stack and redo with an empty redo stack change nothing. */
  lemma EmptyIsNoOp<S>(h: History<S>)
    ensures h.done == [] ==> AfterUndo(h) == h
    ensures h.undone == [] ==> AfterRedo(h) == h
  {
  }

  /**
   * A successful undo or redo moves the top command from one stack to the
   * top of the other, so the total is unchanged; a throwing one loses the
   * popped command.
   */
  lemma MovesKeepTotal<S>(h: History<S>)
    ensures h.done != [] ==>
      var n := |AfterUndo(h).done| + |AfterUndo(h).undone|;
      (h.done[|h.done| - 1].revert(h.state).Completed? ==>
            (n == |h.done| + |h.undone| && AfterUndo(h).done == h.done[..|h.done| - 1]
             && AfterUndo(h).undone == h.undone + [h.done[|h.done| - 1]]))
      && (h.done[|h.done| - 1].revert(h.state).Threw? ==>
            (n == |h.done| + |h.undone| - 1 && AfterUndo(h).done == h.done[..|h.done| - 1] && AfterUndo(h).undone == h.undone))
    ensures h.undone != [] ==>
      var n := |AfterRedo(h).done| + |AfterRedo(h).undone|;
      (h.undone[|h.undone| - 1].run(h.state).Completed? ==>
            (n == |h.done| + |h.undone| && AfterRedo(h).done == h.done + [h.undone[|h.undone| - 1]]
             && AfterRedo(h).undone == h.undone[..|h.undone| - 1]))
      && (h.undone[|h.undone| - 1].run(h.state).Threw? ==>
            (n == |h.done| + |h.undone| - 1 && AfterRedo(h).done == h.done && AfterRedo(h).undone == h.undone[..|h.undone| - 1]))
  {
  }

  /** undo then redo, neither throwing, restores both stacks; the state is what `do` makes of the reverted one. */
  lemma UndoThenRedo<S>(h: History<S>)
    requires h.done != []
    requires h.done[|h.done| - 1].revert(h.state).Completed?
    requires h.done[|h.done| - 1].run(h.done[|h.done| - 1].revert(h.state).state).Completed?
    ensures AfterRedo(AfterUndo(h)).done == h.done && AfterRedo(AfterUndo(h)).undone == h.undone
    ensures AfterRedo(AfterUndo(h)).state == h.done[|h.done| - 1].run(h.done[|h.done| - 1].revert(h.state).state).state
  {
    var c := h.done[|h.done| - 1];
    assert h.done[..|h.done| - 1] + [c] == h.done;
    var u := AfterUndo(h);
    assert u.undone[..|u.undone| - 1] == h.undone;
  }

  /** `undo` never throws and `do` after it gives back the state before it. */
  ghost predicate Reversible<S(!new)>(c: Command<S>) {
    forall s :: c.revert(s).Completed? && c.run(c.revert(s).state) == Completed(s)
  }

  /** n undos in a row. */
  function UndoTimes<S>(h: History<S>, n: nat): History<S>
    decreases n
  {
    if n == 0 then h else UndoTimes(AfterUndo(h), n - 1)
  }

  /** n redos in a row. */
  function RedoTimes<S>(h: History<S>, n: nat): History<S>
    decreases n
  {
    if n == 0 then h else AfterRedo(RedoTimes(h, n - 1))
  }

  /** Undoing a reversible command pops it onto the redo stack. */
  lemma ReversibleUndo<S(!new)>(h: History<S>)
    requires h.done != [] && Reversible(h.done[|h.done| - 1])
    ensures AfterUndo(h).done == h.done[..|h.done| - 1]
    ensures AfterUndo(h).undone == h.undone + [h.done[|h.done| - 1]]
    ensures forall c | c in AfterUndo(h).done :: c in h.done
  {
    var c := h.done[|h.done| - 1];
    assert c.revert(h.state).Completed?;
  }

  /**
   * The n entries of `undone` from position `base` on are the top n commands
   * of `done`, topmost first.
   */
  ghost predicate TopsMoved<S>(undone: seq<Command<S>>, base: nat, done: seq<Command<S>>, n: nat) {
    && base + n <= |undone| && n <= |done|
    && forall k | base <= k < base + n :: undone[k] == done[|done| - 1 - (k - base)]
  }

  /** The topmost command at `base`, followed by the next n - 1 from the rest of the stack. */
  lemma TopsMovedStep<S>(undone: seq<Command<S>>, base: nat, done: seq<Command<S>>, n: nat)
    requires 1 <= n <= |done| && base < |undone| && undone[base] == done[|done| - 1]
    requires TopsMoved(undone, base + 1, done[..|done| - 1], n - 1)
    ensures TopsMoved(undone, base, done, n)
  {
    forall k | base < k < base + n
      ensures undone[k] == done[|done| - 1 - (k - base)]
    {
      assert undone[k] == done[..|done| - 1][|done| - 2 - (k - base - 1)];
    }
  }

  /**
   * With reversible commands, n undos move the top n commands onto the redo
   * stack, topmost first: the i-th new entry is the i-th command from the top.
   */
  lemma {:induction false} UndoTimesStacks<S(!new)>(h: History<S>, n: nat)
    decreases n
    requires n <= |h.done| && forall c | c in h.done :: Reversible(c)
    ensures UndoTimes(h, n).done == h.done[..|h.done| - n]
    ensures |UndoTimes(h, n).undone| == |h.undone| + n
    ensures UndoTimes(h, n).undone[..|h.undone|] == h.undone
    ensures TopsMoved(UndoTimes(h, n).undone, |h.undone|, h.done, n)
  {
    if n > 0 {
      ReversibleUndo(h);
      var h' := AfterUndo(h);
      UndoTimesStacks(h', n - 1);
      assert h.done[..|h.done| - 1][..|h.done| - n] == h.done[..|h.done| - n];
      var r := UndoTimes(h', n - 1).undone;
      assert r[..|h'.undone|][..|h.undone|] == r[..|h.undone|];
      assert r[|h.undone|] == r[..|h'.undone|][|h.undone|];
      TopsMovedStep(r, |h.undone|, h.done, n);
    }
  }

  /** Undo then redo of a reversible command gives back the history exactly. */
  lemma ReversibleUndoRedo<S(!new)>(u: History<S>)
    requires u.done != [] && Reversible(u.done[|u.done| - 1])
    ensures AfterRedo(AfterUndo(u)) == u
  {
    var c := u.done[|u.done| - 1];
    assert c.revert(u.state).Completed? && c.run(c.revert(u.state).state) == Completed(u.state);
    UndoThenRedo(u);
    var r := AfterRedo(AfterUndo(u));
    assert r == History(r.state, r.done, r.undone);
  }

  /** With reversible commands, n undos followed by n redos give back the history exactly. */
  lemma {:induction false} UndoRedoRoundTrip<S(!new)>(h: History<S>, n: nat)
    decreases n
    requires n <= |h.done| && forall c | c in h.done :: Reversible(c)
    ensures RedoTimes(UndoTimes(h, n), n) == h
  {
    if n > 0 {
      ReversibleUndo(h);
      var h' := AfterUndo(h);
      UndoRedoRoundTrip(h', n - 1);
      assert RedoTimes(UndoTimes(h, n), n) == AfterRedo(h');
      ReversibleUndoRedo(h);
    }
  }
}
