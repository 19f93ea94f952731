/**
  The snapshot stacks behind undo and redo: `history` (whose top is the current table)
  and `redo_stack`, with the moves every edit, undo and redo make on them.
*/
module Versions {
  import opened Rows

  /** `history` and `redo_stack`, each with its top at the end. */
  datatype Stacks = Stacks(history: seq<Table>, redo: seq<Table>)

  /** A usable pair of stacks: there is always a current snapshot. */
  predicate Live(v: Stacks) {
    |v.history| >= 1
  }

  /** `history[-1]`: the snapshot the manager shows. */
  function Current(v: Stacks): Table
    requires Live(v)
  {
    v.history[|v.history| - 1]
  }

  /** `history.append(data.copy()); redo_stack = []` after a successful edit. */
  function Commit(v: Stacks, t: Table): (r: Stacks)
    ensures Live(r) && Current(r) == t && r.redo == []
    ensures r.history[..|r.history| - 1] == v.history
  {
    Stacks(v.history + [t], [])
  }

  /** undo has something to take back exactly when history holds more than the baseline. */
  predicate CanUndo(v: Stacks) {
    |v.history| > 1
  }

  /** `redo_stack.append(history.pop())`. */
  function Undo(v: Stacks): (r: Stacks)
    requires CanUndo(v)
    ensures Live(r) && |r.history| == |v.history| - 1 && |r.redo| == |v.redo| + 1
    ensures r.redo[|r.redo| - 1] == Current(v)
    ensures Redo(r) == v
  {
    Stacks(v.history[..|v.history| - 1], v.redo + [Current(v)])
  }

  /** `history.append(redo_stack.pop())`. */
  function Redo(v: Stacks): (r: Stacks)
    requires v.redo != []
    ensures Live(r) && |r.history| == |v.history| + 1 && |r.redo| == |v.redo| - 1
    ensures Current(r) == v.redo[|v.redo| - 1]
  {
    Stacks(v.history + [v.redo[|v.redo| - 1]], v.redo[..|v.redo| - 1])
  }

  /** Undoing a redo restores both stacks. */
  lemma UndoRedo(v: Stacks)
    requires Live(v) && v.redo != []
    ensures CanUndo(Redo(v))
    ensures Undo(Redo(v)) == v
  {
    var r := Redo(v);
    assert r.history[..|r.history| - 1] == v.history;
    assert r.redo + [Current(r)] == v.redo;
  }

  /**
    Undoing an edit brings back the table from before it and offers exactly that edit's
    result for redo; the redo that would have been possible before the edit is gone.
  */
  lemma UndoCommit(v: Stacks, t: Table)
    requires Live(v)
    ensures CanUndo(Commit(v, t))
    ensures Undo(Commit(v, t)) == Stacks(v.history, [t])
    ensures Current(Undo(Commit(v, t))) == Current(v)
  {
    assert (v.history + [t])[..|v.history|] == v.history;
  }

  /** Every snapshot on either stack keeps frame_idx equal to index. */
  predicate AllConsistent(v: Stacks) {
    (forall i :: 0 <= i < |v.history| ==> Consistent(v.history[i])) &&
    (forall i :: 0 <= i < |v.redo| ==> Consistent(v.redo[i]))
  }

  /** Every snapshot on either stack is the empty table. */
  predicate AllEmpty(v: Stacks) {
    (forall i :: 0 <= i < |v.history| ==> v.history[i] == []) &&
    (forall i :: 0 <= i < |v.redo| ==> v.redo[i] == [])
  }

  /** A commit adds just the committed table: a property of every snapshot survives it. */
  lemma CommitKeepsSnapshots(v: Stacks, t: Table)
    ensures AllConsistent(v) && Consistent(t) ==> AllConsistent(Commit(v, t))
    ensures AllEmpty(v) && t == [] ==> AllEmpty(Commit(v, t))
  {
    var c := Commit(v, t);
    assert forall i :: 0 <= i < |c.history| ==> c.history[i] == (if i < |v.history| then v.history[i] else t);
  }

  /** Undo only moves a snapshot from one stack to the other. */
  lemma UndoKeepsSnapshots(v: Stacks)
    requires CanUndo(v)
    ensures AllConsistent(v) ==> AllConsistent(Undo(v))
    ensures AllEmpty(v) ==> AllEmpty(Undo(v))
  {
    var u := Undo(v);
    assert forall i :: 0 <= i < |u.redo| ==> u.redo[i] == (if i < |v.redo| then v.redo[i] else Current(v));
  }

  /** Redo only moves a snapshot from one stack to the other. */
  lemma RedoKeepsSnapshots(v: Stacks)
    requires v.redo != []
    ensures AllConsistent(v) ==> AllConsistent(Redo(v))
    ensures AllEmpty(v) ==> AllEmpty(Redo(v))
  {
    var r := Redo(v);
    assert forall i :: 0 <= i < |r.history| ==>
      r.history[i] == (if i < |v.history| then v.history[i] else v.redo[|v.redo| - 1]);
  }
}
