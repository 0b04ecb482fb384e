/**
 * The canvas's bounded undo/redo history: a list of full-canvas snapshots and the index of
 * the current one. Saving drops every snapshot after the current one, appends the new one and
 * evicts the oldest once the list would exceed fifty entries.
 */
module History {
  import opened Grid

  const MaxHistory: nat := 50

  datatype History = History(entries: seq<seq<Color>>, index: int)

  /** `historyIndex` points at an entry, or is -1 before the first save, and the cap holds. */
  predicate Valid(h: History) {
    -1 <= h.index < |h.entries| <= MaxHistory && (h.entries == [] <==> h.index == -1)
  }

  /** How many entries `canvasHistory.slice(0, historyIndex + 1)` keeps. */
  function Kept(h: History): (k: nat)
    ensures k <= |h.entries|
  {
    if h.index + 1 <= 0 then 0 else if h.index + 1 > |h.entries| then |h.entries| else h.index + 1
  }

  /** `saveCanvasState` on the history alone: truncate after the index, push, evict the oldest past the cap. */
  function Pushed(h: History, snap: seq<Color>): (r: History)
    ensures r.index == |r.entries| - 1
    ensures |r.entries| == if Kept(h) + 1 > MaxHistory then Kept(h) else Kept(h) + 1
    ensures r.entries[|r.entries| - 1] == snap
    ensures var drop := Kept(h) + 1 - |r.entries|;
            r.entries[..|r.entries| - 1] == h.entries[drop..Kept(h)]
  {
    var e := h.entries[..Kept(h)] + [snap];
    if |e| > MaxHistory then History(e[1..], |e| - 2) else History(e, |e| - 1)
  }

  /** A save keeps the history valid, and a valid history never holds more than fifty entries. */
  lemma PushedValid(h: History, snap: seq<Color>)
    requires Valid(h)
    ensures Valid(Pushed(h, snap))
    ensures |Pushed(h, snap).entries| <= MaxHistory
    ensures Pushed(h, snap).index == if h.index + 2 > MaxHistory then h.index else h.index + 1
  {
  }

  /** The first save of a fresh canvas leaves exactly its snapshot, as the current entry. */
  lemma FirstPush(snap: seq<Color>)
    ensures Pushed(History([], -1), snap) == History([snap], 0)
  {
    assert ([] + [snap])[..0] == [];
  }

  /** `historyIndex > 0`: there is an older snapshot to go back to. */
  predicate CanUndo(h: History) { h.index > 0 }

  /** `historyIndex < canvasHistory.length - 1`: there is a newer snapshot to go forward to. */
  predicate CanRedo(h: History) { h.index < |h.entries| - 1 }

  /** The history after `undo`: one step back when possible, otherwise unchanged; never a push. */
  function Undone(h: History): (r: History)
    ensures r.entries == h.entries
    ensures CanUndo(h) ==> r.index == h.index - 1
    ensures !CanUndo(h) ==> r == h
  {
    if CanUndo(h) then h.(index := h.index - 1) else h
  }

  /** The history after `redo`: one step forward when possible, otherwise unchanged; never a push. */
  function Redone(h: History): (r: History)
    ensures r.entries == h.entries
    ensures CanRedo(h) ==> r.index == h.index + 1
    ensures !CanRedo(h) ==> r == h
  {
    if CanRedo(h) then h.(index := h.index + 1) else h
  }

  /** Redo undoes an undo, and undo undoes a redo. */
  lemma UndoRedoInverse(h: History)
    requires Valid(h)
    ensures CanUndo(h) ==> CanRedo(Undone(h)) && Redone(Undone(h)) == h
    ensures CanRedo(h) ==> CanUndo(Redone(h)) && Undone(Redone(h)) == h
    ensures Valid(Undone(h)) && Valid(Redone(h))
  {
  }

  /** Right after a save there is nothing to redo, and undo is possible once two snapshots exist. */
  lemma PushedThenUndo(h: History, snap: seq<Color>)
    requires Valid(h)
    ensures !CanRedo(Pushed(h, snap))
    ensures CanUndo(Pushed(h, snap)) <==> |Pushed(h, snap).entries| >= 2
  {
  }

  /** `restoreCanvasState`: every cell whose snapshot entry exists and is not `''` takes that entry. */
  function Restored(p: seq<Color>, state: seq<Color>): (r: seq<Color>)
    ensures |r| == |p|
    ensures forall i | 0 <= i < |p| :: r[i] == if i < |state| && state[i] != "" then state[i] else p[i]
  {
    seq(|p|, i requires 0 <= i < |p| => if i < |state| && state[i] != "" then state[i] else p[i])
  }

  /** The snapshot `saveCanvasState` takes: every cell, with `''` read as the background. */
  function Snapshot(p: seq<Color>): (r: seq<Color>)
    ensures |r| == |p| && forall i | 0 <= i < |p| :: r[i] == OrBlack(p[i])
  {
    seq(|p|, i requires 0 <= i < |p| => OrBlack(p[i]))
  }

  /** The snapshot of a freshly created grid is all background. */
  lemma SnapshotOfBlank(n: nat)
    ensures Snapshot(Filled(n, "")) == Filled(n, Black)
  {
    forall i | 0 <= i < n
      ensures Snapshot(Filled(n, ""))[i] == Filled(n, Black)[i]
    {
      assert OrBlack("") == Black;
    }
  }

  /** Restoring a snapshot of a same-sized canvas reproduces that snapshot exactly, whatever is on the canvas. */
  lemma RestoreSnapshot(p: seq<Color>, q: seq<Color>)
    requires |p| == |q|
    ensures Restored(p, Snapshot(q)) == Snapshot(q)
  {
  }

  /** A snapshot of a different size restores only the cells both have, and only its non-empty ones. */
  lemma RestoreKeepsRest(p: seq<Color>, state: seq<Color>, i: int)
    requires 0 <= i < |p| && (i >= |state| || state[i] == "")
    ensures Restored(p, state)[i] == p[i]
  {
  }
}
