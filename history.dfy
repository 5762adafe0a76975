/**
 * The history manager: two double-ended queues of whole-document
 * snapshots, each capped at `MaxUndoHistory` entries, with the newest entry
 * at the back. Pushing past the cap evicts the front (oldest) entry.
 *
 * The operations are given here as functions of the stacks and the current
 * document; the composer's methods are specified by them.
 */
module History {
  import opened Text
  import opened Fragments

  /** `MAX_UNDO_HISTORY`. */
  const MaxUndoHistory: nat := 100

  /** `AppState`: a copy of the plots and the composed text. */
  datatype AppState = AppState(plots: seq<PlotFragment>, composedText: Bytes)

  /** The undo and redo queues; the back (last element) is the top. */
  datatype Stacks = Stacks(undo: seq<AppState>, redo: seq<AppState>)

  /** Result of an undo or redo: the new queues and the document to show. */
  datatype Step = Step(stacks: Stacks, state: AppState)

  predicate Bounded(h: Stacks) {
    |h.undo| <= MaxUndoHistory && |h.redo| <= MaxUndoHistory
  }

  /**
   * `push_back(s)` followed by `pop_front()` when the length exceeds the
   * cap. The newest entry is `s`; the result is a suffix of `stack + [s]`,
   * so only the oldest entries are ever evicted; and the cap is kept.
   */
  function PushCapped(stack: seq<AppState>, s: AppState): (r: seq<AppState>)
    requires |stack| <= MaxUndoHistory
    ensures |r| == if |stack| < MaxUndoHistory then |stack| + 1 else MaxUndoHistory
    ensures r[|r| - 1] == s
    ensures r == (stack + [s])[|stack| + 1 - |r|..]
  {
    var pushed := stack + [s];
    if |pushed| > MaxUndoHistory then pushed[1..] else pushed
  }

  /** `save_state_for_undo`: snapshot the current document and drop all redo history. */
  function Record(h: Stacks, current: AppState): (r: Stacks)
    requires Bounded(h)
    ensures Bounded(r)
    ensures r.redo == []
    ensures |r.undo| > 0 && r.undo[|r.undo| - 1] == current
  {
    Stacks(PushCapped(h.undo, current), [])
  }

  /**
   * `undo`: with nothing to undo, nothing changes; otherwise the newest
   * snapshot is popped and shown, and the current document is pushed on the
   * redo queue.
   */
  function Undo(h: Stacks, current: AppState): (r: Step)
    requires Bounded(h)
    ensures Bounded(r.stacks)
    ensures h.undo == [] ==> r == Step(h, current)
  {
    if |h.undo| == 0 then Step(h, current)
    else
      var n := |h.undo| - 1;
      Step(Stacks(h.undo[..n], PushCapped(h.redo, current)), h.undo[n])
  }

  /** `redo`: the mirror image of `Undo`, with the roles of the two queues exchanged. */
  function Redo(h: Stacks, current: AppState): (r: Step)
    requires Bounded(h)
    ensures Bounded(r.stacks)
    ensures h.redo == [] ==> r == Step(h, current)
  {
    if |h.redo| == 0 then Step(h, current)
    else
      var n := |h.redo| - 1;
      Step(Stacks(PushCapped(h.undo, current), h.redo[..n]), h.redo[n])
  }

  /**
   * Undo right after an edit restores the document as it was before the
   * edit, and makes the edited document the only redo entry.
   */
  lemma UndoRevertsEdit(h: Stacks, before: AppState, after: AppState)
    requires Bounded(h)
    ensures Undo(Record(h, before), after).state == before
    ensures Undo(Record(h, before), after).stacks.redo == [after]
  {
  }

  /**
   * Redo right after undo restores the document shown before the undo and
   * the undo queue exactly; the redo queue loses its oldest entry only if it
   * was full.
   */
  lemma RedoAfterUndo(h: Stacks, current: AppState)
    requires Bounded(h) && h.undo != []
    ensures var u := Undo(h, current);
      var r := Redo(u.stacks, u.state);
      r.state == current && r.stacks.undo == h.undo &&
      r.stacks.redo == (if |h.redo| < MaxUndoHistory then h.redo else h.redo[1..])
  {
    var u := Undo(h, current);
    var n := |h.undo| - 1;
    assert h.undo[..n] + [h.undo[n]] == h.undo;
    var pushed := PushCapped(h.redo, current);
    if |h.redo| < MaxUndoHistory {
      assert pushed[..|pushed| - 1] == h.redo;
    } else {
      assert pushed[..|pushed| - 1] == h.redo[1..];
    }
  }

  /** Undo right after redo restores the document shown before the redo and the redo queue. */
  lemma UndoAfterRedo(h: Stacks, current: AppState)
    requires Bounded(h) && h.redo != []
    ensures var r := Redo(h, current);
      var u := Undo(r.stacks, r.state);
      u.state == current && u.stacks.redo == h.redo &&
      u.stacks.undo == (if |h.undo| < MaxUndoHistory then h.undo else h.undo[1..])
  {
    var n := |h.redo| - 1;
    assert h.redo[..n] + [h.redo[n]] == h.redo;
    var pushed := PushCapped(h.undo, current);
    if |h.undo| < MaxUndoHistory {
      assert pushed[..|pushed| - 1] == h.undo;
    } else {
      assert pushed[..|pushed| - 1] == h.undo[1..];
    }
  }

  /**
   * Pushing onto a full queue evicts its oldest entry and keeps every other
   * entry, newest last.
   */
  lemma PushFullEvictsOldest(stack: seq<AppState>, s: AppState)
    requires |stack| == MaxUndoHistory
    ensures PushCapped(stack, s) == stack[1..] + [s]
  {
  }
}
