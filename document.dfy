/**
 * The composer's document as a value: the plots, the composed text, the id
 * counter and the two history queues. Each operation of the composer is
 * given here as a function from the document before to the document after;
 * the methods of `StoryComposerApp` are proved to perform exactly these
 * transitions, and the lemmas below state what the transitions promise.
 */
module Document {
  import opened Text
  import opened Fragments
  import opened Compose
  import History

  datatype Doc = Doc(plots: seq<PlotFragment>, composedText: Bytes, nextId: nat, history: History.Stacks)

  /** `SaveData`: what a project file holds once parsed. */
  datatype SaveData = SaveData(plots: seq<PlotFragment>, composedText: Bytes)

  /** Both history queues are within `MaxUndoHistory`. */
  predicate Valid(d: Doc) {
    History.Bounded(d.history)
  }

  /** The snapshot an operation records: a copy of the plots and the composed text. */
  function Current(d: Doc): History.AppState {
    History.AppState(d.plots, d.composedText)
  }

  /** The document of a freshly started composer (`Default`). */
  function Initial(): (r: Doc)
    ensures Valid(r) && WellFormed(r.plots, r.nextId)
    ensures r.plots == [PlotFragment(0, [])] && r.composedText == [] && r.nextId == 1
    ensures r.history.undo == [] && r.history.redo == []
  {
    Doc([PlotFragment(0, [])], [], 1, History.Stacks([], []))
  }

  /**
   * `save_state_for_undo`: the current document becomes the newest undo
   * entry, redo history is dropped, and the document itself is untouched.
   */
  function SaveState(d: Doc): (r: Doc)
    requires Valid(d)
    ensures Valid(r)
  {
    d.(history := History.Record(d.history, Current(d)))
  }

  /**
   * What `SaveState` records: the current document as the newest undo
   * entry, at most `MaxUndoHistory` entries kept, and no redo history; the
   * document itself is unchanged.
   */
  lemma SaveStateRecords(d: Doc)
    requires Valid(d)
    ensures var r := SaveState(d);
      r.plots == d.plots && r.composedText == d.composedText && r.nextId == d.nextId &&
      r.history.redo == [] &&
      |r.history.undo| > 0 && r.history.undo[|r.history.undo| - 1] == Current(d) &&
      |r.history.undo| == (if |d.history.undo| < History.MaxUndoHistory then |d.history.undo| + 1 else History.MaxUndoHistory) &&
      r.history.undo == (d.history.undo + [Current(d)])[|d.history.undo| + 1 - |r.history.undo|..]
  {
    var r := History.Record(d.history, Current(d));
    assert r.undo == History.PushCapped(d.history.undo, Current(d));
  }

  /**
   * `undo`: restores the plots and composed text of the newest undo entry;
   * the id counter is left as it is.
   */
  function Undo(d: Doc): (r: Doc)
    requires Valid(d)
    ensures Valid(r)
  {
    var s := History.Undo(d.history, Current(d));
    d.(plots := s.state.plots, composedText := s.state.composedText, history := s.stacks)
  }

  /**
   * With nothing to undo, `Undo` changes nothing. Otherwise it shows the
   * newest undo entry, pops it, and pushes the document it replaced onto
   * the redo queue; the id counter is never touched.
   */
  lemma UndoRestores(d: Doc)
    requires Valid(d)
    ensures Undo(d).nextId == d.nextId
    ensures d.history.undo == [] ==> Undo(d) == d
    ensures d.history.undo != [] ==>
      var n := |d.history.undo| - 1;
      var r := Undo(d);
      Current(r) == d.history.undo[n] && r.history.undo == d.history.undo[..n] &&
      |r.history.redo| > 0 && r.history.redo[|r.history.redo| - 1] == Current(d)
  {
  }

  /** `redo`: the mirror image of `Undo`. */
  function Redo(d: Doc): (r: Doc)
    requires Valid(d)
    ensures Valid(r)
  {
    var s := History.Redo(d.history, Current(d));
    d.(plots := s.state.plots, composedText := s.state.composedText, history := s.stacks)
  }

  /** The mirror image of `UndoRestores`. */
  lemma RedoRestores(d: Doc)
    requires Valid(d)
    ensures Redo(d).nextId == d.nextId
    ensures d.history.redo == [] ==> Redo(d) == d
    ensures d.history.redo != [] ==>
      var n := |d.history.redo| - 1;
      var r := Redo(d);
      Current(r) == d.history.redo[n] && r.history.redo == d.history.redo[..n] &&
      |r.history.undo| > 0 && r.history.undo[|r.history.undo| - 1] == Current(d)
  {
  }

  /** Undo immediately followed by redo gives back the document shown before the undo. */
  lemma UndoThenRedo(d: Doc)
    requires Valid(d) && d.history.undo != []
    ensures Redo(Undo(d)).plots == d.plots && Redo(Undo(d)).composedText == d.composedText
    ensures Redo(Undo(d)).history.undo == d.history.undo
  {
    History.RedoAfterUndo(d.history, Current(d));
  }

  /** Redo immediately followed by undo gives back the document shown before the redo. */
  lemma RedoThenUndo(d: Doc)
    requires Valid(d) && d.history.redo != []
    ensures Undo(Redo(d)).plots == d.plots && Undo(Redo(d)).composedText == d.composedText
    ensures Undo(Redo(d)).history.redo == d.history.redo
  {
    History.UndoAfterRedo(d.history, Current(d));
  }

  /** An edit followed by undo shows the document as it was before the edit. */
  lemma EditThenUndo(d: Doc, edited: Doc)
    requires Valid(d) && Valid(edited) && edited.history == SaveState(d).history
    ensures Current(Undo(edited)) == Current(d)
    ensures Undo(edited).history.redo == [Current(edited)]
  {
    History.UndoRevertsEdit(d.history, Current(d), Current(edited));
  }

  /** `compose`: snapshot, then the plot texts joined in order by the separator. */
  function ComposeDoc(d: Doc): (r: Doc)
    requires Valid(d)
    ensures Valid(r)
  {
    SaveState(d).(composedText := Join(Texts(d.plots), Separator))
  }

  /** After `compose`, plot `k`'s text stands at its offset in the composed text. */
  lemma ComposeHoldsPlot(d: Doc, k: nat)
    requires Valid(d) && k < |d.plots|
    ensures var c := ComposeDoc(d).composedText;
      var o := Offset(Texts(d.plots), Separator, k);
      o + |d.plots[k].text| <= |c| && c[o..o + |d.plots[k].text|] == d.plots[k].text
  {
    var parts := Texts(d.plots);
    assert ComposeDoc(d).composedText == Join(parts, Separator);
    assert parts[k] == d.plots[k].text;
    JoinPart(parts, Separator, k);
  }

  /** After `compose`, exactly the separator stands between plot `k` and plot `k + 1`. */
  lemma ComposeSeparatesPlots(d: Doc, k: nat)
    requires Valid(d) && k + 1 < |d.plots|
    ensures var c := ComposeDoc(d).composedText;
      var parts := Texts(d.plots);
      Offset(parts, Separator, k + 1) <= |c| &&
      c[Offset(parts, Separator, k) + |d.plots[k].text|..Offset(parts, Separator, k + 1)] == Separator
  {
    var parts := Texts(d.plots);
    JoinSeparatorAfter(parts, Separator, k);
  }

  /** The composed text's length: every plot text plus one separator between neighbours. */
  lemma ComposeLength(d: Doc)
    requires Valid(d) && |d.plots| > 0
    ensures |ComposeDoc(d).composedText| == TotalLength(Texts(d.plots)) + (|d.plots| - 1) * |Separator|
  {
    JoinLength(Texts(d.plots), Separator);
  }

  /** `compose` changes only the composed text: the plots and the id counter stay, and a snapshot is taken first. */
  lemma ComposeKeepsPlots(d: Doc)
    requires Valid(d)
    ensures ComposeDoc(d).plots == d.plots && ComposeDoc(d).nextId == d.nextId
    ensures ComposeDoc(d).history == SaveState(d).history
    ensures ComposeDoc(d).history.undo[|ComposeDoc(d).history.undo| - 1] == Current(d)
  {
    SaveStateRecords(d);
  }

  /**
   * `new_document`: whatever came before, the initial document. The
   * snapshot the source takes first is cleared together with the rest of
   * the history, so it leaves no trace in the result.
   */
  function NewDocument(d: Doc): (r: Doc)
    requires Valid(d)
    ensures Valid(r) && WellFormed(r.plots, r.nextId)
    ensures r.plots == [PlotFragment(0, [])] && r.composedText == [] && r.nextId == 1
    ensures r.history.undo == [] && r.history.redo == []
  {
    Initial()
  }

  /**
   * `add_plot_after`: with `MaxPlots` plots, nothing happens (not even a
   * snapshot); otherwise an empty plot with the next id goes right after
   * `index`, the counter advances, and the other plots keep their order.
   */
  function AddPlotAfter(d: Doc, index: nat): (r: Doc)
    requires Valid(d) && (|d.plots| >= MaxPlots || index < |d.plots|)
    ensures Valid(r)
  {
    if |d.plots| >= MaxPlots then d
    else SaveState(d).(plots := InsertAfter(d.plots, index, PlotFragment(d.nextId, [])), nextId := d.nextId + 1)
  }

  /**
   * A full document is left alone; otherwise the new plot, empty and
   * carrying the old counter, sits right after `index`, removing it gives
   * back the old list, and the counter advances by one.
   */
  lemma AddPlotAfterInserts(d: Doc, index: nat)
    requires Valid(d) && (|d.plots| >= MaxPlots || index < |d.plots|)
    ensures |d.plots| >= MaxPlots ==> AddPlotAfter(d, index) == d
    ensures |d.plots| < MaxPlots ==>
      var r := AddPlotAfter(d, index);
      |r.plots| == |d.plots| + 1 && r.plots[index + 1] == PlotFragment(d.nextId, []) &&
      RemoveAt(r.plots, index + 1) == d.plots &&
      r.nextId == d.nextId + 1 && r.composedText == d.composedText && r.history == SaveState(d).history
  {
    if |d.plots| < MaxPlots {
      var p := PlotFragment(d.nextId, []);
      InsertAfterShape(d.plots, index, p);
      RemoveUndoesInsert(d.plots, index, p);
    }
  }

  /**
   * `remove_plot`: with one plot or none, nothing happens; otherwise exactly
   * the plot at `index` goes, so the list never becomes empty.
   */
  function RemovePlot(d: Doc, index: nat): (r: Doc)
    requires Valid(d) && (|d.plots| <= 1 || index < |d.plots|)
    ensures Valid(r)
  {
    if |d.plots| <= 1 then d
    else SaveState(d).(plots := RemoveAt(d.plots, index))
  }

  /**
   * The last plot is never removed; otherwise exactly the plot at `index`
   * goes, every other plot keeps its relative order, and the counter stays.
   */
  lemma RemovePlotRemoves(d: Doc, index: nat)
    requires Valid(d) && (|d.plots| <= 1 || index < |d.plots|)
    ensures RemovePlot(d, index).nextId == d.nextId && RemovePlot(d, index).composedText == d.composedText
    ensures |d.plots| <= 1 ==> RemovePlot(d, index) == d
    ensures |d.plots| > 1 ==>
      var r := RemovePlot(d, index);
      |r.plots| == |d.plots| - 1 && r.history == SaveState(d).history &&
      (forall k :: 0 <= k < index ==> r.plots[k] == d.plots[k]) &&
      (forall k :: index < k < |d.plots| ==> r.plots[k - 1] == d.plots[k])
    ensures |d.plots| > 0 ==> |RemovePlot(d, index).plots| > 0
  {
    if |d.plots| > 1 {
      RemoveAtShape(d.plots, index);
    }
  }

  /** `move_plot_up`: the first plot stays; any other trades places with the one above it. */
  function MovePlotUp(d: Doc, index: nat): (r: Doc)
    requires Valid(d) && (index == 0 || index < |d.plots|)
    ensures Valid(r)
  {
    if index == 0 then d
    else SaveState(d).(plots := Swap(d.plots, index, index - 1))
  }

  /** The first plot stays put; any other trades places with the one above it, and nothing else moves. */
  lemma MovePlotUpSwaps(d: Doc, index: nat)
    requires Valid(d) && (index == 0 || index < |d.plots|)
    ensures MovePlotUp(d, index).nextId == d.nextId && MovePlotUp(d, index).composedText == d.composedText
    ensures index == 0 ==> MovePlotUp(d, index) == d
    ensures index > 0 ==>
      var r := MovePlotUp(d, index);
      |r.plots| == |d.plots| && r.plots[index - 1] == d.plots[index] && r.plots[index] == d.plots[index - 1] &&
      (forall k :: 0 <= k < |d.plots| && k != index && k != index - 1 ==> r.plots[k] == d.plots[k]) &&
      multiset(r.plots) == multiset(d.plots) && r.history == SaveState(d).history
  {
    if index > 0 {
      SwapShape(d.plots, index, index - 1);
    }
  }

  /**
   * `move_plot_down`: the last plot (and any index past it) stays; any
   * other trades places with the one below it. With no plots at all the
   * source's `len() - 1` underflows, so at least one plot is required.
   */
  function MovePlotDown(d: Doc, index: nat): (r: Doc)
    requires Valid(d) && |d.plots| >= 1
    ensures Valid(r)
  {
    if index >= |d.plots| - 1 then d
    else SaveState(d).(plots := Swap(d.plots, index, index + 1))
  }

  /** The last plot stays put; any other trades places with the one below it, and nothing else moves. */
  lemma MovePlotDownSwaps(d: Doc, index: nat)
    requires Valid(d) && |d.plots| >= 1
    ensures MovePlotDown(d, index).nextId == d.nextId && MovePlotDown(d, index).composedText == d.composedText
    ensures index >= |d.plots| - 1 ==> MovePlotDown(d, index) == d
    ensures index < |d.plots| - 1 ==>
      var r := MovePlotDown(d, index);
      |r.plots| == |d.plots| && r.plots[index + 1] == d.plots[index] && r.plots[index] == d.plots[index + 1] &&
      (forall k :: 0 <= k < |d.plots| && k != index && k != index + 1 ==> r.plots[k] == d.plots[k]) &&
      multiset(r.plots) == multiset(d.plots) && r.history == SaveState(d).history
  {
    if index < |d.plots| - 1 {
      SwapShape(d.plots, index, index + 1);
    }
  }

  /** Moving a plot down and then up again restores the plot list. */
  lemma MoveDownThenUp(d: Doc, index: nat)
    requires Valid(d) && index + 1 < |d.plots|
    ensures MovePlotUp(MovePlotDown(d, index), index + 1).plots == d.plots
  {
    SwapTwice(d.plots, index, index + 1);
  }

  /**
   * The state part of `load_file`: snapshot, take the loaded plots and
   * composed text as they are (an empty list included), and restart the
   * counter one past the largest loaded id.
   */
  function Load(d: Doc, data: SaveData): (r: Doc)
    requires Valid(d)
    ensures Valid(r)
  {
    SaveState(d).(plots := data.plots, composedText := data.composedText, nextId := MaxId(data.plots) + 1)
  }

  /**
   * Loading shows the file's plots and composed text as they are, records
   * the previous document for undo, and restarts the counter at the least
   * value above every loaded id (1 for an empty list).
   */
  lemma LoadTakesFile(d: Doc, data: SaveData)
    requires Valid(d)
    ensures var r := Load(d, data);
      r.plots == data.plots && r.composedText == data.composedText && r.history == SaveState(d).history &&
      IdsBelow(r.plots, r.nextId) &&
      (forall b: nat :: |data.plots| > 0 && IdsBelow(data.plots, b) ==> r.nextId <= b) &&
      (data.plots == [] ==> r.nextId == 1)
  {
    LoadedNextIdIsFresh(data.plots);
  }

  /**
   * `replace_all`: with an empty search text nothing happens (no snapshot);
   * otherwise snapshot, then `str::replace` on every plot text and on the
   * composed text. Ids, count and order of the plots are kept.
   */
  function ReplaceAll(d: Doc, from: Bytes, to: Bytes): (r: Doc)
    requires Valid(d)
    ensures Valid(r) && r.nextId == d.nextId
    ensures from == [] ==> r == d
  {
    if from == [] then d
    else SaveState(d).(plots := ReplaceInPlots(d.plots, from, to), composedText := Replace(d.composedText, from, to))
  }

  /**
   * With a non-empty search text, `ReplaceAll` keeps every plot's id and
   * position, replaces in every plot's text and in the composed text, and
   * records the previous document for undo.
   */
  lemma ReplaceAllEffect(d: Doc, from: Bytes, to: Bytes)
    requires Valid(d) && from != []
    ensures var r := ReplaceAll(d, from, to);
      |r.plots| == |d.plots| && Ids(r.plots) == Ids(d.plots) &&
      (forall k :: 0 <= k < |d.plots| ==> r.plots[k].text == Replace(d.plots[k].text, from, to)) &&
      r.composedText == Replace(d.composedText, from, to) && r.history == SaveState(d).history
  {
    var r := ReplaceAll(d, from, to);
    assert Ids(r.plots) == Ids(d.plots);
  }

  /**
   * The "yes" button of the delete confirmation: remove the first plot
   * carrying `id`, if there is one.
   */
  function ConfirmDelete(d: Doc, id: nat): (r: Doc)
    requires Valid(d)
    ensures Valid(r)
  {
    match PositionOfId(d.plots, id)
    case None => d
    case Some(k) => RemovePlot(d, k)
  }

  /**
   * Confirming a delete in a well-formed document with more than one plot
   * removes the plot with that id and keeps every other plot in order;
   * otherwise the plots are untouched.
   */
  lemma ConfirmDeleteRemovesId(d: Doc, id: nat)
    requires Valid(d) && UniqueIds(d.plots)
    ensures var r := ConfirmDelete(d, id);
      if |d.plots| > 1 && id in Ids(d.plots) then
        |r.plots| == |d.plots| - 1 && id !in Ids(r.plots) &&
        (forall k :: 0 <= k < |d.plots| && d.plots[k].id != id ==> d.plots[k] in r.plots)
      else r.plots == d.plots
  {
    var pos := PositionOfId(d.plots, id);
    if pos.Some? && |d.plots| > 1 {
      RemovePlotRemoves(d, pos.value);
      RemoveAtKeepsOthers(d.plots, pos.value);
      RemoveAtDropsId(d.plots, pos.value);
    } else if pos.None? {
      assert id !in Ids(d.plots);
    }
  }

  /** Adding a plot keeps a well-formed document well formed: the new id is fresh. */
  lemma AddPlotAfterKeepsWellFormed(d: Doc, index: nat)
    requires Valid(d) && WellFormed(d.plots, d.nextId) && (|d.plots| >= MaxPlots || index < |d.plots|)
    ensures WellFormed(AddPlotAfter(d, index).plots, AddPlotAfter(d, index).nextId)
  {
    if |d.plots| < MaxPlots {
      InsertKeepsWellFormed(d.plots, d.nextId, index);
    }
  }

  /** Removing a plot keeps a well-formed document well formed. */
  lemma RemovePlotKeepsWellFormed(d: Doc, index: nat)
    requires Valid(d) && WellFormed(d.plots, d.nextId) && (|d.plots| <= 1 || index < |d.plots|)
    ensures WellFormed(RemovePlot(d, index).plots, RemovePlot(d, index).nextId)
  {
    if |d.plots| > 1 {
      RemoveKeepsWellFormed(d.plots, d.nextId, index);
    }
  }

  /** Moving a plot up keeps a well-formed document well formed. */
  lemma MovePlotUpKeepsWellFormed(d: Doc, index: nat)
    requires Valid(d) && WellFormed(d.plots, d.nextId) && (index == 0 || index < |d.plots|)
    ensures WellFormed(MovePlotUp(d, index).plots, MovePlotUp(d, index).nextId)
  {
    if index > 0 {
      SwapKeepsWellFormed(d.plots, d.nextId, index, index - 1);
    }
  }

  /** Moving a plot down keeps a well-formed document well formed. */
  lemma MovePlotDownKeepsWellFormed(d: Doc, index: nat)
    requires Valid(d) && WellFormed(d.plots, d.nextId)
    ensures WellFormed(MovePlotDown(d, index).plots, MovePlotDown(d, index).nextId)
  {
    if index < |d.plots| - 1 {
      SwapKeepsWellFormed(d.plots, d.nextId, index, index + 1);
    }
  }

  /** Replacing text keeps a well-formed document well formed. */
  lemma ReplaceAllKeepsWellFormed(d: Doc, from: Bytes, to: Bytes)
    requires Valid(d) && WellFormed(d.plots, d.nextId)
    ensures WellFormed(ReplaceAll(d, from, to).plots, ReplaceAll(d, from, to).nextId)
  {
    if from != [] {
      ReplaceKeepsWellFormed(d.plots, d.nextId, from, to);
    }
  }

  /**
   * A corrected `undo`: after restoring the snapshot, the counter is raised
   * above every restored id, so the next added plot cannot reuse one.
   */
  function UndoFreshIds(d: Doc): (r: Doc)
    requires Valid(d)
    ensures Valid(r)
  {
    var u := Undo(d);
    u.(nextId := if u.nextId > MaxId(u.plots) then u.nextId else MaxId(u.plots) + 1)
  }

  /**
   * The corrected undo shows and records what `Undo` does, and its counter
   * never goes down and lies above every restored id.
   */
  lemma UndoFreshIdsRaises(d: Doc)
    requires Valid(d)
    ensures var r := UndoFreshIds(d);
      Current(r) == Current(Undo(d)) && r.history == Undo(d).history &&
      IdsBelow(r.plots, r.nextId) && d.nextId <= r.nextId
  {
    UndoRestores(d);
    LoadedNextIdIsFresh(Undo(d).plots);
  }

  /** A corrected `redo`, raising the counter in the same way. */
  function RedoFreshIds(d: Doc): (r: Doc)
    requires Valid(d)
    ensures Valid(r)
  {
    var u := Redo(d);
    u.(nextId := if u.nextId > MaxId(u.plots) then u.nextId else MaxId(u.plots) + 1)
  }

  /** The mirror image of `UndoFreshIdsRaises`. */
  lemma RedoFreshIdsRaises(d: Doc)
    requires Valid(d)
    ensures var r := RedoFreshIds(d);
      Current(r) == Current(Redo(d)) && r.history == Redo(d).history &&
      IdsBelow(r.plots, r.nextId) && d.nextId <= r.nextId
  {
    RedoRestores(d);
    LoadedNextIdIsFresh(Redo(d).plots);
  }

  /**
   * With the corrected undo, restoring a snapshot whose ids were distinct
   * gives a well-formed document, so a following `AddPlotAfter` keeps the
   * ids distinct.
   */
  lemma UndoFreshIdsWellFormed(d: Doc, index: nat)
    requires Valid(d) && d.history.undo != []
    requires var s := d.history.undo[|d.history.undo| - 1];
      1 <= |s.plots| <= MaxPlots && UniqueIds(s.plots) && index < |s.plots|
    ensures WellFormed(UndoFreshIds(d).plots, UndoFreshIds(d).nextId)
    ensures UniqueIds(AddPlotAfter(UndoFreshIds(d), index).plots)
  {
    AddPlotAfterKeepsWellFormed(UndoFreshIds(d), index);
  }

  /** Adding after the first of two plots puts the new plot between them. */
  lemma AddAfterFirstOfTwo(d: Doc, a: PlotFragment, b: PlotFragment)
    requires Valid(d) && d.plots == [a, b]
    ensures AddPlotAfter(d, 0).plots == [a, PlotFragment(d.nextId, []), b]
    ensures AddPlotAfter(d, 0).nextId == d.nextId + 1
  {
    InsertAfterFirstOfTwo(a, b, PlotFragment(d.nextId, []));
  }

  /** Adding after the only plot of a fresh document: ids 0 and 1, one snapshot of the fresh document. */
  lemma AddToInitial()
    ensures AddPlotAfter(Initial(), 0) ==
      Doc([PlotFragment(0, []), PlotFragment(1, [])], [], 2, History.Stacks([Current(Initial())], []))
  {
    var d0 := Initial();
    assert History.PushCapped(d0.history.undo, Current(d0)) == [Current(d0)];
    assert InsertAfter(d0.plots, 0, PlotFragment(1, [])) == [PlotFragment(0, []), PlotFragment(1, [])];
  }

  /** Loading a file holding only id 0: the counter drops to 1 and the replaced document is the newest undo entry. */
  lemma LoadOnlyIdZero(d: Doc)
    requires Valid(d)
    ensures var r := Load(d, SaveData([PlotFragment(0, [120])], [120]));
      r.nextId == 1 && r.history.undo != [] && r.history.undo[|r.history.undo| - 1] == Current(d)
  {
    SaveStateRecords(d);
    assert MaxId([PlotFragment(0, [120])]) == 0;
  }

  /** The first two steps of both scenarios below: add a plot, then load a file holding only id 0. */
  lemma AddThenLoad()
    ensures var d1 := AddPlotAfter(Initial(), 0);
      var d2 := Load(d1, SaveData([PlotFragment(0, [120])], [120]));
      d2.nextId == 1 && d2.history.undo != [] &&
      d2.history.undo[|d2.history.undo| - 1].plots == [PlotFragment(0, []), PlotFragment(1, [])]
  {
    AddToInitial();
    LoadOnlyIdZero(AddPlotAfter(Initial(), 0));
  }

  /** Undoing the load of `AddThenLoad` brings back ids 0 and 1 but leaves the counter at 1. */
  lemma UndoAfterAddThenLoad()
    ensures var u := Undo(Load(AddPlotAfter(Initial(), 0), SaveData([PlotFragment(0, [120])], [120])));
      u.plots == [PlotFragment(0, []), PlotFragment(1, [])] && u.nextId == 1
  {
    AddThenLoad();
    UndoRestores(Load(AddPlotAfter(Initial(), 0), SaveData([PlotFragment(0, [120])], [120])));
  }

  /**
   * As written, `undo` can reuse ids: add a plot (ids 0, 1), load a file
   * holding only id 0 (the counter drops to 1), undo (ids 0, 1 are back
   * with the counter still 1), add a plot: it gets id 1 a second time.
   */
  lemma UndoAfterLoadReusesId()
    ensures var d1 := AddPlotAfter(Initial(), 0);
      var d2 := Load(d1, SaveData([PlotFragment(0, [120])], [120]));
      var d4 := AddPlotAfter(Undo(d2), 0);
      d4.plots == [PlotFragment(0, []), PlotFragment(1, []), PlotFragment(1, [])] && !UniqueIds(d4.plots)
  {
    var d2 := Load(AddPlotAfter(Initial(), 0), SaveData([PlotFragment(0, [120])], [120]));
    UndoAfterAddThenLoad();
    AddAfterFirstOfTwo(Undo(d2), PlotFragment(0, []), PlotFragment(1, []));
    var d4 := AddPlotAfter(Undo(d2), 0);
    assert d4.plots[1] == d4.plots[2];
  }

  /** The corrected undo of the load in `AddThenLoad` brings back ids 0 and 1 and raises the counter to 2. */
  lemma UndoFreshIdsAfterAddThenLoad()
    ensures var d3 := UndoFreshIds(Load(AddPlotAfter(Initial(), 0), SaveData([PlotFragment(0, [120])], [120])));
      d3.plots == [PlotFragment(0, []), PlotFragment(1, [])] && d3.nextId == 2
  {
    UndoAfterAddThenLoad();
    UndoFreshIdsOverStaleCounter(Load(AddPlotAfter(Initial(), 0), SaveData([PlotFragment(0, [120])], [120])));
  }

  /** When undo brings back ids 0 and 1 with the counter at 1, the corrected undo moves the counter to 2. */
  lemma UndoFreshIdsOverStaleCounter(d: Doc)
    requires Valid(d) && Undo(d).plots == [PlotFragment(0, []), PlotFragment(1, [])] && Undo(d).nextId == 1
    ensures UndoFreshIds(d).plots == Undo(d).plots && UndoFreshIds(d).nextId == 2
  {
    assert MaxId(Undo(d).plots) == 1;
  }

  /** The same steps with the corrected undo give the new plot the fresh id 2. */
  lemma UndoFreshIdsAfterLoad()
    ensures var d1 := AddPlotAfter(Initial(), 0);
      var d2 := Load(d1, SaveData([PlotFragment(0, [120])], [120]));
      var d4 := AddPlotAfter(UndoFreshIds(d2), 0);
      d4.plots == [PlotFragment(0, []), PlotFragment(2, []), PlotFragment(1, [])] && UniqueIds(d4.plots)
  {
    var d3 := UndoFreshIds(Load(AddPlotAfter(Initial(), 0), SaveData([PlotFragment(0, [120])], [120])));
    UndoFreshIdsAfterAddThenLoad();
    AddAfterFirstOfTwo(d3, PlotFragment(0, []), PlotFragment(1, []));
    UniqueIdsOfThree(PlotFragment(0, []), PlotFragment(2, []), PlotFragment(1, []));
  }
}
