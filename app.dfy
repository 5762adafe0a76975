/**
 * `StoryComposerApp`: the composer's state as an object whose methods
 * update its fields in place. Each method is proved to leave the document
 * (plots, composed text, id counter, history queues) exactly as the
 * corresponding transition of module `Document` says, so the properties
 * proved there hold of the object. Search results, the delete confirmation
 * and the queued button action live only here.
 */
module App {
  import opened Wrappers
  import opened Text
  import opened Fragments
  import opened Compose
  import opened Search
  import opened History
  import Document

  /** What a plot's buttons ask for; carried out one frame later. */
  datatype PlotAction = AddAfter | RequestDelete(id: nat) | MoveUp | MoveDown

  /** The four buttons beside each plot: "+", "-", "↑", "↓". */
  datatype PlotButton = AddButton | DeleteButton | UpButton | DownButton

  class StoryComposerApp {
    var plots: seq<PlotFragment>
    var composedText: Bytes
    var nextId: nat
    var currentFilePath: Option<string>
    var undoStack: seq<AppState>
    var redoStack: seq<AppState>
    var searchText: Bytes
    var replaceText: Bytes
    var searchResults: seq<SearchResult>
    var currentSearchIndex: nat
    var deleteConfirmId: Option<nat>
    var pendingAction: Option<(nat, PlotAction)>

    /** The document part of the state. */
    function State(): Document.Doc
      reads this
    {
      Document.Doc(plots, composedText, nextId, Stacks(undoStack, redoStack))
    }

    /** The history queues are within their cap, and the search text is a Rust string. */
    predicate Valid()
      reads this
    {
      Document.Valid(State()) && StartsOnBoundary(searchText)
    }

    /** `Default`: one empty plot with id 0, nothing composed, no history, nothing pending. */
    constructor()
      ensures Valid() && State() == Document.Initial()
      ensures currentFilePath == None && searchText == [] && replaceText == []
      ensures searchResults == [] && currentSearchIndex == 0
      ensures deleteConfirmId == None && pendingAction == None
    {
      plots := [PlotFragment(0, [])];
      composedText := [];
      nextId := 1;
      currentFilePath := None;
      undoStack := [];
      redoStack := [];
      searchText := [];
      replaceText := [];
      searchResults := [];
      currentSearchIndex := 0;
      deleteConfirmId := None;
      pendingAction := None;
    }

    method SaveStateForUndo()
      requires Valid()
      modifies this`undoStack, this`redoStack
      ensures Valid() && State() == Document.SaveState(old(State()))
    {
      undoStack := undoStack + [AppState(plots, composedText)];
      if |undoStack| > MaxUndoHistory {
        undoStack := undoStack[1..];
      }
      redoStack := [];
    }

    method Undo()
      requires Valid()
      modifies this`plots, this`composedText, this`undoStack, this`redoStack
      ensures Valid() && State() == Document.Undo(old(State()))
    {
      if |undoStack| > 0 {
        var state := undoStack[|undoStack| - 1];
        undoStack := undoStack[..|undoStack| - 1];
        redoStack := redoStack + [AppState(plots, composedText)];
        if |redoStack| > MaxUndoHistory {
          redoStack := redoStack[1..];
        }
        plots := state.plots;
        composedText := state.composedText;
      }
    }

    method Redo()
      requires Valid()
      modifies this`plots, this`composedText, this`undoStack, this`redoStack
      ensures Valid() && State() == Document.Redo(old(State()))
    {
      if |redoStack| > 0 {
        var state := redoStack[|redoStack| - 1];
        redoStack := redoStack[..|redoStack| - 1];
        undoStack := undoStack + [AppState(plots, composedText)];
        if |undoStack| > MaxUndoHistory {
          undoStack := undoStack[1..];
        }
        plots := state.plots;
        composedText := state.composedText;
      }
    }

    /** The corrected undo: as `Undo`, then the counter is raised above every restored id. */
    method UndoFreshIds()
      requires Valid()
      modifies this`plots, this`composedText, this`nextId, this`undoStack, this`redoStack
      ensures Valid() && State() == Document.UndoFreshIds(old(State()))
    {
      Undo();
      var maxId := MaxId(plots);
      if nextId <= maxId {
        nextId := maxId + 1;
      }
    }

    /** The corrected redo, raising the counter in the same way. */
    method RedoFreshIds()
      requires Valid()
      modifies this`plots, this`composedText, this`nextId, this`undoStack, this`redoStack
      ensures Valid() && State() == Document.RedoFreshIds(old(State()))
    {
      Redo();
      var maxId := MaxId(plots);
      if nextId <= maxId {
        nextId := maxId + 1;
      }
    }

    method Compose()
      requires Valid()
      modifies this`composedText, this`undoStack, this`redoStack
      ensures Valid() && State() == Document.ComposeDoc(old(State()))
    {
      ghost var saved := Document.SaveState(State());
      SaveStateForUndo();
      composedText := Join(Texts(plots), Separator);
      assert State() == saved.(composedText := Join(Texts(plots), Separator));
    }

    method NewDocument()
      requires Valid()
      modifies this`plots, this`composedText, this`nextId, this`currentFilePath, this`undoStack, this`redoStack
      ensures Valid() && State() == Document.NewDocument(old(State())) && currentFilePath == None
    {
      SaveStateForUndo();
      plots := [PlotFragment(0, [])];
      composedText := [];
      nextId := 1;
      currentFilePath := None;
      undoStack := [];
      redoStack := [];
      assert State() == Document.Initial();
    }

    method AddPlotAfter(index: nat)
      requires Valid() && (|plots| >= MaxPlots || index < |plots|)
      modifies this`plots, this`nextId, this`undoStack, this`redoStack
      ensures Valid() && State() == Document.AddPlotAfter(old(State()), index)
    {
      if |plots| >= MaxPlots {
        return;
      }
      ghost var saved := Document.SaveState(State());
      SaveStateForUndo();
      var newPlot := PlotFragment(nextId, []);
      nextId := nextId + 1;
      plots := plots[..index + 1] + [newPlot] + plots[index + 1..];
      assert State() == saved.(plots := InsertAfter(saved.plots, index, newPlot), nextId := saved.nextId + 1);
    }

    method RemovePlot(index: nat)
      requires Valid() && (|plots| <= 1 || index < |plots|)
      modifies this`plots, this`undoStack, this`redoStack
      ensures Valid() && State() == Document.RemovePlot(old(State()), index)
    {
      if |plots| <= 1 {
        return;
      }
      ghost var saved := Document.SaveState(State());
      SaveStateForUndo();
      plots := plots[..index] + plots[index + 1..];
      assert State() == saved.(plots := RemoveAt(saved.plots, index));
    }

    method MovePlotUp(index: nat)
      requires Valid() && (index == 0 || index < |plots|)
      modifies this`plots, this`undoStack, this`redoStack
      ensures Valid() && State() == Document.MovePlotUp(old(State()), index)
    {
      if index == 0 {
        return;
      }
      ghost var saved := Document.SaveState(State());
      SaveStateForUndo();
      plots := plots[index := plots[index - 1]][index - 1 := plots[index]];
      assert State() == saved.(plots := Swap(saved.plots, index, index - 1));
    }

    method MovePlotDown(index: nat)
      requires Valid() && |plots| >= 1
      modifies this`plots, this`undoStack, this`redoStack
      ensures Valid() && State() == Document.MovePlotDown(old(State()), index)
    {
      if index >= |plots| - 1 {
        return;
      }
      ghost var saved := Document.SaveState(State());
      SaveStateForUndo();
      plots := plots[index := plots[index + 1]][index + 1 := plots[index]];
      assert State() == saved.(plots := Swap(saved.plots, index, index + 1));
    }

    /** The state part of `load_file`, given the already parsed file. */
    method LoadFile(data: Document.SaveData)
      requires Valid()
      modifies this`plots, this`composedText, this`nextId, this`undoStack, this`redoStack
      ensures Valid() && State() == Document.Load(old(State()), data)
    {
      ghost var saved := Document.SaveState(State());
      SaveStateForUndo();
      plots := data.plots;
      composedText := data.composedText;
      nextId := MaxId(plots) + 1;
      assert State() == saved.(plots := data.plots, composedText := data.composedText, nextId := MaxId(data.plots) + 1);
    }

    /**
     * `search`: clears the previous results, then scans every plot in
     * order and then the composed text. `SearchExact` and `SearchOrdered`
     * say what the results are.
     */
    method Search()
      requires Valid()
      modifies this`searchResults, this`currentSearchIndex
      ensures Valid() && currentSearchIndex == 0
      ensures searchResults == SearchAll(plots, composedText, searchText)
    {
      searchResults := [];
      currentSearchIndex := 0;
      if |searchText| == 0 {
        return;
      }
      for i := 0 to |plots|
        invariant currentSearchIndex == 0
        invariant searchResults == PlotResults(plots[..i], searchText)
      {
        var found := ScanMatches(plots[i].text, searchText, Plot, Some(i));
        assert plots[..i + 1][..i] == plots[..i];
        searchResults := searchResults + found;
      }
      assert plots[..|plots|] == plots;
      var found := ScanMatches(composedText, searchText, ComposedText, None);
      searchResults := searchResults + found;
    }

    /**
     * `replace_all`: with an empty search text nothing happens; otherwise
     * snapshot, rewrite each plot's text in turn and then the composed
     * text, and drop the search results.
     */
    method ReplaceAll()
      requires Valid()
      modifies this`plots, this`composedText, this`undoStack, this`redoStack, this`searchResults
      ensures Valid() && State() == Document.ReplaceAll(old(State()), searchText, replaceText)
      ensures searchResults == if searchText == [] then old(searchResults) else []
    {
      if |searchText| == 0 {
        return;
      }
      ghost var saved := Document.SaveState(State());
      SaveStateForUndo();
      ReplaceInEachPlot();
      composedText := Replace(composedText, searchText, replaceText);
      searchResults := [];
      assert State() == saved.(plots := ReplaceInPlots(saved.plots, searchText, replaceText),
                               composedText := Replace(saved.composedText, searchText, replaceText));
    }

    /** The loop of `replace_all` over the plots, rewriting each plot's text in place. */
    method ReplaceInEachPlot()
      requires |searchText| > 0
      modifies this`plots
      ensures plots == ReplaceInPlots(old(plots), searchText, replaceText)
    {
      ghost var target := ReplaceInPlots(plots, searchText, replaceText);
      var i := 0;
      while i < |plots|
        invariant 0 <= i <= |plots| == |target|
        invariant forall k :: 0 <= k < i ==> plots[k] == target[k]
        invariant forall k :: i <= k < |plots| ==> plots[k] == old(plots[k])
      {
        plots := plots[i := PlotFragment(plots[i].id, Replace(plots[i].text, searchText, replaceText))];
        i := i + 1;
      }
    }

    /** The "yes" button of the delete confirmation. */
    method ConfirmDelete()
      requires Valid() && deleteConfirmId.Some?
      modifies this`plots, this`undoStack, this`redoStack, this`deleteConfirmId
      ensures Valid() && deleteConfirmId == None
      ensures State() == Document.ConfirmDelete(old(State()), old(deleteConfirmId.value))
    {
      var deleteId := deleteConfirmId.value;
      var index := PositionOfId(plots, deleteId);
      if index.Some? {
        RemovePlot(index.value);
      }
      deleteConfirmId := None;
    }

    /** The "no" button of the delete confirmation. */
    method CancelDelete()
      modifies this`deleteConfirmId
      ensures deleteConfirmId == None
    {
      deleteConfirmId := None;
    }

    /**
     * A queued action can be carried out without a panic: the index is one
     * the action's method accepts.
     */
    predicate CanDispatch()
      reads this
    {
      match pendingAction
      case None => true
      case Some((index, act)) =>
        match act
        case AddAfter => |plots| >= MaxPlots || index < |plots|
        case RequestDelete(_) => true
        case MoveUp => index == 0 || index < |plots|
        case MoveDown => |plots| >= 1
    }

    /**
     * A click on one of plot `i`'s buttons. Each button queues its action
     * only when it applies: "+" under the plot cap, "-" with more than one
     * plot, "↑" below the first plot, "↓" above the last one.
     */
    method ClickPlotButton(i: nat, button: PlotButton)
      requires i < |plots| && CanDispatch()
      modifies this`pendingAction
      ensures CanDispatch()
      ensures match button
        case AddButton => pendingAction == if |plots| < MaxPlots then Some((i, AddAfter)) else old(pendingAction)
        case DeleteButton => pendingAction == if |plots| > 1 then Some((i, RequestDelete(plots[i].id))) else old(pendingAction)
        case UpButton => pendingAction == if i > 0 then Some((i, MoveUp)) else old(pendingAction)
        case DownButton => pendingAction == if i < |plots| - 1 then Some((i, MoveDown)) else old(pendingAction)
      ensures old(pendingAction) != pendingAction ==> pendingAction.value.0 == i
    {
      var plotsLen := |plots|;
      var plotId := plots[i].id;
      match button
      case AddButton =>
        if plotsLen < MaxPlots {
          pendingAction := Some((i, AddAfter));
        }
      case DeleteButton =>
        if plotsLen > 1 {
          pendingAction := Some((i, RequestDelete(plotId)));
        }
      case UpButton =>
        if i > 0 {
          pendingAction := Some((i, MoveUp));
        }
      case DownButton =>
        if i < plotsLen - 1 {
          pendingAction := Some((i, MoveDown));
        }
    }

    /**
     * The next frame takes the queued action and carries it out: add, move,
     * or open the delete confirmation for the plot's id.
     */
    method DispatchPending()
      requires Valid() && CanDispatch()
      modifies this`plots, this`nextId, this`undoStack, this`redoStack, this`deleteConfirmId, this`pendingAction
      ensures Valid() && pendingAction == None
      ensures old(pendingAction).None? ==> State() == old(State()) && deleteConfirmId == old(deleteConfirmId)
      ensures old(pendingAction).Some? ==>
        var (index, act) := old(pendingAction).value;
        match act
        case AddAfter => State() == Document.AddPlotAfter(old(State()), index) && deleteConfirmId == old(deleteConfirmId)
        case RequestDelete(id) => State() == old(State()) && deleteConfirmId == Some(id)
        case MoveUp => State() == Document.MovePlotUp(old(State()), index) && deleteConfirmId == old(deleteConfirmId)
        case MoveDown => State() == Document.MovePlotDown(old(State()), index) && deleteConfirmId == old(deleteConfirmId)
    {
      var pending := pendingAction;
      pendingAction := None;
      if pending.Some? {
        var (index, act) := pending.value;
        match act
        case AddAfter => AddPlotAfter(index);
        case RequestDelete(id) => deleteConfirmId := Some(id);
        case MoveUp => MovePlotUp(index);
        case MoveDown => MovePlotDown(index);
      }
    }
  }
}
