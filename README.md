# StoryComposer2 document model in Dafny

StoryComposer2 is a desktop tool for writing a story as an ordered list of
short text fragments ("plots"). The user can add, remove and reorder plots,
compose them into one document, undo and redo, search, and replace. This
project models the in-memory document of its `StoryComposerApp` and proves
what the application's operations do to it.

The modules follow the program's structure:

| module | file | what it holds |
|---|---|---|
| `Wrappers` | wrappers.dfy | `Option`, Rust's `Option` |
| `Text` | text.dfy | strings as UTF-8 bytes: char boundaries, `str::find`, the offsets of every (overlapping) occurrence, `str::replace` |
| `Fragments` | fragments.dfy | `PlotFragment`, the plot list, `Vec::insert`/`remove`/`swap`, id lookup, the largest id, per-plot replace |
| `History` | history.dfy | `AppState` snapshots and the two undo/redo queues, capped at `MAX_UNDO_HISTORY` = 100 |
| `Compose` | compose.dfy | `join` with the separator `"\n\n---\n\n"`, and where each plot lands in the result |
| `Document` | document.dfy | the document as a value (plots, composed text, `next_id`, history) and one transition function per operation, with the lemmas that state what each promises |
| `Search` | search.dfy | what `search` reports, the scan loop as a method, and the scan loop exactly as written |
| `App` | app.dfy | class `StoryComposerApp`: fields updated in place by methods proved to perform the `Document` transitions; search results, the delete confirmation and the queued button action |

Strings are modelled as byte sequences, and every offset is a byte offset,
as in Rust. Integers are unbounded. Each method of the class that changes
the document has an `ensures` saying that its new state equals a
`Document` function applied to the old state. The lemmas about that
function then hold for the object. `Search` is tied to `Search.SearchAll`
instead, and `ReplaceInEachPlot`, `CancelDelete` and `ClickPlotButton`
state their effect on the fields directly.

A few facts about the code that the model keeps as they are:
- There is no dirty flag, so the model has none.
- `load_file` accepts a file with no plots (src/main.rs:244), so `Document.Load` keeps an empty list as it is.
- After a load followed by undo, `next_id` can fall to or below the id of a live plot (second finding below).
- Search resumes at `actual_start + 1` (src/main.rs:273), so it reports overlapping hits, and so does the model.

## Model

| member | source | states |
|---|---|---|
| `History.PushCapped` | src/main.rs:136-139 | the pushed snapshot is the newest entry, only the oldest entries are evicted (the result is a suffix of the queue plus the new entry), and the queue never exceeds 100 |
| `History.Record` | src/main.rs:131-141 | the current document becomes the newest undo entry, redo history is empty, both queues stay within the cap |
| `History.Undo` | src/main.rs:143-156 | with an empty undo queue nothing changes; the queues stay within the cap |
| `History.Redo` | src/main.rs:158-171 | with an empty redo queue nothing changes; the queues stay within the cap |
| `History.UndoRevertsEdit` | src/main.rs:131-156 | undo right after a recorded edit shows the document from before the edit, and the edited document is the only redo entry |
| `History.RedoAfterUndo` | src/main.rs:143-171 | redo right after undo shows the pre-undo document and gives back the undo queue exactly; the redo queue loses its oldest entry only when it was full |
| `History.UndoAfterRedo` | src/main.rs:143-171 | undo right after redo shows the pre-redo document and gives back the redo queue exactly |
| `History.PushFullEvictsOldest` | src/main.rs:136-139 | pushing onto a full queue drops exactly its oldest entry and keeps the rest in order |
| `Document.Initial` | src/main.rs:109-128 | the starting document holds exactly one empty plot with id 0, nothing composed, the counter at 1 and no history, and is well formed: 1 to 1024 plots, distinct ids, the counter above every id |
| `Document.SaveState` | src/main.rs:131-141 | `save_state_for_undo`: the transition keeps both history queues within the cap of 100; `Document.SaveStateRecords` states what it records |
| `Document.SaveStateRecords` | src/main.rs:131-141 | `save_state_for_undo` leaves plots, composed text and counter untouched, pushes a snapshot of them as the newest undo entry (front-evicting at 100), and empties redo |
| `Document.Undo` | src/main.rs:143-156 | `undo`: the transition keeps both history queues within the cap of 100; `Document.UndoRestores` states what it shows and moves |
| `Document.UndoRestores` | src/main.rs:143-156 | undo never touches the counter; with no undo entry it changes nothing; otherwise it shows the newest undo entry, pops it, and the document it replaced becomes the newest redo entry |
| `Document.Redo` | src/main.rs:158-171 | `redo`: the transition keeps both history queues within the cap of 100; `Document.RedoRestores` states what it shows and moves |
| `Document.RedoRestores` | src/main.rs:158-171 | the mirror image of undo, with the roles of the queues exchanged |
| `Document.UndoThenRedo` | src/main.rs:143-171 | undo followed by redo gives back the plots, composed text and undo queue from before the undo |
| `Document.RedoThenUndo` | src/main.rs:143-171 | redo followed by undo gives back the plots, composed text and redo queue from before the redo |
| `Document.EditThenUndo` | src/main.rs:131-156 | after any operation that recorded a snapshot, undo shows the document as it was before that operation |
| `Document.ComposeDoc` | src/main.rs:173-180 | `compose`: the transition keeps both history queues within the cap of 100; the lemmas below state the composed text |
| `Document.ComposeHoldsPlot` | src/main.rs:173-180 | after compose, every plot's text can be read back from the composed text at its offset |
| `Document.ComposeSeparatesPlots` | src/main.rs:173-180 | after compose, exactly the separator stands between each plot and the next |
| `Document.ComposeLength` | src/main.rs:173-180 | the composed text is as long as all plot texts plus one separator per pair of neighbours: no leading or trailing separator |
| `Document.ComposeKeepsPlots` | src/main.rs:173-180 | compose leaves the plots and the counter as they are and records a snapshot of the document from before, exactly as `save_state_for_undo` does |
| `Document.NewDocument` | src/main.rs:182-190 | whatever came before, the new document holds exactly one empty plot with id 0, nothing composed and the counter at 1; it is well formed and both history queues are empty, the snapshot taken first included |
| `Document.AddPlotAfter` | src/main.rs:192-203 | `add_plot_after`, called with an index in range or at the cap: the transition keeps both history queues within the cap of 100; `Document.AddPlotAfterInserts` states the insertion |
| `Document.AddPlotAfterInserts` | src/main.rs:192-203 | with 1024 plots nothing changes, not even the history; otherwise exactly one empty plot carrying the old counter appears right after `index`, removing it gives back the old list, the counter rises by one and a snapshot is recorded |
| `Document.AddPlotAfterKeepsWellFormed` | src/main.rs:192-203 | adding a plot keeps ids distinct, below the counter, and the list within 1 to 1024 plots |
| `Document.RemovePlot` | src/main.rs:205-211 | `remove_plot`, called with an index in range or with at most one plot: the transition keeps both history queues within the cap of 100; `Document.RemovePlotRemoves` states the removal |
| `Document.RemovePlotRemoves` | src/main.rs:205-211 | with one plot (or none) nothing changes; otherwise exactly the plot at `index` is gone, the others keep their order, the counter stays and a snapshot is recorded; a non-empty list stays non-empty |
| `Document.RemovePlotKeepsWellFormed` | src/main.rs:205-211 | removing a plot keeps the document well formed |
| `Document.MovePlotUp` | src/main.rs:213-219 | `move_plot_up`, called with index 0 or an index in range: the transition keeps both history queues within the cap of 100; `Document.MovePlotUpSwaps` states the exchange |
| `Document.MovePlotUpSwaps` | src/main.rs:213-219 | the first plot stays put; any other trades places with the one above it, every other position and the multiset of plots are unchanged |
| `Document.MovePlotUpKeepsWellFormed` | src/main.rs:213-219 | moving up keeps the document well formed |
| `Document.MovePlotDown` | src/main.rs:221-227 | `move_plot_down`, called with at least one plot: the transition keeps both history queues within the cap of 100; `Document.MovePlotDownSwaps` states the exchange |
| `Document.MovePlotDownSwaps` | src/main.rs:221-227 | the last plot (or any later index) stays put; any other trades places with the one below it, every other position and the multiset of plots are unchanged |
| `Document.MovePlotDownKeepsWellFormed` | src/main.rs:221-227 | moving down keeps the document well formed |
| `Document.MoveDownThenUp` | src/main.rs:213-227 | moving a plot down and then back up restores the plot list |
| `Document.Load` | src/main.rs:243-246 | the document part of `load_file`: the transition keeps both history queues within the cap of 100; `Document.LoadTakesFile` states what is loaded |
| `Document.LoadTakesFile` | src/main.rs:243-246 | load records a snapshot, shows the file's plots and composed text as they are, and sets the counter to the least value above every loaded id (1 for an empty list) |
| `Document.ReplaceAll` | src/main.rs:291-306 | with an empty search text nothing changes, not even the history; the counter never changes |
| `Document.ReplaceAllEffect` | src/main.rs:291-306 | otherwise every plot keeps its id and position, each plot text and the composed text are replaced as `str::replace` does, and a snapshot is recorded |
| `Document.ReplaceAllKeepsWellFormed` | src/main.rs:291-306 | replacing keeps the document well formed |
| `Document.ConfirmDelete` | src/main.rs:723-728 | the "yes" of the delete confirmation, by id: the transition keeps both history queues within the cap of 100; `Document.ConfirmDeleteRemovesId` states the removal |
| `Document.ConfirmDeleteRemovesId` | src/main.rs:723-728 | for a document with distinct ids, confirming removes the plot carrying the id when there is one and more than one plot, keeping all other plots; otherwise the plots are untouched |
| `Document.AddToInitial` | src/main.rs:192-203 | adding after the only plot of a fresh document gives ids 0 and 1, the counter 2 and one snapshot of the fresh document |
| `Document.LoadOnlyIdZero` | src/main.rs:243-246 | loading a file holding only id 0 drops the counter to 1 and records the replaced document as the newest undo entry |
| `Document.AddThenLoad` | src/main.rs:192-203 | adding a plot to a fresh document and then loading a file holding only id 0 leaves the counter at 1 and the two-plot document as the newest undo entry |
| `Document.UndoAfterAddThenLoad` | src/main.rs:143-156 | undoing that load brings back ids 0 and 1 but leaves the counter at 1 |
| `Document.UndoAfterLoadReusesId` | src/main.rs:143-156 | as written, add, load a file holding only id 0, undo, add leaves two plots with id 1 |
| `Document.UndoFreshIds` | src/main.rs:143-156 | the corrected `undo` (second finding): the transition keeps both history queues within the cap of 100; `Document.UndoFreshIdsRaises` states the raised counter |
| `Document.UndoFreshIdsRaises` | src/main.rs:143-156 | the corrected undo shows and records what undo does, never lowers the counter, and leaves it above every restored id |
| `Document.RedoFreshIds` | src/main.rs:158-171 | the corrected `redo`: the transition keeps both history queues within the cap of 100; `Document.RedoFreshIdsRaises` states the raised counter |
| `Document.RedoFreshIdsRaises` | src/main.rs:158-171 | the same for the corrected redo |
| `Document.UndoFreshIdsWellFormed` | src/main.rs:143-156 | after the corrected undo of a snapshot with distinct ids, the document is well formed and a following add keeps ids distinct |
| `Document.UndoFreshIdsOverStaleCounter` | src/main.rs:143-156 | when undo brings back ids 0 and 1 with the counter at 1, the corrected undo raises the counter to 2 |
| `Document.UndoFreshIdsAfterAddThenLoad` | src/main.rs:143-156 | the corrected undo of the same load brings back ids 0 and 1 and raises the counter to 2 |
| `Document.UndoFreshIdsAfterLoad` | src/main.rs:143-156 | the same add, load, undo, add steps with the corrected undo give the new plot the fresh id 2, all ids distinct |
| `Fragments.InsertAfter` | src/main.rs:202 | `insert(index + 1, p)`: the list grows by one and `p` stands right after `index`; `Fragments.InsertAfterShape` states the rest |
| `Fragments.InsertAfterShape` | src/main.rs:202 | `insert(index + 1, p)` puts `p` right after `index`, shifts the later plots by one, keeps the earlier ones, and adds exactly `p` to the multiset |
| `Fragments.RemoveUndoesInsert` | src/main.rs:202 | removing the inserted plot gives back the list |
| `Fragments.RemoveAt` | src/main.rs:210 | `remove(index)`: the list shrinks by one; `Fragments.RemoveAtShape` states which plot goes |
| `Fragments.RemoveAtShape` | src/main.rs:210 | `remove(index)` keeps the plots before `index`, shifts the later ones down by one, and removes exactly that plot from the multiset |
| `Fragments.RemoveAtKeepsOthers` | src/main.rs:210 | every plot other than the removed one is still in the list |
| `Fragments.RemoveAtDropsId` | src/main.rs:724-725 | with distinct ids, the removed plot's id no longer occurs |
| `Fragments.Swap` | src/main.rs:218 | `swap(i, j)`: the list keeps its length and is a permutation of the old one |
| `Fragments.SwapShape` | src/main.rs:218 | `swap(i, j)` exchanges the two positions, keeps all others, and is a permutation |
| `Fragments.SwapTwice` | src/main.rs:218 | swapping twice gives back the list |
| `Fragments.InsertKeepsWellFormed` | src/main.rs:192-203 | inserting an empty plot with the counter as id under the cap keeps ids distinct and below the raised counter |
| `Fragments.RemoveKeepsWellFormed` | src/main.rs:205-211 | removing from two or more plots keeps the list well formed |
| `Fragments.SwapKeepsWellFormed` | src/main.rs:213-227 | swapping keeps the list well formed |
| `Fragments.PositionOfId` | src/main.rs:724 | the lookup by id: the first index carrying the id, and none exactly when no plot carries it |
| `Fragments.MaxId` | src/main.rs:246 | the largest id: no plot's id exceeds it, some plot carries it, and it is 0 for an empty list |
| `Fragments.LoadedNextIdIsFresh` | src/main.rs:246 | `max + 1` lies above every id and is the least such bound for a non-empty list |
| `Fragments.ReplaceInPlots` | src/main.rs:297-299 | each plot keeps its id and position and its text is replaced |
| `Fragments.ReplaceKeepsWellFormed` | src/main.rs:297-299 | replacing in the plot texts keeps the list well formed |
| `Text.NextBoundary` | src/main.rs:273 | the resume point of the corrected scan lies strictly after the hit and on a char boundary |
| `Text.NextBoundarySkips` | src/main.rs:273 | every offset it skips holds a continuation byte |
| `Text.Find` | src/main.rs:265 | `str::find`: a reported occurrence lies wholly inside the text; `Text.FindExact` states which one is reported |
| `Text.FindExact` | src/main.rs:265 | `str::find` returns an occurrence with none before it, and nothing exactly when there is no occurrence |
| `Text.FindLeftmost` | src/main.rs:265 | an occurrence with none before it is the one `find` returns |
| `Text.FindSlice` | src/main.rs:265-266 | `find` on `s[start..]` shifted by `start` is the first occurrence at or after `start` |
| `Text.MatchesFromMembers` | src/main.rs:264-274 | the offsets listed from `k` are exactly the occurrences at or after `k` |
| `Text.MatchesFromAscending` | src/main.rs:264-274 | those offsets are listed in strictly ascending order |
| `Text.AllMatchesExact` | src/main.rs:264-274 | the offsets listed for a text are exactly its occurrences, ascending, overlapping ones included |
| `Text.Replace` | src/main.rs:298 | `str::replace`: replacing by a text of the pattern's length keeps the length; the lemmas below state the result |
| `Text.ReplaceAtFind` | src/main.rs:298 | `str::replace` copies what precedes the leftmost occurrence, emits the replacement, and carries on after the occurrence |
| `Text.ReplaceWithoutFind` | src/main.rs:298 | with no occurrence found, the text is copied unchanged |
| `Text.ReplaceWithoutMatch` | src/main.rs:298 | a text with no occurrence at all is left unchanged |
| `Text.ReplaceByItself` | src/main.rs:298 | replacing a pattern by itself changes nothing |
| `Text.ReplaceLeftmostExample` | src/main.rs:298 | `"aaa"` with `"aa"` replaced by `"b"` gives `"ba"`, although `"aa"` occurs at 0 and 1 |
| `Compose.Join` | src/main.rs:174-179 | `join`: the first part is a prefix of the joined text |
| `Compose.JoinLength` | src/main.rs:174-179 | the joined text is as long as the parts plus one separator between each pair of neighbours |
| `Compose.JoinAppend` | src/main.rs:174-179 | joining one more part appends one separator and that part |
| `Compose.JoinPart` | src/main.rs:174-179 | each part can be read back from the joined text at its offset |
| `Compose.JoinSeparatorAfter` | src/main.rs:174-179 | exactly the separator stands between each part and the next |
| `Compose.ComposeTwoPlots` | src/main.rs:174-179 | `["A", "B"]` composes to `"A\n\n---\n\nB"` |
| `Search.ResultsAtIndex` | src/main.rs:267-272 | one result per hit offset, in order, each covering `[start, start + len)` in the given place |
| `Search.ResultsAtMember` | src/main.rs:267-272 | a result is listed exactly when it has the place, a listed offset, and `end == start + len` |
| `Search.PlotResultsExact` | src/main.rs:262-275 | a result is reported for the plots exactly when it marks a real occurrence in the plot it names |
| `Search.PlotResultsOrdered` | src/main.rs:262-275 | plot results name existing plots and come by plot index, then by offset |
| `Search.SearchAll` | src/main.rs:254-289 | what `search` reports: nothing for an empty search text; `Search.SearchExact` and `Search.SearchOrdered` state the rest |
| `Search.SearchExact` | src/main.rs:254-289 | a result is reported exactly when the search text is non-empty and the result marks a real occurrence in a plot or in the composed text |
| `Search.SearchOrdered` | src/main.rs:254-289 | results come plot by plot in order, each plot's by offset, then the composed text's by offset |
| `Search.MatchesAfterFind` | src/main.rs:265-273 | one `find` from `start` gives the first occurrence from `start` on, and the rest follow it |
| `Search.MatchesSkipContinuation` | src/main.rs:273 | for a search text that starts on a char boundary, resuming at the next boundary instead of `hit + 1` skips no occurrence |
| `Search.Scan` | src/main.rs:264-274 | the scan loop, resuming at the next char boundary after each hit; its meaning is `Search.ScanIsMatchesFrom` |
| `Search.ScanIsMatchesFrom` | src/main.rs:264-274 | the corrected scan from `start` finds every occurrence from `start` on, overlapping ones included |
| `Search.ScanMatches` | src/main.rs:264-274 | the scan loop over one text reports one result per occurrence, ascending, overlapping ones included |
| `Search.ScanFrom` | src/main.rs:264-274 | the scan loop as written, resuming at `actual_start + 1`, with `None` where the slice would panic: every reported offset lies at or after `start` and its occurrence inside the text |
| `Search.ScanFromAgrees` | src/main.rs:264-274 | whenever the scan as written does not panic, it reports exactly the occurrences |
| `Search.ScanFromPanicsOnMultiByteNeedle` | src/main.rs:265-273 | as written, searching "あ" for "あ" slices the text inside the character, although the text holds one occurrence |
| `Search.OverlapExampleMatches` | src/main.rs:262-275 | `"aa"` occurs in `"aaa"` at 0 and 1 |
| `Search.OverlapExampleScanFrom` | src/main.rs:264-274 | the scan as written reports both overlapping occurrences in `"aaa"` |
| `Search.SearchOverlapExample` | src/main.rs:254-289 | searching the plot `"aaa"` for `"aa"` reports `[0, 2)` and `[1, 3)` in that plot |
| `App.StoryComposerApp.constructor` | src/main.rs:109-128 | the composer starts with the initial document, no path, empty search and replace texts, no results, nothing pending |
| `App.StoryComposerApp.SaveStateForUndo` | src/main.rs:131-141 | the object's new state is `Document.SaveState` of the old one |
| `App.StoryComposerApp.Undo` | src/main.rs:143-156 | the object's new state is `Document.Undo` of the old one |
| `App.StoryComposerApp.Redo` | src/main.rs:158-171 | the object's new state is `Document.Redo` of the old one |
| `App.StoryComposerApp.UndoFreshIds` | src/main.rs:143-156 | the corrected undo: the new state is `Document.UndoFreshIds` of the old one |
| `App.StoryComposerApp.RedoFreshIds` | src/main.rs:158-171 | the corrected redo: the new state is `Document.RedoFreshIds` of the old one |
| `App.StoryComposerApp.Compose` | src/main.rs:173-180 | the new state is `Document.ComposeDoc` of the old one |
| `App.StoryComposerApp.NewDocument` | src/main.rs:182-190 | the new state is `Document.NewDocument` of the old one, and no file path is kept |
| `App.StoryComposerApp.AddPlotAfter` | src/main.rs:192-203 | the new state is `Document.AddPlotAfter` of the old one |
| `App.StoryComposerApp.RemovePlot` | src/main.rs:205-211 | the new state is `Document.RemovePlot` of the old one |
| `App.StoryComposerApp.MovePlotUp` | src/main.rs:213-219 | the new state is `Document.MovePlotUp` of the old one |
| `App.StoryComposerApp.MovePlotDown` | src/main.rs:221-227 | the new state is `Document.MovePlotDown` of the old one |
| `App.StoryComposerApp.LoadFile` | src/main.rs:243-246 | given the parsed file, the new state is `Document.Load` of the old one |
| `App.StoryComposerApp.Search` | src/main.rs:254-289 | the results are cleared, the index reset to 0, and the results become `SearchAll`, which `SearchExact` and `SearchOrdered` characterise |
| `App.StoryComposerApp.ReplaceAll` | src/main.rs:291-306 | the new state is `Document.ReplaceAll` of the old one; the search results are dropped unless the search text is empty |
| `App.StoryComposerApp.ReplaceInEachPlot` | src/main.rs:297-299 | the loop leaves every plot replaced as `ReplaceInPlots` says |
| `App.StoryComposerApp.ConfirmDelete` | src/main.rs:723-728 | "yes" performs `Document.ConfirmDelete` for the pending id and closes the confirmation |
| `App.StoryComposerApp.CancelDelete` | src/main.rs:729-731 | "no" closes the confirmation and changes nothing else |
| `App.StoryComposerApp.ClickPlotButton` | src/main.rs:797-810 | each button queues its action for this plot only when it applies ("+" under the cap, "-" with more than one plot, "↑" below the first, "↓" above the last), and a queued action stays dispatchable |
| `App.StoryComposerApp.DispatchPending` | src/main.rs:736-745 | the queued action is taken: add and move perform their `Document` transitions, a delete request only opens the confirmation for that id, and nothing is left queued |

## Left out

- Font loading, widget drawing, styling and layout, and the edit-menu entries that do nothing: presentation only.
- `save_file`, reading the file and parsing JSON in `load_file`, file dialogs, `get_default_dir`, and setting the file path after a load or save: file system and foreign libraries. `LoadFile` takes the already parsed `SaveData`.
- Keyboard shortcuts and the visibility flags of the search and replace dialogs: they only decide when the modelled operations are called.
- Typing into a plot (the text widget edits `plots[i].text` directly): not an operation of the document model.
- `main` and `build.rs`: application launch and Windows resources.
- The dirty flag: the code has none.
- Text is any byte sequence. UTF-8 validity of plot texts is not modelled. Only the search text is required to start on a char boundary, as every Rust string does.
- Ids and `next_id` are unbounded. The `usize` overflow of `next_id += 1` and `max + 1` is not modelled.
- `App.StoryComposerApp.AddPlotAfter`, `RemovePlot` and `MovePlotUp` require an index in range, because Rust panics otherwise. The buttons only queue such indices.
- `App.StoryComposerApp.MovePlotDown` requires at least one plot, because `len() - 1` underflows on an empty list. Only a load of an empty file can produce one.
- `App.StoryComposerApp.DispatchPending` requires the queued index to be one the action accepts. The code does not check again when an action queued one frame earlier has gone stale; a stale index would panic.
- `App.StoryComposerApp.ClickPlotButton` models one click per frame. Two clicks in the same frame leave the last one queued, as the code does.
- `Document.ConfirmDeleteRemovesId`: states that the id is gone only for documents with distinct ids. With duplicate ids (second finding) only the first plot carrying the id is removed, and `Fragments.PositionOfId` states exactly that.

## Findings

| source | as written | input that shows it | evidently intended | confidence | as-written member | corrected member |
|---|---|---|---|---|---|---|
| src/main.rs:273 | after a hit the scan resumes at `actual_start + 1` and slices `text[start..]` there | plot text "あ" (bytes E3 81 82), search text "あ": the next slice starts at byte 1, inside the character, and Rust panics | resume at the next char boundary, which finds the same hits, since no occurrence of a string can start inside a character | high, not executed | `Search.ScanFrom` with `Search.ScanFromPanicsOnMultiByteNeedle` | `Search.ScanMatches` (with `Search.ScanIsMatchesFrom`), used by `App.StoryComposerApp.Search` |
| src/main.rs:143-171 | undo and redo restore the plots but leave `next_id` as it is, and load lowers `next_id` to one past the loaded ids | add a plot to a new document (ids 0, 1), load a file holding only id 0, undo, add a plot after plot 0: ids 0, 1, 1 | `next_id` stays above every live id, so every new plot gets a fresh id | high, not executed | `Document.UndoAfterLoadReusesId` | `Document.UndoFreshIds` / `Document.RedoFreshIds` (with `Document.UndoFreshIdsAfterLoad`, `Document.UndoFreshIdsWellFormed`), performed by `App.StoryComposerApp.UndoFreshIds` / `RedoFreshIds` |
