# Grid widget: viewport, selection and navigation

A Dafny model of the data grid widget `com.qwirx.grid.Grid` and its
`NavigationBar`. The grid shows the rows of a data source through a fixed
list of table-row *slots* and scrolls over the data. It keeps a rectangular
*selection* that the mouse edits in several *drag modes*. It follows a
record *cursor*, which the navigation bar's buttons move.

The widget's state is one immutable record (`Grid.Grid`) and every handler
is a pure transition. Failed `goog.asserts` checks and the "emergency
brakes" error are values (`Results.Fault`) returned through `Result`.

| module | file | what it holds |
|---|---|---|
| `Results` | results.dfy | `Option`, `Result`, and the grid's fatal `Fault`s |
| `Cursor` | cursor.dfy | positions BOF / row / EOF / NEW and the cursor moves the grid relies on |
| `NavigationBar` | navigation_bar.dfy | button states, the button → cursor call mapping, the page size, exception-to-event conversion |
| `Selection` | selection.dfy | the selection rectangle, its adjustment on insert/delete and row-count shrink, highlight derivation |
| `Viewport` | viewport.dfy | slots, the geometry oracle, (fully) visible row counts, slot growth, repaint ranges, scroll arithmetic |
| `Grid` | grid.dfy | the grid record; mouse, scroll, row-count, cursor-move and key handlers |

Modelling choices:

- **Geometry.** Pixel geometry is an oracle. `Viewport.Layout` says, for each
  slot index, whether the slot is fully visible, partially visible, has zero
  height, or lies past the page-offset brake. `Viewport.Monotone` captures
  that rows are stacked.
- **Selection values.** `NoSelection` is the shared NO_SELECTION object. The
  widget compares it by identity, so it is a constructor of its own.
  `Blank` is the empty object that replaces NO_SELECTION when an edit begins;
  its corners are undefined.
- **The cursor.** The cursor lives outside the grid record. Handlers that read
  its position take the position as a parameter. A mouse event carries the
  data rows its cell showed when the event arrived (`Grid.DragInfo`), as
  `getDragInfo` resolves them before anything else happens.
  `Grid.HandleMouseDown` composes the whole handler: it asks the cursor for
  `Grid.MouseDownTarget`, runs the grid's cursor-move handler when the cursor
  announces a move (which may scroll), and then starts the selection
  (`Grid.MouseDown`) at the rows the event carried. If the cursor throws
  instead, the exception leaves the handler and no selection is started.
- **Selection copies.** `prepareForSelection` keeps a copy of the selection
  that the next `updateSelection_` diffs against and then drops. The record
  holds it as `pending`. Without a copy, an unforced update redraws nothing.
- **Quirks.** The code's quirks are modelled as written, each exhibited by a
  lemma:
  - `setScroll` has no lower clamp (`Viewport.SetScrollNoLowerClamp`,
    `Viewport.EofScrollGoesNegative`).
  - Truncation keeps an end row equal to the row count
    (`Selection.TruncateKeepsEndAtRowCount`).
  - `handleRowUpdate` compares the data row with the slot count
    (`Viewport.RowUpdateMissesScrolledRow`,
    `Viewport.RowUpdateAssertsAboveScreen`).
  - The key handler's upper column clamp never fires
    (`Grid.TabPastLastColumn`).
  - `getVisibleRowCount` yields nothing when no slot is visible
    (`Viewport.VisibleRowCount`).

## Model

| member | source | states |
|---|---|---|
| `Cursor.Locate` | Grid_test.js:1221-1349 | a target row number below 0 is BOF, one at or past the count is EOF, anything else is that row |
| `Cursor.SetPosition` | Grid_test.js:1221-1349 | a dirty cursor refuses every move with DiscardBlocked; otherwise the cursor moves, row indices past the end become EOF, and the result is a valid position over the same rows |
| `Cursor.MoveRelative` | Grid_test.js:1221-1349 | IllegalMove exactly for a backward move from BOF or a forward move from EOF; otherwise lands on the row `ordinal + n` (BOF counts as -1, EOF/NEW as the count), clamped to the sentinels |
| `Cursor.MoveFirst` | Grid_test.js:1221-1349 | a clean cursor reaches row 0, or EOF over an empty data source |
| `Cursor.MoveLast` | Grid_test.js:1221-1349 | a clean cursor reaches the last row, or BOF over an empty data source |
| `Cursor.MoveNew` | Grid_test.js:1233-1240 | a clean cursor reaches the pending NEW row without changing the row count |
| `Cursor.MovesKeepCursorValid` | NavigationBar.js:293-295 | every successful move leaves a valid cursor; over an empty data source a relative move never lands in the data |
| `Cursor.MoveRelativeInverse` | Grid_test.js:1242-1283 | a move by `n` then by `-n` that stays inside the data returns to the starting cursor |
| `Cursor.MoveRelativeAdditive` | Grid_test.js:1242-1283 | two relative moves from a row compose into one move by their sum |
| `Cursor.SentinelMoves` | Grid_test.js:1221-1349 | from BOF, next gives row 0 and a page gives row `page-1`; from EOF, prev gives the last row and a page back gives `count-page`; backwards from BOF and forwards from EOF raise IllegalMove |
| `NavigationBar.GetPageSize` | NavigationBar.js:92-95 | the value read is the bar's page size: writing it back leaves the bar unchanged |
| `NavigationBar.SetPageSize` | NavigationBar.js:92-106 | the page size read back is the one last set |
| `NavigationBar.PageSizeRoundTrip` | NavigationBar.js:92-106 | reading gives what was last set, writing back what was read changes nothing, and a later write wins |
| `NavigationBar.CallFor` | NavigationBar.js:212-271 | first → moveFirst, last → moveLast, new → moveNew; prev/next move by ∓1, the page buttons by ∓pageSize |
| `NavigationBar.ButtonStates` | NavigationBar.js:297-306 | first enabled iff not on row 0; prev/prevPage iff not at BOF; next/nextPage iff not at EOF; last iff the count is -1 or not on the last row |
| `NavigationBar.OnCursorMove` | NavigationBar.js:283-307 | the row-number field shows the position in every case, including when the assertion then fails; the assertion fails exactly when an empty data source has a row position, and otherwise the buttons follow `ButtonStates` |
| `NavigationBar.Click` | NavigationBar.js:212-271 | a completed click leaves a clean, valid cursor over the same rows; a dirty cursor never completes, and First, Last and New complete exactly on a clean cursor, a refusal being intercepted or swallowed; New lands on NEW, First on row 0 and Last on the last row when rows exist; only IllegalMove is ever rethrown |
| `NavigationBar.SendEventOnException` | NavigationBar.js:170-210 | no exception completes; an intercepted exception stops there; an unhandled DiscardBlocked is swallowed; any other unhandled exception is rethrown, carrying the same error |
| `NavigationBar.ArrowButtonsPredictIllegalMove` | NavigationBar.js:297-301 | with a positive page size, a prev/next/page button is enabled iff its cursor call does not raise IllegalMove |
| `NavigationBar.FirstButtonMeansMovement` | NavigationBar.js:297 | over a non-empty data source and a clean cursor, First is enabled iff moveFirst changes the position |
| `NavigationBar.LastButtonMeansMovement` | NavigationBar.js:306 | over a non-empty data source and a clean cursor, Last is enabled iff moveLast changes the position |
| `NavigationBar.EnabledClickNeverThrows` | NavigationBar.js:170-271 | clicking any enabled button, with a positive page size, never rethrows an exception |
| `NavigationBar.FieldShowsPositionAfterClick` | NavigationBar.js:283-286 | after a click completes, the bar's refresh succeeds and the row-number field shows the new position |
| `NavigationBar.PageButtonsFromSentinels` | NavigableGrid.js:51 | with the page size set to the grid's fully visible rows, NextPage from BOF lands on row `rows-1`, PrevPage from EOF on `count-rows`; Prev at BOF is intercepted and Next at EOF is rethrown when unhandled |
| `Selection.AdjustSelectionAround` | Grid.js:695-738 | no selection, or one wholly before the edit, is unchanged; deleting the single selected row clears it; an edit inside the range moves only y2 by the amount; an edit at or before the start moves y1 and y2 together; out-of-order cases and a corner-less selection fail the assertions |
| `Selection.InsertShiftLaw` | Grid.js:713-734 | for an ordered selection, an insert at or before y1 translates it, one inside grows it, one after changes nothing; the result stays ordered and never fails an assertion |
| `Selection.DeleteShiftLaw` | Grid.js:700-734 | for an ordered selection, a delete clears it iff it was the single selected row; otherwise a delete before translates, one inside shrinks, one after changes nothing, and the result stays ordered |
| `Selection.InsertKeepsSelectedRows` | Grid.js:748-752 | every row an ordered selection covered is still covered, at its shifted index, after an insert |
| `Selection.DeleteKeepsSelectedRows` | Grid.js:776-780 | every covered row other than the deleted one is still covered, at its shifted index, after a delete |
| `Selection.InsertThenDeleteRestores` | Grid.js:695-738 | deleting the row just inserted at the same index gives back the ordered selection |
| `Selection.InsertIntoSelectedArea` | Grid_test.js:1447-1486 | the test's insert sequence takes {1,2,3,4} through {1,3,3,5}, {1,4,3,6}, {1,4,3,7} to {1,4,3,8} |
| `Selection.ReversedSelectionDeleteFails` | Grid.js:713-721 | deleting the end row of a selection dragged upwards fails the "within the selection" assertion |
| `Selection.TruncateToRowCount` | Grid.js:494-514 | a selection wholly at or past the new row count becomes none; otherwise only the larger row corner, and only when it exceeds the count, is pulled back to `count-1`; columns and origin are kept |
| `Selection.TruncateIdempotent` | Grid.js:494-514 | truncating twice to the same count equals truncating once |
| `Selection.TruncateBoundsOrdered` | Grid.js:494-514 | an ordered selection stays ordered with the same start and ends no later than before and no later than the row count |
| `Selection.TruncateKeepsEndAtRowCount` | Grid.js:506 | an end row equal to the row count survives truncation |
| `Selection.RowHighlighted` | Grid.js:1229-1240 | a data row is highlighted iff it lies between the smaller and larger of y1 and y2; NO_SELECTION covers only row -1; a corner-less selection highlights nothing |
| `Selection.HighlightedColumns` | Grid.js:982-998 | the highlighted columns are exactly those between the smaller and larger of x1 and x2, and none when the smaller is negative |
| `Viewport.FullyVisibleRowCount` | Grid.js:839-851 | the count is one past the highest fully visible slot, with no fully visible slot at or above it, or 0 |
| `Viewport.FullyVisibleIsPrefix` | Grid.js:839-851 | with stacked rows, a slot is fully visible iff its index is below the count |
| `Viewport.VisibleRowCount` | Grid.js:824-833 | undefined exactly when no slot is partially visible; otherwise one past the highest partially visible slot |
| `Viewport.FullyVisibleWithinVisible` | Grid.js:824-851 | with stacked rows, any fully visible slot makes the visible count defined, and the fully visible count never exceeds it |
| `Viewport.SetVisibility` | Grid.js:1389-1398 | slot `i` is shown iff `i + scrollY` is below the row count; nothing else about the slots changes |
| `Viewport.Grow` | Grid.js:1400-1421 | keeps the existing slots and appends visible, unhighlighted ones, each under a fully visible slot and with a data row behind it; stops only when the last slot is not fully visible, the data is exhausted, or the new slot has zero height; fails with the emergency brake only past slot 1000 or the page-offset limit |
| `Viewport.UpdateRowVisibility` | Grid.js:1387-1422 | never removes slots; every slot, old or new, is shown iff a data row is behind it; old highlight flags are kept and new slots are unhighlighted |
| `Viewport.GrowReachesScreenOrData` | Grid.js:1400-1421 | when exactly the first `f` positions fit fully, growth stops at `min(f+1, rowCount-scrollY)` slots and never shrinks the list |
| `Viewport.ScrolledPastDataHidesAll` | Grid.js:1387-1422 | scrolled past the data, every slot is hidden and none is added |
| `Viewport.UpdateRowsFromIndex` | Grid.js:647-670 | repaints, in increasing order, exactly the shown slots whose data row is at or after the changed row |
| `Viewport.RowUpdateTarget` | Grid.js:762-769 | repaints only when the data row is below the slot count, then the slot showing it; a slot outside the table fails the assertion |
| `Viewport.RowUpdateExactAtTop` | Grid.js:762-769 | unscrolled, a row is repainted iff a slot shows it |
| `Viewport.RowUpdateMissesScrolledRow` | Grid.js:765 | scrolled down by 3 with 4 slots, the on-screen data row 5 is not repainted |
| `Viewport.RowUpdateAssertsAboveScreen` | Grid.js:765 | scrolled down by 2 with 4 slots, an update to data row 1 fails the repaint assertion |
| `Viewport.SetScroll` | Grid.js:526-591 | offsets before the last row are kept (no lower clamp), later ones become the last row or 0; the maximum is the larger of `rowCount-fullyVisible` and the offset; the slider value is the maximum minus the offset |
| `Viewport.ScrollEventRoundTrip` | Grid.js:1464-1469 | feeding the slider's `maximum - value` back into setScroll reproduces the same update and does not repaint |
| `Viewport.SetScrollBounds` | Grid.js:532-544 | a non-negative request ends on an existing row (0 with no rows) and the slider value lies in `[0, maximum]` |
| `Viewport.SetScrollNoLowerClamp` | Grid.js:532-544 | a negative request is kept, so the slider value exceeds its maximum |
| `Viewport.RowCountChangeScenario` | Grid_test.js:714-792 | the row-count test's sequence of maxima, offsets and slider values |
| `Viewport.CursorMoveScroll` | Grid.js:1481-1523 | BOF scrolls to 0; EOF and NEW to `rowCount - fullyVisible`; a row lands inside the window `[s, s+fullyVisible-1]`, and a row already in the window keeps the offset |
| `Viewport.CursorMoveScrollIsMinimal` | Grid.js:1514-1523 | no offset whose window holds the row is closer to the old offset than the one chosen |
| `Viewport.CursorMoveScenario` | Grid_test.js:1221-1288 | the navigation test's expected offsets for rows inside, just below and above the window, EOF and NEW |
| `Viewport.EofScrollGoesNegative` | Grid.js:1504-1529 | with fewer rows than fit, moving to EOF requests, and setScroll keeps, a negative offset |
| `Grid.GetRowCount` | Grid.js:867-879 | the grid's row count is the data count plus one exactly while on the temporary NEW row |
| `Grid.GetCurrentGridRowIndex` | Grid.js:1014-1027 | the slot index plus the scroll offset is the cursor's data row; on the NEW row that row is the data count |
| `Grid.UpdateCurrentRowHighlight` | Grid.js:1034-1052 | only the current-row marker changes; it marks slot `i` iff that slot exists and displays the cursor's row |
| `Grid.Rehighlight` | Grid.js:1229-1240 | each slot's flag becomes whether its data row is highlighted; visibility is kept |
| `Grid.UpdateSelection` | Grid.js:1218-1254 | only flags and the column rule change, and the pending copy is dropped; a forced update makes them match the selection; without force and without a copy nothing is redrawn; with a copy, unchanged row corners leave the flags and unchanged column corners leave the rule |
| `Grid.HighlightReadsOnlyCorners` | Grid.js:1229-1249 | row highlighting depends only on y1, y2 and column highlighting only on x1, x2 |
| `Grid.UpdateSelectionRestoresConsistency` | Grid.js:1218-1254 | with a copy pending and the display matching it (or the selection), the diff-based update leaves the display matching the selection |
| `Grid.PrepareForSelection` | Grid.js:908-915 | the copy taken is the selection as it was; NO_SELECTION is replaced by a corner-less selection; nothing else changes; a display that matched the selection now follows the copy |
| `Grid.EditKeepsConsistency` | Grid.js:908-915 | an edit between taking the copy and the unforced update that leaves slots and the column rule alone ends with a display matching the edited selection |
| `Grid.DragInfo` | Grid.js:1060-1101 | a row header or data cell reports the data row `slot + scrollY` at the time of the event; headers and data cells report their column; only data cells carry an editable cell |
| `Grid.SetEditableCell` | Grid.js:1260-1281 | afterwards the editable cell is exactly `newCell`; a different open editor is closed, and the new one opened only when it was not already open |
| `Grid.SetEditableCellIdempotent` | Grid.js:1260-1281 | asking again for the same cell closes and opens nothing |
| `Grid.Prepare` | Grid.js:908-915 | NO_SELECTION is replaced by a corner-less selection; any other selection is kept |
| `Grid.WithOrigin` | Grid.js:937 | records the drag origin without touching the corners |
| `Grid.MouseDownTarget` | Grid.js:917-933 | a click off the grid's cells asks nothing; the row after the last stored one on the temporary NEW row means NEW; headers without a row pass null; the cursor is asked to move only when it is not already there |
| `Grid.MouseDown` | Grid.js:935-973 | a column header selects the column in COLUMNS mode; a row header selects the row the event carried in ROWS mode; a data cell selects its own column and carried row in TEXT mode and becomes editable; the corner only records the origin; text selection follows the mode; scroll and slots are untouched; a matching display stays matching |
| `Grid.AnswerOf` | Grid.js:931-934 | the grid sees the cursor's exception as the same error, and a completed move as an announced move to the cursor's new position |
| `Grid.HandleMouseDown` | Grid.js:917-973 | a click off the cells changes nothing; a click on the cursor's own row is the selection step alone; when the cursor is asked to move and throws, the same exception leaves the handler and no selection step runs; otherwise the only error is the cursor-move handler's emergency brake; a click on a row starts a one-row selection at the row the event carried, with the clicked element as origin |
| `Grid.DirtyCursorRefusesClick` | Grid.js:929-935 | with unsaved edits, a click that asks the cursor to move to a row or NEW ends in DiscardBlocked with no selection started; a click on the cursor's own row succeeds whatever the cursor would answer |
| `Grid.ClickSelectsClickedRow` | Grid.js:917-947 | a click on a data cell or row header selects the row its slot showed before the cursor's move scrolled, and a data cell selects exactly itself |
| `Grid.DraggedSelection` | Grid.js:1139-1184 | a rectangle keeps x1, y1 and its origin while its second corner moves; a selection without corners is unchanged |
| `Grid.Drag` | Grid.js:1139-1184 | only the second corner moves, keeping x1, y1, origin and the mode; a matching display stays matching |
| `Grid.DragTable` | Grid.js:1128-1137 | the second corner follows the table: ROWS mode takes the last column, a row header the scroll x, otherwise the cell's column; COLUMNS mode takes the last row, a column header the scroll y, otherwise the cell's row; the corner keeps both |
| `Grid.MouseOver` | Grid.js:1330-1364 | outside a drag nothing changes; during a drag the second corner follows; in CELLS mode, re-entering the origin switches to TEXT, allows text selection and reopens that cell's editor |
| `Grid.MouseOut` | Grid.js:1366-1385 | leaving the origin cell in TEXT mode switches to CELLS, disables text selection and closes the editor; any other mouse-out changes nothing |
| `Grid.MouseUp` | Grid.js:1316-1328 | on an enabled grid the drag ends (NONE) and text selection is allowed; a disabled grid is unchanged |
| `Grid.MouseUpEndsDrag` | Grid.js:1316-1364 | after a mouse-up on an enabled grid, mouse-over changes nothing |
| `Grid.LeaveAndReenterOrigin` | Grid.js:1340-1384 | leaving the origin of a TEXT drag gives CELLS, and re-entering it restores the grid exactly, except that a pending copy is consumed |
| `Grid.MouseDownStartsTextDrag` | Grid_test.js:172-216 | a click on a data cell starts a drag to which the leave/re-enter round trip applies |
| `Grid.SetSelection` | Grid.js:1195-1203 | the selection becomes the four given corners with the previous origin; nothing else but the highlight changes, and a matching display stays matching |
| `Grid.SetScroll` | Grid.js:526-591 | x, the selection and the drag state are kept; offset, maximum and value follow the scroll arithmetic; an unmoved offset changes nothing else; a moved one re-shows slots for the new offset, re-marks the current row and forces the highlight to match |
| `Grid.RefreshAll` | Grid.js:582-590 | after a move only slots, the column rule, the current-row marker and the copy change; every slot is shown iff a row is behind it, the highlight matches the selection and the copy is dropped |
| `Grid.SetScrollKeepsConsistency` | Grid.js:526-591 | a display that matches the selection still matches after any scroll |
| `Grid.ClipSelection` | Grid.js:494-514 | a selection is copied and truncated to the new row count; NO_SELECTION is left alone with no copy taken |
| `Grid.HandleRowCountChange` | Grid.js:481-519 | the selection is truncated to the new row count; slots are only added and each is shown iff a row is behind it at the final offset; the offset is kept when below the row count and otherwise pulled back to the last row (0 with no rows); the scrollbar maximum is the larger of `rowCount - fit` and the offset, and the value is their difference; an offset that stays keeps every old flag and the column rule and leaves the copy pending; one that moves redraws the highlight and drops the copy |
| `Grid.RowCountChangeKeepsSnapshot` | Grid.js:481-519 | from a matching display, when the offset moved or no slot was added, the display afterwards follows the pending copy; with a selection and a steady offset it matches the copy, which is the old selection; with no selection it matches outright |
| `Grid.HandleCursorMove` | Grid.js:1481-1541 | the NEW-row flag is set iff the new position is NEW, so the row count is the data count plus one exactly then; the selection is kept when the flag does not change |
| `Grid.CursorMoveShowsRow` | Grid.js:1481-1536 | moving to an existing row scrolls it into the window of fully visible rows and marks its slot as current |
| `Grid.NewRowComesAndGoes` | Grid_test.js:1233-1245 | moving onto NEW adds one row, and moving back onto a row removes it |
| `Grid.AdjustAround` | Grid.js:695-738 | the selection follows the adjustment and the handler fails exactly when it does; only the selection, flags and column rule change; with no copy pending nothing is redrawn; with a copy the display matched, the display ends matching |
| `Grid.HandleRowInsert` | Grid.js:748-752 | the selection follows the insert adjustment and the handler fails exactly when it does; offset, slots' visibility and drag state are kept and the copy is dropped |
| `Grid.HandleRowDelete` | Grid.js:776-780 | the selection follows the delete adjustment and the handler fails exactly when it does; offset, slots' visibility and drag state are kept and the copy is dropped |
| `Grid.InsertThenDeleteRow` | Grid.js:748-780 | with an ordered selection, deleting the row just inserted gives back the selection, and the whole grid when no copy was pending |
| `Grid.HandleRowsEvent` | Grid.js:593-618 | a one-row insert or delete event ends at the clamped offset, with the selection truncated to the data count and then adjusted around the row; drag state and x are kept |
| `Grid.RowsEventKeepsHighlight` | Grid.js:593-618 | from a matching display, a rows event whose row-count change neither moves the offset nor adds slots leaves the display matching |
| `Grid.ClampedOffsetLeavesStaleHighlight` | Grid.js:582-590 | three rows scrolled to the last with a one-row window, row 1 selected, row 0 deleted: the offset is pulled back to 1 and slot 0 stays highlighted though the selection is now row 0 |
| `Grid.AdjustAroundWithSnapshot` | Grid.js:1205-1212 | like the adjustment, but taking a copy of the drawn selection first when none is pending, so a matching display ends matching |
| `Grid.HandleRowsEventCorrected` | Grid.js:593-618 | the rows event with that copy: same offset, selection and errors as the event as written |
| `Grid.CorrectedRowsEventKeepsHighlight` | Grid.js:593-618 | from a matching display, the corrected rows event leaves the display matching whenever the offset moved or no slot was added |
| `Grid.KeyMove` | Grid.js:1804-1824 | Down moves one row forward except at EOF; Up one row back except at BOF; other keys do not move |
| `Grid.KeyMoveSkipsRefusedMoves` | Grid.js:1806-1824 | Down and Up ask for no move exactly when the cursor would refuse their step with IllegalMove, and otherwise ask for that step |
| `Grid.KeyColumn` | Grid.js:1826-1857 | Tab moves one column right and Left one left, never below column 0, with no upper bound |
| `Grid.TabPastLastColumn` | Grid.js:1854-1857 | Tab in the last column moves to a column that does not exist |

## Left out

- The cursor's own implementation (`com.qwirx.data.Cursor`) is not part of this model. `Cursor` states the moves as the grid's tests use them. It does not model indeterminate counts (-1), field values, saving, or the BEFORE_DISCARD / BEFORE_OVERWRITE events; `ButtonStates` alone takes `-1` for an indeterminate count.
- Sentinel encodings: BOF, EOF and NEW are assumed never to equal a row number. Where the code compares them with numbers (`position != 0`, `position != rows - 1`, the mouse-down's `getPosition() != newPosition`, the current-row slot of a sentinel), they are taken as unequal and off screen.
- DOM construction and teardown, row content (`updateGridRow`, `setValues`, column text), CSS strings, logging and listener wiring are rendering glue. Repainting appears only as the set of slots repainted (`Viewport.UpdateRowsFromIndex`, `Viewport.RowUpdateTarget`).
- Pixel measurement is replaced by the `Layout` oracle.
- The slider widget is not modelled. Its clamping of the value into `[0, maximum]`, its mute flag and the re-entrant CHANGE event are left out; only the maximum/value arithmetic is.
- `handleRowCountChange` and `handleDataSourceRowsEvent` on a grid that is not in the document, and `enterDocument`, are left out. `Grid.HandleRowsEvent` takes one affected row; the loop over several rows is left out.
- Dialogs (`handleDirtyMovement`, `handleBeforeOverwriteEvent`, `showDialog`), the in-place editor and the keyboard handler's plumbing (Enter saves, Escape discards, the editor change on a key) are left out. They are asynchronous prompts or library wrappers. Only the key handler's row and column arithmetic is modelled.
- `Grid.Drag`: a corner-less selection stays corner-less. The x2/y2 the widget writes onto it are not tracked, since with y1 and x1 undefined no highlight, truncation or adjustment ever reads them.
- `Grid.HandleCursorMove`: the scroll offset it reaches is stated through `Grid.CursorMoveShowsRow` only for a row position that keeps the NEW-row flag. Its offset for sentinels follows `Viewport.CursorMoveScroll` and `Viewport.SetScroll`.
- `Viewport.Grow`: when the emergency brake trips, the slot already appended by the widget is not kept; the result is only the error.
- `Grid.HandleRowCountChange`: slots added by growth while the offset stays are not highlighted until the next selection change or scroll, as in the widget. The model therefore claims a matching display after a row-count change or rows event only when the offset moved or no slot was added (`Grid.RowCountChangeKeepsSnapshot`, `Grid.RowsEventKeepsHighlight`, `Grid.CorrectedRowsEventKeepsHighlight`).
- `Grid.HandleMouseDown`: the cursor's answer to `setPosition` is a parameter (`answer`): an exception, or the position it announced. `Grid.DirtyCursorRefusesClick` ties it to `Cursor.SetPosition`. The model does not check that an announced position is the one asked for. `setPosition(null)` from a header, and negative rows, have no position in the cursor model.
- The page size before the first `setPageSize` call is not modelled.
- The navigation bar's exception conversion covers the cursor's two errors. Other exception types a button action might throw are not modelled.

## Findings

| source | as written | input that shows it | evidently intended | confidence | as-written member | corrected member |
|---|---|---|---|---|---|---|
| Grid.js:737 | `adjustSelectionAround` ends with `updateSelection_(false)` but takes no copy of the selection first. During a rows event, `handleRowCountChange` has taken a copy, but when its `setScroll` pulls the offset back, the forced redraw (Grid.js:582-590) drops that copy. The unforced update after the adjustment then redraws nothing. | Three rows, two after row 0 is deleted; offset 2; a one-row window; row 1 selected. The offset is pulled back to 1, slot 0 shows row 1 highlighted, and the selection moves to row 0, yet slot 0 stays highlighted. | The update's own documentation asks for a copy of the old selection before it changes, so the adjustment should take one when none is pending; the highlight then matches the adjusted selection (`Grid.CorrectedRowsEventKeepsHighlight`). | medium, not executed | `Grid.ClampedOffsetLeavesStaleHighlight` | `Grid.HandleRowsEventCorrected` |
