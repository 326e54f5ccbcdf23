/**
 * The grid widget as one immutable record and its event handlers as pure
 * transitions: mouse-driven selection with its drag modes, the diff-based
 * highlight update, scrolling, row-count changes, and following the cursor.
 *
 * The cursor is not part of the record: handlers that read its position take
 * it as a parameter.  A mouse event carries the data rows its cell showed when
 * the event arrived; a mouse-down first asks the cursor to move, lets the
 * grid's cursor-move handler run, and then starts the selection at those rows.
 */
module Grid {
  import opened Results
  import opened Cursor
  import opened Selection
  import opened Viewport

  /** Identity of an editable cell object. */
  type CellId = nat

  /** How mouse movement currently changes the selection. */
  datatype DragMode = NoDrag | Text | Cells | Columns | Rows

  /**
   * The table cell under the mouse: a column header, a row header, a data
   * cell, or the corner above the row headers.  Slots are table-row indices.
   */
  datatype Hit =
    | HitColumnHead(col: nat)
    | HitRowHead(slot: nat)
    | HitMiddle(col: nat, slot: nat, cell: CellId)
    | HitCorner

  /**
   * What `getDragInfo` reports about that cell: the same kinds, with each slot
   * resolved to its data row against the scroll offset at the time of the
   * event.  Later steps of the same handler keep these rows even if the grid
   * scrolls in between.
   */
  datatype CellInfo =
    | ColumnHead(col: nat)
    | RowHead(row: int)
    | Middle(col: nat, row: int, cell: CellId)
    | Corner

  /** A mouse event: its target element, and the cell it hit (`None` when it is not a grid cell). */
  datatype MouseEvent = MouseEvent(target: ElementId, info: Option<CellInfo>)

  /** The value a mouse-down hands to the cursor's `setPosition`. */
  datatype Target = NullRow | AtRow(row: int) | AtNew

  datatype Grid = Grid(
    dataCount: nat,               // rows in the data source
    columnCount: nat,
    scrollX: int,
    scrollY: int,
    scrollMaximum: int,           // the inverted scrollbar's range and value
    scrollValue: int,
    slots: seq<Slot>,
    selection: Selection,
    pending: Option<Selection>,   // the copy `prepareForSelection` took, until `updateSelection_` drops it
    highlightedColumns: set<int>, // columns named by the highlight style rule
    mode: DragMode,
    textSelectable: bool,
    enabled: bool,
    editable: Option<CellId>,     // the cell whose in-place editor is open
    onTempNewRow: bool,           // positioned on the temporary NEW row
    currentRowSlot: Option<nat>)  // the slot whose header shows the current-row colour

  // ---------------------------------------------------------------------
  // Row count and current row

  /** The rows the grid can show: one more than the data source while on the temporary NEW row. */
  function GetRowCount(g: Grid): (n: nat)
    ensures n == g.dataCount + 1 <==> g.onTempNewRow
    ensures n == g.dataCount <==> !g.onTempNewRow
  {
    if g.onTempNewRow then g.dataCount + 1 else g.dataCount
  }

  /**
   * The data row the cursor stands on, as the grid numbers rows: the row
   * after the last stored one while on the temporary NEW row.  Sentinel
   * positions have no row.
   */
  function CurrentDataRow(g: Grid, position: Position): Option<int> {
    if g.onTempNewRow then Some(GetRowCount(g) - 1)
    else if position.Index? then Some(position.n)
    else None
  }

  /** The slot displaying the cursor's row, which may lie off screen in either direction. */
  function GetCurrentGridRowIndex(g: Grid, position: Position): (r: Option<int>)
    ensures r.Some? <==> CurrentDataRow(g, position).Some?
    ensures r.Some? ==> r.value + g.scrollY == CurrentDataRow(g, position).value
    ensures g.onTempNewRow ==> r == Some(g.dataCount - g.scrollY)
  {
    if g.onTempNewRow then Some((GetRowCount(g) - 1) - g.scrollY)
    else if position.Index? then Some(position.n - g.scrollY)
    else None
  }

  /** Marks the slot showing the cursor's row as current, or none when that row is off screen. */
  function UpdateCurrentRowHighlight(g: Grid, position: Position): (r: Grid)
    ensures r == g.(currentRowSlot := r.currentRowSlot)
    ensures forall i: nat :: r.currentRowSlot == Some(i) <==>
      i < |g.slots| && CurrentDataRow(g, position) == Some(i + g.scrollY)
  {
    var idx := GetCurrentGridRowIndex(g, position);
    if idx.Some? && 0 <= idx.value < |g.slots| then g.(currentRowSlot := Some(idx.value))
    else g.(currentRowSlot := None)
  }

  // ---------------------------------------------------------------------
  // Highlight derivation

  /** Every slot's highlight flag recomputed from the selection's rows. */
  function Rehighlight(slots: seq<Slot>, sel: Selection, scrollY: int): (r: seq<Slot>)
    ensures |r| == |slots|
    ensures forall i :: 0 <= i < |r| ==> r[i].visible == slots[i].visible
    ensures forall i :: 0 <= i < |r| ==> r[i].highlighted == RowHighlighted(sel, scrollY + i)
  {
    seq(|slots|, i requires 0 <= i < |slots| => slots[i].(highlighted := RowHighlighted(sel, scrollY + i)))
  }

  /** What is drawn matches the selection: row flags for the data rows shown, and the column rule. */
  ghost predicate HighlightConsistent(g: Grid) {
    && (forall i :: 0 <= i < |g.slots| ==> g.slots[i].highlighted == RowHighlighted(g.selection, g.scrollY + i))
    && g.highlightedColumns == HighlightedColumns(g.selection)
  }

  /**
   * The protocol the diff-based update relies on: what is drawn matches the
   * pending copy, or the selection itself (always so when no copy is pending).
   */
  ghost predicate DisplayFollowsSnapshot(g: Grid) {
    match g.pending
    case Some(p) => HighlightConsistent(g.(selection := p)) || HighlightConsistent(g)
    case None => HighlightConsistent(g)
  }

  /**
   * `prepareForSelection`: keeps a copy of the selection for the next
   * `updateSelection_`, and replaces the shared empty selection by a fresh
   * object without corners.
   */
  function PrepareForSelection(g: Grid): (r: Grid)
    ensures r.pending == Some(g.selection)
    ensures r.selection == Prepare(g.selection)
    ensures r == g.(selection := r.selection, pending := r.pending)
    ensures HighlightConsistent(g) ==> DisplayFollowsSnapshot(r)
  {
    g.(selection := Prepare(g.selection), pending := Some(g.selection))
  }

  /**
   * `updateSelection_`: compares the selection with the pending copy and
   * recomputes row flags only when a row corner changed and the column rule
   * only when a column corner changed, unless forced; with no copy pending an
   * unforced update redraws nothing.  The copy is dropped either way.
   */
  function UpdateSelection(g: Grid, force: bool): (r: Grid)
    ensures r == g.(slots := r.slots, highlightedColumns := r.highlightedColumns, pending := None)
    ensures |r.slots| == |g.slots| && forall i :: 0 <= i < |r.slots| ==> r.slots[i].visible == g.slots[i].visible
    ensures force ==> HighlightConsistent(r)
    ensures !force && g.pending.None? ==> r == g.(pending := None)
    ensures !force && g.pending.Some? && Y1(g.pending.value) == Y1(g.selection) && Y2(g.pending.value) == Y2(g.selection) ==>
      r.slots == g.slots
    ensures !force && g.pending.Some? && X1(g.pending.value) == X1(g.selection) && X2(g.pending.value) == X2(g.selection) ==>
      r.highlightedColumns == g.highlightedColumns
  {
    var sel := g.selection;
    var rowsChanged := force || (g.pending.Some? && (Y1(g.pending.value) != Y1(sel) || Y2(g.pending.value) != Y2(sel)));
    var colsChanged := force || (g.pending.Some? && (X1(g.pending.value) != X1(sel) || X2(g.pending.value) != X2(sel)));
    g.(slots := if rowsChanged then Rehighlight(g.slots, sel, g.scrollY) else g.slots,
       highlightedColumns := if colsChanged then HighlightedColumns(sel) else g.highlightedColumns,
       pending := None)
  }

  /** Row highlighting reads only the row corners, column highlighting only the column corners. */
  lemma HighlightReadsOnlyCorners(s: Selection, t: Selection, row: int)
    ensures Y1(s) == Y1(t) && Y2(s) == Y2(t) ==> RowHighlighted(s, row) == RowHighlighted(t, row)
    ensures X1(s) == X1(t) && X2(s) == X2(t) ==> HighlightedColumns(s) == HighlightedColumns(t)
  {
  }

  /**
   * The diff-based update is as good as a full redraw when a copy is pending
   * and the display follows it: afterwards the display matches the selection.
   */
  lemma {:induction false} UpdateSelectionRestoresConsistency(g: Grid)
    requires g.pending.Some? && DisplayFollowsSnapshot(g)
    ensures HighlightConsistent(UpdateSelection(g, false))
  {
    var r := UpdateSelection(g, false);
    var p := g.pending.value;
    forall i | 0 <= i < |r.slots|
      ensures r.slots[i].highlighted == RowHighlighted(g.selection, g.scrollY + i)
    {
      HighlightReadsOnlyCorners(p, g.selection, g.scrollY + i);
    }
    HighlightReadsOnlyCorners(p, g.selection, 0);
  }

  /**
   * A selection edit between `prepareForSelection` and `updateSelection_`
   * that leaves the slots and the column rule alone ends with a display that
   * matches the edited selection.
   */
  lemma EditKeepsConsistency(g: Grid, started: Grid)
    requires started.pending == Some(g.selection)
    requires started.slots == g.slots && started.scrollY == g.scrollY && started.highlightedColumns == g.highlightedColumns
    ensures HighlightConsistent(g) ==> HighlightConsistent(UpdateSelection(started, false))
  {
    if HighlightConsistent(g) {
      assert HighlightConsistent(started.(selection := g.selection));
      UpdateSelectionRestoresConsistency(started);
    }
  }

  // ---------------------------------------------------------------------
  // Editable cell

  /** The outcome of `setEditableCell`: the cell now editable, and whose editors were closed and opened. */
  datatype EditorChange = EditorChange(editable: Option<CellId>, closedEditor: Option<CellId>, openedEditor: Option<CellId>)

  /** Makes `newCell` the editable cell (none when absent), closing any other editor first. */
  function SetEditableCell(current: Option<CellId>, newCell: Option<CellId>): (r: EditorChange)
    ensures r.editable == newCell
    ensures r.closedEditor.Some? <==> current.Some? && current != newCell
    ensures r.closedEditor.Some? ==> r.closedEditor == current
    ensures r.openedEditor.Some? <==> newCell.Some? && current != newCell
    ensures r.openedEditor.Some? ==> r.openedEditor == newCell
  {
    var afterClose := if current.Some? && current != newCell then None else current;
    var closed := if current.Some? && current != newCell then current else None;
    if newCell.Some? && afterClose.None? then EditorChange(newCell, closed, newCell)
    else EditorChange(afterClose, closed, None)
  }

  /** Asking again for the cell that is already editable closes and opens nothing. */
  lemma SetEditableCellIdempotent(current: Option<CellId>, newCell: Option<CellId>)
    ensures var r := SetEditableCell(current, newCell);
      SetEditableCell(r.editable, newCell) == EditorChange(newCell, None, None)
  {
  }

  // ---------------------------------------------------------------------
  // Mouse handling

  /** `prepareForSelection` on the selection alone: the shared empty selection becomes a fresh object without corners. */
  function Prepare(s: Selection): (r: Selection)
    ensures s == NoSelection ==> r == Blank(None)
    ensures s != NoSelection ==> r == s
  {
    if s == NoSelection then Blank(None) else s
  }

  /** Where a drag began; the shared empty selection has none. */
  function Origin(s: Selection): Option<ElementId> {
    match s
    case NoSelection => None
    case Blank(o) => o
    case Rect(_, _, _, _, o) => o
  }

  function WithOrigin(s: Selection, origin: ElementId): (r: Selection)
    requires s != NoSelection
    ensures Origin(r) == Some(origin)
    ensures X1(r) == X1(s) && Y1(r) == Y1(s) && X2(r) == X2(s) && Y2(r) == Y2(s)
  {
    match s
    case Blank(_) => Blank(Some(origin))
    case Rect(x1, y1, x2, y2, _) => Rect(x1, y1, x2, y2, Some(origin))
  }

  /** The data row a cell belongs to, when it has one. */
  function RowOf(info: CellInfo): Option<int> {
    match info
    case RowHead(row) => Some(row)
    case Middle(_, row, _) => Some(row)
    case _ => None
  }

  /** The column a cell belongs to, when it has one. */
  function ColOf(info: CellInfo): Option<int> {
    match info
    case ColumnHead(col) => Some(col)
    case Middle(col, _, _) => Some(col)
    case _ => None
  }

  /** The editable cell object a table cell carries: only data cells have one. */
  function CellOf(info: CellInfo): Option<CellId> {
    match info
    case Middle(_, _, cell) => Some(cell)
    case _ => None
  }

  /**
   * `getDragInfo`: the cell's kind, column and editable cell, and the data
   * row of its table row at the current scroll offset.
   */
  function DragInfo(g: Grid, hit: Hit): (info: CellInfo)
    ensures RowOf(info).Some? <==> hit.HitRowHead? || hit.HitMiddle?
    ensures hit.HitRowHead? || hit.HitMiddle? ==> RowOf(info) == Some(hit.slot + g.scrollY)
    ensures ColOf(info).Some? <==> hit.HitColumnHead? || hit.HitMiddle?
    ensures hit.HitColumnHead? || hit.HitMiddle? ==> ColOf(info) == Some(hit.col)
    ensures CellOf(info) == (if hit.HitMiddle? then Some(hit.cell) else None)
    ensures info.Corner? <==> hit.HitCorner?
  {
    match hit
    case HitColumnHead(col) => ColumnHead(col)
    case HitRowHead(slot) => RowHead(slot + g.scrollY)
    case HitMiddle(col, slot, cell) => Middle(col, slot + g.scrollY, cell)
    case HitCorner => Corner
  }

  /** Whether the cursor already stands where a mouse-down points. */
  predicate SamePosition(position: Position, t: Target) {
    match t
    case AtRow(row) => position.Index? && position.n == row
    case AtNew => position == NEW
    case NullRow => false
  }

  /**
   * The first step of a mouse-down: the position the cursor is asked to move
   * to, if any.  A click on the row after the last stored one means the
   * temporary NEW row; headers without a row pass a null position.
   */
  function MouseDownTarget(g: Grid, e: MouseEvent, position: Position): (t: Option<Target>)
    ensures e.info.None? ==> t.None?
    ensures t.Some? ==> !SamePosition(position, t.value)
    ensures t == Some(AtNew) ==> g.onTempNewRow && e.info.Some? && RowOf(e.info.value) == Some(g.dataCount)
    ensures e.info.Some? && RowOf(e.info.value).Some? && !(g.onTempNewRow && RowOf(e.info.value) == Some(g.dataCount)) ==>
      (t.None? <==> position.Index? && RowOf(e.info.value) == Some(position.n))
    ensures e.info.Some? && RowOf(e.info.value).None? ==> t == Some(NullRow)
  {
    match e.info
    case None => None
    case Some(info) =>
      var raw := match RowOf(info)
        case None => NullRow
        case Some(row) => AtRow(row);
      var newPosition := if raw == AtRow(g.dataCount) && g.onTempNewRow then AtNew else raw;
      if SamePosition(position, newPosition) then None else Some(newPosition)
  }

  /** Only the record fields a selection edit may touch differ. */
  predicate SameViewport(g: Grid, r: Grid) {
    && r.dataCount == g.dataCount && r.columnCount == g.columnCount
    && r.scrollX == g.scrollX && r.scrollY == g.scrollY
    && r.scrollMaximum == g.scrollMaximum && r.scrollValue == g.scrollValue
    && r.enabled == g.enabled && r.onTempNewRow == g.onTempNewRow
    && r.currentRowSlot == g.currentRowSlot
    && |r.slots| == |g.slots|
    && (forall i :: 0 <= i < |r.slots| ==> r.slots[i].visible == g.slots[i].visible)
  }

  /**
   * The selection step of a mouse-down, on the grid as the cursor's move left
   * it: start a selection at the clicked cell.  A column header selects the
   * whole column, a row header the whole row, a data cell just itself (and
   * opens its editor); the corner only records where the drag began.
   */
  function MouseDown(g: Grid, e: MouseEvent): (r: Grid)
    ensures e.info.None? ==> r == g
    ensures SameViewport(g, r)
    ensures e.info.Some? ==> Origin(r.selection) == Some(e.target) && r.pending.None?
    ensures e.info.Some? && e.info.value.ColumnHead? ==>
      && r.mode == Columns && !r.textSelectable
      && r.selection == Rect(e.info.value.col, 0, e.info.value.col, GetRowCount(g) - 1, Some(e.target))
    ensures e.info.Some? && e.info.value.RowHead? ==>
      && r.mode == Rows && !r.textSelectable
      && r.selection == Rect(0, e.info.value.row, g.columnCount - 1, e.info.value.row, Some(e.target))
    ensures e.info.Some? && e.info.value.Middle? ==>
      && r.mode == Text && r.textSelectable && r.editable == Some(e.info.value.cell)
      && r.selection == Rect(e.info.value.col, e.info.value.row, e.info.value.col, e.info.value.row, Some(e.target))
    ensures e.info == Some(Corner) ==> r.mode == g.mode && r.selection == WithOrigin(Prepare(g.selection), e.target)
    ensures HighlightConsistent(g) ==> HighlightConsistent(r)
  {
    match e.info
    case None => g
    case Some(info) =>
      var p := PrepareForSelection(g);
      var origin := Some(e.target);
      var started := match info
        case ColumnHead(col) =>
          p.(textSelectable := false, mode := Columns,
             selection := Rect(col, 0, col, GetRowCount(g) - 1, origin))
        case RowHead(row) =>
          p.(textSelectable := false, mode := Rows,
             selection := Rect(0, row, g.columnCount - 1, row, origin))
        case Middle(col, row, cell) =>
          p.(textSelectable := true, editable := SetEditableCell(g.editable, Some(cell)).editable, mode := Text,
             selection := Rect(col, row, col, row, origin))
        case Corner =>
          p.(selection := WithOrigin(p.selection, e.target));
      EditKeepsConsistency(g, started);
      UpdateSelection(started, false)
  }

  /** Why a mouse-down stops: the cursor threw while moving, or the grid's own handler failed. */
  datatype ClickError = CursorThrew(error: CursorError) | GridFault(fault: Fault)

  /**
   * The cursor's answer to `setPosition`: it throws (a dirty cursor whose
   * discard is cancelled throws DiscardBlocked), or it returns, having
   * announced the position it moved to, if any.
   */
  type CursorAnswer = Result<Option<Position>, CursorError>

  /** The answer `Cursor.SetPosition` gives, seen from the grid. */
  function AnswerOf(moved: Result<Cursor, CursorError>): (a: CursorAnswer)
    ensures a.Err? <==> moved.Err?
    ensures moved.Err? ==> a.error == moved.error
    ensures moved.Ok? ==> a == Ok(Some(moved.value.position))
  {
    match moved
    case Err(e) => Err(e)
    case Ok(c) => Ok(Some(c.position))
  }

  /** The position a target names for the cursor; `null` and negative rows have no model position. */
  function TargetPosition(t: Target): Option<Position> {
    match t
    case AtRow(row) => if row >= 0 then Some(Index(row)) else None
    case AtNew => Some(NEW)
    case NullRow => None
  }

  /**
   * `handleMouseDown` as a whole.  The event's rows were resolved when it
   * arrived.  When the cursor is elsewhere it is asked to move: if it throws,
   * the exception leaves the handler before any selection step and the grid
   * is unchanged; if it announces a move, the grid's cursor-move handler runs,
   * possibly scrolling, before the selection is started.
   */
  function HandleMouseDown(g: Grid, e: MouseEvent, position: Position, answer: CursorAnswer, layout: Layout): (r: Result<Grid, ClickError>)
    ensures e.info.None? ==> r == Ok(g)
    ensures MouseDownTarget(g, e, position).None? ==> r == Ok(MouseDown(g, e))
    ensures MouseDownTarget(g, e, position).Some? && answer.Err? ==> r == Err(CursorThrew(answer.error))
    ensures MouseDownTarget(g, e, position).Some? && answer == Ok(None) ==> r == Ok(MouseDown(g, e))
    ensures r.Err? ==> r.error == GridFault(EmergencyBrakes) || (answer.Err? && r.error == CursorThrew(answer.error))
    ensures r.Ok? && e.info.Some? ==> Origin(r.value.selection) == Some(e.target)
    ensures r.Ok? && e.info.Some? && RowOf(e.info.value).Some? ==>
      r.value.selection.Rect? && r.value.selection.y1 == r.value.selection.y2 == RowOf(e.info.value).value
  {
    if e.info.None? then Ok(g)
    else if MouseDownTarget(g, e, position).None? then Ok(MouseDown(g, e))
    else
      match answer
      case Err(err) => Err(CursorThrew(err))
      case Ok(None) => Ok(MouseDown(g, e))
      case Ok(Some(p)) =>
        match HandleCursorMove(g, p, layout)
        case Err(f) => Err(GridFault(f))
        case Ok(g1) => Ok(MouseDown(g1, e))
  }

  /**
   * A click on a row other than the cursor's, while the cursor holds unsaved
   * edits, is refused: the cursor throws DiscardBlocked and the handler
   * passes it on without starting a selection.  A click on the cursor's own
   * row never asks the cursor anything, so it cannot throw.
   */
  lemma DirtyCursorRefusesClick(g: Grid, e: MouseEvent, c: Cursor, layout: Layout)
    requires c.dirty && e.info.Some?
    ensures var t := MouseDownTarget(g, e, c.position);
      t.Some? && TargetPosition(t.value).Some? ==>
        && SetPosition(c, TargetPosition(t.value).value) == Err(DiscardBlocked)
        && HandleMouseDown(g, e, c.position, AnswerOf(SetPosition(c, TargetPosition(t.value).value)), layout)
           == Err(CursorThrew(DiscardBlocked))
    ensures MouseDownTarget(g, e, c.position).None? ==> forall a: CursorAnswer :: HandleMouseDown(g, e, c.position, a, layout).Ok?
  {
  }

  /**
   * A click on a data cell or row header selects the data row its table row
   * showed when the click arrived, whatever scrolling the cursor's move causes.
   */
  lemma ClickSelectsClickedRow(g: Grid, hit: Hit, target: ElementId, position: Position, answer: CursorAnswer, layout: Layout)
    requires hit.HitMiddle? || hit.HitRowHead?
    ensures var e := MouseEvent(target, Some(DragInfo(g, hit)));
      var r := HandleMouseDown(g, e, position, answer, layout);
      r.Ok? ==> r.value.selection.Rect? && r.value.selection.y1 == r.value.selection.y2 == hit.slot + g.scrollY
    ensures hit.HitMiddle? ==> var e := MouseEvent(target, Some(DragInfo(g, hit)));
      var r := HandleMouseDown(g, e, position, answer, layout);
      r.Ok? ==> r.value.selection == Rect(hit.col, hit.slot + g.scrollY, hit.col, hit.slot + g.scrollY, Some(target))
  {
  }

  /** The selection after a drag over `info`: a rectangle's second corner moves, anything else stays. */
  function DraggedSelection(g: Grid, s: Selection, info: CellInfo): (r: Selection)
    ensures !s.Rect? ==> r == s
    ensures s.Rect? ==> r.Rect? && r.x1 == s.x1 && r.y1 == s.y1 && r.origin == s.origin
  {
    var x2 :=
      if g.mode == Rows then Some(g.columnCount - 1)
      else if info.RowHead? then Some(g.scrollX)
      else ColOf(info);
    var y2 :=
      if g.mode == Columns then Some(GetRowCount(g) - 1)
      else if info.ColumnHead? then Some(g.scrollY)
      else RowOf(info);
    match s
    case Rect(a, b, c, d, o) =>
      Rect(a, b, if x2.Some? then x2.value else c, if y2.Some? then y2.value else d, o)
    case other => other
  }

  /**
   * `handleDrag`: moves only the second corner, by the lookup table of drag
   * mode against cell kind.  A selection without corners stays one.
   */
  function Drag(g: Grid, e: MouseEvent): (r: Grid)
    ensures e.info.None? ==> r == g
    ensures SameViewport(g, r)
    ensures e.info.Some? ==> r.pending.None?
    ensures r.mode == g.mode && r.textSelectable == g.textSelectable && r.editable == g.editable
    ensures e.info.Some? && !g.selection.Rect? ==> r.selection == Prepare(g.selection)
    ensures g.selection.Rect? ==>
      && r.selection.Rect?
      && r.selection.x1 == g.selection.x1 && r.selection.y1 == g.selection.y1 && r.selection.origin == g.selection.origin
    ensures HighlightConsistent(g) ==> HighlightConsistent(r)
  {
    match e.info
    case None => g
    case Some(info) =>
      var p := PrepareForSelection(g);
      var sel := DraggedSelection(g, p.selection, info);
      var started := p.(selection := sel);
      EditKeepsConsistency(g, started);
      UpdateSelection(started, false)
  }

  /** The second corner the drag table gives a rectangle for each mode and cell kind. */
  lemma DragTable(g: Grid, e: MouseEvent)
    requires g.selection.Rect? && e.info.Some?
    ensures var s := Drag(g, e).selection; var info := e.info.value;
      && (g.mode == Rows ==> s.x2 == g.columnCount - 1)
      && (g.mode != Rows && info.RowHead? ==> s.x2 == g.scrollX)
      && (g.mode != Rows && (info.ColumnHead? || info.Middle?) ==> s.x2 == ColOf(info).value)
      && (g.mode != Rows && info == Corner ==> s.x2 == g.selection.x2)
      && (g.mode == Columns ==> s.y2 == GetRowCount(g) - 1)
      && (g.mode != Columns && info.ColumnHead? ==> s.y2 == g.scrollY)
      && (g.mode != Columns && (info.RowHead? || info.Middle?) ==> s.y2 == RowOf(info).value)
      && (g.mode != Columns && info == Corner ==> s.y2 == g.selection.y2)
  {
  }

  /**
   * `handleMouseOver`: while dragging, entering a cell moves the second
   * corner; in CELLS mode, re-entering the origin cell switches back to TEXT
   * and reopens that cell's editor.  Without a drag nothing changes.
   */
  function MouseOver(g: Grid, e: MouseEvent): (r: Grid)
    ensures e.info.None? || g.mode == NoDrag ==> r == g
    ensures SameViewport(g, r)
    ensures g.mode == Cells && e.info.Some? && Some(e.target) == Origin(Drag(g, e).selection) ==>
      r.mode == Text && r.textSelectable && r.editable == CellOf(e.info.value)
    ensures !(g.mode == Cells && e.info.Some? && Some(e.target) == Origin(Drag(g, e).selection)) ==>
      r.mode == g.mode && r.textSelectable == g.textSelectable && r.editable == g.editable
    ensures HighlightConsistent(g) ==> HighlightConsistent(r)
  {
    match e.info
    case None => g
    case Some(info) =>
      var dragged := if g.mode != NoDrag then Drag(g, e) else g;
      if g.mode == Cells && Some(e.target) == Origin(dragged.selection) then
        dragged.(mode := Text, textSelectable := true,
                 editable := SetEditableCell(dragged.editable, CellOf(info)).editable)
      else dragged
  }

  /**
   * `handleMouseOut`: leaving the origin cell during a TEXT drag switches to
   * CELLS mode, turns text selection off and closes the editor.
   */
  function MouseOut(g: Grid, e: MouseEvent): (r: Grid)
    ensures r == g.(mode := r.mode, textSelectable := r.textSelectable, editable := r.editable)
    ensures (e.info.Some? && g.mode == Text && Some(e.target) == Origin(g.selection)) ==>
      r.mode == Cells && !r.textSelectable && r.editable.None?
    ensures !(e.info.Some? && g.mode == Text && Some(e.target) == Origin(g.selection)) ==> r == g
  {
    if e.info.Some? && g.mode == Text && Some(e.target) == Origin(g.selection) then
      g.(mode := Cells, textSelectable := false, editable := SetEditableCell(g.editable, None).editable)
    else g
  }

  /** `handleMouseUp`: on an enabled grid, ends any drag and allows text selection again. */
  function MouseUp(g: Grid, e: MouseEvent): (r: Grid)
    ensures r == g.(mode := r.mode, textSelectable := r.textSelectable)
    ensures e.info.Some? && g.enabled ==> r.mode == NoDrag && r.textSelectable
    ensures e.info.None? || !g.enabled ==> r == g
  {
    if e.info.Some? && g.enabled then g.(mode := NoDrag, textSelectable := true)
    else g
  }

  /** After a mouse-up on an enabled grid, moving the mouse anywhere changes nothing. */
  lemma MouseUpEndsDrag(g: Grid, up: MouseEvent, over: MouseEvent)
    requires up.info.Some? && g.enabled
    ensures MouseOver(MouseUp(g, up), over) == MouseUp(g, up)
  {
  }

  /**
   * Leaving the origin cell of a TEXT drag and coming straight back restores
   * the grid exactly: mode, text selection, the open editor and the
   * selection; only a pending selection copy is consumed.
   */
  lemma LeaveAndReenterOrigin(g: Grid, e: MouseEvent, col: nat, row: int, cell: CellId)
    requires e.info == Some(Middle(col, row, cell))
    requires g.mode == Text && g.textSelectable && g.editable == Some(cell)
    requires g.selection.Rect? && g.selection.origin == Some(e.target)
    requires g.selection.x2 == col && g.selection.y2 == row
    ensures MouseOut(g, e).mode == Cells
    ensures MouseOver(MouseOut(g, e), e) == g.(pending := None)
  {
    var out := MouseOut(g, e);
    assert Drag(out, e).selection == g.selection;
  }

  /** A click on a data cell starts a TEXT drag that this round trip applies to. */
  lemma MouseDownStartsTextDrag(g: Grid, e: MouseEvent, col: nat, row: int, cell: CellId)
    requires e.info == Some(Middle(col, row, cell))
    ensures var d := MouseDown(g, e);
      MouseOver(MouseOut(d, e), e) == d && MouseOut(d, e).mode == Cells
  {
    var d := MouseDown(g, e);
    LeaveAndReenterOrigin(d, e, col, row, cell);
  }

  /** `setSelection`: sets all four corners, keeping where an earlier drag began. */
  function SetSelection(g: Grid, x1: int, y1: int, x2: int, y2: int): (r: Grid)
    ensures r.selection == Rect(x1, y1, x2, y2, Origin(g.selection))
    ensures SameViewport(g, r)
    ensures r.mode == g.mode && r.editable == g.editable && r.textSelectable == g.textSelectable
    ensures r.pending.None?
    ensures HighlightConsistent(g) ==> HighlightConsistent(r)
  {
    var p := PrepareForSelection(g);
    var started := p.(selection := Rect(x1, y1, x2, y2, Origin(p.selection)));
    EditKeepsConsistency(g, started);
    UpdateSelection(started, false)
  }

  // ---------------------------------------------------------------------
  // Scrolling, row-count changes and cursor moves

  /** What scrolling and resizing leave alone. */
  predicate SameData(g: Grid, r: Grid) {
    && r.dataCount == g.dataCount && r.columnCount == g.columnCount
    && r.scrollX == g.scrollX && r.onTempNewRow == g.onTempNewRow
    && r.mode == g.mode && r.textSelectable == g.textSelectable
    && r.enabled == g.enabled && r.editable == g.editable
  }

  /** The offset `setScroll` settles on for a request: past the data it falls back to the last row, or 0 with no rows. */
  function ClampedOffset(newY: int, rowCount: nat): int {
    if newY >= rowCount then (if rowCount == 0 then 0 else rowCount - 1) else newY
  }

  /**
   * `setScroll` on the grid: applies the scroll arithmetic and, only when the
   * offset moved, refreshes every slot, the current-row marker and (forced)
   * the highlight.
   */
  function SetScroll(g: Grid, newY: int, position: Position, layout: Layout): (r: Result<Grid, Fault>)
    ensures r.Err? ==> r.error == EmergencyBrakes
    ensures r.Ok? ==> SameData(g, r.value) && r.value.selection == g.selection
    ensures r.Ok? ==> var u := Viewport.SetScroll(newY, GetRowCount(g), FullyVisibleRowCount(|g.slots|, layout));
      && r.value.scrollY == u.y && r.value.scrollMaximum == u.maximum && r.value.scrollValue == u.value
    ensures r.Ok? && r.value.scrollY == g.scrollY ==>
      r.value == g.(scrollMaximum := r.value.scrollMaximum, scrollValue := r.value.scrollValue)
    ensures r.Ok? && r.value.scrollY != g.scrollY ==>
      && |g.slots| <= |r.value.slots|
      && (forall i :: 0 <= i < |r.value.slots| ==> (r.value.slots[i].visible <==> i + r.value.scrollY < GetRowCount(g)))
      && HighlightConsistent(r.value)
      && r.value.pending.None?
      && r.value == UpdateCurrentRowHighlight(r.value, position)
  {
    var rowCount := GetRowCount(g);
    var u := Viewport.SetScroll(newY, rowCount, FullyVisibleRowCount(|g.slots|, layout));
    var moved := g.(scrollY := u.y, scrollMaximum := u.maximum, scrollValue := u.value);
    if u.y == g.scrollY then Ok(moved) else RefreshAll(moved, rowCount, position, layout)
  }

  /**
   * What `setScroll` does after the offset moved: `refreshAll` re-shows the
   * slots and re-marks the current row, and the forced update redraws the
   * highlight.
   */
  function RefreshAll(g: Grid, rowCount: nat, position: Position, layout: Layout): (r: Result<Grid, Fault>)
    ensures r.Err? ==> r.error == EmergencyBrakes
    ensures r.Ok? ==> r.value == g.(slots := r.value.slots, highlightedColumns := r.value.highlightedColumns,
                                    pending := None, currentRowSlot := r.value.currentRowSlot)
    ensures r.Ok? ==>
      && |g.slots| <= |r.value.slots|
      && (forall i :: 0 <= i < |r.value.slots| ==> (r.value.slots[i].visible <==> i + g.scrollY < rowCount))
      && HighlightConsistent(r.value)
      && r.value.pending.None?
      && r.value == UpdateCurrentRowHighlight(r.value, position)
  {
    match UpdateRowVisibility(g.slots, g.scrollY, rowCount, layout)
    case Err(f) => Err(f)
    case Ok(slots) =>
      var refreshed := UpdateCurrentRowHighlight(g.(slots := slots), position);
      Ok(UpdateSelection(refreshed, true))
  }

  /** The selection step of `handleRowCountChange`: copy the selection, if there is one, and clip it. */
  function ClipSelection(g: Grid, newRowCount: int): (r: Grid)
    ensures r == g.(selection := r.selection, pending := r.pending)
    ensures r.selection == TruncateToRowCount(g.selection, newRowCount)
    ensures r.pending == (if g.selection != NoSelection then Some(g.selection) else g.pending)
  {
    if g.selection != NoSelection then
      var p := PrepareForSelection(g);
      p.(selection := TruncateToRowCount(p.selection, newRowCount))
    else g
  }

  /** Scrolling keeps a matching display matching, whether or not the offset moves. */
  lemma SetScrollKeepsConsistency(g: Grid, newY: int, position: Position, layout: Layout)
    requires HighlightConsistent(g)
    ensures SetScroll(g, newY, position, layout).Ok? ==> HighlightConsistent(SetScroll(g, newY, position, layout).value)
  {
  }

  /**
   * `handleRowCountChange`: show, hide or add slots for the grid's row count,
   * copy and clip the selection to `newRowCount`, then re-apply the current
   * offset, which `setScroll` pulls back when it lies past the rows.
   */
  function HandleRowCountChange(g: Grid, newRowCount: int, position: Position, layout: Layout): (r: Result<Grid, Fault>)
    ensures r.Err? ==> r.error == EmergencyBrakes
    ensures r.Ok? ==> SameData(g, r.value)
    ensures r.Ok? ==> r.value.selection == TruncateToRowCount(g.selection, newRowCount)
    ensures r.Ok? ==> |g.slots| <= |r.value.slots|
    ensures r.Ok? ==> r.value.scrollY == ClampedOffset(g.scrollY, GetRowCount(g))
    ensures r.Ok? ==> forall i :: 0 <= i < |r.value.slots| ==> (r.value.slots[i].visible <==> i + r.value.scrollY < GetRowCount(g))
    // the scrollbar is sized with the fit of the slots after the first refresh
    ensures r.Ok? ==>
      && UpdateRowVisibility(g.slots, g.scrollY, GetRowCount(g), layout).Ok?
      && var fit := FullyVisibleRowCount(|UpdateRowVisibility(g.slots, g.scrollY, GetRowCount(g), layout).value|, layout);
      && r.value.scrollMaximum == MaxInt(GetRowCount(g) - fit, r.value.scrollY)
      && r.value.scrollValue == r.value.scrollMaximum - r.value.scrollY
    // an offset that stays put redraws nothing and leaves the copy pending
    ensures r.Ok? && r.value.scrollY == g.scrollY ==>
      && r.value.pending == (if g.selection != NoSelection then Some(g.selection) else g.pending)
      && r.value.highlightedColumns == g.highlightedColumns
      && forall i :: 0 <= i < |g.slots| ==> r.value.slots[i].highlighted == g.slots[i].highlighted
    // an offset that moves redraws everything and drops the copy
    ensures r.Ok? && r.value.scrollY != g.scrollY ==> r.value.pending.None? && HighlightConsistent(r.value)
  {
    match UpdateRowVisibility(g.slots, g.scrollY, GetRowCount(g), layout)
    case Err(f) => Err(f)
    case Ok(slots) =>
      SetScroll(ClipSelection(g.(slots := slots), newRowCount), g.scrollY, position, layout)
  }

  /**
   * After a row-count change the display follows the copy the handler took,
   * provided the offset moved (and everything was redrawn) or no slot was
   * added (new slots start unhighlighted).
   */
  lemma {:induction false} RowCountChangeKeepsSnapshot(g: Grid, newRowCount: int, position: Position, layout: Layout)
    requires HighlightConsistent(g)
    ensures var r := HandleRowCountChange(g, newRowCount, position, layout);
      r.Ok? && (r.value.scrollY != g.scrollY || |r.value.slots| == |g.slots|) ==> DisplayFollowsSnapshot(r.value)
    // with a selection and a steady offset, the display matches the copy itself
    ensures var r := HandleRowCountChange(g, newRowCount, position, layout);
      r.Ok? && r.value.scrollY == g.scrollY && |r.value.slots| == |g.slots| && g.selection != NoSelection ==>
        r.value.pending == Some(g.selection) && HighlightConsistent(r.value.(selection := g.selection))
    // without a selection, the display matches
    ensures var r := HandleRowCountChange(g, newRowCount, position, layout);
      r.Ok? && (r.value.scrollY != g.scrollY || |r.value.slots| == |g.slots|) && g.selection == NoSelection ==>
        r.value.selection == NoSelection && HighlightConsistent(r.value)
  {
    var r := HandleRowCountChange(g, newRowCount, position, layout);
    if r.Ok? && r.value.scrollY == g.scrollY && |r.value.slots| == |g.slots| {
      var m := r.value;
      if g.selection != NoSelection {
        assert HighlightConsistent(m.(selection := g.selection));
      } else {
        assert m.selection == NoSelection;
        assert HighlightConsistent(m);
      }
    }
  }

  /**
   * `handleCursorMove`: track whether the cursor is on the temporary NEW row
   * (announcing the row-count change it causes), then scroll so the new
   * position is in view, and refresh the current-row marker.
   */
  function HandleCursorMove(g: Grid, newPosition: Position, layout: Layout): (r: Result<Grid, Fault>)
    ensures r.Err? ==> r.error == EmergencyBrakes
    ensures r.Ok? ==> (r.value.onTempNewRow <==> newPosition == NEW)
    ensures r.Ok? ==> r.value.dataCount == g.dataCount && r.value.scrollX == g.scrollX
    ensures r.Ok? ==> GetRowCount(r.value) == g.dataCount + (if newPosition == NEW then 1 else 0)
    ensures r.Ok? && (g.onTempNewRow <==> newPosition == NEW) ==> r.value.selection == g.selection
  {
    var oldScroll := g.scrollY;
    var fullyBefore := FullyVisibleRowCount(|g.slots|, layout);
    var flagged := g.(onTempNewRow := newPosition == NEW);
    var announced :=
      if g.onTempNewRow != flagged.onTempNewRow then HandleRowCountChange(flagged, GetRowCount(flagged), newPosition, layout)
      else Ok(flagged);
    match announced
    case Err(f) => Err(f)
    case Ok(g2) =>
      var newScroll := CursorMoveScroll(newPosition, oldScroll, fullyBefore, GetRowCount(g2), FullyVisibleRowCount(|g2.slots|, layout));
      match SetScroll(g2, newScroll, newPosition, layout)
      case Err(f) => Err(f)
      case Ok(g3) =>
        if oldScroll == newScroll then Ok(UpdateCurrentRowHighlight(g3, newPosition)) else Ok(g3)
  }

  /**
   * Moving the cursor to an existing row, with no change to the NEW-row flag
   * and at least one row fitting on screen, scrolls that row into the window
   * and marks its slot as current.
   */
  lemma CursorMoveShowsRow(g: Grid, n: nat, layout: Layout)
    requires !g.onTempNewRow && n < g.dataCount
    requires FullyVisibleRowCount(|g.slots|, layout) > 0
    requires HandleCursorMove(g, Index(n), layout).Ok?
    ensures var r := HandleCursorMove(g, Index(n), layout).value;
      var f := FullyVisibleRowCount(|g.slots|, layout);
      && r.scrollY <= n <= r.scrollY + f - 1
      && r.currentRowSlot == Some(n - r.scrollY)
  {
    var f := FullyVisibleRowCount(|g.slots|, layout);
    var s := CursorMoveScroll(Index(n), g.scrollY, f, GetRowCount(g), f);
    assert s <= n < GetRowCount(g);
    var g3 := SetScroll(g, s, Index(n), layout).value;
    assert g3.scrollY == s;
  }

  /** Moving to the temporary NEW row and back off it restores the row count. */
  lemma NewRowComesAndGoes(g: Grid, n: nat, layout: Layout)
    requires !g.onTempNewRow
    ensures var onNew := HandleCursorMove(g, NEW, layout);
      onNew.Ok? ==>
        && GetRowCount(onNew.value) == GetRowCount(g) + 1
        && (HandleCursorMove(onNew.value, Index(n), layout).Ok? ==>
              GetRowCount(HandleCursorMove(onNew.value, Index(n), layout).value) == GetRowCount(g))
  {
  }

  // ---------------------------------------------------------------------
  // Rows inserted into or deleted from the data source

  /**
   * `adjustSelectionAround` with its closing `updateSelection_(false)`: the
   * selection follows the rows, and the highlight is redrawn by diffing
   * against whatever copy happens to be pending.
   */
  function AdjustAround(g: Grid, index: int, amount: int): (r: Result<Grid, Fault>)
    ensures r.Ok? <==> AdjustSelectionAround(g.selection, index, amount).Ok?
    ensures r.Ok? ==> r.value.selection == AdjustSelectionAround(g.selection, index, amount).value
    ensures r.Ok? ==> r.value == g.(selection := r.value.selection, slots := r.value.slots,
                                    highlightedColumns := r.value.highlightedColumns, pending := None)
    // with no copy pending, nothing is redrawn
    ensures r.Ok? && g.pending.None? ==> r.value == g.(selection := r.value.selection)
    ensures r.Ok? && g.pending.Some? && HighlightConsistent(g.(selection := g.pending.value)) ==> HighlightConsistent(r.value)
    // NO_SELECTION stays, so a display that follows the copy ends matching
    ensures r.Ok? && g.selection == NoSelection && DisplayFollowsSnapshot(g) ==> HighlightConsistent(r.value)
  {
    match AdjustSelectionAround(g.selection, index, amount)
    case Err(f) => Err(f)
    case Ok(sel) =>
      var adjusted := g.(selection := sel);
      var r := UpdateSelection(adjusted, false);
      assert g.pending.Some? && HighlightConsistent(g.(selection := g.pending.value)) ==> HighlightConsistent(r) by {
        if g.pending.Some? && HighlightConsistent(g.(selection := g.pending.value)) {
          assert adjusted.(selection := g.pending.value) == g.(selection := g.pending.value);
          UpdateSelectionRestoresConsistency(adjusted);
        }
      }
      assert g.selection == NoSelection && DisplayFollowsSnapshot(g) ==> HighlightConsistent(r) by {
        if g.selection == NoSelection && DisplayFollowsSnapshot(g) && g.pending.Some? {
          assert adjusted == g;
          UpdateSelectionRestoresConsistency(adjusted);
        }
      }
      Ok(r)
  }

  /** `handleRowInsert`: the selection follows a row inserted at `index`. */
  function HandleRowInsert(g: Grid, index: int): (r: Result<Grid, Fault>)
    ensures r.Ok? <==> AdjustSelectionAround(g.selection, index, 1).Ok?
    ensures r.Ok? ==> r.value.selection == AdjustSelectionAround(g.selection, index, 1).value
    ensures r.Ok? ==> SameViewport(g, r.value) && SameData(g, r.value) && r.value.pending.None?
  {
    AdjustAround(g, index, 1)
  }

  /** `handleRowDelete`: the selection follows the row deleted at `index`. */
  function HandleRowDelete(g: Grid, index: int): (r: Result<Grid, Fault>)
    ensures r.Ok? <==> AdjustSelectionAround(g.selection, index, -1).Ok?
    ensures r.Ok? ==> r.value.selection == AdjustSelectionAround(g.selection, index, -1).value
    ensures r.Ok? ==> SameViewport(g, r.value) && SameData(g, r.value) && r.value.pending.None?
  {
    AdjustAround(g, index, -1)
  }

  /**
   * Deleting a row just inserted at the same index gives back the selection,
   * and the whole grid when no selection copy was pending.
   */
  lemma InsertThenDeleteRow(g: Grid, index: int)
    requires Ordered(g.selection)
    ensures HandleRowInsert(g, index).Ok?
    ensures HandleRowDelete(HandleRowInsert(g, index).value, index).Ok?
    ensures HandleRowDelete(HandleRowInsert(g, index).value, index).value.selection == g.selection
    ensures g.pending.None? ==> HandleRowDelete(HandleRowInsert(g, index).value, index) == Ok(g)
  {
    InsertThenDeleteRestores(g.selection, index);
  }

  /** Whether a data-source event inserted or deleted its row. */
  datatype RowChange = Inserted | Deleted

  /** The selection shift a row change asks for. */
  function Amount(change: RowChange): int {
    if change == Inserted then 1 else -1
  }

  /**
   * `handleDataSourceRowsEvent` for one inserted or deleted row, with
   * `g.dataCount` already the data source's new count: the row-count change,
   * the row handler, then `setScroll` at the offset reached.
   */
  function HandleRowsEvent(g: Grid, change: RowChange, index: int, position: Position, layout: Layout): (r: Result<Grid, Fault>)
    ensures r.Ok? ==> SameData(g, r.value)
    ensures r.Ok? ==> r.value.scrollY == ClampedOffset(g.scrollY, GetRowCount(g))
    ensures r.Ok? ==> AdjustSelectionAround(TruncateToRowCount(g.selection, g.dataCount), index, Amount(change)) == Ok(r.value.selection)
    ensures r.Err? ==> r.error == EmergencyBrakes || r.error == AssertionFailed
  {
    match HandleRowCountChange(g, g.dataCount, position, layout)
    case Err(f) => Err(f)
    case Ok(g1) =>
      match (if change == Inserted then HandleRowInsert(g1, index) else HandleRowDelete(g1, index))
      case Err(f) => Err(f)
      case Ok(g2) => SetScroll(g2, g2.scrollY, position, layout)
  }

  /**
   * While the row-count change leaves the offset where it was and adds no
   * slot, a row event keeps the highlight matching the selection.
   */
  lemma {:induction false} RowsEventKeepsHighlight(g: Grid, change: RowChange, index: int, position: Position, layout: Layout)
    requires HighlightConsistent(g)
    ensures var r := HandleRowsEvent(g, change, index, position, layout);
      r.Ok? && r.value.scrollY == g.scrollY && |r.value.slots| == |g.slots| ==> HighlightConsistent(r.value)
  {
    var r := HandleRowsEvent(g, change, index, position, layout);
    if r.Ok? && r.value.scrollY == g.scrollY && |r.value.slots| == |g.slots| {
      var g1 := HandleRowCountChange(g, g.dataCount, position, layout).value;
      var a := AdjustAround(g1, index, Amount(change));
      assert (if change == Inserted then HandleRowInsert(g1, index) else HandleRowDelete(g1, index)) == a;
      var g2 := a.value;
      assert |g1.slots| == |g.slots|;
      RowCountChangeKeepsSnapshot(g, g.dataCount, position, layout);
      assert HighlightConsistent(g2);
      SetScrollKeepsConsistency(g2, g2.scrollY, position, layout);
    }
  }

  /**
   * The widget as written, when the row-count change pulls the offset back:
   * three rows scrolled to the last, a one-row window, the middle row
   * selected, and row 0 deleted.  The forced redraw drops the copy, so the
   * row handler redraws nothing, and the visible slot stays highlighted
   * although its row is no longer selected.
   */
  lemma ClampedOffsetLeavesStaleHighlight()
    ensures var layout := Layout(i => i == 0, i => i == 0, i => false, i => false);
      var g := Grid(2, 1, 0, 2, 2, 0, [Slot(true, false)], Rect(0, 1, 0, 1, None), None, {0},
                    NoDrag, true, true, None, false, None);
      var r := HandleRowsEvent(g, Deleted, 0, BOF, layout);
      && HighlightConsistent(g)
      && r.Ok?
      && r.value.selection == Rect(0, 0, 0, 0, None)
      && r.value.scrollY == 1
      && r.value.slots == [Slot(true, true)]
      && !HighlightConsistent(r.value)
  {
    var layout := Layout(i => i == 0, i => i == 0, i => false, i => false);
    var g := Grid(2, 1, 0, 2, 2, 0, [Slot(true, false)], Rect(0, 1, 0, 1, None), None, {0},
                  NoDrag, true, true, None, false, None);
    assert HighlightedColumns(g.selection) == {0} by {
      assert forall x :: x in HighlightedColumns(g.selection) <==> x == 0;
    }
    assert FullyVisibleRowCount(1, layout) == 1;
    assert UpdateRowVisibility([Slot(true, false)], 2, 2, layout) == Ok([Slot(false, false)]) by {
      assert SetVisibility([Slot(true, false)], 2, 2) == [Slot(false, false)];
    }
    assert UpdateRowVisibility([Slot(false, false)], 1, 2, layout) == Ok([Slot(true, false)]) by {
      assert SetVisibility([Slot(false, false)], 1, 2) == [Slot(true, false)];
    }
    var g1 := HandleRowCountChange(g, 2, BOF, layout);
    assert g1.Ok? && g1.value.scrollY == 1 && g1.value.pending.None?;
    assert g1.value.slots == [Slot(true, true)] by {
      assert |g1.value.slots| == 1;
      assert RowHighlighted(Rect(0, 1, 0, 1, None), 1);
    }
    var g2 := HandleRowDelete(g1.value, 0);
    assert g2.Ok? && g2.value.slots == [Slot(true, true)];
    assert g2.value.selection == Rect(0, 0, 0, 0, None);
    var r := SetScroll(g2.value, 1, BOF, layout);
    assert r.Ok? && r.value.slots == g2.value.slots && r.value.selection == g2.value.selection;
    assert !RowHighlighted(Rect(0, 0, 0, 0, None), 1);
    assert !HighlightConsistent(r.value) by {
      assert r.value.slots[0].highlighted != RowHighlighted(r.value.selection, r.value.scrollY + 0);
    }
  }

  /**
   * The adjustment with the copy `updateSelection_` asks for: when none is
   * pending, the selection as drawn is copied before it is changed.
   */
  function AdjustAroundWithSnapshot(g: Grid, index: int, amount: int): (r: Result<Grid, Fault>)
    ensures r.Ok? <==> AdjustSelectionAround(g.selection, index, amount).Ok?
    ensures r.Ok? ==> r.value.selection == AdjustSelectionAround(g.selection, index, amount).value
    ensures r.Ok? ==> SameViewport(g, r.value) && SameData(g, r.value) && r.value.pending.None?
    ensures r.Ok? && DisplayFollowsSnapshot(g) && (g.pending.None? || HighlightConsistent(g.(selection := g.pending.value))) ==>
      HighlightConsistent(r.value)
    ensures r.Ok? && g.selection == NoSelection && DisplayFollowsSnapshot(g) ==> HighlightConsistent(r.value)
  {
    var copied := if g.pending.None? then g.(pending := Some(g.selection)) else g;
    AdjustAround(copied, index, amount)
  }

  /** `handleDataSourceRowsEvent` for one row, with the row handlers taking their copy as above. */
  function HandleRowsEventCorrected(g: Grid, change: RowChange, index: int, position: Position, layout: Layout): (r: Result<Grid, Fault>)
    ensures r.Ok? ==> SameData(g, r.value)
    ensures r.Ok? ==> r.value.scrollY == ClampedOffset(g.scrollY, GetRowCount(g))
    ensures r.Ok? ==> AdjustSelectionAround(TruncateToRowCount(g.selection, g.dataCount), index, Amount(change)) == Ok(r.value.selection)
    ensures r.Err? ==> r.error == EmergencyBrakes || r.error == AssertionFailed
  {
    match HandleRowCountChange(g, g.dataCount, position, layout)
    case Err(f) => Err(f)
    case Ok(g1) =>
      match AdjustAroundWithSnapshot(g1, index, Amount(change))
      case Err(f) => Err(f)
      case Ok(g2) => SetScroll(g2, g2.scrollY, position, layout)
  }

  /**
   * With the copy taken, a row event keeps the highlight matching the
   * selection whether or not the offset is pulled back; only slots added
   * without a redraw are outside the promise.
   */
  lemma {:induction false} CorrectedRowsEventKeepsHighlight(g: Grid, change: RowChange, index: int, position: Position, layout: Layout)
    requires HighlightConsistent(g)
    ensures var r := HandleRowsEventCorrected(g, change, index, position, layout);
      r.Ok? && (r.value.scrollY != g.scrollY || |r.value.slots| == |g.slots|) ==> HighlightConsistent(r.value)
  {
    var r := HandleRowsEventCorrected(g, change, index, position, layout);
    if r.Ok? && (r.value.scrollY != g.scrollY || |r.value.slots| == |g.slots|) {
      var g1 := HandleRowCountChange(g, g.dataCount, position, layout).value;
      var g2 := AdjustAroundWithSnapshot(g1, index, Amount(change)).value;
      assert g1.scrollY != g.scrollY || |g1.slots| == |g.slots|;
      RowCountChangeKeepsSnapshot(g, g.dataCount, position, layout);
      assert HighlightConsistent(g2);
      SetScrollKeepsConsistency(g2, g2.scrollY, position, layout);
    }
  }

  // ---------------------------------------------------------------------
  // Keyboard

  /** The keys the grid reacts to; anything else is left to the browser. */
  datatype Key = Enter | Escape | Down | Up | Tab | Left | OtherKey

  /** The relative cursor move a key asks for: Down and Up, except past EOF or before BOF. */
  function KeyMove(key: Key, position: Position): (m: Option<int>)
    ensures m == Some(1) <==> key == Down && position != EOF
    ensures m == Some(-1) <==> key == Up && position != BOF
    ensures m.Some? ==> m == Some(1) || m == Some(-1)
  {
    if key == Down && position != EOF then Some(1)
    else if key == Up && position != BOF then Some(-1)
    else None
  }

  /**
   * The arrow keys skip exactly the moves the cursor would refuse: Down and
   * Up ask for no move iff their step raises IllegalMove, and otherwise the
   * move they ask for is that step.
   */
  lemma KeyMoveSkipsRefusedMoves(key: Key, c: Cursor)
    requires key == Down || key == Up
    ensures var step := if key == Down then 1 else -1;
      && (KeyMove(key, c.position).None? <==> MoveRelative(c, step) == Err(IllegalMove))
      && (KeyMove(key, c.position).Some? ==> KeyMove(key, c.position) == Some(step))
  {
  }

  /**
   * The column the editor moves to on a key: Tab one right, Left one left.
   * Values at or below zero become zero; the upper clamp reads a property
   * rows do not have, so it never applies.
   */
  function KeyColumn(key: Key, oldColumn: int): (c: int)
    ensures c >= 0
    ensures key == Tab && oldColumn >= 0 ==> c == oldColumn + 1
    ensures key == Left ==> c == (if oldColumn >= 1 then oldColumn - 1 else 0)
    ensures key != Tab && key != Left ==> c == (if oldColumn <= 0 then 0 else oldColumn)
  {
    var newColumn := if key == Tab then oldColumn + 1 else if key == Left then oldColumn - 1 else oldColumn;
    if newColumn <= 0 then 0 else newColumn
  }

  /** Tab in the last of `columns` columns moves to a column that does not exist. */
  lemma TabPastLastColumn(columns: nat)
    requires columns > 0
    ensures KeyColumn(Tab, columns - 1) == columns
  {
  }
}
