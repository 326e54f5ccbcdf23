/**
 * The grid's rectangular selection (`this.drag`) in data-source coordinates,
 * how it is adjusted when rows are inserted or deleted or the row count
 * shrinks, and which rows and columns it highlights.
 */
module Selection {
  import opened Results

  /** Identity of a DOM element that received a mouse event. */
  type ElementId = nat

  /**
   * `NoSelection` is the shared NO_SELECTION object (all corners -1); it is
   * recognised by identity, so a `Rect` with corners -1 is a different value.
   * `Blank` is the empty object that replaces NO_SELECTION when an edit begins:
   * its corners are undefined.  `origin` is the element where a drag started.
   */
  datatype Selection =
    | NoSelection
    | Blank(origin: Option<ElementId>)
    | Rect(x1: int, y1: int, x2: int, y2: int, origin: Option<ElementId>)

  /** The `y1` corner as the widget sees it; `None` is undefined. */
  function Y1(s: Selection): Option<int> {
    match s
    case NoSelection => Some(-1)
    case Blank(_) => None
    case Rect(_, y1, _, _, _) => Some(y1)
  }

  function Y2(s: Selection): Option<int> {
    match s
    case NoSelection => Some(-1)
    case Blank(_) => None
    case Rect(_, _, _, y2, _) => Some(y2)
  }

  function X1(s: Selection): Option<int> {
    match s
    case NoSelection => Some(-1)
    case Blank(_) => None
    case Rect(x1, _, _, _, _) => Some(x1)
  }

  function X2(s: Selection): Option<int> {
    match s
    case NoSelection => Some(-1)
    case Blank(_) => None
    case Rect(_, _, x2, _, _) => Some(x2)
  }

  function Min(a: int, b: int): int { if a <= b then a else b }
  function Max(a: int, b: int): int { if a <= b then b else a }

  /** `lo <= x <= hi`. */
  predicate Between(lo: int, x: int, hi: int) {
    lo <= x <= hi
  }

  /** A selection whose start row is not below its end row. */
  predicate Ordered(s: Selection) {
    s.Rect? && s.y1 <= s.y2
  }

  /** Whether data row `row` lies inside the selection's row range. */
  predicate Covers(s: Selection, row: int) {
    s.Rect? && s.y1 <= row <= s.y2
  }

  /**
   * Adjusts the selection after `amount` rows were inserted (positive) or
   * deleted (negative) at data row `index`.  The source's sanity assertions
   * become `Err(AssertionFailed)`.
   */
  function AdjustSelectionAround(s: Selection, index: int, amount: int): (r: Result<Selection, Fault>)
    // no selection, or a selection wholly before the edit: unchanged
    ensures s == NoSelection ==> r == Ok(s)
    ensures s.Rect? && s.y1 < index && s.y2 < index ==> r == Ok(s)
    // deleting the only selected row clears the selection
    ensures s.Rect? && amount < 0 && s.y1 == index == s.y2 ==> r == Ok(NoSelection)
    // an edit inside the range moves only the end row
    ensures s.Rect? && !(s.y1 < index && s.y2 < index) && !(amount < 0 && s.y1 == index == s.y2)
            && ((amount < 0 && s.y1 <= index) || (amount > 0 && s.y1 < index))
            ==> (r.Ok? <==> s.y2 >= index) && (r.Ok? ==> r.value == s.(y2 := s.y2 + amount))
    // an edit before the range moves the whole range
    ensures s.Rect? && !(s.y1 < index && s.y2 < index) && !((amount < 0 && s.y1 <= index) || (amount > 0 && s.y1 < index))
            ==> (r.Ok? <==> ((amount < 0 && s.y1 > index && s.y2 > index) || (amount > 0 && s.y1 >= index && s.y2 >= index)))
                && (r.Ok? ==> r.value == s.(y1 := s.y1 + amount, y2 := s.y2 + amount))
    // a selection without corners always trips the final assertion
    ensures s.Blank? ==> r == Err(AssertionFailed)
  {
    match s
    case NoSelection => Ok(s)
    case Blank(_) => Err(AssertionFailed)
    case Rect(_, y1, _, y2, _) =>
      if y1 < index && y2 < index then Ok(s)
      else if amount < 0 && y1 == index && y2 == index then Ok(NoSelection)
      else if (amount < 0 && y1 <= index) || (amount > 0 && y1 < index) then
        if y2 >= index then Ok(s.(y2 := y2 + amount)) else Err(AssertionFailed)
      else if !((amount < 0 && y1 > index) || (amount > 0 && y1 >= index)) then Err(AssertionFailed)
      else if !((amount < 0 && y2 > index) || (amount > 0 && y2 >= index)) then Err(AssertionFailed)
      else Ok(s.(y1 := y1 + amount, y2 := y2 + amount))
  }

  /** Where data row `row` ends up after one row is inserted at `index`. */
  function ShiftedByInsert(row: int, index: int): int {
    if row >= index then row + 1 else row
  }

  /** Where data row `row` (other than `index`) ends up after the row at `index` is deleted. */
  function ShiftedByDelete(row: int, index: int): int {
    if row > index then row - 1 else row
  }

  /**
   * The insertion law for an ordered selection: an insert at or before the
   * start translates it, one inside it grows it by one, one after it changes
   * nothing; the result is ordered and never trips an assertion.
   */
  lemma InsertShiftLaw(s: Selection, index: int)
    requires Ordered(s)
    ensures AdjustSelectionAround(s, index, 1).Ok?
    ensures var r := AdjustSelectionAround(s, index, 1).value;
      && Ordered(r)
      && (index <= s.y1 ==> r == s.(y1 := s.y1 + 1, y2 := s.y2 + 1))
      && (s.y1 < index <= s.y2 ==> r == s.(y2 := s.y2 + 1))
      && (s.y2 < index ==> r == s)
  {
  }

  /**
   * The deletion law for an ordered selection: deleting the only selected row
   * clears it, a delete before the start translates it, one inside it shrinks
   * it by one, one after it changes nothing; no assertion fires.
   */
  lemma DeleteShiftLaw(s: Selection, index: int)
    requires Ordered(s)
    ensures AdjustSelectionAround(s, index, -1).Ok?
    ensures var r := AdjustSelectionAround(s, index, -1).value;
      && (s.y1 == index == s.y2 <==> r == NoSelection)
      && (r != NoSelection ==> Ordered(r))
      && (index < s.y1 ==> r == s.(y1 := s.y1 - 1, y2 := s.y2 - 1))
      && (s.y1 <= index <= s.y2 && s.y1 < s.y2 ==> r == s.(y2 := s.y2 - 1))
      && (s.y2 < index ==> r == s)
  {
  }

  /** Every row an ordered selection covered is still covered, at its shifted index, after an insert. */
  lemma InsertKeepsSelectedRows(s: Selection, index: int, row: int)
    requires Ordered(s) && Covers(s, row)
    ensures AdjustSelectionAround(s, index, 1).Ok?
    ensures Covers(AdjustSelectionAround(s, index, 1).value, ShiftedByInsert(row, index))
  {
    InsertShiftLaw(s, index);
  }

  /**
   * Every surviving row an ordered selection covered is still covered, at its
   * shifted index, after a delete; the selection only vanishes when its one
   * row was the deleted row.
   */
  lemma DeleteKeepsSelectedRows(s: Selection, index: int, row: int)
    requires Ordered(s) && Covers(s, row) && row != index
    ensures AdjustSelectionAround(s, index, -1).Ok?
    ensures Covers(AdjustSelectionAround(s, index, -1).value, ShiftedByDelete(row, index))
  {
    DeleteShiftLaw(s, index);
  }

  /** Deleting the row just inserted at the same index restores an ordered selection. */
  lemma InsertThenDeleteRestores(s: Selection, index: int)
    requires Ordered(s)
    ensures AdjustSelectionAround(s, index, 1).Ok?
    ensures AdjustSelectionAround(AdjustSelectionAround(s, index, 1).value, index, -1) == Ok(s)
  {
    InsertShiftLaw(s, index);
  }

  /** The sequence of inserts the widget's tests apply to the selection {x1:1, y1:2, x2:3, y2:4}. */
  lemma InsertIntoSelectedArea()
    ensures AdjustSelectionAround(NoSelection, 1, 1) == Ok(NoSelection)
    ensures AdjustSelectionAround(Rect(1, 2, 3, 4, None), 5, 1) == Ok(Rect(1, 2, 3, 4, None))
    ensures AdjustSelectionAround(Rect(1, 2, 3, 4, None), 1, 1) == Ok(Rect(1, 3, 3, 5, None))
    ensures AdjustSelectionAround(Rect(1, 3, 3, 5, None), 3, 1) == Ok(Rect(1, 4, 3, 6, None))
    ensures AdjustSelectionAround(Rect(1, 4, 3, 6, None), 5, 1) == Ok(Rect(1, 4, 3, 7, None))
    ensures AdjustSelectionAround(Rect(1, 4, 3, 7, None), 7, 1) == Ok(Rect(1, 4, 3, 8, None))
    ensures AdjustSelectionAround(Rect(1, 4, 3, 8, None), 9, 1) == Ok(Rect(1, 4, 3, 8, None))
  {
  }

  /** A selection dragged upwards whose end row is deleted trips the "within the selection" assertion. */
  lemma ReversedSelectionDeleteFails()
    ensures AdjustSelectionAround(Rect(0, 3, 0, 1, None), 3, -1) == Err(AssertionFailed)
  {
  }

  /**
   * Clips the selection to a new row count.  The end-row test is `y2 > rowCount`,
   * so an end row equal to the row count is kept.
   */
  function TruncateToRowCount(s: Selection, rowCount: int): (r: Selection)
    ensures !s.Rect? ==> r == s
    ensures s.Rect? && s.y1 >= rowCount && s.y2 >= rowCount ==> r == NoSelection
    ensures s.Rect? && r != NoSelection ==> r.Rect? && r.x1 == s.x1 && r.x2 == s.x2 && r.origin == s.origin
    ensures s.Rect? && !(s.y1 >= rowCount && s.y2 >= rowCount) ==>
      && r.Rect?
      && r.y1 == (if s.y1 > s.y2 && s.y1 > rowCount then rowCount - 1 else s.y1)
      && r.y2 == (if s.y2 > s.y1 && s.y2 > rowCount then rowCount - 1 else s.y2)
  {
    match s
    case Rect(_, y1, _, y2, _) =>
      if y1 >= rowCount && y2 >= rowCount then NoSelection
      else if y2 > y1 && y2 > rowCount then s.(y2 := rowCount - 1)
      else if y1 > y2 && y1 > rowCount then s.(y1 := rowCount - 1)
      else s
    case _ => s
  }

  /** Truncating twice is the same as truncating once. */
  lemma TruncateIdempotent(s: Selection, rowCount: int)
    ensures TruncateToRowCount(TruncateToRowCount(s, rowCount), rowCount) == TruncateToRowCount(s, rowCount)
  {
  }

  /**
   * After truncation an ordered selection stays ordered and ends no further
   * than row `rowCount` (one past the last row, because of the `>` test).
   */
  lemma TruncateBoundsOrdered(s: Selection, rowCount: int)
    requires Ordered(s)
    ensures var r := TruncateToRowCount(s, rowCount);
      r == NoSelection || (Ordered(r) && r.y1 == s.y1 && r.y2 <= rowCount && r.y2 <= s.y2)
  {
  }

  /** An end row exactly equal to the new row count survives truncation. */
  lemma TruncateKeepsEndAtRowCount(rowCount: int)
    requires rowCount > 0
    ensures TruncateToRowCount(Rect(0, 0, 1, rowCount, None), rowCount) == Rect(0, 0, 1, rowCount, None)
  {
  }

  /**
   * Whether data row `row` is drawn highlighted: it lies between the smaller
   * and the larger of y1 and y2.  Undefined corners highlight nothing.
   */
  function RowHighlighted(s: Selection, row: int): (h: bool)
    ensures s.Blank? ==> !h
    ensures s.Rect? ==> (h <==> Min(s.y1, s.y2) <= row <= Max(s.y1, s.y2))
    ensures s == NoSelection ==> (h <==> row == -1)
  {
    match s
    case Blank(_) => false
    case _ =>
      var y1 := Y1(s).value;
      var y2 := Y2(s).value;
      Min(y1, y2) <= row <= Max(y1, y2)
  }

  /**
   * The columns covered by the shared highlight rule: from the smaller to the
   * larger of x1 and x2, but none at all when the smaller is negative.
   */
  function HighlightedColumns(s: Selection): (cols: set<int>)
    ensures forall x :: x in cols <==> s.Rect? && 0 <= Min(s.x1, s.x2) <= x <= Max(s.x1, s.x2)
  {
    match s
    case Rect(x1, _, x2, _, _) =>
      // the comparisons bound the set; `Between` gives the comprehension its trigger
      if Min(x1, x2) >= 0 then set x: int | Min(x1, x2) <= x <= Max(x1, x2) && Between(Min(x1, x2), x, Max(x1, x2)) else {}
    case _ => {}
  }
}
