/**
 * The grid's viewport: a list of table-row slots that show the data rows
 * from `scrollY` onwards, how many of them fit on screen, and the scroll
 * arithmetic that keeps the inverted scrollbar and the current row in step.
 *
 * Pixel geometry is replaced by a `Layout` oracle indexed by slot: rows are
 * stacked, so whether a slot fits depends only on its index.
 */
module Viewport {
  import opened Results
  import opened Cursor

  /** One table row: whether it is shown, and whether it carries the selection highlight. */
  datatype Slot = Slot(visible: bool, highlighted: bool)

  /**
   * What the browser would report for slot `i`: its bottom edge is inside the
   * container (`fully`), its top edge is (`partially`), it has no height yet
   * because no stylesheet is loaded (`zeroHeight`), or its page offset is past
   * the emergency-brake limit (`offsetTooLarge`).
   */
  datatype Layout = Layout(
    fully: nat -> bool,
    partially: nat -> bool,
    zeroHeight: nat -> bool,
    offsetTooLarge: nat -> bool)

  /** Rows are stacked top to bottom: once a slot falls off the container, every later one does too. */
  ghost predicate Monotone(layout: Layout) {
    && (forall i: nat, j: nat :: i <= j && layout.fully(j) ==> layout.fully(i))
    && (forall i: nat, j: nat :: i <= j && layout.partially(j) ==> layout.partially(i))
    && (forall i: nat :: layout.fully(i) ==> layout.partially(i))
  }

  /** The largest slot index the widget will create, and its page-offset brake. */
  const MaxSlotIndex: nat := 1000

  /** Adding slot `i` trips the emergency brake. */
  predicate Braked(layout: Layout, i: nat) {
    i > MaxSlotIndex || layout.offsetTooLarge(i)
  }

  // ---------------------------------------------------------------------
  // Counting the slots on screen

  /** One more than the highest fully visible slot among the first `n`, or 0 when none is. */
  function FullyVisibleRowCount(n: nat, layout: Layout): (r: nat)
    ensures r <= n
    ensures r > 0 ==> layout.fully(r - 1)
    ensures forall i: nat :: r <= i < n ==> !layout.fully(i)
  {
    if n == 0 then 0
    else if layout.fully(n - 1) then n
    else FullyVisibleRowCount(n - 1, layout)
  }

  /**
   * With stacked rows the count is a prefix length: exactly the slots below
   * it are fully visible.
   */
  lemma {:induction false} FullyVisibleIsPrefix(n: nat, layout: Layout, i: nat)
    requires Monotone(layout) && i < n
    ensures layout.fully(i) <==> i < FullyVisibleRowCount(n, layout)
  {
    var r := FullyVisibleRowCount(n, layout);
    if i < r {
      assert layout.fully(r - 1);
    }
  }

  /**
   * One more than the highest partially visible slot among the first `n`.
   * When no slot is even partially visible the widget's loop falls through
   * and yields `undefined`, modelled as `None`.
   */
  function VisibleRowCount(n: nat, layout: Layout): (r: Option<nat>)
    ensures r.None? <==> forall i: nat :: i < n ==> !layout.partially(i)
    ensures r.Some? ==> 0 < r.value <= n && layout.partially(r.value - 1)
    ensures r.Some? ==> forall i: nat :: r.value <= i < n ==> !layout.partially(i)
  {
    if n == 0 then None
    else if layout.partially(n - 1) then Some(n)
    else VisibleRowCount(n - 1, layout)
  }

  /** With stacked rows, a slot that fits fully is counted among the visible ones too. */
  lemma {:induction false} FullyVisibleWithinVisible(n: nat, layout: Layout)
    requires Monotone(layout)
    ensures FullyVisibleRowCount(n, layout) > 0 ==> VisibleRowCount(n, layout).Some?
    ensures VisibleRowCount(n, layout).Some? ==> FullyVisibleRowCount(n, layout) <= VisibleRowCount(n, layout).value
  {
    var f := FullyVisibleRowCount(n, layout);
    if f > 0 {
      assert layout.partially(f - 1);
    }
  }

  // ---------------------------------------------------------------------
  // Slot visibility and growth

  /** Shows exactly the slots that have a data row behind them, from `scrollY` onwards. */
  function SetVisibility(slots: seq<Slot>, scrollY: int, rowCount: int): (r: seq<Slot>)
    ensures |r| == |slots|
    ensures forall i :: 0 <= i < |r| ==> r[i].highlighted == slots[i].highlighted
    ensures forall i :: 0 <= i < |r| ==> (r[i].visible <==> i + scrollY < rowCount)
  {
    seq(|slots|, i requires 0 <= i < |slots| => slots[i].(visible := i + scrollY < rowCount))
  }

  /**
   * The loop that appends slots, one at a time, while the last slot is fully
   * visible and another data row remains.  It also stops after a slot of zero
   * height, and aborts once the emergency brake trips.
   */
  function Grow(rows: seq<Slot>, scrollY: int, rowCount: int, layout: Layout): (r: Result<seq<Slot>, Fault>)
    decreases if |rows| + scrollY < rowCount then rowCount - scrollY - |rows| else 0
    ensures r.Err? ==> r.error == EmergencyBrakes
    ensures r.Err? ==> exists i: nat :: |rows| <= i < rowCount - scrollY && Braked(layout, i)
    ensures r.Ok? ==> |rows| <= |r.value| && r.value[..|rows|] == rows
    ensures r.Ok? ==> forall i :: |rows| <= i < |r.value| ==>
      && r.value[i] == Slot(true, false)
      && !Braked(layout, i)
    // a slot was appended only below a fully visible one
    ensures r.Ok? ==> forall i: nat :: |rows| <= i + 1 < |r.value| ==> layout.fully(i)
    // every appended slot has a data row behind it
    ensures r.Ok? && |r.value| > |rows| ==> |r.value| + scrollY <= rowCount
    ensures r.Ok? ==> forall i :: |rows| <= i < |r.value| - 1 ==> !layout.zeroHeight(i)
    // the loop stopped for one of its three reasons
    ensures r.Ok? ==> var m := |r.value|;
      || (m > 0 && !layout.fully(m - 1))
      || m + scrollY >= rowCount
      || (m > |rows| && layout.zeroHeight(m - 1))
  {
    var n := |rows|;
    if n > 0 && !layout.fully(n - 1) then Ok(rows)
    else if n + scrollY >= rowCount then Ok(rows)
    else if Braked(layout, n) then Err(EmergencyBrakes)
    else
      var grown := rows + [Slot(true, false)];
      if layout.zeroHeight(n) then Ok(grown)
      else
        var r := Grow(grown, scrollY, rowCount, layout);
        if r.Ok? then
          assert r.value[..n] == r.value[..n + 1][..n];
          assert r.value[n] == r.value[..n + 1][n] == grown[n];
          r
        else r
  }

  /**
   * `updateRowVisibility`: show or hide every existing slot, then grow.  Slots
   * are never removed.
   */
  function UpdateRowVisibility(slots: seq<Slot>, scrollY: int, rowCount: int, layout: Layout): (r: Result<seq<Slot>, Fault>)
    ensures r.Ok? ==> |slots| <= |r.value|
    ensures r.Ok? ==> forall i :: 0 <= i < |r.value| ==> (r.value[i].visible <==> i + scrollY < rowCount)
    ensures r.Ok? ==> forall i :: 0 <= i < |slots| ==> r.value[i].highlighted == slots[i].highlighted
    ensures r.Ok? ==> forall i :: |slots| <= i < |r.value| ==> !r.value[i].highlighted
    ensures r.Err? ==> r == Err(EmergencyBrakes)
  {
    var shown := SetVisibility(slots, scrollY, rowCount);
    var r := Grow(shown, scrollY, rowCount, layout);
    if r.Ok? then
      assert forall i :: 0 <= i < |slots| ==> r.value[i] == r.value[..|slots|][i];
      r
    else r
  }

  /** `k` freshly appended slots. */
  function Fresh(k: nat): (r: seq<Slot>)
    ensures |r| == k && forall i :: 0 <= i < k ==> r[i] == Slot(true, false)
  {
    seq(k, i => Slot(true, false))
  }

  /**
   * A reference count for growth: when exactly the first `f` slot positions
   * fit, no slot is zero-height and no brake trips, the grid grows to one
   * partially hidden slot past the fully visible ones, or to the end of the
   * data, whichever comes first, and never shrinks.
   */
  lemma {:induction false} GrowReachesScreenOrData(rows: seq<Slot>, scrollY: int, rowCount: int, layout: Layout, f: nat)
    requires forall i: nat :: layout.fully(i) <==> i < f
    requires forall i: nat :: !layout.zeroHeight(i) && !layout.offsetTooLarge(i)
    requires rowCount - scrollY <= MaxSlotIndex + 1
    ensures var target := if f + 1 < rowCount - scrollY then f + 1 else rowCount - scrollY;
      Grow(rows, scrollY, rowCount, layout) ==
        Ok(rows + Fresh(if target > |rows| then target - |rows| else 0))
    decreases if |rows| + scrollY < rowCount then rowCount - scrollY - |rows| else 0
  {
    var n := |rows|;
    var target := if f + 1 < rowCount - scrollY then f + 1 else rowCount - scrollY;
    if n > 0 && !layout.fully(n - 1) {
      assert Grow(rows, scrollY, rowCount, layout) == Ok(rows);
      assert rows + Fresh(0) == rows;
    } else if n + scrollY >= rowCount {
      assert Grow(rows, scrollY, rowCount, layout) == Ok(rows);
      assert rows + Fresh(0) == rows;
    } else {
      var grown := rows + [Slot(true, false)];
      assert !Braked(layout, n) && !layout.zeroHeight(n);
      assert Grow(rows, scrollY, rowCount, layout) == Grow(grown, scrollY, rowCount, layout);
      GrowReachesScreenOrData(grown, scrollY, rowCount, layout, f);
      assert target >= n + 1;
      var k := target - (n + 1);
      assert grown + Fresh(k) == rows + Fresh(target - n);
    }
  }

  /** A grid scrolled past the data keeps its slots but hides every one of them. */
  lemma ScrolledPastDataHidesAll(slots: seq<Slot>, scrollY: int, rowCount: int, layout: Layout)
    requires scrollY >= rowCount
    ensures UpdateRowVisibility(slots, scrollY, rowCount, layout) == Ok(SetVisibility(slots, scrollY, rowCount))
    ensures forall i :: 0 <= i < |slots| ==> !SetVisibility(slots, scrollY, rowCount)[i].visible
  {
  }

  // ---------------------------------------------------------------------
  // Refreshing after a data change

  /**
   * The slots `updateRowsFromIndex` repaints after a change at data row `index`:
   * every shown slot from the one displaying `index` (or the first slot, when
   * that row is scrolled off the top) to the end, in increasing order.
   */
  method UpdateRowsFromIndex(slots: seq<Slot>, scrollY: int, index: int) returns (refreshed: seq<nat>)
    ensures forall i :: i in refreshed <==> 0 <= i < |slots| && slots[i].visible && i + scrollY >= index
    ensures forall p, q :: 0 <= p < q < |refreshed| ==> refreshed[p] < refreshed[q]
  {
    var first := index - scrollY;
    if first < 0 {
      first := 0;
    }
    refreshed := [];
    var i := first;
    while i < |slots|
      invariant first <= i || |slots| <= i
      invariant forall j :: j in refreshed <==> first <= j < i && j < |slots| && slots[j].visible
      invariant forall p, q :: 0 <= p < q < |refreshed| ==> refreshed[p] < refreshed[q]
      invariant forall p :: 0 <= p < |refreshed| ==> refreshed[p] < i
      decreases |slots| - i
    {
      if slots[i].visible {
        refreshed := refreshed + [i];
      }
      i := i + 1;
    }
  }

  /**
   * The slot `handleRowUpdate` repaints for a change to data row `dataRow`.
   * Its guard compares the data row, not the slot index, with the number of
   * slots; a slot index outside the table trips the repaint's assertion.
   */
  function RowUpdateTarget(dataRow: int, scrollY: int, slotCount: nat): (r: Result<Option<nat>, Fault>)
    ensures r.Ok? && r.value.Some? ==> r.value.value < slotCount && r.value.value + scrollY == dataRow
    ensures r == Ok(None) <==> !(0 <= dataRow < slotCount)
    ensures r.Err? ==> r.error == AssertionFailed && !(0 <= dataRow - scrollY < slotCount)
  {
    if 0 <= dataRow < slotCount then
      var slot := dataRow - scrollY;
      if 0 <= slot < slotCount then Ok(Some(slot)) else Err(AssertionFailed)
    else Ok(None)
  }

  /** Unscrolled, the guard is exact: a row is repainted iff a slot displays it. */
  lemma RowUpdateExactAtTop(dataRow: int, slotCount: nat)
    ensures RowUpdateTarget(dataRow, 0, slotCount) == (if 0 <= dataRow < slotCount then Ok(Some(dataRow)) else Ok(None))
  {
  }

  /** Scrolled down, an on-screen row past the slot count is not repainted. */
  lemma RowUpdateMissesScrolledRow()
    ensures RowUpdateTarget(5, 3, 4) == Ok(None)
  {
  }

  /** Scrolled down, a row above the screen but below the slot count trips the repaint assertion. */
  lemma RowUpdateAssertsAboveScreen()
    ensures RowUpdateTarget(1, 2, 4) == Err(AssertionFailed)
  {
  }

  // ---------------------------------------------------------------------
  // Scroll arithmetic

  /** The outcome of `setScroll`: the new offset and the inverted scrollbar's range and value. */
  datatype ScrollUpdate = ScrollUpdate(y: int, maximum: int, value: int)

  function MaxInt(a: int, b: int): int { if a <= b then b else a }

  /**
   * The arithmetic of `setScroll`.  An offset past the data is pulled back to
   * the last row (to 0 with no rows); there is no lower clamp.  The maximum
   * is widened to the offset when more rows fit than remain, and the slider
   * value counts rows from the bottom.
   */
  function SetScroll(newY: int, rowCount: nat, fullyVisible: nat): (u: ScrollUpdate)
    ensures newY < rowCount ==> u.y == newY
    ensures newY >= rowCount ==> u.y == (if rowCount == 0 then 0 else rowCount - 1)
    ensures u.y <= newY
    ensures u.maximum >= rowCount - fullyVisible && u.maximum >= u.y
    ensures u.maximum == rowCount - fullyVisible || u.maximum == u.y
    ensures u.y == u.maximum - u.value
  {
    var y := if newY >= rowCount then (if rowCount == 0 then 0 else rowCount - 1) else newY;
    var maximum := MaxInt(rowCount - fullyVisible, y);
    ScrollUpdate(y, maximum, maximum - y)
  }

  /** Whether `setScroll` repaints and re-highlights: only when the offset really moved. */
  predicate Repaints(oldY: int, u: ScrollUpdate) {
    u.y != oldY
  }

  /**
   * The scrollbar's CHANGE event feeds `maximum - value` back into `setScroll`;
   * with the same data that reproduces the same update and does not repaint.
   */
  lemma ScrollEventRoundTrip(newY: int, rowCount: nat, fullyVisible: nat)
    ensures var u := SetScroll(newY, rowCount, fullyVisible);
      SetScroll(u.maximum - u.value, rowCount, fullyVisible) == u
      && !Repaints(u.y, SetScroll(u.maximum - u.value, rowCount, fullyVisible))
  {
  }

  /** A non-negative request lands on an existing row (row 0 when there are none), and the slider value is never negative. */
  lemma SetScrollBounds(newY: int, rowCount: nat, fullyVisible: nat)
    requires newY >= 0
    ensures var u := SetScroll(newY, rowCount, fullyVisible);
      && 0 <= u.y
      && (rowCount > 0 ==> u.y < rowCount)
      && (rowCount == 0 ==> u.y == 0)
      && 0 <= u.value <= u.maximum
  {
  }

  /** A negative request is kept as it is, and the slider value then exceeds its maximum. */
  lemma SetScrollNoLowerClamp()
    ensures SetScroll(-3, 10, 4) == ScrollUpdate(-3, 6, 9)
  {
  }

  /** The row-count scenario the grid's tests walk through, with `f` rows fitting fully. */
  lemma RowCountChangeScenario(f: nat)
    requires f >= 2
    ensures SetScroll(0, f + 1, f) == ScrollUpdate(0, 1, 1)
    ensures SetScroll(1, f + 1, f) == ScrollUpdate(1, 1, 0)
    ensures SetScroll(1, f, f) == ScrollUpdate(1, 1, 0)
    ensures SetScroll(1, 2, f) == ScrollUpdate(1, 1, 0)
    ensures SetScroll(1, 1, f) == ScrollUpdate(0, 0, 0)
  {
  }

  /**
   * The scroll offset `handleCursorMove` asks for: the top for BOF, the last
   * screenful for EOF and NEW (using the row count and fit after the move), and
   * for a row index the nearest offset that brings it into the window of
   * `fullyBefore` rows starting at `oldScroll`.
   */
  function CursorMoveScroll(position: Position, oldScroll: int, fullyBefore: nat, rowCountAfter: nat, fullyAfter: nat): (s: int)
    ensures position == BOF ==> s == 0
    ensures position == EOF || position == NEW ==> s == rowCountAfter - fullyAfter
    ensures position.Index? && fullyBefore > 0 ==> s <= position.n <= s + fullyBefore - 1
    ensures position.Index? && oldScroll <= position.n <= oldScroll + fullyBefore - 1 ==> s == oldScroll
  {
    match position
    case BOF => 0
    case EOF => rowCountAfter - fullyAfter
    case NEW => rowCountAfter - fullyAfter
    case Index(n) =>
      var last := oldScroll + fullyBefore - 1;
      if n < oldScroll then oldScroll + (n - oldScroll)
      else if n > last then oldScroll + (n - last)
      else oldScroll
  }

  /**
   * For a row index the requested scroll moves the window as little as
   * possible: any offset whose window holds the row is at least as far from
   * the old offset.
   */
  lemma CursorMoveScrollIsMinimal(n: nat, oldScroll: int, fullyBefore: nat, rowCountAfter: nat, fullyAfter: nat, t: int)
    requires fullyBefore > 0 && t <= n <= t + fullyBefore - 1
    ensures var s := CursorMoveScroll(Index(n), oldScroll, fullyBefore, rowCountAfter, fullyAfter);
      (if s >= oldScroll then s - oldScroll else oldScroll - s) <= (if t >= oldScroll then t - oldScroll else oldScroll - t)
  {
  }

  /** The navigation tests' expectations: from BOF to row 0 and back, a page down, and onto NEW. */
  lemma CursorMoveScenario(rows: nat, f: nat)
    requires 2 <= f < rows
    ensures CursorMoveScroll(Index(0), 0, f, rows, f) == 0
    ensures CursorMoveScroll(Index(f - 1), 0, f, rows, f) == 0
    ensures CursorMoveScroll(Index(f), 0, f, rows, f) == 1
    ensures CursorMoveScroll(EOF, 0, f, rows, f) == rows - f
    ensures CursorMoveScroll(NEW, rows - f, f, rows + 1, f) == rows + 1 - f
    ensures CursorMoveScroll(Index(rows - f - 1), rows - f, f, rows, f) == rows - f - 1
  {
  }

  /** With fewer rows than fit, moving to EOF asks for a negative offset, which `setScroll` keeps. */
  lemma EofScrollGoesNegative()
    ensures CursorMoveScroll(EOF, 0, 5, 2, 5) == -3
    ensures SetScroll(CursorMoveScroll(EOF, 0, 5, 2, 5), 2, 5).y == -3
  {
  }
}
