/**
 * The record cursor the grid and its navigation bar drive.  Its own source is
 * not part of this model; what is modelled here is the position line
 * BOF < 0 <= ... <= count-1 < EOF, the pending NEW row, and the move
 * operations as the grid's tests exercise them.
 */
module Cursor {
  import opened Results

  /** Where the cursor stands: before the first row, after the last, on a pending new row, or on a row. */
  datatype Position = BOF | EOF | NEW | Index(n: nat)

  /** The recoverable conditions a move can raise. */
  datatype CursorError = IllegalMove | DiscardBlocked

  /** A cursor over a data source of `count` rows; `dirty` means unsaved edits exist. */
  datatype Cursor = Cursor(position: Position, count: nat, dirty: bool)

  /** True when the position is a real row of the data source. */
  predicate InData(p: Position) {
    p.Index?
  }

  /** A position that is a row index always names an existing row. */
  predicate Valid(c: Cursor) {
    c.position.Index? ==> c.position.n < c.count
  }

  /** Maps an arithmetic row number onto the position line, clamping to the sentinels. */
  function Locate(target: int, count: nat): (p: Position)
    ensures p == BOF <==> target < 0
    ensures p == EOF <==> count <= target
    ensures p.Index? <==> 0 <= target < count
    ensures p.Index? ==> p.n == target
    ensures !p.NEW?
  {
    if target < 0 then BOF
    else if target >= count then EOF
    else Index(target)
  }

  /** The row number a relative move starts from: BOF is -1, EOF and NEW are one past the last row. */
  function Ordinal(p: Position, count: nat): int {
    match p
    case BOF => -1
    case EOF => count
    case NEW => count
    case Index(n) => n
  }

  /** Moves to `p`; a dirty cursor refuses to abandon its edits. Row indices past the end become EOF. */
  function SetPosition(c: Cursor, p: Position): (r: Result<Cursor, CursorError>)
    ensures c.dirty <==> r == Err(DiscardBlocked)
    ensures r.Ok? ==> r.value.count == c.count && !r.value.dirty
    ensures r.Ok? && !p.Index? ==> r.value.position == p
    ensures r.Ok? && p.Index? && p.n < c.count ==> r.value.position == p
    ensures r.Ok? && p.Index? && p.n >= c.count ==> r.value.position == EOF
    ensures r.Ok? ==> Valid(r.value)
  {
    if c.dirty then Err(DiscardBlocked)
    else
      var q := if p.Index? then Locate(p.n, c.count) else p;
      Ok(c.(position := q))
  }

  /** Moves `n` rows forward (backward when negative). */
  function MoveRelative(c: Cursor, n: int): (r: Result<Cursor, CursorError>)
    ensures r == Err(IllegalMove) <==> (c.position == BOF && n < 0) || (c.position == EOF && n > 0)
    ensures r == Err(DiscardBlocked) <==> c.dirty && !(c.position == BOF && n < 0) && !(c.position == EOF && n > 0)
    ensures r.Ok? ==> r.value.position == Locate(Ordinal(c.position, c.count) + n, c.count)
    ensures r.Ok? ==> r.value.count == c.count && Valid(r.value)
  {
    if c.position == BOF && n < 0 then Err(IllegalMove)
    else if c.position == EOF && n > 0 then Err(IllegalMove)
    else SetPosition(c, Locate(Ordinal(c.position, c.count) + n, c.count))
  }

  /** Moves to the first row, or to EOF when there are no rows. */
  function MoveFirst(c: Cursor): (r: Result<Cursor, CursorError>)
    ensures r.Ok? <==> !c.dirty
    ensures r.Ok? && c.count > 0 ==> r.value.position == Index(0)
    ensures r.Ok? && c.count == 0 ==> r.value.position == EOF
  {
    SetPosition(c, Locate(0, c.count))
  }

  /** Moves to the last row, or to BOF when there are no rows. */
  function MoveLast(c: Cursor): (r: Result<Cursor, CursorError>)
    ensures r.Ok? <==> !c.dirty
    ensures r.Ok? && c.count > 0 ==> r.value.position == Index(c.count - 1)
    ensures r.Ok? && c.count == 0 ==> r.value.position == BOF
  {
    SetPosition(c, Locate(c.count - 1, c.count))
  }

  /** Moves onto a pending new row, one past the last stored row. */
  function MoveNew(c: Cursor): (r: Result<Cursor, CursorError>)
    ensures r.Ok? <==> !c.dirty
    ensures r.Ok? ==> r.value.position == NEW && r.value.count == c.count
  {
    SetPosition(c, NEW)
  }

  /** Every successful move leaves a valid cursor, so an empty data source is never "in the data". */
  lemma MovesKeepCursorValid(c: Cursor, n: int)
    ensures MoveRelative(c, n).Ok? ==> Valid(MoveRelative(c, n).value)
    ensures MoveFirst(c).Ok? ==> Valid(MoveFirst(c).value)
    ensures MoveLast(c).Ok? ==> Valid(MoveLast(c).value)
    ensures MoveNew(c).Ok? ==> Valid(MoveNew(c).value)
    ensures c.count == 0 && MoveRelative(c, n).Ok? ==> !InData(MoveRelative(c, n).value.position)
  {
  }

  /** A move of `n` rows followed by a move of `-n` rows returns to the starting row when nothing clamps. */
  lemma MoveRelativeInverse(c: Cursor, i: nat, n: int)
    requires !c.dirty && c.position == Index(i) && i < c.count && 0 <= i + n < c.count
    ensures MoveRelative(c, n).Ok?
    ensures MoveRelative(MoveRelative(c, n).value, -n) == Ok(c)
  {
  }

  /** Two relative moves inside the data compose into one move by the sum. */
  lemma MoveRelativeAdditive(c: Cursor, i: nat, n: int, m: int)
    requires !c.dirty && c.position == Index(i) && 0 <= i + n < c.count
    ensures MoveRelative(c, n).Ok?
    ensures MoveRelative(MoveRelative(c, n).value, m) == MoveRelative(c, n + m)
  {
  }

  /** The moves the grid's navigation tests expect from the sentinels. */
  lemma SentinelMoves(c: Cursor, pageSize: int)
    requires !c.dirty && 0 < pageSize <= c.count
    ensures c.position == BOF ==> MoveRelative(c, 1) == Ok(c.(position := Index(0)))
    ensures c.position == BOF ==> MoveRelative(c, pageSize) == Ok(c.(position := Index(pageSize - 1)))
    ensures c.position == EOF ==> MoveRelative(c, -1) == Ok(c.(position := Index(c.count - 1)))
    ensures c.position == EOF ==> MoveRelative(c, -pageSize) == Ok(c.(position := Index(c.count - pageSize)))
    ensures c.position == BOF ==> MoveRelative(c, -1) == Err(IllegalMove) && MoveRelative(c, -pageSize) == Err(IllegalMove)
    ensures c.position == EOF ==> MoveRelative(c, 1) == Err(IllegalMove) && MoveRelative(c, pageSize) == Err(IllegalMove)
  {
  }
}
