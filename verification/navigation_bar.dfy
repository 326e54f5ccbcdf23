/**
 * The navigation toolbar under a navigable grid: seven buttons that move the
 * cursor, a row-number field, and the rule that turns exceptions thrown by a
 * button's action into events aimed at that button.
 */
module NavigationBar {
  import opened Results
  import opened Cursor

  /** What the user asked for by clicking a button. */
  datatype Intent = First | PrevPage | Prev | Next | NextPage | Last | New

  /** The cursor operation a button performs. */
  datatype CursorCall = CallMoveFirst | CallMoveRelative(rows: int) | CallMoveLast | CallMoveNew

  /** The bar's own state: the number of rows a page button moves by. */
  datatype NavBar = NavBar(pageSize: int)

  /** Enabled state of the six buttons whose state depends on the position (New is always enabled). */
  datatype Buttons = Buttons(first: bool, prevPage: bool, prev: bool, next: bool, nextPage: bool, last: bool)

  /**
   * What the bar shows after a cursor move: the position in the row-number
   * field, and the buttons, or the failed assertion that stopped the refresh
   * before it reached them.
   */
  datatype View = View(field: Position, buttons: Result<Buttons, Fault>)

  /** What a button click amounts to once `sendEventOnException` has dealt with any exception. */
  datatype Reaction =
    | Completed(cursor: Cursor)       // the action ran without throwing
    | Intercepted(error: CursorError) // an exception event was dispatched and a handler took it
    | Swallowed(error: CursorError)   // nobody handled the event, but a blocked discard is not an error
    | Rethrown(error: CursorError)    // nobody handled the event, so the exception propagates

  /** The number of rows a page button moves by: writing it back leaves the bar as it was. */
  function GetPageSize(bar: NavBar): (n: int)
    ensures bar.(pageSize := n) == bar
  {
    bar.pageSize
  }

  function SetPageSize(bar: NavBar, newPageSize: int): (r: NavBar)
    ensures GetPageSize(r) == newPageSize
  {
    bar.(pageSize := newPageSize)
  }

  /**
   * The page size is a plain property: reading gives what was last set,
   * writing back what was read changes nothing, and a later write wins.
   */
  lemma PageSizeRoundTrip(bar: NavBar, n: int, m: int)
    ensures GetPageSize(SetPageSize(bar, n)) == n
    ensures SetPageSize(bar, GetPageSize(bar)) == bar
    ensures SetPageSize(SetPageSize(bar, n), m) == SetPageSize(bar, m)
  {
  }

  /** The cursor call each button is wired to. */
  function CallFor(intent: Intent, pageSize: int): (call: CursorCall)
    ensures call == CallMoveFirst <==> intent == First
    ensures call == CallMoveLast <==> intent == Last
    ensures call == CallMoveNew <==> intent == New
    ensures call.CallMoveRelative? ==> call.rows == match intent
      case Prev => -1
      case Next => 1
      case PrevPage => -pageSize
      case _ => pageSize
  {
    match intent
    case First => CallMoveFirst
    case PrevPage => CallMoveRelative(-pageSize)
    case Prev => CallMoveRelative(-1)
    case Next => CallMoveRelative(1)
    case NextPage => CallMoveRelative(pageSize)
    case Last => CallMoveLast
    case New => CallMoveNew
  }

  /** Runs a cursor call. */
  function Perform(c: Cursor, call: CursorCall): Result<Cursor, CursorError> {
    match call
    case CallMoveFirst => MoveFirst(c)
    case CallMoveRelative(n) => MoveRelative(c, n)
    case CallMoveLast => MoveLast(c)
    case CallMoveNew => MoveNew(c)
  }

  /**
   * Button enabled states for a position in a data source of `rows` rows
   * (`rows == -1` when the size is indeterminate).  The sentinel positions
   * are taken never to equal a row number.
   */
  function ButtonStates(position: Position, rows: int): (b: Buttons)
    ensures b.first <==> position != Index(0)
    ensures b.prevPage == b.prev && (b.prev <==> position != BOF)
    ensures b.nextPage == b.next && (b.next <==> position != EOF)
    ensures b.last <==> rows == -1 || !(position.Index? && position.n == rows - 1)
  {
    Buttons(
      first := position != Index(0),
      prevPage := position != BOF,
      prev := position != BOF,
      next := position != EOF,
      nextPage := position != EOF,
      last := rows == -1 || !(position.Index? && position.n == rows - 1))
  }

  /** Whether the button for `intent` is clickable. */
  function Enabled(b: Buttons, intent: Intent): bool {
    match intent
    case First => b.first
    case PrevPage => b.prevPage
    case Prev => b.prev
    case Next => b.next
    case NextPage => b.nextPage
    case Last => b.last
    case New => true
  }

  /**
   * The bar's response to a cursor move: the field shows the position, then
   * the bar asserts that an empty data source never has a row position, and
   * only then are the buttons recomputed.
   */
  function OnCursorMove(c: Cursor): (r: View)
    ensures r.field == c.position
    ensures r.buttons.Err? <==> c.count == 0 && InData(c.position)
    ensures r.buttons.Err? ==> r.buttons.error == AssertionFailed
    ensures r.buttons.Ok? ==> r.buttons.value == ButtonStates(c.position, c.count)
  {
    var field := c.position;
    if c.count == 0 && InData(c.position) then View(field, Err(AssertionFailed))
    else View(field, Ok(ButtonStates(c.position, c.count)))
  }

  /**
   * Runs a button action; an exception becomes an event dispatched at the
   * button.  `intercepted` is whether some handler of that event cancelled it.
   */
  function SendEventOnException(outcome: Result<Cursor, CursorError>, intercepted: bool): (r: Reaction)
    ensures outcome.Ok? <==> r.Completed?
    ensures outcome.Ok? ==> r == Completed(outcome.value)
    ensures outcome.Err? && intercepted <==> r.Intercepted?
    ensures r.Swallowed? <==> outcome == Err(DiscardBlocked) && !intercepted
    ensures r.Rethrown? <==> outcome.Err? && outcome.error != DiscardBlocked && !intercepted
    ensures !r.Completed? ==> r.error == outcome.error
  {
    match outcome
    case Ok(c) => Completed(c)
    case Err(e) =>
      if intercepted then Intercepted(e)
      else if e == DiscardBlocked then Swallowed(e)
      else Rethrown(e)
  }

  /**
   * A click on the button for `intent`: the button's cursor call, run under
   * `sendEventOnException`.  A completed click leaves a clean, valid cursor
   * over the same rows; a dirty cursor never completes; only IllegalMove can
   * escape.
   */
  function Click(bar: NavBar, intent: Intent, c: Cursor, intercepted: bool): (r: Reaction)
    ensures r.Completed? ==> Valid(r.cursor) && !r.cursor.dirty && r.cursor.count == c.count
    ensures c.dirty ==> !r.Completed?
    ensures intent in {First, Last, New} ==> (r.Completed? <==> !c.dirty)
    ensures c.dirty && intent in {First, Last, New} ==>
      r == (if intercepted then Intercepted(DiscardBlocked) else Swallowed(DiscardBlocked))
    ensures r.Completed? && intent == New ==> r.cursor.position == NEW
    ensures r.Completed? && intent == First && c.count > 0 ==> r.cursor.position == Index(0)
    ensures r.Completed? && intent == Last && c.count > 0 ==> r.cursor.position == Index(c.count - 1)
    ensures r.Rethrown? ==> r.error == IllegalMove
    ensures r.Intercepted? ==> intercepted
  {
    SendEventOnException(Perform(c, CallFor(intent, GetPageSize(bar))), intercepted)
  }

  /**
   * The arrow buttons are enabled exactly when their move is legal: with a
   * positive page size, an arrow or page button is disabled iff its cursor
   * call would raise IllegalMove.
   */
  lemma ArrowButtonsPredictIllegalMove(c: Cursor, intent: Intent, pageSize: int)
    requires pageSize > 0
    requires intent in {Prev, PrevPage, Next, NextPage}
    ensures Enabled(ButtonStates(c.position, c.count), intent)
        <==> Perform(c, CallFor(intent, pageSize)) != Err(IllegalMove)
  {
  }

  /** With rows present and no unsaved edits, First is enabled iff moving first actually moves. */
  lemma FirstButtonMeansMovement(c: Cursor)
    requires !c.dirty && c.count > 0
    ensures ButtonStates(c.position, c.count).first <==> MoveFirst(c).value.position != c.position
  {
  }

  /** With rows present and no unsaved edits, Last is enabled iff moving last actually moves. */
  lemma LastButtonMeansMovement(c: Cursor)
    requires !c.dirty && c.count > 0
    ensures ButtonStates(c.position, c.count).last <==> MoveLast(c).value.position != c.position
  {
  }

  /**
   * Clicking an enabled button never lets an exception escape to the browser:
   * IllegalMove cannot arise and a blocked discard is swallowed.
   */
  lemma EnabledClickNeverThrows(bar: NavBar, intent: Intent, c: Cursor, intercepted: bool)
    requires bar.pageSize > 0
    requires Enabled(ButtonStates(c.position, c.count), intent)
    ensures !Click(bar, intent, c, intercepted).Rethrown?
  {
    var out := Perform(c, CallFor(intent, bar.pageSize));
    if intent in {Prev, PrevPage, Next, NextPage} {
      ArrowButtonsPredictIllegalMove(c, intent, bar.pageSize);
    }
    assert out != Err(IllegalMove);
  }

  /**
   * After a completed click the bar's refresh succeeds, and its row-number
   * field shows the new position.
   */
  lemma FieldShowsPositionAfterClick(bar: NavBar, intent: Intent, c: Cursor, intercepted: bool)
    requires Click(bar, intent, c, intercepted).Completed?
    ensures OnCursorMove(Click(bar, intent, c, intercepted).cursor).buttons.Ok?
    ensures OnCursorMove(Click(bar, intent, c, intercepted).cursor).field
         == Click(bar, intent, c, intercepted).cursor.position
  {
    var d := Click(bar, intent, c, intercepted).cursor;
    assert Perform(c, CallFor(intent, bar.pageSize)) == Ok(d);
    assert Valid(d);
  }

  /** The page buttons of the navigable grid move by a whole window, as its tests expect from BOF and EOF. */
  lemma PageButtonsFromSentinels(bar: NavBar, c: Cursor, windowRows: int)
    requires !c.dirty && 0 < windowRows <= c.count
    requires GetPageSize(bar) == windowRows
    ensures c.position == BOF ==> Click(bar, NextPage, c, false) == Completed(c.(position := Index(windowRows - 1)))
    ensures c.position == EOF ==> Click(bar, PrevPage, c, false) == Completed(c.(position := Index(c.count - windowRows)))
    ensures c.position == BOF ==> Click(bar, Prev, c, true) == Intercepted(IllegalMove)
    ensures c.position == EOF ==> Click(bar, Next, c, false) == Rethrown(IllegalMove)
  {
  }
}
