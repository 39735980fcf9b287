/** View mode and keyboard focus movement of the folder grid
    (`updateSize` and the `KeyboardNavigationManipulator` handler in
    `GenerateButton`). The grid is in list view when the zoom level is at
    the scale slider's low value or below; otherwise it is an icon grid whose
    rows hold `rowCount` buttons. A button at index `index` of the element
    list moves focus by one step or by one row, after a one-sided bounds
    check on the target index. */
module KeyboardNavigation {

  import opened Wrappers

  /** The scale slider's range and the zoom level used by "Reset Zoom". */
  const SliderLow: real := 36.0
  const SliderHigh: real := 120.0
  const DefaultZoom: real := 84.0

  /** Height of a row in list view. */
  const ListRowHeight: real := 20.0

  predicate InListView(zoom: real) {
    zoom <= SliderLow
  }

  datatype Width = Auto | Fixed(size: real)
  datatype ItemSize = ItemSize(width: Width, height: real)

  /** The size `updateSize` gives every grid item. */
  function ItemSizeFor(zoom: real): (s: ItemSize)
    ensures InListView(zoom) <==> s.width == Auto
    ensures InListView(zoom) ==> s.height == ListRowHeight
    ensures !InListView(zoom) ==> s == ItemSize(Fixed(zoom), zoom) && zoom > SliderLow
  {
    if InListView(zoom) then ItemSize(Auto, ListRowHeight) else ItemSize(Fixed(zoom), zoom)
  }

  /** `KeyboardNavigationOperation`. */
  datatype Operation =
    | NoOperation | SelectAll | Cancel | Submit | Previous | Next
    | MoveLeft | MoveRight | PageUp | PageDown | Begin | End

  /** The four focus moves: `navigatePrevious`, `navigateNext`,
      `navigateUp` and `navigateDown`. */
  datatype Move = Back | Forward | Up | Down

  /** What the handler does: the index it focuses (if any), whether it opens
      the button's asset, and whether it stops the event's propagation. */
  datatype Reaction = Reaction(focus: Option<nat>, opensAsset: bool, stopsEvent: bool)

  /** The index a move aims at, before the bounds check. */
  function Aim(move: Move, index: nat, rowCount: nat): int {
    match move
    case Back => index - 1
    case Forward => index + 1
    case Up => index - rowCount
    case Down => index + rowCount
  }

  /** A backward move (previous, up) focuses its aim when that is at least 0,
      a forward move (next, down) when it is below `count`; otherwise focus
      stays where it is. A button inside the list only ever focuses a
      position inside the list. */
  function Navigate(move: Move, index: nat, count: nat, rowCount: nat): (focus: Option<nat>)
    ensures focus.Some? ==> focus.value == Aim(move, index, rowCount)
    ensures (move == Back || move == Up) ==> (focus.Some? <==> Aim(move, index, rowCount) >= 0)
    ensures (move == Forward || move == Down) ==> (focus.Some? <==> Aim(move, index, rowCount) < count)
    ensures index < count ==> (focus.Some? <==> 0 <= Aim(move, index, rowCount) < count)
  {
    match move
    case Back => if index - 1 >= 0 then Some(index - 1) else None
    case Forward => if index + 1 < count then Some(index + 1) else None
    case Up => if index - rowCount >= 0 then Some(index - rowCount) else None
    case Down => if index + rowCount < count then Some(index + rowCount) else None
  }

  /** The move an operation triggers in the given view, if any. */
  function MoveFor(op: Operation, listView: bool): (m: Option<Move>)
    ensures listView ==> (m == Some(Back) <==> op == Previous) && (m == Some(Forward) <==> op == Next)
    ensures listView ==> m != Some(Up) && m != Some(Down)
    ensures !listView ==> (m == Some(Up) <==> op == Previous) && (m == Some(Down) <==> op == Next)
    ensures !listView ==> (m == Some(Back) <==> op == MoveLeft) && (m == Some(Forward) <==> op == MoveRight)
  {
    match op
    case MoveLeft => if listView then None else Some(Back)
    case MoveRight => if listView then None else Some(Forward)
    case Previous => if listView then Some(Back) else Some(Up)
    case Next => if listView then Some(Forward) else Some(Down)
    case _ => None
  }

  /** The handler of the button at `index` in a list of `count` elements. */
  function React(op: Operation, listView: bool, index: nat, count: nat, rowCount: nat): (r: Reaction)
    ensures r.opensAsset <==> op == Submit
    ensures r.stopsEvent <==> op == Submit || MoveFor(op, listView).Some?
    ensures index < count && r.focus.Some? ==> r.focus.value < count
    ensures MoveFor(op, listView).None? ==> r.focus.None?
    ensures MoveFor(op, listView).Some? ==> r.focus == Navigate(MoveFor(op, listView).value, index, count, rowCount)
  {
    if op == Submit then Reaction(None, true, true)
    else match MoveFor(op, listView)
      case None => Reaction(None, false, false)
      case Some(m) => Reaction(Navigate(m, index, count, rowCount), false, true)
  }

  /** In list view the horizontal moves do nothing and do not stop the event. */
  lemma ListViewIgnoresHorizontal(index: nat, count: nat, rowCount: nat)
    ensures React(MoveLeft, true, index, count, rowCount) == Reaction(None, false, false)
    ensures React(MoveRight, true, index, count, rowCount) == Reaction(None, false, false)
  {
  }

  /** Stepping forward and then back returns to the starting button, and so
      does a row down followed by a row up. */
  lemma MovesAreReversible(index: nat, count: nat, rowCount: nat)
    ensures var f := Navigate(Forward, index, count, rowCount);
      f.Some? ==> Navigate(Back, f.value, count, rowCount) == Some(index)
    ensures var d := Navigate(Down, index, count, rowCount);
      d.Some? ==> Navigate(Up, d.value, count, rowCount) == Some(index)
    ensures index < count ==> var b := Navigate(Back, index, count, rowCount);
      b.Some? ==> Navigate(Forward, b.value, count, rowCount) == Some(index)
    ensures index < count ==> var u := Navigate(Up, index, count, rowCount);
      u.Some? ==> Navigate(Down, u.value, count, rowCount) == Some(index)
  {
  }

  /** With one button per row the grid's vertical keys behave like the list's. */
  lemma SingleColumnGridIsList(op: Operation, index: nat, count: nat)
    requires op == Previous || op == Next
    ensures React(op, false, index, count, 1) == React(op, true, index, count, 1)
  {
  }

  /** With an empty row (`rowCount` 0) the vertical keys refocus the same button. */
  lemma ZeroRowCountStaysPut(index: nat, count: nat)
    requires index < count
    ensures React(Previous, false, index, count, 0).focus == Some(index)
    ensures React(Next, false, index, count, 0).focus == Some(index)
  {
  }
}
