/**
 * The terminal control itself: the view, pointer and selection state that its event handlers
 * update, the raw-text buffer it accumulates, and the frame Render draws from the lines the
 * terminal engine hands out. What the host supplies (pointer pixels and buttons, wheel delta,
 * the engine's top row and change flag, its lines and cursor, the connection state, elapsed
 * time) arrives as parameters; what the control asks of the host (mouse reports, a clipboard
 * paste, the captured selection, a redraw) is returned.
 */
module Control {
  import opened Wrappers
  import opened Attributes
  import opened Positions
  import opened Spans
  import opened Timing
  import opened RawTextGrowth

  /** A mouse report the control forwards to the terminal engine. */
  datatype MouseReport =
    | MousePress(column: int, row: int, button: int, control: bool, shift: bool)
    | MouseRelease(column: int, row: int, control: bool, shift: bool)

  /** What the engine's cursor state contributes to a frame. */
  datatype CursorState = CursorState(
    showCursor: bool, currentColumn: int, currentRow: int,
    attributes: TerminalAttribute, reverseVideo: bool)

  /** The cursor box: its cell on screen, its brush, and whether it is filled (focused) or outlined. */
  datatype CursorBox = CursorBox(column: int, row: int, brush: Brush, filled: bool)

  /** One line of a pass: a null line draws nothing; a drawn line carries its buffer row. */
  datatype LinePaint<T> = Skipped | Drawn(row: int, spans: seq<Span<T>>)

  /** Everything Render draws, in order: the fill, every background pass, every text pass, the cursor. */
  datatype Frame = Frame(
    fill: Brush,
    backgrounds: seq<LinePaint<Brush>>,
    texts: seq<LinePaint<TextRun>>,
    cursor: Option<CursorBox>)

  /** The wheel delta that scrolls one row. */
  const WheelDeltaPerRow: int := 40

  /** The rows a wheel delta scrolls: the source's integer cast of deltaY / 40, which truncates
   * toward zero. */
  function WheelRows(deltaY: int): (q: int)
    ensures deltaY >= 0 ==> 0 <= q && q * WheelDeltaPerRow <= deltaY < q * WheelDeltaPerRow + WheelDeltaPerRow
    ensures deltaY < 0 ==> q <= 0 && (-q) * WheelDeltaPerRow <= -deltaY < (-q) * WheelDeltaPerRow + WheelDeltaPerRow
  {
    if deltaY >= 0 then deltaY / WheelDeltaPerRow else -((-deltaY) / WheelDeltaPerRow)
  }

  /** Truncation is symmetric about zero, unlike Euclidean division. */
  lemma WheelRowsOdd(deltaY: int)
    ensures WheelRows(-deltaY) == -WheelRows(deltaY)
  {
  }

  /** The view top after a wheel scroll: moved up by WheelRows(deltaY) rows, then clamped below at 0
   * and above at the engine's top row. */
  function ScrolledViewTop(viewTop: int, deltaY: int, topRow: int): (v: int)
    ensures topRow >= 0 ==> 0 <= v <= topRow
    ensures 0 <= viewTop - WheelRows(deltaY) <= topRow ==> v == viewTop - WheelRows(deltaY)
    ensures viewTop - WheelRows(deltaY) < 0 ==> v == 0
    ensures topRow >= 0 && viewTop - WheelRows(deltaY) > topRow ==> v == topRow
  {
    var candidate := viewTop - WheelRows(deltaY);
    if candidate < 0 then 0 else if candidate > topRow then topRow else candidate
  }

  /** A wheel turn too small for one row leaves a view inside [0, topRow] where it is. */
  lemma SmallScrollKeepsView(viewTop: int, deltaY: int, topRow: int)
    requires 0 <= viewTop <= topRow && -WheelDeltaPerRow < deltaY < WheelDeltaPerRow
    ensures ScrolledViewTop(viewTop, deltaY, topRow) == viewTop
  {
  }

  /** Turning the wheel away from the user (positive delta) never moves a view inside
   * [0, topRow] down, and turning it towards the user never moves it up. */
  lemma ScrollDirection(viewTop: int, deltaY: int, topRow: int)
    requires 0 <= viewTop <= topRow
    ensures deltaY >= 0 ==> ScrolledViewTop(viewTop, deltaY, topRow) <= viewTop
    ensures deltaY <= 0 ==> ScrolledViewTop(viewTop, deltaY, topRow) >= viewTop
  {
  }

  /** The view top after data arrives: it jumps to the engine's new top row whenever that
   * moved and the old top row was at or below the view, and stays put otherwise. */
  function FollowedViewTop(viewTop: int, oldTopRow: int, newTopRow: int): (v: int)
    ensures oldTopRow != newTopRow && oldTopRow >= viewTop ==> v == newTopRow
    ensures !(oldTopRow != newTopRow && oldTopRow >= viewTop) ==> v == viewTop
  {
    if oldTopRow != newTopRow && oldTopRow >= viewTop then newTopRow else viewTop
  }

  /** A view that was showing the engine's top row keeps showing it after any output. */
  lemma FollowingViewKeepsFollowing(oldTopRow: int, newTopRow: int)
    ensures FollowedViewTop(oldTopRow, oldTopRow, newTopRow) == newTopRow
  {
  }

  /** A view scrolled back into the history (above the old top row) does not keep its place:
   * as soon as the top row moves, it jumps to the new top row. */
  lemma ScrolledBackViewJumps(viewTop: int, oldTopRow: int, newTopRow: int)
    requires viewTop < oldTopRow && oldTopRow != newTopRow
    ensures FollowedViewTop(viewTop, oldTopRow, newTopRow) == newTopRow
  {
  }

  /** Every view a wheel scroll can leave is followed: after any scroll, output that moves the
   * top row moves the view to it. Only a view below the top row, which no scroll produces,
   * or an unmoved top row keeps the view where it is. */
  lemma ScrolledViewAlwaysFollows(viewTop: int, deltaY: int, oldTopRow: int, newTopRow: int)
    requires oldTopRow >= 0 && oldTopRow != newTopRow
    ensures FollowedViewTop(ScrolledViewTop(viewTop, deltaY, oldTopRow), oldTopRow, newTopRow) == newTopRow
  {
  }

  /** The follow rule leaves the view alone exactly when the top row did not move, the view
   * was below the old top row, or the view already was the new top row. */
  lemma ViewStaysIff(viewTop: int, oldTopRow: int, newTopRow: int)
    ensures FollowedViewTop(viewTop, oldTopRow, newTopRow) == viewTop <==>
      oldTopRow == newTopRow || viewTop > oldTopRow || newTopRow == viewTop
  {
  }

  /** The screen row of the cursor: its engine row shifted by how far the view is above the top row. */
  function CursorScreenRow(topRow: int, viewTop: int, currentRow: int): (r: int)
    ensures viewTop == topRow ==> r == currentRow
    ensures r - currentRow == topRow - viewTop
  {
    topRow - viewTop + currentRow
  }

  /** After output with the view following the engine, the cursor is drawn on its own row. */
  lemma FollowedCursorOnItsRow(oldTopRow: int, newTopRow: int, currentRow: int)
    ensures CursorScreenRow(newTopRow, FollowedViewTop(oldTopRow, oldTopRow, newTopRow), currentRow) == currentRow
  {
    FollowingViewKeepsFollowing(oldTopRow, newTopRow);
  }

  /** The mouse button code: 0 when left is held, else 1 when right is, else 2 (middle). */
  function ButtonCode(left: bool, right: bool): (b: int)
    ensures b == 0 <==> left
    ensures b == 1 <==> !left && right
    ensures b == 2 <==> !left && !right
  {
    if left then 0 else if right then 1 else 2
  }

  /** A mouse report is forwarded only when connected and the pointer cell is on the grid. */
  function PressReport(position: TextPosition, columns: int, rows: int, connected: bool,
                       left: bool, right: bool, control: bool, shift: bool): (r: Option<MouseReport>)
    ensures r.Some? <==> connected && InGrid(position, columns, rows)
    ensures r.Some? ==> r.value == MousePress(position.column, position.row, ButtonCode(left, right), control, shift)
  {
    if connected && InGrid(position, columns, rows) then
      Some(MousePress(position.column, position.row, ButtonCode(left, right), control, shift))
    else None
  }

  function ReleaseReport(position: TextPosition, columns: int, rows: int, connected: bool,
                         control: bool, shift: bool): (r: Option<MouseReport>)
    ensures r.Some? <==> connected && InGrid(position, columns, rows)
    ensures r.Some? ==> r.value == MouseRelease(position.column, position.row, control, shift)
  {
    if connected && InGrid(position, columns, rows) then
      Some(MouseRelease(position.column, position.row, control, shift))
    else None
  }

  /** The range a left-button drag to the buffer cell pos builds: none without an anchor or on
   * the anchor itself, otherwise the ordered drag range. */
  function DragRange(anchor: Option<TextPosition>, pos: TextPosition): (r: Option<TextRange>)
    ensures r.None? <==> anchor.None? || anchor.value == pos
    ensures r.Some? ==> PosLe(r.value.start, r.value.end)
    ensures r.Some? ==> r.value == DragSelection(anchor.value, pos)
  {
    if anchor.Some? && anchor.value != pos then Some(DragSelection(anchor.value, pos)) else None
  }

  /** Array.Resize: a fresh array of the new length holding the old elements first. */
  method Resize(a: array<char>, newLength: nat) returns (b: array<char>)
    requires a.Length <= newLength
    ensures fresh(b) && b.Length == newLength
    ensures b[..a.Length] == a[..]
  {
    b := new char[newLength];
    forall i | 0 <= i < a.Length {
      b[i] := a[i];
    }
  }

  /** The copy loop of ProcessRawText: writes incoming into a at length and onwards and
   * returns the new length. */
  method Append(a: array<char>, length: nat, incoming: seq<char>) returns (newLength: nat)
    requires length + |incoming| <= a.Length
    modifies a
    ensures newLength == length + |incoming|
    ensures a[..newLength] == old(a[..length]) + incoming
  {
    newLength := length;
    for i := 0 to |incoming|
      invariant newLength == length + i
      invariant a[..newLength] == old(a[..length]) + incoming[..i]
    {
      a[newLength] := incoming[i];
      newLength := newLength + 1;
      assert incoming[..i + 1] == incoming[..i] + [incoming[i]];
    }
    assert incoming[..|incoming|] == incoming;
  }

  class TerminalControl {
    var viewTop: int
    var textSelection: Option<TextRange>
    var mousePressedAt: Option<TextPosition>
    var selecting: bool
    var mouseOver: Option<TextPosition>
    var characterWidth: int
    var characterHeight: int
    var columns: int
    var rows: int
    var rawText: array<char>
    var rawTextLength: nat
    var rawTextString: string
    var rawTextChanged: bool
    var blinkIntervalMs: int

    /** The characters recorded so far. */
    ghost function Contents(): seq<char>
      reads this, rawText
      requires rawTextLength <= rawText.Length
    {
      rawText[..rawTextLength]
    }

    /**
     * The control's invariant: the length counter stays inside the array, the cached string is
     * current whenever the dirty flag is clear, a drag in progress has a selection, every
     * selection is ordered, and the cell sizes can be divided by.
     */
    ghost predicate Valid()
      reads this, rawText
    {
      rawTextLength <= rawText.Length &&
      (!rawTextChanged ==> rawTextString == Contents()) &&
      (selecting ==> textSelection.Some?) &&
      (textSelection.Some? ==> PosLe(textSelection.value.start, textSelection.value.end)) &&
      characterWidth != 0 && characterHeight != 0
    }

    /** The cell size, the grid size and the blink interval are as they were. */
    twostate predicate DisplayUnchanged()
      reads this
    {
      characterWidth == old(characterWidth) && characterHeight == old(characterHeight) &&
      columns == old(columns) && rows == old(rows) && blinkIntervalMs == old(blinkIntervalMs)
    }

    /** The raw-text array, its length, the cached string and the dirty flag are as they were. */
    twostate predicate BufferUnchanged()
      reads this
    {
      rawText == old(rawText) && rawTextLength == old(rawTextLength) &&
      rawTextString == old(rawTextString) && rawTextChanged == old(rawTextChanged)
    }

    /** The selection, the drag anchor, the drag flag and the pointer cell are as they were. */
    twostate predicate PointerStateUnchanged()
      reads this
    {
      textSelection == old(textSelection) && mousePressedAt == old(mousePressedAt) &&
      selecting == old(selecting) && mouseOver == old(mouseOver)
    }

    /** A fresh control: nothing measured yet (-1), view at the top, pointer over (0, 0), an
     * empty raw-text buffer and the blink timer interval. */
    constructor ()
      ensures Valid()
      ensures viewTop == 0 && textSelection.None? && mousePressedAt.None? && !selecting
      ensures mouseOver == Some(TextPosition(0, 0))
      ensures characterWidth == -1 && characterHeight == -1 && columns == -1 && rows == -1
      ensures rawTextLength == 0 && rawText.Length == 0 && rawTextString == "" && !rawTextChanged
      ensures blinkIntervalMs == MaxBlinkIntervalMs
      ensures fresh(rawText)
    {
      var interval := BlinkTimerInterval();
      viewTop := 0;
      textSelection := None;
      mousePressedAt := None;
      selecting := false;
      mouseOver := Some(TextPosition(0, 0));
      characterWidth := -1;
      characterHeight := -1;
      columns := -1;
      rows := -1;
      rawText := new char[0];
      rawTextLength := 0;
      rawTextString := "";
      rawTextChanged := false;
      blinkIntervalMs := interval;
    }

    /** The cell under pixel (x, y), in screen rows. */
    function PointerCell(x: int, y: int): (p: TextPosition)
      reads this
      requires characterWidth != 0 && characterHeight != 0
      ensures p.column <= columns - 1 && p.row <= rows - 1
      ensures characterWidth > 0 && characterHeight > 0 && columns >= 1 && rows >= 1 && x >= 0 && y >= 0 ==>
        InGrid(p, columns, rows)
      ensures characterWidth > 0 && 0 <= x < columns * characterWidth ==>
        p.column * characterWidth <= x < (p.column + 1) * characterWidth
    {
      ToPosition(x, y, characterWidth, characterHeight, columns, rows)
    }

    /**
     * ProcessTextFormat with the measured glyph size and the grid size it yields taken as
     * given: the cell size is taken over, and the grid (with the engine and connection resize
     * notice) changes only when the grid size differs.
     */
    method ApplyTextFormat(measuredWidth: int, measuredHeight: int, newColumns: int, newRows: int) returns (resized: bool)
      requires Valid()
      requires measuredWidth > 0 && measuredHeight > 0
      modifies this
      ensures Valid()
      ensures characterWidth == measuredWidth && characterHeight == measuredHeight
      ensures columns == newColumns && rows == newRows
      ensures resized <==> old(columns) != newColumns || old(rows) != newRows
      ensures viewTop == old(viewTop) && PointerStateUnchanged() && BufferUnchanged()
      ensures blinkIntervalMs == old(blinkIntervalMs)
    {
      if characterWidth != measuredWidth || characterHeight != measuredHeight {
        characterWidth := measuredWidth;
        characterHeight := measuredHeight;
      }
      resized := false;
      if columns != newColumns || rows != newRows {
        columns := newColumns;
        rows := newRows;
        resized := true;
      }
    }

    /**
     * OnPointerMoved: a move onto the cell already under the pointer does nothing; otherwise
     * the pointer cell is recorded and, with the left button held, a drag from the anchor to
     * the buffer cell builds an ordered range, starts selecting, and replaces the selection
     * (asking for a redraw) only when the range differs.
     */
    method PointerMoved(x: int, y: int, leftButton: bool) returns (redraw: bool)
      requires Valid()
      modifies this
      ensures Valid()
      ensures var position := PointerCell(x, y);
        var range := DragRange(mousePressedAt, OffsetBy(position, 0, viewTop));
        if old(mouseOver) == Some(position) then
          !redraw && textSelection == old(textSelection) && selecting == old(selecting) && mouseOver == old(mouseOver)
        else
          mouseOver == Some(position) &&
          (leftButton && range.Some? ==>
             selecting && textSelection == range && (redraw <==> old(textSelection) != range)) &&
          (!(leftButton && range.Some?) ==> !redraw && selecting == old(selecting) && textSelection == old(textSelection))
      ensures viewTop == old(viewTop) && mousePressedAt == old(mousePressedAt)
      ensures DisplayUnchanged() && BufferUnchanged()
    {
      redraw := false;
      var position := PointerCell(x, y);
      if mouseOver.Some? && mouseOver.value == position {
        return;
      }
      mouseOver := Some(position);
      if leftButton {
        var textPosition := OffsetBy(position, 0, viewTop);
        if mousePressedAt.Some? && mousePressedAt.value != textPosition {
          var newSelection := DragSelection(mousePressedAt.value, textPosition);
          selecting := true;
          if textSelection != Some(newSelection) {
            textSelection := Some(newSelection);
            redraw := true;
          }
        }
      }
    }

    /** OnPointerLeave: no cell is under the pointer any more, and the control redraws. */
    method PointerLeave() returns (redraw: bool)
      requires Valid()
      modifies this
      ensures Valid()
      ensures mouseOver.None? && redraw
      ensures viewTop == old(viewTop) && textSelection == old(textSelection)
      ensures mousePressedAt == old(mousePressedAt) && selecting == old(selecting)
      ensures DisplayUnchanged() && BufferUnchanged()
    {
      mouseOver := None;
      redraw := true;
    }

    /**
     * OnPointerPressed: the left button anchors a drag at the buffer cell under the pointer;
     * otherwise the right button asks for a clipboard paste. A press report goes to the
     * engine when connected and on the grid.
     */
    method PointerPressed(x: int, y: int, leftButton: bool, rightButton: bool,
                          control: bool, shift: bool, connected: bool)
      returns (paste: bool, report: Option<MouseReport>)
      requires Valid()
      modifies this
      ensures Valid()
      ensures var position := PointerCell(x, y);
        (leftButton ==> mousePressedAt == Some(OffsetBy(position, 0, viewTop))) &&
        (!leftButton ==> mousePressedAt == old(mousePressedAt)) &&
        (paste <==> !leftButton && rightButton) &&
        report == PressReport(position, columns, rows, connected, leftButton, rightButton, control, shift)
      ensures viewTop == old(viewTop) && textSelection == old(textSelection)
      ensures selecting == old(selecting) && mouseOver == old(mouseOver)
      ensures DisplayUnchanged() && BufferUnchanged()
    {
      var position := PointerCell(x, y);
      var textPosition := OffsetBy(position, 0, viewTop);
      paste := false;
      if leftButton {
        mousePressedAt := Some(textPosition);
      } else if rightButton {
        paste := true;
      }
      report := None;
      if connected && position.column >= 0 && position.row >= 0 && position.column < columns && position.row < rows {
        report := Some(MousePress(position.column, position.row, ButtonCode(leftButton, rightButton), control, shift));
      }
    }

    /**
     * OnPointerReleased: without the left button, a drag in progress ends (anchor cleared,
     * selecting off) and hands back the selected range for the engine to copy to the
     * clipboard; without a drag the selection is dropped and the control redraws. A release
     * report goes to the engine when connected and on the grid.
     */
    method PointerReleased(x: int, y: int, leftButton: bool, control: bool, shift: bool, connected: bool)
      returns (captured: Option<TextRange>, redraw: bool, report: Option<MouseReport>)
      requires Valid()
      modifies this
      ensures Valid()
      ensures leftButton ==>
        (captured.None? && !redraw && textSelection == old(textSelection) &&
         mousePressedAt == old(mousePressedAt) && selecting == old(selecting))
      ensures !leftButton && old(selecting) ==>
        (captured == old(textSelection) && captured.Some? && !redraw &&
         mousePressedAt.None? && !selecting && textSelection == old(textSelection))
      ensures !leftButton && !old(selecting) ==>
        (captured.None? && redraw && textSelection.None? && mousePressedAt == old(mousePressedAt) && !selecting)
      ensures report == ReleaseReport(PointerCell(x, y), columns, rows, connected, control, shift)
      ensures viewTop == old(viewTop) && mouseOver == old(mouseOver)
      ensures DisplayUnchanged() && BufferUnchanged()
    {
      var position := PointerCell(x, y);
      captured := None;
      redraw := false;
      if !leftButton {
        if selecting {
          mousePressedAt := None;
          selecting := false;
          captured := textSelection;
        } else {
          textSelection := None;
          redraw := true;
        }
      }
      report := None;
      if connected && position.column >= 0 && position.row >= 0 && position.column < columns && position.row < rows {
        report := Some(MouseRelease(position.column, position.row, control, shift));
      }
    }

    /** The scroll branch of OnPointerWheelChanged: the view moves by whole rows of wheel delta,
     * clamped to [0, topRow], and the control redraws only when the view moved. */
    method ScrollWheel(deltaY: int, topRow: int) returns (redraw: bool)
      requires Valid()
      modifies this
      ensures Valid()
      ensures viewTop == ScrolledViewTop(old(viewTop), deltaY, topRow)
      ensures topRow >= 0 ==> 0 <= viewTop <= topRow
      ensures redraw <==> viewTop != old(viewTop)
      ensures PointerStateUnchanged() && DisplayUnchanged() && BufferUnchanged()
    {
      var oldViewTop := viewTop;
      viewTop := viewTop - WheelRows(deltaY);
      if viewTop < 0 {
        viewTop := 0;
      } else if viewTop > topRow {
        viewTop := topRow;
      }
      redraw := oldViewTop != viewTop;
    }

    /**
     * ProcessRawText: appends the engine's recorded characters after the ones already kept,
     * first enlarging the array by whole growth steps until they fit, and marks the cached
     * string stale.
     */
    method ProcessRawText(incoming: seq<char>)
      requires Valid()
      modifies this, rawText
      ensures Valid()
      ensures rawTextLength == old(rawTextLength) + |incoming|
      ensures Contents() == old(Contents()) + incoming
      ensures rawText.Length == GrownCapacity(old(rawText.Length), old(rawTextLength), |incoming|)
      ensures rawText == old(rawText) || fresh(rawText)
      ensures rawTextChanged
      ensures rawTextString == old(rawTextString)
      ensures viewTop == old(viewTop) && PointerStateUnchanged() && DisplayUnchanged()
    {
      var capacity := GrownCapacity(rawText.Length, rawTextLength, |incoming|);
      var buffer := rawText;
      if capacity != buffer.Length {
        buffer := Resize(buffer, capacity);
      }
      var length := Append(buffer, rawTextLength, incoming);
      rawText := buffer;
      rawTextLength := length;
      rawTextChanged := true;
    }

    /** The RawText getter: refreshes the cached string when stale and returns every
     * character recorded so far. */
    method RawText() returns (text: string)
      requires Valid()
      modifies this
      ensures Valid()
      ensures text == Contents() && rawTextString == text && !rawTextChanged
      ensures rawText == old(rawText) && rawTextLength == old(rawTextLength)
      ensures viewTop == old(viewTop) && PointerStateUnchanged() && DisplayUnchanged()
    {
      if rawTextChanged {
        rawTextString := rawText[..rawTextLength];
        rawTextChanged := false;
      }
      text := rawTextString;
    }

    /**
     * OnDataReceived after the engine consumed the data: when the engine reports a change,
     * its recorded characters are appended, the view follows a moved top row unless it was
     * scrolled below the old one, and the control redraws; otherwise nothing changes.
     */
    method DataReceived(oldTopRow: int, newTopRow: int, changed: bool, incoming: seq<char>) returns (redraw: bool)
      requires Valid()
      modifies this, rawText
      ensures Valid()
      ensures redraw == changed
      ensures changed ==> viewTop == FollowedViewTop(old(viewTop), oldTopRow, newTopRow)
      ensures changed ==> Contents() == old(Contents()) + incoming && rawTextChanged
      ensures changed ==> rawText.Length == GrownCapacity(old(rawText.Length), old(rawTextLength), |incoming|)
      ensures rawText == old(rawText) || fresh(rawText)
      ensures !changed ==> viewTop == old(viewTop) && BufferUnchanged()
      ensures !changed ==> rawText[..] == old(rawText[..])
      ensures PointerStateUnchanged() && DisplayUnchanged()
    {
      redraw := false;
      if changed {
        ProcessRawText(incoming);
        if oldTopRow != newTopRow && oldTopRow >= viewTop {
          viewTop := newTopRow;
        }
        redraw := true;
      }
    }

    /** The background pass over every line of the view; line i is buffer row viewTop + i. */
    method BackgroundPass(lines: seq<Option<Line>>, reverseVideo: bool) returns (paints: seq<LinePaint<Brush>>)
      ensures |paints| == |lines|
      ensures forall i :: 0 <= i < |lines| ==> (paints[i].Skipped? <==> lines[i].None?)
      ensures forall i :: 0 <= i < |lines| && lines[i].Some? ==>
        paints[i].row == viewTop + i &&
        BackgroundRuns(lines[i].value, RowContext(viewTop + i, reverseVideo, textSelection), paints[i].spans, |lines[i].value|)
    {
      paints := [];
      var row := viewTop;
      for i := 0 to |lines|
        invariant row == viewTop + i && |paints| == i
        invariant forall j :: 0 <= j < i ==> (paints[j].Skipped? <==> lines[j].None?)
        invariant forall j :: 0 <= j < i && lines[j].Some? ==>
          paints[j].row == viewTop + j &&
          BackgroundRuns(lines[j].value, RowContext(viewTop + j, reverseVideo, textSelection), paints[j].spans, |lines[j].value|)
      {
        if lines[i].None? {
          paints := paints + [Skipped];
        } else {
          var spans := BackgroundSpans(lines[i].value, RowContext(row, reverseVideo, textSelection));
          paints := paints + [Drawn(row, spans)];
        }
        row := row + 1;
      }
    }

    /** The text pass over every line of the view; line i is buffer row viewTop + i. */
    method TextPass(lines: seq<Option<Line>>, reverseVideo: bool, showBlink: bool) returns (paints: seq<LinePaint<TextRun>>)
      ensures |paints| == |lines|
      ensures forall i :: 0 <= i < |lines| ==> (paints[i].Skipped? <==> lines[i].None?)
      ensures forall i :: 0 <= i < |lines| && lines[i].Some? ==>
        paints[i].row == viewTop + i &&
        TextRuns(lines[i].value, RowContext(viewTop + i, reverseVideo, textSelection), showBlink, paints[i].spans, |lines[i].value|)
    {
      paints := [];
      var row := viewTop;
      for i := 0 to |lines|
        invariant row == viewTop + i && |paints| == i
        invariant forall j :: 0 <= j < i ==> (paints[j].Skipped? <==> lines[j].None?)
        invariant forall j :: 0 <= j < i && lines[j].Some? ==>
          paints[j].row == viewTop + j &&
          TextRuns(lines[j].value, RowContext(viewTop + j, reverseVideo, textSelection), showBlink, paints[j].spans, |lines[j].value|)
      {
        if lines[i].None? {
          paints := paints + [Skipped];
        } else {
          var spans := TextSpans(lines[i].value, RowContext(row, reverseVideo, textSelection), showBlink);
          paints := paints + [Drawn(row, spans)];
        }
        row := row + 1;
      }
    }

    /**
     * Render once the text format is applied: the whole control is filled with the cursor
     * attribute's background, the background pass and then the text pass run over the lines
     * from viewTop, and a visible cursor is boxed on its screen row with its foreground brush,
     * filled when the control has the focus. showBlink is the blink phase BlinkVisible decides.
     */
    method Paint(lines: seq<Option<Line>>, cursor: CursorState, topRow: int, focused: bool, showBlink: bool)
      returns (frame: Frame)
      ensures frame.fill == GetBackgroundBrush(cursor.reverseVideo, cursor.attributes, false)
      ensures |frame.backgrounds| == |lines| && |frame.texts| == |lines|
      ensures forall i :: 0 <= i < |lines| ==>
        (frame.backgrounds[i].Skipped? <==> lines[i].None?) && (frame.texts[i].Skipped? <==> lines[i].None?)
      ensures forall i :: 0 <= i < |lines| && lines[i].Some? ==>
        var ctx := RowContext(viewTop + i, cursor.reverseVideo, textSelection);
        frame.backgrounds[i].row == viewTop + i && frame.texts[i].row == viewTop + i &&
        BackgroundRuns(lines[i].value, ctx, frame.backgrounds[i].spans, |lines[i].value|) &&
        TextRuns(lines[i].value, ctx, showBlink, frame.texts[i].spans, |lines[i].value|)
      ensures frame.cursor.Some? <==> cursor.showCursor
      ensures frame.cursor.Some? ==> frame.cursor.value == CursorBox(
        cursor.currentColumn, CursorScreenRow(topRow, viewTop, cursor.currentRow),
        GetForegroundBrush(cursor.reverseVideo, cursor.attributes, false), focused)
    {
      var fill := GetBackgroundBrush(cursor.reverseVideo, cursor.attributes, false);
      var backgrounds := BackgroundPass(lines, cursor.reverseVideo);
      var texts := TextPass(lines, cursor.reverseVideo, showBlink);
      var box := None;
      if cursor.showCursor {
        var cursorY := topRow - viewTop + cursor.currentRow;
        box := Some(CursorBox(cursor.currentColumn, cursorY, GetForegroundBrush(cursor.reverseVideo, cursor.attributes, false), focused));
      }
      frame := Frame(fill, backgrounds, texts, box);
    }

    /** Render: applies the text format, then paints the frame with the blink phase of the
     * elapsed time. */
    method Render(measuredWidth: int, measuredHeight: int, newColumns: int, newRows: int,
                  lines: seq<Option<Line>>, cursor: CursorState, topRow: int, focused: bool, elapsedMs: nat)
      returns (resized: bool, frame: Frame)
      requires Valid()
      requires measuredWidth > 0 && measuredHeight > 0
      modifies this
      ensures Valid()
      ensures characterWidth == measuredWidth && characterHeight == measuredHeight
      ensures columns == newColumns && rows == newRows
      ensures resized <==> old(columns) != newColumns || old(rows) != newRows
      ensures viewTop == old(viewTop) && PointerStateUnchanged() && BufferUnchanged()
      ensures blinkIntervalMs == old(blinkIntervalMs)
      ensures frame.fill == GetBackgroundBrush(cursor.reverseVideo, cursor.attributes, false)
      ensures |frame.backgrounds| == |lines| && |frame.texts| == |lines|
      ensures forall i :: 0 <= i < |lines| ==>
        (frame.backgrounds[i].Skipped? <==> lines[i].None?) && (frame.texts[i].Skipped? <==> lines[i].None?)
      ensures forall i :: 0 <= i < |lines| && lines[i].Some? ==>
        var ctx := RowContext(viewTop + i, cursor.reverseVideo, textSelection);
        frame.backgrounds[i].row == viewTop + i && frame.texts[i].row == viewTop + i &&
        BackgroundRuns(lines[i].value, ctx, frame.backgrounds[i].spans, |lines[i].value|) &&
        TextRuns(lines[i].value, ctx, BlinkVisible(elapsedMs), frame.texts[i].spans, |lines[i].value|)
      ensures frame.cursor.Some? <==> cursor.showCursor
      ensures frame.cursor.Some? ==> frame.cursor.value == CursorBox(
        cursor.currentColumn, CursorScreenRow(topRow, viewTop, cursor.currentRow),
        GetForegroundBrush(cursor.reverseVideo, cursor.attributes, false), focused)
    {
      resized := ApplyTextFormat(measuredWidth, measuredHeight, newColumns, newRows);
      frame := Paint(lines, cursor, topRow, focused, BlinkVisible(elapsedMs));
    }
  }
}
