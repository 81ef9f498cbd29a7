/**
 * Cell coordinates of the control: the pixel-to-cell mapping of the pointer and the
 * normalised text range that a left-button drag builds.
 *
 * TextPosition, its ordering and TextRange.Within belong to the terminal engine; this model
 * takes them to be value equality, row-major order and a closed row-major interval.
 */
module Positions {

  datatype TextPosition = TextPosition(column: int, row: int)

  datatype TextRange = TextRange(start: TextPosition, end: TextPosition)

  /** Row-major order: row first, then column. */
  predicate PosLe(p: TextPosition, q: TextPosition) {
    p.row < q.row || (p.row == q.row && p.column <= q.column)
  }

  predicate PosLt(p: TextPosition, q: TextPosition) {
    PosLe(p, q) && p != q
  }

  function OffsetBy(p: TextPosition, columns: int, rows: int): TextPosition {
    TextPosition(p.column + columns, p.row + rows)
  }

  /** Whether cell (column, row) lies inside the range, both ends included. */
  predicate Within(r: TextRange, column: int, row: int) {
    PosLe(r.start, TextPosition(column, row)) && PosLe(TextPosition(column, row), r.end)
  }

  /** The range a drag from anchor to pos selects; the cell under a forward pointer is excluded. */
  function DragSelection(anchor: TextPosition, pos: TextPosition): (r: TextRange)
    requires anchor != pos
    ensures PosLe(r.start, r.end)
    ensures PosLe(anchor, pos) ==> r.start == anchor && r.end.row == pos.row && r.end.column == pos.column - 1
    ensures !PosLe(anchor, pos) ==> r.start == pos && r.end == anchor
  {
    if PosLe(anchor, pos) then TextRange(anchor, OffsetBy(pos, -1, 0)) else TextRange(pos, anchor)
  }

  /**
   * A forward drag selects the half-open run [anchor, pos) in row-major order; a backward
   * drag selects the closed run [pos, anchor].
   */
  lemma DragSelectionCovers(anchor: TextPosition, pos: TextPosition, q: TextPosition)
    requires anchor != pos
    ensures PosLe(anchor, pos) ==>
      (Within(DragSelection(anchor, pos), q.column, q.row) <==> PosLe(anchor, q) && PosLt(q, pos))
    ensures !PosLe(anchor, pos) ==>
      (Within(DragSelection(anchor, pos), q.column, q.row) <==> PosLe(pos, q) && PosLe(q, anchor))
  {
  }

  /** The two drag directions over the same pair of cells do not select the same range. */
  lemma DragAsymmetry(p1: TextPosition, p2: TextPosition)
    requires PosLt(p1, p2)
    ensures DragSelection(p1, p2) != DragSelection(p2, p1)
    ensures Within(DragSelection(p2, p1), p2.column, p2.row)
    ensures !Within(DragSelection(p1, p2), p2.column, p2.row)
  {
  }

  /** Division of the source's Math.Floor(x / d) for integral x and d (d may be negative). */
  function FloorDiv(x: int, d: int): (q: int)
    requires d != 0
    ensures d > 0 ==> q * d <= x < q * d + d
    ensures d < 0 ==> q * d + d < x <= q * d
  {
    if d > 0 then x / d else FloorDivByNegative(x, d)
  }

  function FloorDivByNegative(x: int, d: int): (q: int)
    requires d < 0
    ensures q * d + d < x <= q * d
  {
    var q := (-x) / (-d);
    assert q * (-d) <= -x < q * (-d) + (-d);
    assert q * (-d) == -(q * d);
    q
  }

  /**
   * ToPosition: the cell under pixel (x, y) for cells of cellWidth by cellHeight pixels. Only the
   * upper bounds are clamped, to columns - 1 and rows - 1.
   */
  function ToPosition(x: int, y: int, cellWidth: int, cellHeight: int, columns: int, rows: int): (p: TextPosition)
    requires cellWidth != 0 && cellHeight != 0
    ensures p.column <= columns - 1 && p.row <= rows - 1
    ensures p.column < columns - 1 ==> p.column == FloorDiv(x, cellWidth)
    ensures p.column == columns - 1 ==> FloorDiv(x, cellWidth) >= columns - 1
    ensures p.row < rows - 1 ==> p.row == FloorDiv(y, cellHeight)
    ensures p.row == rows - 1 ==> FloorDiv(y, cellHeight) >= rows - 1
  {
    var column := FloorDiv(x, cellWidth);
    var row := FloorDiv(y, cellHeight);
    TextPosition(if column >= columns then columns - 1 else column, if row >= rows then rows - 1 else row)
  }

  predicate InGrid(p: TextPosition, columns: int, rows: int) {
    0 <= p.column < columns && 0 <= p.row < rows
  }

  /** With positive cell sizes, a pixel below or right of the origin lands in the grid... */
  lemma ToPositionInGrid(x: int, y: int, cellWidth: int, cellHeight: int, columns: int, rows: int)
    requires cellWidth > 0 && cellHeight > 0 && columns >= 1 && rows >= 1
    requires x >= 0 && y >= 0
    ensures InGrid(ToPosition(x, y, cellWidth, cellHeight, columns, rows), columns, rows)
  {
  }

  /** ...inside the grid it is the cell whose pixels contain the point... */
  lemma ToPositionContains(x: int, y: int, cellWidth: int, cellHeight: int, columns: int, rows: int)
    requires cellWidth > 0 && cellHeight > 0
    requires 0 <= x < columns * cellWidth && 0 <= y < rows * cellHeight
    ensures var p := ToPosition(x, y, cellWidth, cellHeight, columns, rows);
      p.column * cellWidth <= x < (p.column + 1) * cellWidth &&
      p.row * cellHeight <= y < (p.row + 1) * cellHeight
  {
  }

  /** ...and a pixel left of or above the grid is not raised to column or row 0. */
  lemma ToPositionNoLowerClamp(x: int, y: int, cellWidth: int, cellHeight: int, columns: int, rows: int)
    requires cellWidth > 0 && cellHeight > 0 && columns >= 1 && rows >= 1
    ensures x < 0 ==> ToPosition(x, y, cellWidth, cellHeight, columns, rows).column < 0
    ensures y < 0 ==> ToPosition(x, y, cellWidth, cellHeight, columns, rows).row < 0
  {
  }
}
