/**
 * The drag preview (`DragPreview`): while a piece is dragged it is drawn snapped
 * to the grid cell under the pointer, with one of its blocks kept under the
 * pointer and the whole piece clamped inside the grid rectangle.
 */
module Preview {
  import opened Wrappers
  import opened PatternMath
  import opened Geometry
  import Grid

  /** The grid container's rectangle on screen, in pixels. */
  datatype Rect = Rect(left: int, top: int, width: int, height: int)

  /** Where the preview goes: the snapped cell and the pixel position it is drawn at. */
  datatype Placement = Placement(row: int, col: int, left: int, top: int)

  /** The grab offset: the pointer's corner minus the piece's corner when both are known, else (0, 0). */
  function GrabOffset(pointer: Option<Point>, corner: Option<Point>): Point {
    if pointer.Some? && corner.Some? then
      Point(pointer.value.x - corner.value.x, pointer.value.y - corner.value.y)
    else
      Point(0, 0)
  }

  /**
   * The drag monitor's `getSourceClientOffset`: the piece's corner where the
   * drag began, moved by as much as the pointer has moved since; unknown when
   * any of the three positions is.
   */
  function SourceClientOffset(initialSource: Option<Point>, initial: Option<Point>, client: Option<Point>): Option<Point> {
    if initialSource.Some? && initial.Some? && client.Some? then
      Some(Point(initialSource.value.x + client.value.x - initial.value.x,
                 initialSource.value.y + client.value.y - initial.value.y))
    else
      None
  }

  /**
   * The offset the preview computes, the initial pointer minus the current
   * source corner, is the grab offset minus the pointer's travel since the drag
   * began; it is the grab offset only while the pointer has not moved.
   */
  lemma PreviewOffsetDrifts(initial: Point, initialSource: Point, client: Point)
    ensures var g := GrabOffset(Some(initial), SourceClientOffset(Some(initialSource), Some(initial), Some(client)));
      var grab := GrabOffset(Some(initial), Some(initialSource));
      g == Point(grab.x - (client.x - initial.x), grab.y - (client.y - initial.y))
    ensures client == initial <==>
      GrabOffset(Some(initial), SourceClientOffset(Some(initialSource), Some(initial), Some(client))) ==
      GrabOffset(Some(initial), Some(initialSource))
  {
  }

  /** Columns of the dragged pattern: the first row's length, 1 when there is no pattern or no row. */
  function PatternCols(pattern: Option<Pattern>): int {
    if pattern.Some? && |pattern.value| >= 1 then |pattern.value[0]| else 1
  }

  /** Rows of the dragged pattern: its length, 1 when there is no pattern. */
  function PatternRows(pattern: Option<Pattern>): int {
    if pattern.Some? then |pattern.value| else 1
  }

  /**
   * Snap along one axis: the block `offset` selects goes to the cell nearest the
   * pointer, measured `pad` pixels in from the rectangle's edge, and the result
   * is clamped into 0 .. max(0, cells - dim), where cells is the number of whole
   * cells across the rectangle. The result lies in that range, keeps a pattern
   * that is no wider than the grid inside it, and, when no clamping was needed,
   * puts the block that `offset` selects on the cell nearest the pointer.
   */
  function SnapAxis(pointer: int, edge: int, pad: int, extent: int, offset: int, cs: int, dim: int): (cell: int)
    requires cs > 0
    ensures 0 <= cell <= Max(0, extent / cs - dim)
    ensures dim <= extent / cs ==> cell + dim <= extent / cs
    ensures var b := BlockIndex(offset, cs, dim);
      var raw := RoundDiv(pointer - edge - pad, cs) - b;
      0 <= raw <= extent / cs - dim ==>
        cell == raw && cs * (2 * (cell + b) - 1) <= 2 * (pointer - edge - pad) < cs * (2 * (cell + b) + 1)
  {
    var b := BlockIndex(offset, cs, dim);
    ClampToRange(RoundDiv(pointer - edge - pad, cs) - b, extent / cs - dim)
  }

  /**
   * The snap of `DragPreview` for the grab offset `g`, `pad` pixels in from the
   * rectangle's corner: nothing unless a drag of a piece is on with a known pointer and a known
   * grid rectangle; otherwise the snapped cell on each axis and its pixel
   * position, `pad` plus the cell times the cell size from the corner.
   */
  function Snap(isDragging: bool, itemType: string, pattern: Option<Pattern>, clientOffset: Option<Point>,
                g: Point, rect: Option<Rect>, cellSize: int, pad: int): (r: Option<Placement>)
    requires cellSize > 0
    ensures r.None? <==> !isDragging || clientOffset.None? || itemType != "tetromino" || rect.None?
    ensures r.Some? ==>
      r.value.left == rect.value.left + pad + r.value.col * cellSize &&
      r.value.top == rect.value.top + pad + r.value.row * cellSize
    ensures r.Some? ==>
      0 <= r.value.col <= Max(0, rect.value.width / cellSize - PatternCols(pattern)) &&
      0 <= r.value.row <= Max(0, rect.value.height / cellSize - PatternRows(pattern))
  {
    if !isDragging || clientOffset.None? || itemType != "tetromino" || rect.None? then None
    else
      var box := rect.value;
      var col := SnapAxis(clientOffset.value.x, box.left, pad, box.width, g.x, cellSize, PatternCols(pattern));
      var row := SnapAxis(clientOffset.value.y, box.top, pad, box.height, g.y, cellSize, PatternRows(pattern));
      Some(Placement(row, col, box.left + pad + col * cellSize, box.top + pad + row * cellSize))
  }

  /**
   * The preview as the component computes it: the grab offset is taken against
   * the monitor's current source corner, and the pointer is measured from the
   * rectangle's corner with no padding. Nothing unless a drag of a piece is on
   * with a known pointer and a known grid rectangle; otherwise a cell within
   * the clamp range on each axis, drawn at the rectangle's corner plus the cell
   * times the cell size.
   */
  function DragPreview(isDragging: bool, itemType: string, pattern: Option<Pattern>, clientOffset: Option<Point>,
                       initial: Option<Point>, initialSource: Option<Point>, rect: Option<Rect>, cellSize: int): (r: Option<Placement>)
    requires cellSize > 0
    ensures r.None? <==> !isDragging || clientOffset.None? || itemType != "tetromino" || rect.None?
    ensures r.Some? ==>
      r.value.left == rect.value.left + r.value.col * cellSize &&
      r.value.top == rect.value.top + r.value.row * cellSize
    ensures r.Some? ==>
      0 <= r.value.col <= Max(0, rect.value.width / cellSize - PatternCols(pattern)) &&
      0 <= r.value.row <= Max(0, rect.value.height / cellSize - PatternRows(pattern))
  {
    Snap(isDragging, itemType, pattern, clientOffset,
         GrabOffset(initial, SourceClientOffset(initialSource, initial, clientOffset)), rect, cellSize, 0)
  }

  /**
   * The preview as the drop handler measures: the grab offset taken against
   * the piece's corner where the drag began, as the drag sources record it, and
   * the pointer measured from the first cell's corner; drawn at that cell's
   * pixel position.
   */
  function PaddedPreview(isDragging: bool, itemType: string, pattern: Option<Pattern>, clientOffset: Option<Point>,
                         initial: Option<Point>, initialSource: Option<Point>, rect: Option<Rect>): (r: Option<Placement>)
    ensures r.None? <==> !isDragging || clientOffset.None? || itemType != "tetromino" || rect.None?
    ensures r.Some? ==>
      r.value.left == rect.value.left + Grid.Padding + r.value.col * Grid.CellSize &&
      r.value.top == rect.value.top + Grid.Padding + r.value.row * Grid.CellSize
  {
    Snap(isDragging, itemType, pattern, clientOffset, GrabOffset(initial, initialSource), rect, Grid.CellSize, Grid.Padding)
  }

  /**
   * While no clamping applies, the preview puts the block it computes from the
   * monitor's offsets on the cell nearest the pointer, measured from the
   * rectangle's corner. That block is the grabbed one only while the pointer is
   * where the drag began (`PreviewOffsetDrifts`).
   */
  lemma PreviewTracksPointer(pattern: Option<Pattern>, pointer: Point, initial: Option<Point>, initialSource: Option<Point>,
                             rect: Rect, cellSize: int)
    requires cellSize > 0
    ensures var r := DragPreview(true, "tetromino", pattern, Some(pointer), initial, initialSource, Some(rect), cellSize);
      var g := GrabOffset(initial, SourceClientOffset(initialSource, initial, Some(pointer)));
      var bCol := BlockIndex(g.x, cellSize, PatternCols(pattern));
      var bRow := BlockIndex(g.y, cellSize, PatternRows(pattern));
      var col := RoundDiv(pointer.x - rect.left, cellSize) - bCol;
      var row := RoundDiv(pointer.y - rect.top, cellSize) - bRow;
      r.Some? &&
      (0 <= col <= rect.width / cellSize - PatternCols(pattern) ==>
         r.value.col == col &&
         cellSize * (2 * (col + bCol) - 1) <= 2 * (pointer.x - rect.left) < cellSize * (2 * (col + bCol) + 1)) &&
      (0 <= row <= rect.height / cellSize - PatternRows(pattern) ==>
         r.value.row == row &&
         cellSize * (2 * (row + bRow) - 1) <= 2 * (pointer.y - rect.top) < cellSize * (2 * (row + bRow) + 1))
  {
  }

  /**
   * A pattern no larger than the grid, drawn at the preview's cell, has every
   * entry inside the grid's whole cells.
   */
  lemma PreviewInsideGrid(isDragging: bool, itemType: string, pattern: Pattern, clientOffset: Option<Point>,
                          initial: Option<Point>, initialSource: Option<Point>, rect: Option<Rect>, cellSize: int)
    requires cellSize > 0 && WellFormed(pattern)
    requires rect.Some? && |pattern[0]| <= rect.value.width / cellSize && |pattern| <= rect.value.height / cellSize
    ensures var r := DragPreview(isDragging, itemType, Some(pattern), clientOffset, initial, initialSource, rect, cellSize);
      r.Some? ==>
        0 <= r.value.row && r.value.row + |pattern| <= rect.value.height / cellSize &&
        0 <= r.value.col && r.value.col + |pattern[0]| <= rect.value.width / cellSize
  {
  }

  /**
   * As written, the preview and the drop disagree: a one-block piece grabbed at
   * its corner, with the pointer 20 pixels right of and below the container's
   * corner, is previewed in cell (1, 1) but dropped into cell (0, 0).
   */
  lemma PreviewDropMismatch()
    ensures var pattern: Pattern := [[1]];
      var pointer := Point(120, 120);
      DragPreview(true, "tetromino", Some(pattern), Some(pointer), Some(pointer), Some(pointer),
                  Some(Rect(100, 100, 214, 214)), Grid.CellSize) == Some(Placement(1, 1, 133, 133)) &&
      Grid.Anchor(pattern, Some(Point(0, 0)), pointer, Point(100, 100)) == (0, 0)
  {
    assert SourceClientOffset(Some(Point(120, 120)), Some(Point(120, 120)), Some(Point(120, 120))) == Some(Point(120, 120));
    assert GrabOffset(Some(Point(120, 120)), Some(Point(120, 120))) == Point(0, 0);
    UnpaddedAxis();
    PaddedDropAxis();
  }

  /** Without the padding, 20 pixels in is nearer the second cell. */
  lemma UnpaddedAxis()
    ensures SnapAxis(120, 100, 0, 214, 0, Grid.CellSize, 1) == 1
  {
    assert BlockIndex(0, Grid.CellSize, 1) == 0;
    assert RoundDiv(20, Grid.CellSize) == 1;
  }

  /** With the padding, the same pointer is 12 pixels into the first cell. */
  lemma PaddedDropAxis()
    ensures Grid.Anchor([[1]], Some(Point(0, 0)), Point(120, 120), Point(100, 100)) == (0, 0)
  {
    assert BlockIndex(0, Grid.CellSize, 1) == 0;
    assert RoundDiv(12, Grid.CellSize) == 0;
  }

  /**
   * As written, the block the preview anchors drifts with the pointer: a 1 x 2
   * piece grabbed 10 pixels into its first block and carried 310 pixels left
   * and 343 up is anchored by its second block, so even measured from the
   * first cell's corner the preview shows cell (1, 1) while the drop, which
   * anchors the grabbed first block, lands in cell (1, 2).
   */
  lemma PreviewGrabDrift()
    ensures var pattern: Pattern := [[1, 1]];
      var initial, initialSource, pointer := Point(500, 500), Point(490, 490), Point(190, 157);
      var g := GrabOffset(Some(initial), SourceClientOffset(Some(initialSource), Some(initial), Some(pointer)));
      g == Point(320, 353) && BlockIndex(g.x, Grid.CellSize, 2) == 1 &&
      Grid.GrabbedBlock(pattern, Some(GrabOffset(Some(initial), Some(initialSource)))) == (0, 0) &&
      Snap(true, "tetromino", Some(pattern), Some(pointer), g, Some(Rect(100, 100, 214, 214)), Grid.CellSize, Grid.Padding)
        == Some(Placement(1, 1, 141, 141)) &&
      Grid.Anchor(pattern, Some(Point(10, 10)), pointer, Point(100, 100)) == (1, 2)
  {
    assert BlockIndex(320, Grid.CellSize, 2) == 1;
    DriftedSnap();
    GrabbedDrop();
  }

  /** The padded snap of the drift example, anchored by the second block. */
  lemma DriftedSnap()
    ensures Snap(true, "tetromino", Some([[1, 1]]), Some(Point(190, 157)), Point(320, 353),
                 Some(Rect(100, 100, 214, 214)), Grid.CellSize, Grid.Padding) == Some(Placement(1, 1, 141, 141))
  {
    DriftedColumn();
    DriftedRow();
  }

  lemma DriftedColumn()
    ensures SnapAxis(190, 100, Grid.Padding, 214, 320, Grid.CellSize, 2) == 1
  {
    assert BlockIndex(320, Grid.CellSize, 2) == 1;
    assert RoundDiv(82, Grid.CellSize) == 2;
  }

  lemma DriftedRow()
    ensures SnapAxis(157, 100, Grid.Padding, 214, 353, Grid.CellSize, 1) == 1
  {
    assert BlockIndex(353, Grid.CellSize, 1) == 0;
    assert RoundDiv(49, Grid.CellSize) == 1;
  }

  /** The drop of the drift example, anchored by the grabbed first block. */
  lemma GrabbedDrop()
    ensures Grid.GrabbedBlock([[1, 1]], Some(Point(10, 10))) == (0, 0)
    ensures Grid.Anchor([[1, 1]], Some(Point(10, 10)), Point(190, 157), Point(100, 100)) == (1, 2)
  {
    assert BlockIndex(10, Grid.CellSize, 2) == 0;
    assert BlockIndex(10, Grid.CellSize, 1) == 0;
    assert RoundDiv(82, Grid.CellSize) == 2;
    assert RoundDiv(49, Grid.CellSize) == 1;
  }

  /**
   * Measured from the first cell's corner, with the grab offset the drag
   * sources record, the preview's cell is the drop's anchor whenever the
   * anchor needs no clamping into the grid.
   */
  lemma PaddedPreviewMatchesDrop(pattern: Pattern, pointer: Point, initial: Option<Point>, initialSource: Option<Point>, rect: Rect)
    requires |pattern| >= 1
    ensures var r := PaddedPreview(true, "tetromino", Some(pattern), Some(pointer), initial, initialSource, Some(rect));
      var a := Grid.Anchor(pattern, Some(GrabOffset(initial, initialSource)), pointer, Point(rect.left, rect.top));
      r.Some? &&
      (0 <= a.0 <= rect.height / Grid.CellSize - |pattern| ==> r.value.row == a.0) &&
      (0 <= a.1 <= rect.width / Grid.CellSize - |pattern[0]| ==> r.value.col == a.1)
  {
  }
}
