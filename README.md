# Grid editor placement engine, in Dafny

This project models the placement and geometry engine of the Witness-style Tetris
sandbox, a browser grid editor. Players drag tetromino-like pieces from a palette
onto a square board. They can rotate and remove placed pieces, draw walls on cell
edges, mark cells, and author their own shapes on a small grid.

The model covers four parts of that engine.

- **Pattern math** (`pattern_math.dfy`, `shape_editor.dfy`, `palette.dfy`).
  - A piece's shape is a 0/1 matrix.
  - `rotatePattern` turns it a quarter clockwise. Four turns give it back, and the number of set cells never changes.
  - `trimPattern` cuts a drawn shape down to its bounding box. The box touches a set cell on every side, the trim keeps the set cells, and trimming twice is the same as trimming once.
  - `toggleCell` flips one entry. `handleGridSizeChange` grows or shrinks the square authoring grid.
  - `PaletteShape` keeps a palette entry's own orientation and rotates it on request.
- **Pointer arithmetic** (`geometry.dfy`). Pixels are whole numbers.
  - `Math.floor(d / cs)` is floor division.
  - `Math.floor(d / cs + 0.5)`, the same as `Math.round(d / cs)`, is `(2d + cs) / (2cs)`. It is proved to be the unique cell within half a cell of `d`.
  - The grabbed-block index is clamped into the pattern.
- **The board store** (`grid.dfy`). `GridState` holds a z-ordered `seq` of pieces, a `set` of walls and a `set` of marked cells.
  - Each operation of the `Grid` component is a method that replaces one field by a pure transition function: filter, filter-and-append, map, or set toggle. The other fields are left unchanged.
  - The two queries are methods with the component's loops:
    - `getHoverCells` is proved equal to the on-board part of the dragged piece's footprint;
    - `getCellColor` is proved equal to the colour of the topmost covering piece.
- **The drag preview** (`preview.dfy`).
  - `DragPreview` snaps the dragged piece to a cell and clamps it into the grid rectangle.
  - It is modelled as functions over optional inputs.

Where the intended design and the code differ, the model follows the code:

- A drop whose footprint leaves the board is rejected, not clamped (`Grid.tsx:68-78`). Overlapping other pieces is allowed.
- Re-dropping a piece that is already on the board removes it and appends it again, so it moves to the top of the z-order (`Grid.tsx:97-100`).
- Rotating a placed piece never checks bounds (`Grid.tsx:107-115`). `Grid.RotationCanLeaveBoard` exhibits a piece that fits before the turn and sticks out after it.
- The preview clamps instead of rejecting. It measures from the container's corner without the 8-pixel padding, and it takes the grab offset against the piece's current corner rather than its corner where the drag began (see Findings).
- The drop handler looks up the earlier piece in the list of an older render (see Findings). `Grid.GridState.HandleDrop` and `Grid.GridState.OnDrop` take that list as a parameter `view`, and `Grid.StaleDropResetsRotation` shows what happens when it does not hold the piece.

Representation choices:

- Cell entries are the subset type `Bit` (0 or 1), so the source's truthiness test on an entry is `== 1`.
- Wall ids `h-r-c` / `v-r-c` become `Wall.H(r, c)` / `Wall.V(r, c)`. Cell ids `r-c` become pairs.
- Piece ids are non-empty strings, so JavaScript's truthiness test on an id is `Option.Some?`.
- Positive remainders agree between Dafny and JavaScript. Rotations are kept in {0, 90, 180, 270} by the store invariant `GridState.Valid`.

## Model

| member | source | states |
|---|---|---|
| PatternMath.Rotated | src/app/components/Grid.tsx:29-41 | a rows x cols pattern rotates to cols rows of rows entries; a well-formed pattern stays well-formed |
| PatternMath.RotatePattern | src/app/components/Grid.tsx:29-41 | the nested loops build cols rows of rows entries with rotated[j][rows-1-i] == pattern[i][j] for every entry, which is the rotation `Rotated` |
| PatternMath.HalfTurn | src/app/components/Grid.tsx:34-38 | two rotations keep the dimensions and send entry (i, j) to (rows-1-i, cols-1-j) |
| PatternMath.RotateFourTimes | src/app/components/Grid.tsx:29-41 | four rotations of a well-formed pattern give it back |
| PatternMath.RotatedCells | src/app/components/Grid.tsx:34-38 | the set cells of the rotation are the old set cells moved by (i, j) -> (j, rows-1-i) |
| PatternMath.RotateKeepsCount | src/app/components/Grid.tsx:34-38 | rotation keeps the number of set cells |
| PatternMath.InjectiveImageSize | src/app/components/Grid.tsx:34-38 | a map that is one-to-one on a set of cells keeps its size; this is what the count arguments rest on |
| Palette.PaletteShape.constructor | src/app/components/PaletteShape.tsx:11 | the entry starts with its initial pattern |
| Palette.PaletteShape.HandleRotate | src/app/components/PaletteShape.tsx:13-29 | the palette copy of `rotatePattern` is the same rotation: the pattern becomes Rotated(old pattern), with swapped dimensions and the same number of set cells |
| Palette.RotateEntryFourTimes | src/app/components/PaletteShape.tsx:27-29 | four `handleRotate` calls restore the entry's pattern |
| Geometry.RoundDiv | src/app/components/Grid.tsx:62-65 | the rounded pointer cell k satisfies cs(2k-1) <= 2d < cs(2k+1): the pointer is within half a cell of cell k |
| Geometry.RoundUnique | src/app/components/Grid.tsx:62-65 | only one whole number is within half a cell, so the rounding is determined by that property |
| Geometry.BlockIndex | src/app/components/Grid.tsx:54-59 | the grabbed block lies in 0..dim-1 (or is dim-1 when dim < 1); a grab inside the piece's extent gives the block whose pixels contain it; grabs before or past the piece clamp to the first or last block |
| Geometry.FloorBetween | src/app/components/Grid.tsx:54-55 | floor division brackets the offset within one block and compares it with a whole number of blocks |
| Geometry.ClampToRange | src/app/components/DragPreview.tsx:48-51 | `min(max(0, v), max(0, hi))` lies in 0..max(0, hi), equals v when v is already in range, and sits at the nearer end otherwise |
| Grid.GrabbedBlock | src/app/components/Grid.tsx:51-59 | the grabbed block (row, column) lies inside the dragged pattern; a missing grab offset gives block (0, 0) |
| Grid.Anchor | src/app/components/Grid.tsx:50-65 | the anchor plus the grabbed block is the cell nearest the pointer, measured from the first cell's corner (container corner plus 8-pixel padding) |
| Grid.FitsIffFootprintOnBoard | src/app/components/Grid.tsx:67-78 | the bounds condition holds exactly when every cell of the footprint (set cells shifted to the anchor) is on the size x size board |
| Grid.CheckBounds | src/app/components/Grid.tsx:68-78 | the scan with early exit answers true exactly when every set entry lands on the board; overlaps are not looked at |
| Grid.HoverStep | src/app/components/Grid.tsx:185-195 | visiting entry (i, j) adds its target cell to the highlight exactly when it is set and on the board |
| Grid.HoverRowEnd | src/app/components/Grid.tsx:185-186 | finishing row i of the scan is starting row i+1 |
| Grid.HoverIsFootprintOnBoard | src/app/components/Grid.tsx:184-196 | a cell is highlighted exactly when it is in the dragged footprint and on the board |
| Grid.HoverCellInFootprint | src/app/components/Grid.tsx:187-192 | every highlighted cell is on the board and equals the anchor plus a set-cell offset |
| Grid.FootprintCellInHover | src/app/components/Grid.tsx:187-192 | every on-board footprint cell is highlighted |
| Grid.HoverWholeIffFits | src/app/components/Grid.tsx:184-196 | the highlight shows the whole footprint exactly when the drop there would pass the bounds check |
| Grid.HoverShowsDrop | src/app/components/Grid.tsx:184-196 | where the drop fits, the highlighted cells are exactly the cells the dropped piece then covers |
| Grid.LastCovering | src/app/components/Grid.tsx:204-213 | the index found is the last piece among the first n covering the cell, or -1 when none does |
| Grid.TopColor | src/app/components/Grid.tsx:202-215 | a cell shows no colour exactly when no piece covers it |
| Grid.Without | src/app/components/Grid.tsx:103-105 | a piece survives the filter exactly when it was there and carries another id |
| Grid.WithoutAppend | src/app/components/Grid.tsx:98 | the filter distributes over concatenation, so the kept pieces keep their relative order |
| Grid.WithoutAbsent | src/app/components/Grid.tsx:103-105 | removing an id that no piece carries changes nothing |
| Grid.WithoutKeepsUnique | src/app/components/Grid.tsx:98 | filtering keeps piece ids unique |
| Grid.IndexOf | src/app/components/Grid.tsx:82 | `find` returns the first piece with the id, and -1 only when no piece has it |
| Grid.Find | src/app/components/Grid.tsx:82 | the found piece is on the board and carries the id; nothing is found exactly when no piece carries it |
| Grid.CommitFacts | src/app/components/Grid.tsx:80-100 | after a drop, the dropped piece is last and has the dragged pattern, position and colour; no other piece carries its id; every piece with another id stays; nothing is invented; a re-dropped piece keeps its original pattern and rotation; a new piece gets rotation 0 and the dragged pattern as original |
| Grid.CommitKeepsValid | src/app/components/Grid.tsx:80-100 | a drop keeps ids unique, patterns well-formed and rotations right angles, whichever list the earlier piece is looked up in, as long as that list's rotations are right angles |
| Grid.CommitKeepsUnique | src/app/components/Grid.tsx:86-100 | after a drop no two pieces share an id |
| Grid.CommitKeepsShapes | src/app/components/Grid.tsx:82-100 | after a drop every pattern is well-formed and every rotation a right angle |
| Grid.DroppedRightAngle | src/app/components/Grid.tsx:82-84 | the dropped piece's rotation is 0 or an earlier piece's, so a right angle |
| Grid.WithoutSubset | src/app/components/Grid.tsx:98 | filtering only removes pieces |
| Grid.StaleDropResetsRotation | src/app/components/Grid.tsx:82-84 | a lookup in a list that does not yet hold the dragged piece gives rotation 0 and the dragged pattern as original, where a lookup in the current list keeps the piece's own; for a turned piece the committed lists differ |
| Grid.CommitOnTop | src/app/components/Grid.tsx:97-100 | every cell the dropped piece covers shows its colour: the dropped piece is on top |
| Grid.RotatedPieces | src/app/components/Grid.tsx:107-115 | only pieces with the id change; each keeps its id, position, colour, kind and original pattern, gets the rotated pattern and the rotation (rotation + 90) % 360, which stays a right angle, and keeps its pattern well-formed |
| Grid.RotateFourTimesRestores | src/app/components/Grid.tsx:107-115 | four rotations of a piece restore the whole list, patterns and rotation angles included |
| Grid.FourQuarters | src/app/components/Grid.tsx:111 | four steps of (rotation + 90) % 360 bring a right angle back to itself |
| Grid.RotationCanLeaveBoard | src/app/components/Grid.tsx:107-115 | a 1x2 piece in the last row of a 4x4 board fits, but after a turn it does not: rotation is not bounds-checked |
| Grid.Toggled | src/app/components/Grid.tsx:117-127 | the toggled set holds x exactly when the old one did not, and agrees with it on every other element |
| Grid.ToggleTwice | src/app/components/Grid.tsx:137-147 | toggling the same wall or cell twice restores the set |
| Grid.GridState.constructor | src/app/components/Grid.tsx:23-25 | the store starts with no pieces, walls or marks |
| Grid.GridState.HandleDrop | src/app/components/Grid.tsx:43-101 | without a pointer or a container nothing changes; otherwise the pieces become the committed list, with the earlier piece looked up in `view`, when the anchored pattern fits, and stay unchanged when it does not; walls and marks are unchanged; the store invariant is kept |
| Grid.GridState.OnDrop | src/app/components/Grid.tsx:250-262 | drops in edition mode change nothing; otherwise the new pieces are exactly what the memoized `handleDrop` gives: unchanged without a pointer or a container, else the committed list with the earlier piece looked up in `view`, the list of the render the handler was made in, when the pattern fits, and unchanged when it does not |
| Grid.GridState.RemovePiece | src/app/components/Grid.tsx:103-105 | the pieces become the filtered list; walls and marks are unchanged |
| Grid.GridState.PieceDragEnd | src/app/components/Grid.tsx:474-478 | a placed piece's drag that ends off the grid removes that piece; one that was dropped leaves the list as the drop made it |
| Grid.GridState.RotatePiece | src/app/components/Grid.tsx:107-115 | the pieces become the rotated list; walls and marks are unchanged; the invariant is kept |
| Grid.GridState.ToggleWall | src/app/components/Grid.tsx:117-127 | the walls become the toggled set; pieces and marks are unchanged |
| Grid.GridState.ToggleMarkedCell | src/app/components/Grid.tsx:137-147 | the marks become the toggled set; pieces and walls are unchanged |
| Grid.GridState.ClearGrid | src/app/components/Grid.tsx:129-131 | pieces become empty; walls and marks are unchanged |
| Grid.GridState.ClearWalls | src/app/components/Grid.tsx:133-135 | walls become empty; pieces and marks are unchanged |
| Grid.GridState.GetHoverCells | src/app/components/Grid.tsx:160-197 | empty when not dragging, without an item, pointer or container, or in edition mode; otherwise exactly the on-board cells the dragged pattern covers at the anchor |
| Grid.GridState.GetCellColor | src/app/components/Grid.tsx:202-215 | the reverse scan answers the colour of the last-listed piece covering the cell, or nothing |
| ShapeEditor.FirstRow | src/app/components/ShapeCreator.tsx:71-80 | the first row at or after k with a set cell, with no set cell in the rows skipped |
| ShapeEditor.LastRow | src/app/components/ShapeCreator.tsx:71-80 | the last row before k with a set cell, with no set cell in the rows after it |
| ShapeEditor.FirstCol | src/app/components/ShapeCreator.tsx:71-80 | the first column at or after k with a set cell |
| ShapeEditor.LastCol | src/app/components/ShapeCreator.tsx:71-80 | the last column before k with a set cell |
| ShapeEditor.BoxOf | src/app/components/ShapeCreator.tsx:71-80 | for a pattern with a set cell, the box Top..Bottom x Left..Right lies in the pattern, encloses every set cell, and each of its four sides holds a set cell |
| ShapeEditor.BoxUnique | src/app/components/ShapeCreator.tsx:71-80 | a box that encloses every set cell and touches a set cell on each side is the bounding box |
| ShapeEditor.Trim | src/app/components/ShapeCreator.tsx:64-92 | the trimmed pattern is well-formed: at least one row and one column, all rows of equal length |
| ShapeEditor.Crop | src/app/components/ShapeCreator.tsx:86-89 | the rows r0..r1 cut to columns c0..c1 form a well-formed pattern |
| ShapeEditor.ScanStep | src/app/components/ShapeCreator.tsx:73-78 | folding one cell into minRow/maxRow/minCol/maxCol with min and max keeps them the bounds of the set cells seen so far |
| ShapeEditor.RowDone | src/app/components/ShapeCreator.tsx:71-72 | finishing row i of the scan is starting row i+1 |
| ShapeEditor.ScanComplete | src/app/components/ShapeCreator.tsx:71-84 | after the scan, minRow > maxRow exactly when no cell is set; otherwise the four variables are the bounding box |
| ShapeEditor.ScanTrim | src/app/components/ShapeCreator.tsx:82-91 | after the scan, the trim is [[1]] when minRow > maxRow and the crop to the scanned box otherwise |
| ShapeEditor.CropRows | src/app/components/ShapeCreator.tsx:86-89 | the rows pushed one by one, each sliced to minCol..maxCol, make up the crop |
| ShapeEditor.ScanBounds | src/app/components/ShapeCreator.tsx:66-80 | the scan's four variables lie inside the pattern and determine the trim |
| ShapeEditor.TrimPattern | src/app/components/ShapeCreator.tsx:64-92 | the method computes exactly `Trim` |
| ShapeEditor.TrimEmpty | src/app/components/ShapeCreator.tsx:82-84 | a pattern with no set cell trims to [[1]] |
| ShapeEditor.TrimShape | src/app/components/ShapeCreator.tsx:86-91 | the trim has (maxRow-minRow+1) rows of (maxCol-minCol+1) entries, entry (i, j) equal to pat[minRow+i][minCol+j], and no set cell lies outside the box |
| ShapeEditor.TrimmedCells | src/app/components/ShapeCreator.tsx:71-91 | the trim's set cells are the original ones shifted by (-minRow, -minCol) |
| ShapeEditor.TrimKeepsCount | src/app/components/ShapeCreator.tsx:71-91 | trimming a pattern with a set cell keeps the number of set cells |
| ShapeEditor.TrimKeepsCell | src/app/components/ShapeCreator.tsx:86-89 | every set cell reappears in the trim at its shifted position |
| ShapeEditor.BoxSides | src/app/components/ShapeCreator.tsx:71-80 | each side of the bounding box holds a set cell, and the trim has the box's dimensions |
| ShapeEditor.TrimIsTight | src/app/components/ShapeCreator.tsx:71-89 | the trim's first row, last row, first column and last column each hold a set cell |
| ShapeEditor.TrimIdempotent | src/app/components/ShapeCreator.tsx:64-92 | trimming a trimmed pattern changes nothing |
| ShapeEditor.Zeros | src/app/components/ShapeCreator.tsx:54-55 | a row of n zeros |
| ShapeEditor.CellToggled | src/app/components/ShapeCreator.tsx:44-48 | the copy has the same shape, entry (r, c) flipped between 0 and 1, and every other entry unchanged |
| ShapeEditor.ToggleTwice | src/app/components/ShapeCreator.tsx:44-48 | toggling the same entry twice restores the pattern |
| ShapeEditor.Resized | src/app/components/ShapeCreator.tsx:50-62 | the result is newSize x newSize; old entries keep their indices, and every entry outside the old grid is 0 |
| ShapeEditor.ResizeRoundTrip | src/app/components/ShapeCreator.tsx:50-62 | growing then shrinking back restores the pattern |
| ShapeEditor.ShapeCreator.constructor | src/app/components/ShapeCreator.tsx:40-41 | the authoring grid starts 6 x 6 with no set cell |
| ShapeEditor.ShapeCreator.ToggleCell | src/app/components/ShapeCreator.tsx:44-48 | the pattern becomes the toggled copy and stays gridSize x gridSize |
| ShapeEditor.ShapeCreator.HandleGridSizeChange | src/app/components/ShapeCreator.tsx:50-62 | the size becomes newSize and the pattern the resized one, again square of that size |
| Preview.SnapAxis | src/app/components/DragPreview.tsx:29-51 | the snapped cell lies in 0..max(0, cells-dim); a pattern no larger than the grid stays inside it; with no clamping, the block the offset selects is on the cell nearest the pointer |
| Preview.PreviewOffsetDrifts | src/app/components/DragPreview.tsx:15-24 | the offset the preview computes from the current source corner is the grab offset minus the pointer's travel, and equals the grab offset exactly when the pointer has not moved |
| Preview.Snap | src/app/components/DragPreview.tsx:18-54 | nothing unless dragging a piece with a pointer and a rectangle; otherwise cells in the clamp ranges, drawn at the corner plus pad plus cell times cell size |
| Preview.DragPreview | src/app/components/DragPreview.tsx:9-54 | the component's guards, clamp ranges (pattern dimensions default to 1), and pixel position rect + cell x cellSize, with no padding; the grab offset is taken against the monitor's current source corner |
| Preview.PreviewTracksPointer | src/app/components/DragPreview.tsx:22-43 | with no clamping, col + blockIndexX and row + blockIndexY are the cells nearest the pointer, where the block indices come from the offset against the current source corner |
| Preview.PreviewInsideGrid | src/app/components/DragPreview.tsx:45-51 | a pattern no larger than the grid is previewed entirely inside the grid's whole cells |
| Preview.PreviewDropMismatch | src/app/components/DragPreview.tsx:38-43 | a concrete drag where the preview shows cell (1, 1) but the drop lands in cell (0, 0) |
| Preview.PreviewGrabDrift | src/app/components/DragPreview.tsx:15-35 | a concrete drag where the preview anchors the second block instead of the grabbed first one, so even a padded preview shows cell (1, 1) while the drop lands in cell (1, 2) |
| Preview.PaddedPreview | src/app/components/DragPreview.tsx:22-54 | the preview with the grab offset taken against the piece's corner where the drag began, measured and drawn from the first cell's corner, 8 pixels in |
| Preview.PaddedPreviewMatchesDrop | src/app/components/DragPreview.tsx:22-54 | with the grab offset the drag sources record and measured from the first cell's corner, the previewed cell is the drop's anchor whenever the anchor needs no clamping |

`Grid.Committed`, `Grid.CommittedFrom`, `Grid.DroppedPiece`, `Grid.Turned`, `Grid.Fits`, `Grid.Covers`, `Preview.GrabOffset` and `Preview.SourceClientOffset` carry no contract of their own. They are the definitions that the lemmas and methods above state their results in.

## Findings

| source | as written | input that shows it | evidently intended | confidence | as-written member | corrected member |
|---|---|---|---|---|---|---|
| src/app/components/DragPreview.tsx:38-54 | the preview measures the pointer from the container's corner and draws at `rect.left + col * cellSize`; it leaves out the 8-pixel padding that the drop subtracts (Grid.tsx:62-63) and that the cells are drawn with | a 1 x 1 piece grabbed at its corner, container at (100, 100) sized for a 6 x 6 grid, pointer at (120, 120): the preview shows cell (1, 1), the drop lands in (0, 0) | the preview shows the cell the drop will use: measure from the first cell's corner, 8 pixels in | medium; not executed; latent, since none of the files modelled here mounts `DragPreview` (App.tsx renders only the grid, the palette and the grid context), so the mismatch shows only where the component is mounted | Preview.PreviewDropMismatch | Preview.PaddedPreviewMatchesDrop |
| src/app/components/DragPreview.tsx:15-24 | the preview's grab offset is the initial pointer minus `getSourceClientOffset()`, the piece's current corner, which moves with the pointer; the drag sources record the initial pointer minus `getInitialSourceClientOffset()` (TetrisShape.tsx:43-49, Grid.tsx:464-470), which the drop uses | a 1 x 2 piece grabbed at (10, 10) inside it, initial pointer (500, 500), pointer now (190, 157), container (100, 100, 214, 214): the preview's offset is (320, 353), which selects the second block; even measured from the first cell's corner the preview shows (1, 1), while the drop lands in (1, 2) | the preview uses the grab offset recorded at the start of the drag | medium; not executed; latent for the same reason: no file modelled here mounts `DragPreview` | Preview.PreviewGrabDrift | Preview.PaddedPreviewMatchesDrop |
| src/app/components/Grid.tsx:82-84, 250-262 | the drop spec is memoized on `[editionMode, size, cellSize]`, so the `handleDrop` it calls looks the dragged piece up in the `pieces` of the render where one of those last changed; the filter works on the latest list | a piece placed after the last edition-mode toggle and turned once (rotation 90) is dragged and dropped again: the older list does not hold it, so it comes back with rotation 0 and its turned pattern as its original | the lookup sees the current list, so a re-dropped piece keeps its original pattern and rotation | medium; not executed | Grid.StaleDropResetsRotation | Grid.CommitFacts |

## Left out

- React rendering and JSX are not modelled. This covers cell and wall elements, styles, hover shading, the portal, and the bounding-box pixel sizes of `PieceOverlay`.
- react-dnd plumbing is not modelled. The monitor's outputs are parameters: client offsets, `isDragging`, the item, `didDrop`. The item factories of `PieceOverlay` (`Grid.tsx:463-472`) and of `TetrisShape` are not modelled either; the dragged item is an input.
- DOM geometry is a parameter: `getBoundingClientRect` gives the container corner for drops and hover, and the rectangle for the preview. Not modelled:
  - the resize listener that publishes the rectangle (`Grid.tsx:218-247`);
  - `GridContext.tsx`, which only holds that rectangle and the cell size;
  - `App.tsx`, which is page layout.
- `TetrisShape.tsx` is not part of this model. Its drag-end rule is the same as `PieceOverlay`'s, which `Grid.GridState.PieceDragEnd` models.
- Fresh ids are a parameter. `Date.now()` / `Math.random()` (`Grid.tsx:87`) make the id, and `HandleDrop` requires the parameter to be unused when the dragged item has no id.
- The authoring dialog is not modelled: open state, colour choice, `handleSaveShape` (it calls `trimPattern`), `handleEditShape`, deletion.
- Floating point is not modelled. Pixels and the cell size are whole numbers; with fractional pixels, rounding could differ at exact half-cell boundaries.
- Inputs that JavaScript would handle badly are excluded by preconditions.
  - `rotatePattern` sizes its result from `pattern.length` and `pattern[0].length` and reads every row up to the first row's length. A short row would read `undefined` and a long row would be cut. Rotation therefore requires at least one row and rows of equal length, so that every entry stays 0 or 1.
  - Placed pieces are kept well-formed. Palette shapes and trimmed shapes always are.
  - A drop of an empty pattern would throw.
- Grid.GridState.HandleDrop: requires a well-formed dragged pattern. Palette and trimmed shapes always are, so the source's behaviour on ragged or empty patterns is not modelled.
- ShapeEditor.ShapeCreator.ToggleCell: requires the cell to be on the authoring grid. With an out-of-range column, JavaScript would lengthen the row.
- ShapeEditor.ShapeCreator.HandleGridSizeChange: takes a natural size. JavaScript's `slice` with a negative size is not modelled.
- Grid.GridState.OnDrop, Grid.GridState.HandleDrop: the list the earlier piece is looked up in is the parameter `view`; the store does not record which render's list the running handler holds. As written, the memoized drop spec (`Grid.tsx:250-262`) calls a `handleDrop` that searches the `pieces` of the render where `editionMode`, `size` or `cellSize` last changed. That is the mount, since `App.tsx:82` remounts the grid per size, or the last edition-mode toggle. Pieces placed since then are not found, so a re-dropped piece loses its rotation and original pattern (`Grid.StaleDropResetsRotation`, and Findings). Passing the current list as `view` gives the intended behaviour, `Grid.Committed`.
- Preview.PaddedPreviewMatchesDrop: when the drag began without known offsets, the drag sources keep the previous drag's recorded offset, or (0, 0) on the first drag. The lemma takes the drop's offset to be (0, 0) then, as the preview does.
- The `{ dropped: true }` result that the drop handler returns to react-dnd is not modelled.
