/**
 * The play grid (`Grid`): a size x size board holding a z-ordered list of
 * placed pieces, a set of walls on cell edges and a set of marked cells.
 * Pieces are dropped by pointer, removed, rotated in place; walls and marks are
 * toggled one at a time. The board also answers two queries: which cells a
 * dragged piece would cover, and which colour a cell shows.
 */
module Grid {
  import opened Wrappers
  import opened PatternMath
  import opened Geometry

  /** Pixel size of one grid cell, gap included. */
  const CellSize: int := 33
  /** Pixels between the container's corner and the first cell's corner. */
  const Padding: int := 8

  /** Piece ids are non-empty strings, so "has an id" is `Some?`. */
  type PieceId = s: string | |s| > 0 witness "p"

  /** A piece on the board: `pattern` is its current orientation, `rotation` in degrees. */
  datatype Piece = Piece(id: PieceId, kind: string, pattern: Pattern, originalPattern: Pattern,
                         color: string, row: int, col: int, rotation: int)

  /** A wall on the top edge (`H`) or the left edge (`V`) of cell (row, col). */
  datatype Wall = H(row: int, col: int) | V(row: int, col: int)

  /**
   * What a drag carries: a palette shape has no `pieceId`; a placed piece carries
   * its id. `pointerOffset` is where inside the piece the pointer grabbed it.
   */
  datatype DragItem = DragItem(kind: string, pattern: Pattern, color: string,
                               pieceId: Option<PieceId>, pointerOffset: Option<Point>)

  /* ---------------------------------------------------------------------- */
  /* Pointer to anchor                                                       */
  /* ---------------------------------------------------------------------- */

  /** The grabbed block (row, column) of a dragged pattern; a missing offset is (0, 0). */
  function GrabbedBlock(pattern: Pattern, grab: Option<Point>): (b: Cell)
    requires |pattern| >= 1
    ensures 0 <= b.0 < |pattern|
    ensures |pattern[0]| >= 1 ==> 0 <= b.1 < |pattern[0]|
    ensures grab.None? ==> b.0 == 0 && (|pattern[0]| >= 1 ==> b.1 == 0)
  {
    var g := if grab.Some? then grab.value else Point(0, 0);
    (BlockIndex(g.y, CellSize, |pattern|), BlockIndex(g.x, CellSize, |pattern[0]|))
  }

  /**
   * The board cell (row, col) where the pattern's top-left entry lands: the
   * grabbed block goes to the cell nearest the pointer, measured from the first
   * cell's corner (the container's corner plus the padding).
   */
  function Anchor(pattern: Pattern, grab: Option<Point>, pointer: Point, origin: Point): (a: Cell)
    requires |pattern| >= 1
    ensures var b := GrabbedBlock(pattern, grab);
      CellSize * (2 * (a.0 + b.0) - 1) <= 2 * (pointer.y - origin.y - Padding) < CellSize * (2 * (a.0 + b.0) + 1)
    ensures var b := GrabbedBlock(pattern, grab);
      CellSize * (2 * (a.1 + b.1) - 1) <= 2 * (pointer.x - origin.x - Padding) < CellSize * (2 * (a.1 + b.1) + 1)
  {
    var b := GrabbedBlock(pattern, grab);
    (RoundDiv(pointer.y - origin.y - Padding, CellSize) - b.0,
     RoundDiv(pointer.x - origin.x - Padding, CellSize) - b.1)
  }

  /* ---------------------------------------------------------------------- */
  /* Bounds and footprint                                                    */
  /* ---------------------------------------------------------------------- */

  /** Every set entry of the pattern, placed with its top-left at (row, col), is on the board. */
  predicate Fits(p: Pattern, row: int, col: int, size: int) {
    forall i, j :: 0 <= i < |p| && 0 <= j < |p[i]| && p[i][j] == 1 ==>
      0 <= row + i < size && 0 <= col + j < size
  }

  predicate OnBoard(c: Cell, size: int) {
    0 <= c.0 < size && 0 <= c.1 < size
  }

  /** The board cells a pattern placed at (row, col) covers, on the board or not. */
  ghost function Footprint(p: Pattern, row: int, col: int): set<Cell> {
    Image(Cells(p), Shift(row, col))
  }

  /** `Fits` is exactly "the whole footprint lies on the board". */
  lemma FitsIffFootprintOnBoard(p: Pattern, row: int, col: int, size: int)
    ensures Fits(p, row, col, size) <==> forall x :: x in Footprint(p, row, col) ==> OnBoard(x, size)
  {
    if Fits(p, row, col, size) {
      forall x | x in Footprint(p, row, col) ensures OnBoard(x, size) {
        var c :| c in Cells(p) && x == (row + c.0, col + c.1);
        assert p[c.0][c.1] == 1;
      }
    }
    if forall x :: x in Footprint(p, row, col) ==> OnBoard(x, size) {
      forall i, j | 0 <= i < |p| && 0 <= j < |p[i]| && p[i][j] == 1
        ensures 0 <= row + i < size && 0 <= col + j < size
      {
        assert (i, j) in Cells(p);
        assert (row + i, col + j) in Footprint(p, row, col);
      }
    }
  }

  /**
   * The bounds check of `handleDrop`: a scan of every set entry that stops at the
   * first one placed off the board.
   */
  method CheckBounds(pattern: Pattern, row: int, col: int, size: int) returns (ok: bool)
    ensures ok <==> Fits(pattern, row, col, size)
  {
    for i := 0 to |pattern|
      invariant forall a, b :: 0 <= a < i && 0 <= b < |pattern[a]| && pattern[a][b] == 1 ==>
        0 <= row + a < size && 0 <= col + b < size
    {
      for j := 0 to |pattern[i]|
        invariant forall a, b :: 0 <= a < i && 0 <= b < |pattern[a]| && pattern[a][b] == 1 ==>
          0 <= row + a < size && 0 <= col + b < size
        invariant forall b :: 0 <= b < j && pattern[i][b] == 1 ==> 0 <= row + i < size && 0 <= col + b < size
      {
        if pattern[i][j] == 1 {
          var targetRow := row + i;
          var targetCol := col + j;
          if targetRow >= size || targetCol >= size || targetRow < 0 || targetCol < 0 {
            return false;
          }
        }
      }
    }
    return true;
  }

  /* ---------------------------------------------------------------------- */
  /* Hover highlight                                                         */
  /* ---------------------------------------------------------------------- */

  /**
   * The on-board cells covered by the set entries (a, b) the hover scan has met
   * before (i, j) in row-major order.
   */
  ghost function HoverUpTo(p: Pattern, row: int, col: int, size: int, i: int, j: int): set<Cell> {
    set a, b | 0 <= a < |p| && 0 <= b < |p[a]| && p[a][b] == 1 && (a < i || (a == i && b < j)) &&
               0 <= row + a < size && 0 <= col + b < size :: (row + a, col + b)
  }

  /** The on-board part of a pattern's footprint. */
  ghost function Hover(p: Pattern, row: int, col: int, size: int): set<Cell> {
    HoverUpTo(p, row, col, size, |p|, 0)
  }

  lemma HoverStep(p: Pattern, row: int, col: int, size: int, i: int, j: int)
    requires 0 <= i < |p| && 0 <= j < |p[i]|
    ensures HoverUpTo(p, row, col, size, i, j + 1) ==
      HoverUpTo(p, row, col, size, i, j) +
      (if p[i][j] == 1 && 0 <= row + i < size && 0 <= col + j < size then {(row + i, col + j)} else {})
  {
  }

  lemma HoverRowEnd(p: Pattern, row: int, col: int, size: int, i: int)
    requires 0 <= i < |p|
    ensures HoverUpTo(p, row, col, size, i, |p[i]|) == HoverUpTo(p, row, col, size, i + 1, 0)
  {
  }

  /** The hover highlight is exactly the footprint's cells that lie on the board. */
  lemma HoverIsFootprintOnBoard(p: Pattern, row: int, col: int, size: int)
    ensures forall x :: x in Hover(p, row, col, size) <==> x in Footprint(p, row, col) && OnBoard(x, size)
  {
    forall x ensures x in Hover(p, row, col, size) <==> x in Footprint(p, row, col) && OnBoard(x, size) {
      if x in Hover(p, row, col, size) {
        HoverCellInFootprint(p, row, col, size, x);
      }
      if x in Footprint(p, row, col) && OnBoard(x, size) {
        FootprintCellInHover(p, row, col, size, x);
      }
    }
  }

  lemma HoverCellInFootprint(p: Pattern, row: int, col: int, size: int, x: Cell)
    requires x in Hover(p, row, col, size)
    ensures x in Footprint(p, row, col) && OnBoard(x, size)
  {
    var a, b :| 0 <= a < |p| && 0 <= b < |p[a]| && p[a][b] == 1 && (a < |p| || (a == |p| && b < 0)) &&
                0 <= row + a < size && 0 <= col + b < size && x == (row + a, col + b);
    assert (a, b) in Cells(p);
  }

  lemma FootprintCellInHover(p: Pattern, row: int, col: int, size: int, x: Cell)
    requires x in Footprint(p, row, col) && OnBoard(x, size)
    ensures x in Hover(p, row, col, size)
  {
  }

  /**
   * The highlight shows the whole footprint exactly when a drop there would be
   * accepted; otherwise it shows only the part on the board.
   */
  lemma HoverWholeIffFits(p: Pattern, row: int, col: int, size: int)
    ensures Hover(p, row, col, size) == Footprint(p, row, col) <==> Fits(p, row, col, size)
  {
    HoverIsFootprintOnBoard(p, row, col, size);
    FitsIffFootprintOnBoard(p, row, col, size);
  }

  /**
   * Where a drop would be accepted, the highlight is exactly the set of cells
   * the dropped piece then covers.
   */
  lemma HoverShowsDrop(piece: Piece, size: int)
    requires Fits(piece.pattern, piece.row, piece.col, size)
    ensures forall x :: x in Hover(piece.pattern, piece.row, piece.col, size) <==> Covers(piece, x.0, x.1)
  {
  }

  /* ---------------------------------------------------------------------- */
  /* Cell colour                                                             */
  /* ---------------------------------------------------------------------- */

  /** The piece covers board cell (r, c) with one of its set entries. */
  predicate Covers(piece: Piece, r: int, c: int) {
    0 <= r - piece.row < |piece.pattern| && 0 <= c - piece.col < |piece.pattern[r - piece.row]| &&
    piece.pattern[r - piece.row][c - piece.col] == 1
  }

  /** The index of the last of the first n pieces that covers (r, c), or -1 when none does. */
  function LastCovering(pieces: seq<Piece>, n: int, r: int, c: int): (k: int)
    requires 0 <= n <= |pieces|
    ensures -1 <= k < n
    ensures k >= 0 ==> Covers(pieces[k], r, c)
    ensures forall m :: k < m < n ==> !Covers(pieces[m], r, c)
    decreases n
  {
    if n == 0 then -1
    else if Covers(pieces[n - 1], r, c) then n - 1
    else LastCovering(pieces, n - 1, r, c)
  }

  /** The colour cell (r, c) shows: the topmost (last-listed) piece covering it, if any. */
  function TopColor(pieces: seq<Piece>, r: int, c: int): (color: Option<string>)
    ensures color.None? <==> forall m :: 0 <= m < |pieces| ==> !Covers(pieces[m], r, c)
  {
    var k := LastCovering(pieces, |pieces|, r, c);
    if k < 0 then None else Some(pieces[k].color)
  }

  /* ---------------------------------------------------------------------- */
  /* Store transitions                                                       */
  /* ---------------------------------------------------------------------- */

  /** The pieces whose id differs from `id`, in their original order. */
  function Without(pieces: seq<Piece>, id: PieceId): (r: seq<Piece>)
    ensures |r| <= |pieces|
    ensures forall p :: p in r <==> p in pieces && p.id != id
    decreases |pieces|
  {
    if |pieces| == 0 then []
    else
      var last := pieces[|pieces| - 1];
      Without(pieces[..|pieces| - 1], id) + (if last.id == id then [] else [last])
  }

  /** Filtering distributes over concatenation: the kept pieces keep their relative order. */
  lemma {:induction false} WithoutAppend(a: seq<Piece>, b: seq<Piece>, id: PieceId)
    ensures Without(a + b, id) == Without(a, id) + Without(b, id)
    decreases |b|
  {
    if |b| == 0 {
      assert a + b == a;
    } else {
      var init, last := b[..|b| - 1], b[|b| - 1];
      assert (a + b)[..|a + b| - 1] == a + init;
      assert (a + b)[|a + b| - 1] == last;
      WithoutAppend(a, init, id);
      assert Without(b, id) == Without(init, id) + (if last.id == id then [] else [last]);
    }
  }

  /** Removing an id no piece carries changes nothing. */
  lemma WithoutAbsent(pieces: seq<Piece>, id: PieceId)
    requires forall p :: p in pieces ==> p.id != id
    ensures Without(pieces, id) == pieces
  {
    forall k | 0 <= k < |pieces| ensures pieces[k].id != id {
      assert pieces[k] in pieces;
    }
    WithoutNone(pieces, id);
  }

  lemma {:induction false} WithoutNone(pieces: seq<Piece>, id: PieceId)
    requires forall k :: 0 <= k < |pieces| ==> pieces[k].id != id
    ensures Without(pieces, id) == pieces
    decreases |pieces|
  {
    if |pieces| > 0 {
      var init := pieces[..|pieces| - 1];
      WithoutNone(init, id);
      assert init + [pieces[|pieces| - 1]] == pieces;
    }
  }

  /** `pieces.find(p => p.id === id)`: the index of the first piece with that id, or -1. */
  function IndexOf(pieces: seq<Piece>, id: PieceId, from: nat): (k: int)
    requires from <= |pieces|
    ensures k == -1 || from <= k < |pieces|
    ensures k >= 0 ==> pieces[k].id == id
    ensures forall m :: from <= m < |pieces| && (k < 0 || m < k) ==> pieces[m].id != id
    decreases |pieces| - from
  {
    if from == |pieces| then -1
    else if pieces[from].id == id then from
    else IndexOf(pieces, id, from + 1)
  }

  function Find(pieces: seq<Piece>, id: PieceId): (found: Option<Piece>)
    ensures found.Some? ==> found.value in pieces && found.value.id == id
    ensures found.None? <==> forall p :: p in pieces ==> p.id != id
  {
    var k := IndexOf(pieces, id, 0);
    if k < 0 then None else Some(pieces[k])
  }

  /**
   * The piece `handleDrop` commits: the dragged pattern at (row, col); a piece
   * already on the board keeps its original pattern and rotation, a new one
   * starts from the dragged pattern with rotation 0.
   */
  function DroppedPiece(pieces: seq<Piece>, item: DragItem, row: int, col: int, freshId: PieceId): Piece {
    var existing := if item.pieceId.Some? then Find(pieces, item.pieceId.value) else None;
    Piece(id := if item.pieceId.Some? then item.pieceId.value else freshId,
          kind := item.kind,
          pattern := item.pattern,
          originalPattern := if existing.Some? then existing.value.originalPattern else item.pattern,
          color := item.color,
          row := row,
          col := col,
          rotation := if existing.Some? then existing.value.rotation else 0)
  }

  /**
   * The piece list after a successful drop, with the earlier piece looked up in
   * `view`: any piece with the dragged id goes, the new one goes on top.
   */
  function CommittedFrom(pieces: seq<Piece>, view: seq<Piece>, item: DragItem, row: int, col: int, freshId: PieceId): seq<Piece> {
    var kept := if item.pieceId.Some? then Without(pieces, item.pieceId.value) else pieces;
    kept + [DroppedPiece(view, item, row, col, freshId)]
  }

  /** The piece list after a successful drop, the earlier piece looked up in the same list. */
  function Committed(pieces: seq<Piece>, item: DragItem, row: int, col: int, freshId: PieceId): seq<Piece> {
    CommittedFrom(pieces, pieces, item, row, col, freshId)
  }

  /**
   * As written, the drop handler looks the dragged piece up in an older list
   * than the one it filters. When that list does not hold the piece yet (it was
   * placed after the list was taken), a re-dropped piece comes back with
   * rotation 0 and its current pattern as its original, whereas a lookup in the
   * current list keeps both; for a turned piece the two results differ.
   */
  lemma StaleDropResetsRotation(pieces: seq<Piece>, view: seq<Piece>, item: DragItem, row: int, col: int, freshId: PieceId)
    requires item.pieceId.Some? && FreshId(view, item.pieceId.value)
    requires IndexOf(pieces, item.pieceId.value, 0) >= 0
    ensures var r := CommittedFrom(pieces, view, item, row, col, freshId);
      |r| >= 1 && r[|r| - 1].rotation == 0 && r[|r| - 1].originalPattern == item.pattern
    ensures var r := Committed(pieces, item, row, col, freshId);
      var k := IndexOf(pieces, item.pieceId.value, 0);
      |r| >= 1 && r[|r| - 1].rotation == pieces[k].rotation && r[|r| - 1].originalPattern == pieces[k].originalPattern
    ensures pieces[IndexOf(pieces, item.pieceId.value, 0)].rotation != 0 ==>
      CommittedFrom(pieces, view, item, row, col, freshId) != Committed(pieces, item, row, col, freshId)
  {
    var id := item.pieceId.value;
    assert Find(view, id).None?;
    var r := Committed(pieces, item, row, col, freshId);
    var s := CommittedFrom(pieces, view, item, row, col, freshId);
    assert r[|r| - 1].rotation == pieces[IndexOf(pieces, id, 0)].rotation;
    assert s[|s| - 1].rotation == 0;
  }

  predicate FreshId(pieces: seq<Piece>, id: PieceId) {
    forall p :: p in pieces ==> p.id != id
  }

  /** No two pieces share an id. */
  predicate UniqueIds(pieces: seq<Piece>) {
    forall m, n :: 0 <= m < n < |pieces| ==> pieces[m].id != pieces[n].id
  }

  predicate RightAngle(rotation: int) {
    rotation == 0 || rotation == 90 || rotation == 180 || rotation == 270
  }

  /**
   * What a successful drop commits: the dropped piece is last (on top), with
   * the dragged pattern at (row, col); exactly one piece carries its id; every
   * other piece stays; a re-dropped piece keeps its original pattern and
   * rotation, a new one has rotation 0 and the dragged pattern as original.
   */
  lemma CommitFacts(pieces: seq<Piece>, item: DragItem, row: int, col: int, freshId: PieceId)
    requires item.pieceId.None? ==> FreshId(pieces, freshId)
    ensures var r := Committed(pieces, item, row, col, freshId);
      var id := if item.pieceId.Some? then item.pieceId.value else freshId;
      |r| >= 1 && r[|r| - 1].id == id && r[|r| - 1].pattern == item.pattern &&
      r[|r| - 1].row == row && r[|r| - 1].col == col && r[|r| - 1].color == item.color &&
      (forall m :: 0 <= m < |r| - 1 ==> r[m].id != id) &&
      (forall p :: p in pieces && p.id != id ==> p in r) &&
      (forall m :: 0 <= m < |r| - 1 ==> r[m] in pieces)
    ensures var r := Committed(pieces, item, row, col, freshId);
      var k := if item.pieceId.Some? then IndexOf(pieces, item.pieceId.value, 0) else -1;
      (k >= 0 ==> r[|r| - 1].originalPattern == pieces[k].originalPattern && r[|r| - 1].rotation == pieces[k].rotation) &&
      (k < 0 ==> r[|r| - 1].originalPattern == item.pattern && r[|r| - 1].rotation == 0)
  {
  }

  /**
   * A committed drop keeps the store invariant: ids unique, patterns
   * well-formed, rotations right angles, whichever list the earlier piece is
   * looked up in, as long as that list's rotations are right angles.
   */
  lemma CommitKeepsValid(pieces: seq<Piece>, view: seq<Piece>, item: DragItem, row: int, col: int, freshId: PieceId)
    requires UniqueIds(pieces) && forall p :: p in pieces ==> WellFormed(p.pattern) && RightAngle(p.rotation)
    requires forall p :: p in view ==> RightAngle(p.rotation)
    requires WellFormed(item.pattern)
    requires item.pieceId.None? ==> FreshId(pieces, freshId)
    ensures var r := CommittedFrom(pieces, view, item, row, col, freshId);
      UniqueIds(r) && forall p :: p in r ==> WellFormed(p.pattern) && RightAngle(p.rotation)
  {
    CommitKeepsUnique(pieces, view, item, row, col, freshId);
    CommitKeepsShapes(pieces, view, item, row, col, freshId);
  }

  lemma CommitKeepsUnique(pieces: seq<Piece>, view: seq<Piece>, item: DragItem, row: int, col: int, freshId: PieceId)
    requires UniqueIds(pieces)
    requires item.pieceId.None? ==> FreshId(pieces, freshId)
    ensures UniqueIds(CommittedFrom(pieces, view, item, row, col, freshId))
  {
    var r := CommittedFrom(pieces, view, item, row, col, freshId);
    var c := Committed(pieces, item, row, col, freshId);
    CommitFacts(pieces, item, row, col, freshId);
    assert forall m :: 0 <= m < |r| - 1 ==> r[m] == c[m];
    if item.pieceId.Some? {
      WithoutKeepsUnique(pieces, item.pieceId.value);
    }
  }

  lemma CommitKeepsShapes(pieces: seq<Piece>, view: seq<Piece>, item: DragItem, row: int, col: int, freshId: PieceId)
    requires forall p :: p in pieces ==> WellFormed(p.pattern) && RightAngle(p.rotation)
    requires forall p :: p in view ==> RightAngle(p.rotation)
    requires WellFormed(item.pattern)
    ensures forall p :: p in CommittedFrom(pieces, view, item, row, col, freshId) ==> WellFormed(p.pattern) && RightAngle(p.rotation)
  {
    var r := CommittedFrom(pieces, view, item, row, col, freshId);
    var kept := if item.pieceId.Some? then Without(pieces, item.pieceId.value) else pieces;
    assert r == kept + [DroppedPiece(view, item, row, col, freshId)];
    DroppedRightAngle(view, item, row, col, freshId);
    if item.pieceId.Some? {
      WithoutSubset(pieces, item.pieceId.value);
    }
  }

  /** Filtering only drops pieces. */
  lemma {:induction false} WithoutSubset(pieces: seq<Piece>, id: PieceId)
    ensures forall p :: p in Without(pieces, id) ==> p in pieces
    decreases |pieces|
  {
    if |pieces| > 0 {
      var init := pieces[..|pieces| - 1];
      WithoutSubset(init, id);
      assert forall p :: p in init ==> p in pieces;
    }
  }

  /** The dropped piece's rotation is 0 or an earlier piece's, so a right angle. */
  lemma DroppedRightAngle(view: seq<Piece>, item: DragItem, row: int, col: int, freshId: PieceId)
    requires forall p :: p in view ==> RightAngle(p.rotation)
    ensures RightAngle(DroppedPiece(view, item, row, col, freshId).rotation)
  {
    if item.pieceId.Some? && Find(view, item.pieceId.value).Some? {
      assert Find(view, item.pieceId.value).value in view;
    }
  }

  lemma {:induction false} WithoutKeepsUnique(pieces: seq<Piece>, id: PieceId)
    requires UniqueIds(pieces)
    ensures UniqueIds(Without(pieces, id))
    decreases |pieces|
  {
    if |pieces| > 0 {
      var init := pieces[..|pieces| - 1];
      var last := pieces[|pieces| - 1];
      WithoutKeepsUnique(init, id);
      var w := Without(init, id);
      forall p | p in w ensures p.id != last.id {
        var m :| 0 <= m < |init| && init[m] == p;
      }
    }
  }

  /** The dropped piece is on top: every cell it covers shows its colour. */
  lemma CommitOnTop(pieces: seq<Piece>, item: DragItem, row: int, col: int, freshId: PieceId, r: int, c: int)
    requires Covers(DroppedPiece(pieces, item, row, col, freshId), r, c)
    ensures TopColor(Committed(pieces, item, row, col, freshId), r, c) == Some(item.color)
  {
  }

  /** The piece turned a quarter clockwise, its rotation advanced by 90 degrees modulo 360. */
  function Turned(p: Piece): (q: Piece)
    requires Rotatable(p.pattern)
  {
    p.(pattern := Rotated(p.pattern), rotation := (p.rotation + 90) % 360)
  }

  predicate RotatableWhere(pieces: seq<Piece>, id: PieceId) {
    forall k :: 0 <= k < |pieces| && pieces[k].id == id ==> Rotatable(pieces[k].pattern)
  }

  /**
   * `rotatePiece`: the pieces carrying `id` turn a quarter, in place in the
   * list; nothing else changes, and no bounds check is made.
   */
  function RotatedPieces(pieces: seq<Piece>, id: PieceId): (r: seq<Piece>)
    requires RotatableWhere(pieces, id)
    ensures |r| == |pieces|
    ensures forall k :: 0 <= k < |pieces| && pieces[k].id != id ==> r[k] == pieces[k]
    ensures forall k :: 0 <= k < |pieces| && pieces[k].id == id ==>
      r[k].id == id && r[k].row == pieces[k].row && r[k].col == pieces[k].col &&
      r[k].color == pieces[k].color && r[k].kind == pieces[k].kind &&
      r[k].originalPattern == pieces[k].originalPattern &&
      r[k].pattern == Rotated(pieces[k].pattern) &&
      r[k].rotation == (pieces[k].rotation + 90) % 360 &&
      (RightAngle(pieces[k].rotation) ==> RightAngle(r[k].rotation))
    ensures forall k :: 0 <= k < |pieces| && WellFormed(pieces[k].pattern) ==> WellFormed(r[k].pattern)
  {
    seq(|pieces|, k requires 0 <= k < |pieces| => if pieces[k].id == id then Turned(pieces[k]) else pieces[k])
  }

  /** Four rotations of a piece give back the piece exactly, pattern and rotation. */
  lemma RotateFourTimesRestores(pieces: seq<Piece>, id: PieceId)
    requires forall k :: 0 <= k < |pieces| ==> WellFormed(pieces[k].pattern) && RightAngle(pieces[k].rotation)
    requires RotatableWhere(pieces, id)
    ensures var r1 := RotatedPieces(pieces, id);
      var r2 := RotatedPieces(r1, id);
      var r3 := RotatedPieces(r2, id);
      RotatedPieces(r3, id) == pieces
  {
    var r1 := RotatedPieces(pieces, id);
    var r2 := RotatedPieces(r1, id);
    var r3 := RotatedPieces(r2, id);
    var r4 := RotatedPieces(r3, id);
    forall k | 0 <= k < |pieces| ensures r4[k] == pieces[k] {
      if pieces[k].id == id {
        var p := pieces[k];
        assert r1[k] == Turned(p);
        assert r2[k] == Turned(r1[k]);
        assert r3[k] == Turned(r2[k]);
        assert r4[k] == Turned(r3[k]);
        RotateFourTimes(p.pattern);
        FourQuarters(p.rotation);
      }
    }
  }

  /** Four 90-degree steps modulo 360 bring a right angle back to itself. */
  lemma FourQuarters(a: int)
    requires RightAngle(a)
    ensures ((((a + 90) % 360 + 90) % 360 + 90) % 360 + 90) % 360 == a
  {
  }

  /** A rotation is never bounds-checked: a piece that fits can stick out after turning. */
  lemma RotationCanLeaveBoard()
    ensures var p: Pattern := [[1, 1]];
      Fits(p, 3, 0, 4) && !Fits(Rotated(p), 3, 0, 4)
  {
    var p: Pattern := [[1, 1]];
    assert Rotated(p)[1][0] == p[0][1];
  }

  /** `Set` copy, then delete when present and add when absent. */
  function Toggled<T(!new)>(s: set<T>, x: T): (r: set<T>)
    ensures x in r <==> x !in s
    ensures forall y :: y != x ==> (y in r <==> y in s)
  {
    if x in s then s - {x} else s + {x}
  }

  lemma ToggleTwice<T(!new)>(s: set<T>, x: T)
    ensures Toggled(Toggled(s, x), x) == s
  {
  }

  /* ---------------------------------------------------------------------- */
  /* The store                                                               */
  /* ---------------------------------------------------------------------- */

  class GridState {
    /** The board's side, a property the store itself never changes. */
    const size: int
    /** Placed pieces, bottom first: later pieces are drawn over earlier ones. */
    var pieces: seq<Piece>
    var walls: set<Wall>
    var markedCells: set<Cell>

    ghost predicate Valid()
      reads this
    {
      UniqueIds(pieces) &&
      forall p :: p in pieces ==> WellFormed(p.pattern) && RightAngle(p.rotation)
    }

    /** An empty board: no pieces, no walls, no marks. */
    constructor (size: int)
      ensures Valid() && this.size == size
      ensures pieces == [] && walls == {} && markedCells == {}
    {
      this.size := size;
      pieces := [];
      walls := {};
      markedCells := {};
    }

    /**
     * `handleDrop`: with a pointer position and a container rectangle, anchor
     * the dragged pattern under the pointer; if every set entry lands on the
     * board, remove any piece with the dragged id and put the dropped piece on
     * top, otherwise change nothing. Overlaps with other pieces are allowed.
     * The earlier piece whose original pattern and rotation a re-dropped piece
     * inherits is looked up in `view`, the piece list the running handler was
     * made with; the current list gives the intended behaviour.
     */
    method HandleDrop(item: DragItem, clientOffset: Option<Point>, rect: Option<Point>, freshId: PieceId,
                      view: seq<Piece>)
      requires Valid() && WellFormed(item.pattern)
      requires item.pieceId.None? ==> FreshId(pieces, freshId)
      requires forall p :: p in view ==> RightAngle(p.rotation)
      modifies this
      ensures Valid()
      ensures walls == old(walls) && markedCells == old(markedCells)
      ensures clientOffset.None? || rect.None? ==> pieces == old(pieces)
      ensures clientOffset.Some? && rect.Some? ==>
        var a := Anchor(item.pattern, item.pointerOffset, clientOffset.value, rect.value);
        pieces == if Fits(item.pattern, a.0, a.1, size)
                  then CommittedFrom(old(pieces), view, item, a.0, a.1, freshId)
                  else old(pieces)
    {
      if clientOffset.None? || rect.None? {
        return;
      }
      var a := Anchor(item.pattern, item.pointerOffset, clientOffset.value, rect.value);
      var ok := CheckBounds(item.pattern, a.0, a.1, size);
      if !ok {
        return;
      }
      CommitKeepsValid(pieces, view, item, a.0, a.1, freshId);
      pieces := CommittedFrom(pieces, view, item, a.0, a.1, freshId);
    }

    /**
     * The container's drop handler: drops are ignored in edition mode, and
     * otherwise go to `handleDrop`. The handler is memoized on the edition mode,
     * the size and the cell size, so `view` is the piece list of the render
     * where one of those last changed.
     */
    method OnDrop(editionMode: bool, item: DragItem, clientOffset: Option<Point>, rect: Option<Point>, freshId: PieceId,
                  view: seq<Piece>)
      requires Valid() && WellFormed(item.pattern)
      requires item.pieceId.None? ==> FreshId(pieces, freshId)
      requires forall p :: p in view ==> RightAngle(p.rotation)
      modifies this
      ensures Valid()
      ensures walls == old(walls) && markedCells == old(markedCells)
      ensures editionMode ==> pieces == old(pieces)
      ensures !editionMode && (clientOffset.None? || rect.None?) ==> pieces == old(pieces)
      ensures !editionMode && clientOffset.Some? && rect.Some? ==>
        var a := Anchor(item.pattern, item.pointerOffset, clientOffset.value, rect.value);
        pieces == if Fits(item.pattern, a.0, a.1, size)
                  then CommittedFrom(old(pieces), view, item, a.0, a.1, freshId)
                  else old(pieces)
    {
      if !editionMode {
        HandleDrop(item, clientOffset, rect, freshId, view);
      }
    }

    /** `removePiece`: drop every piece with this id, keep the rest in order. */
    method RemovePiece(id: PieceId)
      requires Valid()
      modifies this
      ensures Valid()
      ensures pieces == Without(old(pieces), id)
      ensures walls == old(walls) && markedCells == old(markedCells)
    {
      WithoutKeepsUnique(pieces, id);
      pieces := Without(pieces, id);
    }

    /** A placed piece's drag ends: when it was not dropped on the grid it is removed. */
    method PieceDragEnd(id: PieceId, didDrop: bool)
      requires Valid()
      modifies this
      ensures Valid()
      ensures pieces == if didDrop then old(pieces) else Without(old(pieces), id)
      ensures walls == old(walls) && markedCells == old(markedCells)
    {
      if !didDrop {
        RemovePiece(id);
      }
    }

    /** `rotatePiece`: turn the piece with this id a quarter clockwise where it stands. */
    method RotatePiece(id: PieceId)
      requires Valid()
      modifies this
      ensures Valid()
      ensures pieces == RotatedPieces(old(pieces), id)
      ensures walls == old(walls) && markedCells == old(markedCells)
    {
      var r := RotatedPieces(pieces, id);
      forall p | p in r ensures WellFormed(p.pattern) && RightAngle(p.rotation) {
        var k :| 0 <= k < |r| && r[k] == p;
        assert pieces[k] in pieces;
      }
      pieces := r;
    }

    /** `toggleWall`: flip the presence of exactly this wall. */
    method ToggleWall(w: Wall)
      requires Valid()
      modifies this
      ensures Valid()
      ensures walls == Toggled(old(walls), w)
      ensures pieces == old(pieces) && markedCells == old(markedCells)
    {
      walls := Toggled(walls, w);
    }

    /** `toggleMarkedCell`: flip the mark on exactly this cell. */
    method ToggleMarkedCell(c: Cell)
      requires Valid()
      modifies this
      ensures Valid()
      ensures markedCells == Toggled(old(markedCells), c)
      ensures pieces == old(pieces) && walls == old(walls)
    {
      markedCells := Toggled(markedCells, c);
    }

    /** `clearGrid`: remove every piece; walls and marks stay. */
    method ClearGrid()
      requires Valid()
      modifies this
      ensures Valid()
      ensures pieces == [] && walls == old(walls) && markedCells == old(markedCells)
    {
      pieces := [];
    }

    /** `clearWalls`: remove every wall; pieces and marks stay. */
    method ClearWalls()
      requires Valid()
      modifies this
      ensures Valid()
      ensures walls == {} && pieces == old(pieces) && markedCells == old(markedCells)
    {
      walls := {};
    }

    /**
     * `getHoverCells`: nothing while no drag is on, without an item or a pointer
     * position or a container, or in edition mode; otherwise the on-board cells
     * the dragged pattern would cover at the anchor under the pointer.
     */
    method GetHoverCells(isDragging: bool, dragItem: Option<DragItem>, dragClientOffset: Option<Point>,
                         rect: Option<Point>, editionMode: bool) returns (hover: set<Cell>)
      requires dragItem.Some? ==> |dragItem.value.pattern| >= 1
      ensures !isDragging || dragItem.None? || dragClientOffset.None? || rect.None? || editionMode ==> hover == {}
      ensures isDragging && dragItem.Some? && dragClientOffset.Some? && rect.Some? && !editionMode ==>
        var p := dragItem.value.pattern;
        var a := Anchor(p, dragItem.value.pointerOffset, dragClientOffset.value, rect.value);
        hover == Hover(p, a.0, a.1, size)
    {
      if !isDragging || dragItem.None? || dragClientOffset.None? || rect.None? || editionMode {
        return {};
      }
      var pattern := dragItem.value.pattern;
      var a := Anchor(pattern, dragItem.value.pointerOffset, dragClientOffset.value, rect.value);
      var row, col := a.0, a.1;
      hover := {};
      for i := 0 to |pattern|
        invariant hover == HoverUpTo(pattern, row, col, size, i, 0)
      {
        for j := 0 to |pattern[i]|
          invariant hover == HoverUpTo(pattern, row, col, size, i, j)
        {
          HoverStep(pattern, row, col, size, i, j);
          if pattern[i][j] == 1 {
            var targetRow := row + i;
            var targetCol := col + j;
            if targetRow >= 0 && targetRow < size && targetCol >= 0 && targetCol < size {
              hover := hover + {(targetRow, targetCol)};
            }
          }
        }
        HoverRowEnd(pattern, row, col, size, i);
      }
    }

    /**
     * `getCellColor`: scan the pieces from the top of the z-order down and
     * answer the colour of the first one with a set entry on (row, col).
     */
    method GetCellColor(row: int, col: int) returns (color: Option<string>)
      ensures color == TopColor(pieces, row, col)
    {
      var i := |pieces| - 1;
      while i >= 0
        invariant -1 <= i < |pieces|
        invariant LastCovering(pieces, |pieces|, row, col) == LastCovering(pieces, i + 1, row, col)
      {
        var piece := pieces[i];
        for r := 0 to |piece.pattern|
          invariant forall a, b :: 0 <= a < r && 0 <= b < |piece.pattern[a]| ==>
            !(piece.pattern[a][b] == 1 && piece.row + a == row && piece.col + b == col)
        {
          for c := 0 to |piece.pattern[r]|
            invariant forall a, b :: 0 <= a < r && 0 <= b < |piece.pattern[a]| ==>
              !(piece.pattern[a][b] == 1 && piece.row + a == row && piece.col + b == col)
            invariant forall b :: 0 <= b < c ==>
              !(piece.pattern[r][b] == 1 && piece.row + r == row && piece.col + b == col)
          {
            if piece.pattern[r][c] == 1 && piece.row + r == row && piece.col + c == col {
              return Some(piece.color);
            }
          }
        }
        i := i - 1;
      }
      return None;
    }
  }
}
