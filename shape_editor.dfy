/**
 * The custom-shape authoring grid: toggling one cell, resizing the square
 * authoring grid, and trimming a drawn pattern to its bounding box.
 */
module ShapeEditor {
  import opened PatternMath
  import opened Geometry

  /** A set cell of p sits at (i, j). */
  predicate SetAt(p: Pattern, i: int, j: int) {
    0 <= i < |p| && 0 <= j < |p[i]| && p[i][j] == 1
  }

  /** Row i of p holds a set cell. */
  predicate RowHasSet(p: Pattern, i: int) {
    0 <= i < |p| && exists j :: 0 <= j < |p[i]| && SetAt(p, i, j)
  }

  /** Column j of p holds a set cell. */
  predicate ColHasSet(p: Pattern, j: int) {
    exists i :: 0 <= i < |p| && SetAt(p, i, j)
  }

  /** The first row at or after k that holds a set cell, or |p| when there is none. */
  function FirstRow(p: Pattern, k: nat): (r: int)
    requires k <= |p|
    ensures k <= r <= |p|
    ensures forall i :: k <= i < r ==> !RowHasSet(p, i)
    ensures r < |p| ==> RowHasSet(p, r)
    decreases |p| - k
  {
    if k == |p| then |p| else if RowHasSet(p, k) then k else FirstRow(p, k + 1)
  }

  /** The last row before k that holds a set cell, or -1 when there is none. */
  function LastRow(p: Pattern, k: nat): (r: int)
    requires k <= |p|
    ensures -1 <= r < k
    ensures forall i :: r < i < k ==> !RowHasSet(p, i)
    ensures r >= 0 ==> RowHasSet(p, r)
  {
    if k == 0 then -1 else if RowHasSet(p, k - 1) then k - 1 else LastRow(p, k - 1)
  }

  /** The first column at or after k that holds a set cell, or |p[0]| when there is none. */
  function FirstCol(p: Pattern, k: nat): (c: int)
    requires |p| >= 1 && k <= |p[0]|
    ensures k <= c <= |p[0]|
    ensures forall j :: k <= j < c ==> !ColHasSet(p, j)
    ensures c < |p[0]| ==> ColHasSet(p, c)
    decreases |p[0]| - k
  {
    if k == |p[0]| then |p[0]| else if ColHasSet(p, k) then k else FirstCol(p, k + 1)
  }

  /** The last column before k that holds a set cell, or -1 when there is none. */
  function LastCol(p: Pattern, k: nat): (c: int)
    requires |p| >= 1 && k <= |p[0]|
    ensures -1 <= c < k
    ensures forall j :: c < j < k ==> !ColHasSet(p, j)
    ensures c >= 0 ==> ColHasSet(p, c)
  {
    if k == 0 then -1 else if ColHasSet(p, k - 1) then k - 1 else LastCol(p, k - 1)
  }

  /** Bounding box rows and columns; on a pattern with no set cell these are
      |p|, -1, |p[0]|, -1, the initial values of minRow, maxRow, minCol, maxCol. */
  function Top(p: Pattern): int { FirstRow(p, 0) }
  function Bottom(p: Pattern): int { LastRow(p, |p|) }
  function Left(p: Pattern): int requires |p| >= 1 { FirstCol(p, 0) }
  function Right(p: Pattern): int requires |p| >= 1 { LastCol(p, |p[0]|) }

  /** Rows r0..r1 and columns c0..c1 contain every set cell of p. */
  ghost predicate Encloses(p: Pattern, r0: int, r1: int, c0: int, c1: int) {
    forall i, j :: SetAt(p, i, j) ==> r0 <= i <= r1 && c0 <= j <= c1
  }

  /** The bounding box of a pattern with a set cell: it encloses all set cells and
      has a set cell on each of its four sides. */
  lemma BoxOf(p: Pattern)
    requires Rotatable(p) && Cells(p) != {}
    ensures 0 <= Top(p) <= Bottom(p) < |p| && 0 <= Left(p) <= Right(p) < |p[0]|
    ensures Encloses(p, Top(p), Bottom(p), Left(p), Right(p))
    ensures RowHasSet(p, Top(p)) && RowHasSet(p, Bottom(p))
    ensures ColHasSet(p, Left(p)) && ColHasSet(p, Right(p))
  {
    var c :| c in Cells(p);
    assert SetAt(p, c.0, c.1);
    assert RowHasSet(p, c.0);
    assert ColHasSet(p, c.1);
    forall i, j | SetAt(p, i, j)
      ensures Top(p) <= i <= Bottom(p) && Left(p) <= j <= Right(p)
    {
      assert RowHasSet(p, i);
      assert ColHasSet(p, j);
    }
    assert RowHasSet(p, Top(p)) && RowHasSet(p, Bottom(p));
    assert ColHasSet(p, Left(p)) && ColHasSet(p, Right(p));
  }

  /** A box that encloses all set cells and touches a set cell on each side is the bounding box. */
  lemma BoxUnique(p: Pattern, r0: int, r1: int, c0: int, c1: int)
    requires Rotatable(p)
    requires Encloses(p, r0, r1, c0, c1)
    requires RowHasSet(p, r0) && RowHasSet(p, r1) && ColHasSet(p, c0) && ColHasSet(p, c1)
    ensures Top(p) == r0 && Bottom(p) == r1 && Left(p) == c0 && Right(p) == c1
  {
  }

  /**
   * `trimPattern` as a value: [[1]] when nothing is set, otherwise rows
   * Top..Bottom cut to columns Left..Right.
   */
  function Trim(p: Pattern): (t: Pattern)
    requires Rotatable(p)
    ensures WellFormed(t)
  {
    if Top(p) > Bottom(p) then [[1]]
    else
      assert Left(p) <= Right(p) < |p[0]| by {
        assert RowHasSet(p, Top(p));
        var j :| 0 <= j < |p[Top(p)]| && SetAt(p, Top(p), j);
        assert ColHasSet(p, j);
      }
      Crop(p, Top(p), Bottom(p), Left(p), Right(p))
  }

  /** Rows r0..r1 of p, each cut to columns c0..c1. */
  function Crop(p: Pattern, r0: int, r1: int, c0: int, c1: int): (t: Pattern)
    requires Rotatable(p) && 0 <= r0 <= r1 < |p| && 0 <= c0 <= c1 < |p[0]|
    ensures WellFormed(t)
  {
    seq(r1 - r0 + 1, i requires 0 <= i < r1 - r0 + 1 => p[r0 + i][c0..c1 + 1])
  }

  /** The scan has seen set cell (a, b): it lies in an earlier row, or earlier in row i. */
  ghost predicate Seen(p: Pattern, i: int, j: int, a: int, b: int) {
    SetAt(p, a, b) && (a < i || (a == i && b < j))
  }

  /** What the scan of `trimPattern` knows after visiting every cell before (i, j). */
  ghost predicate Scanned(p: Pattern, i: int, j: int, minRow: int, maxRow: int, minCol: int, maxCol: int,
                          jt: int, jb: int, il: int, ir: int)
    requires |p| >= 1
  {
    && (forall a, b :: Seen(p, i, j, a, b) ==> minRow <= a <= maxRow && minCol <= b <= maxCol)
    && (maxRow == -1 ==> minRow == |p| && minCol == |p[0]| && maxCol == -1)
    && (maxRow != -1 ==>
          Seen(p, i, j, minRow, jt) && Seen(p, i, j, maxRow, jb) &&
          Seen(p, i, j, il, minCol) && Seen(p, i, j, ir, maxCol))
  }

  /** Visiting cell (i, j) folds it into the four bounds with Math.min / Math.max. */
  lemma ScanStep(pat: Pattern, i: int, j: int, minRow: int, maxRow: int, minCol: int, maxCol: int,
                 jt: int, jb: int, il: int, ir: int)
    requires Rotatable(pat) && 0 <= i < |pat| && 0 <= j < |pat[i]|
    requires Scanned(pat, i, j, minRow, maxRow, minCol, maxCol, jt, jb, il, ir)
    ensures pat[i][j] != 1 ==> Scanned(pat, i, j + 1, minRow, maxRow, minCol, maxCol, jt, jb, il, ir)
    ensures pat[i][j] == 1 ==>
      Scanned(pat, i, j + 1, Min(minRow, i), Max(maxRow, i), Min(minCol, j), Max(maxCol, j),
              if i < minRow then j else jt, if i > maxRow then j else jb,
              if j < minCol then i else il, if j > maxCol then i else ir)
  {
    assert |pat[i]| == |pat[0]|;
    ghost var next := j + 1;
    assert forall a, b :: Seen(pat, i, next, a, b) ==> Seen(pat, i, j, a, b) || (a == i && b == j);
  }

  /** Finishing row i is starting row i + 1. */
  lemma RowDone(pat: Pattern, i: int, minRow: int, maxRow: int, minCol: int, maxCol: int,
                jt: int, jb: int, il: int, ir: int)
    requires Rotatable(pat) && 0 <= i < |pat|
    requires Scanned(pat, i, |pat[i]|, minRow, maxRow, minCol, maxCol, jt, jb, il, ir)
    ensures Scanned(pat, i + 1, 0, minRow, maxRow, minCol, maxCol, jt, jb, il, ir)
  {
    ghost var next := i + 1;
    assert forall a, b :: Seen(pat, next, 0, a, b) ==> Seen(pat, i, |pat[i]|, a, b);
  }

  /** After the scan has visited every cell, its four variables are the bounding box,
      and minRow > maxRow exactly when no cell is set. */
  lemma ScanComplete(pat: Pattern, minRow: int, maxRow: int, minCol: int, maxCol: int,
                     jt: int, jb: int, il: int, ir: int)
    requires Rotatable(pat)
    requires Scanned(pat, |pat|, 0, minRow, maxRow, minCol, maxCol, jt, jb, il, ir)
    ensures minRow > maxRow <==> Top(pat) > Bottom(pat)
    ensures minRow > maxRow <==> Cells(pat) == {}
    ensures minRow <= maxRow ==>
      Top(pat) == minRow && Bottom(pat) == maxRow && Left(pat) == minCol && Right(pat) == maxCol
    ensures minRow <= maxRow ==> 0 <= minRow && maxRow < |pat| && 0 <= minCol <= maxCol < |pat[0]|
    ensures Trim(pat) == if minRow > maxRow then [[1]] else Crop(pat, minRow, maxRow, minCol, maxCol)
  {
    if minRow > maxRow {
      assert Cells(pat) == {} by {
        forall c | c in Cells(pat) ensures false {
          assert Seen(pat, |pat|, 0, c.0, c.1);
        }
      }
      forall a | 0 <= a < |pat| ensures !RowHasSet(pat, a) {
        if RowHasSet(pat, a) {
          var b :| 0 <= b < |pat[a]| && pat[a][b] == 1;
          assert Seen(pat, |pat|, 0, a, b);
        }
      }
    } else {
      assert Encloses(pat, minRow, maxRow, minCol, maxCol) by {
        forall a, b | SetAt(pat, a, b) ensures minRow <= a <= maxRow && minCol <= b <= maxCol {
          assert Seen(pat, |pat|, 0, a, b);
        }
      }
      assert RowHasSet(pat, minRow) && RowHasSet(pat, maxRow) && ColHasSet(pat, minCol) && ColHasSet(pat, maxCol);
      BoxUnique(pat, minRow, maxRow, minCol, maxCol);
      assert (minRow, jt) in Cells(pat);
      BoxOf(pat);
    }
  }

  /** What `trimPattern` needs from a finished scan: where the box lies and what `Trim` is. */
  lemma ScanTrim(pat: Pattern, minRow: int, maxRow: int, minCol: int, maxCol: int,
                 jt: int, jb: int, il: int, ir: int)
    requires Rotatable(pat)
    requires Scanned(pat, |pat|, 0, minRow, maxRow, minCol, maxCol, jt, jb, il, ir)
    ensures minRow <= maxRow ==> 0 <= minRow && maxRow < |pat| && 0 <= minCol <= maxCol < |pat[0]|
    ensures Trim(pat) == if minRow > maxRow then [[1]] else Crop(pat, minRow, maxRow, minCol, maxCol)
  {
    ScanComplete(pat, minRow, maxRow, minCol, maxCol, jt, jb, il, ir);
  }

  /** Rows pushed one by one, each the slice c0..c1 of a row r0..r1, make up the crop. */
  lemma CropRows(p: Pattern, r0: int, r1: int, c0: int, c1: int, rows: Pattern)
    requires Rotatable(p) && 0 <= r0 <= r1 < |p| && 0 <= c0 <= c1 < |p[0]|
    requires |rows| == r1 - r0 + 1
    requires forall k :: 0 <= k < |rows| ==> rows[k] == p[r0 + k][c0..c1 + 1]
    ensures rows == Crop(p, r0, r1, c0, c1)
  {
  }

  /**
   * The first half of `trimPattern`: one row-major scan folds every set cell
   * into minRow, maxRow, minCol and maxCol. They end as the bounding box, or
   * with minRow > maxRow when no cell is set.
   */
  method ScanBounds(pat: Pattern) returns (minRow: int, maxRow: int, minCol: int, maxCol: int)
    requires Rotatable(pat)
    ensures minRow <= maxRow ==> 0 <= minRow && maxRow < |pat| && 0 <= minCol <= maxCol < |pat[0]|
    ensures Trim(pat) == if minRow > maxRow then [[1]] else Crop(pat, minRow, maxRow, minCol, maxCol)
  {
    minRow, maxRow, minCol, maxCol := |pat|, -1, |pat[0]|, -1;
    ghost var jt, jb, il, ir := 0, 0, 0, 0;
    for i := 0 to |pat|
      invariant Scanned(pat, i, 0, minRow, maxRow, minCol, maxCol, jt, jb, il, ir)
    {
      for j := 0 to |pat[i]|
        invariant Scanned(pat, i, j, minRow, maxRow, minCol, maxCol, jt, jb, il, ir)
      {
        ScanStep(pat, i, j, minRow, maxRow, minCol, maxCol, jt, jb, il, ir);
        if pat[i][j] == 1 {
          jt, jb := if i < minRow then j else jt, if i > maxRow then j else jb;
          il, ir := if j < minCol then i else il, if j > maxCol then i else ir;
          minRow, maxRow := Min(minRow, i), Max(maxRow, i);
          minCol, maxCol := Min(minCol, j), Max(maxCol, j);
        }
      }
      RowDone(pat, i, minRow, maxRow, minCol, maxCol, jt, jb, il, ir);
    }
    ScanTrim(pat, minRow, maxRow, minCol, maxCol, jt, jb, il, ir);
  }

  /**
   * `trimPattern`: one scan tracks minRow, maxRow, minCol and maxCol of the set
   * cells; a pattern with none becomes [[1]], otherwise rows minRow..maxRow are
   * pushed, each sliced to columns minCol..maxCol.
   */
  method TrimPattern(pat: Pattern) returns (trimmed: Pattern)
    requires Rotatable(pat)
    ensures trimmed == Trim(pat)
  {
    var minRow, maxRow, minCol, maxCol := ScanBounds(pat);
    if minRow > maxRow {
      return [[1]];
    }
    trimmed := [];
    for i := minRow to maxRow + 1
      invariant |trimmed| == i - minRow
      invariant forall k :: 0 <= k < i - minRow ==> trimmed[k] == pat[minRow + k][minCol..maxCol + 1]
    {
      trimmed := trimmed + [pat[i][minCol..maxCol + 1]];
    }
    CropRows(pat, minRow, maxRow, minCol, maxCol, trimmed);
  }

  /** A pattern with no set cell trims to the single block [[1]]. */
  lemma TrimEmpty(p: Pattern)
    requires Rotatable(p) && Cells(p) == {}
    ensures Trim(p) == [[1]]
  {
    forall a, b | 0 <= a < |p| && 0 <= b < |p[a]| ensures !SetAt(p, a, b) {
      assert (a, b) !in Cells(p);
    }
  }

  /** A pattern with a set cell trims to its bounding box: (Bottom-Top+1) x (Right-Left+1)
      entries copied from offset (Top, Left), and no set cell lies outside that box. */
  lemma TrimShape(p: Pattern)
    requires Rotatable(p) && Cells(p) != {}
    ensures Encloses(p, Top(p), Bottom(p), Left(p), Right(p))
    ensures |Trim(p)| == Bottom(p) - Top(p) + 1
    ensures forall i :: 0 <= i < |Trim(p)| ==> |Trim(p)[i]| == Right(p) - Left(p) + 1
    ensures forall i, j :: 0 <= i < |Trim(p)| && 0 <= j < |Trim(p)[i]| ==>
      Trim(p)[i][j] == p[Top(p) + i][Left(p) + j]
  {
    BoxOf(p);
  }

  /** The trimmed pattern's set cells are the original ones shifted by (-Top, -Left). */
  lemma TrimmedCells(p: Pattern)
    requires Rotatable(p) && Cells(p) != {}
    ensures Cells(Trim(p)) == Image(Cells(p), Shift(-Top(p), -Left(p)))
  {
    var f := Shift(-Top(p), -Left(p));
    var t := Trim(p);
    TrimShape(p);
    forall c | c in Cells(t)
      ensures c in Image(Cells(p), f)
    {
      var (i, j) := c;
      assert (Top(p) + i, Left(p) + j) in Cells(p);
      assert f((Top(p) + i, Left(p) + j)) == c;
    }
    forall c | c in Image(Cells(p), f)
      ensures c in Cells(t)
    {
      var x :| x in Cells(p) && f(x) == c;
      assert SetAt(p, x.0, x.1);
    }
  }

  /** Trimming a pattern with a set cell keeps the number of set cells. */
  lemma {:induction false} TrimKeepsCount(p: Pattern)
    requires Rotatable(p) && Cells(p) != {}
    ensures |Cells(Trim(p))| == |Cells(p)|
  {
    TrimmedCells(p);
    InjectiveImageSize(Cells(p), Shift(-Top(p), -Left(p)));
  }

  /** A set cell of p reappears in Trim(p), moved by (-Top, -Left). */
  lemma TrimKeepsCell(p: Pattern, i: int, j: int)
    requires Rotatable(p) && SetAt(p, i, j)
    ensures Top(p) <= Bottom(p)
    ensures SetAt(Trim(p), i - Top(p), j - Left(p))
  {
    assert (i, j) in Cells(p);
    TrimShape(p);
  }

  /** In a pattern with a set cell, each side of the bounding box holds one. */
  lemma BoxSides(p: Pattern)
    requires Rotatable(p) && Top(p) <= Bottom(p)
    ensures RowHasSet(p, Top(p)) && RowHasSet(p, Bottom(p))
    ensures ColHasSet(p, Left(p)) && ColHasSet(p, Right(p))
    ensures |Trim(p)| == Bottom(p) - Top(p) + 1 && |Trim(p)[0]| == Right(p) - Left(p) + 1
  {
    var jt :| 0 <= jt < |p[Top(p)]| && SetAt(p, Top(p), jt);
    assert (Top(p), jt) in Cells(p);
    BoxOf(p);
  }

  /** Every side of a trimmed pattern touches a set cell: its first and last row and its
      first and last column each hold one. */
  lemma TrimIsTight(p: Pattern)
    requires Rotatable(p)
    ensures RowHasSet(Trim(p), 0) && RowHasSet(Trim(p), |Trim(p)| - 1)
    ensures ColHasSet(Trim(p), 0) && ColHasSet(Trim(p), |Trim(p)[0]| - 1)
  {
    var t := Trim(p);
    if Top(p) > Bottom(p) {
      assert SetAt(t, 0, 0);
    } else {
      BoxSides(p);
      var jt :| 0 <= jt < |p[Top(p)]| && SetAt(p, Top(p), jt);
      TrimKeepsCell(p, Top(p), jt);
      var jb :| 0 <= jb < |p[Bottom(p)]| && SetAt(p, Bottom(p), jb);
      TrimKeepsCell(p, Bottom(p), jb);
      var il :| 0 <= il < |p| && SetAt(p, il, Left(p));
      TrimKeepsCell(p, il, Left(p));
      var ir :| 0 <= ir < |p| && SetAt(p, ir, Right(p));
      TrimKeepsCell(p, ir, Right(p));
    }
  }

  /** Trimming is idempotent. */
  lemma {:induction false} TrimIdempotent(p: Pattern)
    requires Rotatable(p)
    ensures Trim(Trim(p)) == Trim(p)
  {
    var t := Trim(p);
    TrimIsTight(p);
    var h, w := |t|, |t[0]|;
    BoxUnique(t, 0, h - 1, 0, w - 1);
    assert forall i :: 0 <= i < h ==> Trim(t)[i] == t[i];
  }

  /** An n x n pattern, the shape of the authoring grid. */
  predicate Square(p: Pattern, n: int) {
    |p| == n && forall i :: 0 <= i < |p| ==> |p[i]| == n
  }

  /** A row of n zeros. */
  function Zeros(n: nat): (row: seq<Bit>)
    ensures |row| == n && forall j :: 0 <= j < n ==> row[j] == 0
  {
    seq(n, _ => 0)
  }

  /** Entry (r, c) flipped between 0 and 1 in a copy of p. */
  function CellToggled(p: Pattern, r: int, c: int): (q: Pattern)
    requires 0 <= r < |p| && 0 <= c < |p[r]|
    ensures |q| == |p| && forall i :: 0 <= i < |p| ==> |q[i]| == |p[i]|
    ensures q[r][c] == 1 - p[r][c]
    ensures forall i, j :: 0 <= i < |p| && 0 <= j < |p[i]| && (i, j) != (r, c) ==> q[i][j] == p[i][j]
  {
    p[r := p[r][c := if p[r][c] == 1 then 0 else 1]]
  }

  /** Toggling the same entry twice restores the pattern. */
  lemma ToggleTwice(p: Pattern, r: int, c: int)
    requires 0 <= r < |p| && 0 <= c < |p[r]|
    ensures CellToggled(CellToggled(p, r, c), r, c) == p
  {
    var q := CellToggled(CellToggled(p, r, c), r, c);
    assert forall i :: 0 <= i < |p| ==> q[i] == p[i];
  }

  /**
   * `handleGridSizeChange` as a value: growing from `oldSize` pads every row with
   * `newSize - oldSize` zeros and appends that many zero rows of length `newSize`;
   * otherwise the first `newSize` rows are kept, each cut to its first `newSize` entries.
   */
  function Resized(p: Pattern, oldSize: nat, newSize: nat): (q: Pattern)
    requires Square(p, oldSize)
    ensures Square(q, newSize)
    ensures forall i, j :: 0 <= i < newSize && 0 <= j < newSize ==>
      q[i][j] == if i < oldSize && j < oldSize then p[i][j] else 0
  {
    if newSize > oldSize then
      var pad := Zeros(newSize - oldSize);
      var widened := seq(|p|, i requires 0 <= i < |p| => p[i] + pad);
      var q := widened + seq(newSize - oldSize, _ => Zeros(newSize));
      assert forall i :: 0 <= i < oldSize ==> q[i] == p[i] + pad;
      assert forall i :: oldSize <= i < newSize ==> q[i] == Zeros(newSize);
      q
    else
      seq(newSize, i requires 0 <= i < newSize => p[i][..newSize])
  }

  /** Growing and then shrinking back gives the original pattern. */
  lemma {:induction false} ResizeRoundTrip(p: Pattern, n: nat, m: nat)
    requires Square(p, n) && n <= m
    ensures Resized(Resized(p, n, m), m, n) == p
  {
    var q := Resized(Resized(p, n, m), m, n);
    forall i | 0 <= i < n
      ensures q[i] == p[i]
    {
      assert forall j :: 0 <= j < n ==> q[i][j] == p[i][j];
    }
  }

  /** The authoring dialog's drawing state: the grid size and the drawn pattern. */
  class ShapeCreator {
    var gridSize: nat
    var pattern: Pattern

    /** The drawn pattern always fills the gridSize x gridSize authoring grid. */
    ghost predicate Valid()
      reads this
    {
      Square(pattern, gridSize)
    }

    /** The dialog opens on an empty 6 x 6 grid. */
    constructor ()
      ensures Valid() && gridSize == 6 && Cells(pattern) == {}
    {
      gridSize := 6;
      pattern := seq(6, _ => Zeros(6));
    }

    /** `toggleCell`: copy the rows and flip entry (row, col). */
    method ToggleCell(row: int, col: int)
      requires Valid() && 0 <= row < gridSize && 0 <= col < gridSize
      modifies this
      ensures Valid() && gridSize == old(gridSize)
      ensures pattern == CellToggled(old(pattern), row, col)
    {
      var newPattern := pattern;
      newPattern := newPattern[row := newPattern[row][col := if newPattern[row][col] == 1 then 0 else 1]];
      pattern := newPattern;
    }

    /** `handleGridSizeChange`: record the new size and grow or shrink the pattern. */
    method HandleGridSizeChange(newSize: nat)
      requires Valid()
      modifies this
      ensures Valid() && gridSize == newSize
      ensures pattern == Resized(old(pattern), old(gridSize), newSize)
    {
      var oldSize := gridSize;
      gridSize := newSize;
      pattern := Resized(pattern, oldSize, newSize);
    }
  }
}
