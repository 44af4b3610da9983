/**
 * Pattern math shared by the grid and the palette: 0/1 matrices, the set of
 * their set cells, and clockwise rotation by 90 degrees.
 */
module PatternMath {

  /** A pattern entry: 0 for an empty cell, 1 for a block. */
  type Bit = b: int | b == 0 || b == 1

  /** A pattern is a list of rows; row i, column j is `p[i][j]`. */
  type Pattern = seq<seq<Bit>>

  /** A pattern coordinate or a board coordinate, as (row, column). */
  type Cell = (int, int)

  /** Every row is as long as the first one. */
  predicate Rectangular(p: Pattern) {
    forall i :: 0 <= i < |p| ==> |p[i]| == |p[0]|
  }

  /** What `rotatePattern` reads without failing: a first row exists and every row has its length. */
  predicate Rotatable(p: Pattern) {
    |p| >= 1 && Rectangular(p)
  }

  /** A pattern of at least one row and one column, all rows of equal length. */
  predicate WellFormed(p: Pattern) {
    |p| >= 1 && |p[0]| >= 1 && Rectangular(p)
  }

  /** The coordinates of the set cells of `p`. */
  ghost function Cells(p: Pattern): set<Cell> {
    set i, j | 0 <= i < |p| && 0 <= j < |p[i]| && p[i][j] == 1 :: (i, j)
  }

  /** The image of a set of cells under a map of coordinates. */
  ghost function Image(s: set<Cell>, f: Cell -> Cell): set<Cell> {
    set x | x in s :: f(x)
  }

  /** Moving every cell by (dr, dc). */
  function Shift(dr: int, dc: int): Cell -> Cell {
    (c: Cell) => (c.0 + dr, c.1 + dc)
  }

  /** An injective map of coordinates neither merges nor loses cells. */
  lemma {:induction false} InjectiveImageSize(s: set<Cell>, f: Cell -> Cell)
    requires forall x, y :: x in s && y in s && f(x) == f(y) ==> x == y
    ensures |Image(s, f)| == |s|
  {
    if s != {} {
      var x :| x in s;
      var t := s - {x};
      InjectiveImageSize(t, f);
      assert Image(s, f) == Image(t, f) + {f(x)};
      assert f(x) !in Image(t, f);
    }
  }

  /** The clockwise quarter turn: an R x C pattern becomes C x R. */
  function Rotated(p: Pattern): (r: Pattern)
    requires Rotatable(p)
    ensures |r| == |p[0]|
    ensures forall j :: 0 <= j < |r| ==> |r[j]| == |p|
    ensures |p[0]| >= 1 ==> WellFormed(r)
  {
    seq(|p[0]|, j requires 0 <= j < |p[0]| =>
      seq(|p|, k requires 0 <= k < |p| => p[|p| - 1 - k][j]))
  }

  /**
   * `rotatePattern`: allocate a C x R matrix of zeros and write
   * `rotated[j][R-1-i] := p[i][j]` in two nested loops.
   */
  method RotatePattern(p: Pattern) returns (rotated: Pattern)
    requires Rotatable(p)
    ensures |rotated| == |p[0]|
    ensures forall j :: 0 <= j < |rotated| ==> |rotated[j]| == |p|
    ensures forall i, j :: 0 <= i < |p| && 0 <= j < |p[0]| ==> rotated[j][|p| - 1 - i] == p[i][j]
    ensures rotated == Rotated(p)
  {
    var rows := |p|;
    var cols := |p[0]|;
    rotated := seq(cols, _ => seq(rows, _ => 0));
    for i := 0 to rows
      invariant |rotated| == cols
      invariant forall j :: 0 <= j < cols ==> |rotated[j]| == rows
      invariant forall j, k :: 0 <= j < cols && 0 <= k < rows ==>
        rotated[j][k] == if rows - 1 - k < i then p[rows - 1 - k][j] else 0
    {
      for j := 0 to cols
        invariant |rotated| == cols
        invariant forall j' :: 0 <= j' < cols ==> |rotated[j']| == rows
        invariant forall j', k :: 0 <= j' < cols && 0 <= k < rows ==>
          rotated[j'][k] ==
            if rows - 1 - k < i || (rows - 1 - k == i && j' < j) then p[rows - 1 - k][j'] else 0
      {
        rotated := rotated[j := rotated[j][rows - 1 - i := p[i][j]]];
      }
    }
    forall j | 0 <= j < cols
      ensures rotated[j] == Rotated(p)[j]
    {
    }
  }

  /** Two quarter turns make a half turn: entry (a, b) comes from (R-1-a, C-1-b). */
  lemma HalfTurn(p: Pattern)
    requires WellFormed(p)
    ensures |Rotated(Rotated(p))| == |p|
    ensures forall a :: 0 <= a < |p| ==> |Rotated(Rotated(p))[a]| == |p[0]|
    ensures forall a, b :: 0 <= a < |p| && 0 <= b < |p[0]| ==>
      Rotated(Rotated(p))[a][b] == p[|p| - 1 - a][|p[0]| - 1 - b]
  {
  }

  /** Rotation is a group of order four: four quarter turns give back the pattern. */
  lemma {:induction false} RotateFourTimes(p: Pattern)
    requires WellFormed(p)
    ensures Rotated(Rotated(Rotated(Rotated(p)))) == p
  {
    var h := Rotated(Rotated(p));
    HalfTurn(p);
    HalfTurn(h);
    var q := Rotated(Rotated(h));
    assert |q| == |p|;
    forall a | 0 <= a < |p|
      ensures q[a] == p[a]
    {
      assert |q[a]| == |p[a]|;
      forall b | 0 <= b < |p[0]|
        ensures q[a][b] == p[a][b]
      {
        assert q[a][b] == h[|p| - 1 - a][|p[0]| - 1 - b];
      }
    }
  }

  /** The set cells of the rotated pattern are those of `p` moved by (i, j) -> (j, R-1-i). */
  lemma RotatedCells(p: Pattern)
    requires Rotatable(p)
    ensures Cells(Rotated(p)) == Image(Cells(p), (c: Cell) => (c.1, |p| - 1 - c.0))
  {
    var f := (c: Cell) => (c.1, |p| - 1 - c.0);
    var r := Rotated(p);
    forall c | c in Cells(r)
      ensures c in Image(Cells(p), f)
    {
      var (j, k) := c;
      assert (|p| - 1 - k, j) in Cells(p);
      assert f((|p| - 1 - k, j)) == c;
    }
    forall c | c in Image(Cells(p), f)
      ensures c in Cells(r)
    {
      var x :| x in Cells(p) && f(x) == c;
      var (i, j) := x;
      assert r[j][|p| - 1 - i] == p[i][j];
    }
  }

  /** Rotation preserves the number of set cells. */
  lemma {:induction false} RotateKeepsCount(p: Pattern)
    requires Rotatable(p)
    ensures |Cells(Rotated(p))| == |Cells(p)|
  {
    var f := (c: Cell) => (c.1, |p| - 1 - c.0);
    RotatedCells(p);
    InjectiveImageSize(Cells(p), f);
  }
}
