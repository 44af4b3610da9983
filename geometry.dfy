/**
 * Pointer arithmetic shared by the drop handler, the hover highlight and the
 * drag preview. Pixel values are whole numbers and the cell size is a positive
 * whole number, so `Math.floor(d / cs)` is floor division and
 * `Math.floor(d / cs + 0.5)` (equally `Math.round(d / cs)`) is
 * `(2 * d + cs) / (2 * cs)`.
 */
module Geometry {
  /** A screen position or a pixel offset. */
  datatype Point = Point(x: int, y: int)

  /** `Math.min` and `Math.max`. */
  function Min(a: int, b: int): int { if a <= b then a else b }
  function Max(a: int, b: int): int { if a >= b then a else b }

  /**
   * The whole number nearest to d / cs, halves rounded up: the cell whose centre
   * is within half a cell of the pixel offset d.
   */
  function RoundDiv(d: int, cs: int): (k: int)
    requires cs > 0
    ensures cs * (2 * k - 1) <= 2 * d < cs * (2 * k + 1)
  {
    var k := (2 * d + cs) / (2 * cs);
    assert 2 * cs * k <= 2 * d + cs < 2 * cs * k + 2 * cs;
    k
  }

  /** There is only one such whole number. */
  lemma RoundUnique(d: int, cs: int, k: int)
    requires cs > 0
    requires cs * (2 * k - 1) <= 2 * d < cs * (2 * k + 1)
    ensures k == RoundDiv(d, cs)
  {
    var r := RoundDiv(d, cs);
    if k > r {
      assert 2 * k - 1 >= 2 * r + 1;
      MulMono(cs, 2 * r + 1, 2 * k - 1);
    } else if k < r {
      assert 2 * r - 1 >= 2 * k + 1;
      MulMono(cs, 2 * k + 1, 2 * r - 1);
    }
  }

  lemma MulMono(c: int, a: int, b: int)
    requires c > 0 && a <= b
    ensures c * a <= c * b
  {
  }

  /**
   * The grabbed block along one axis: the pixel offset of the grab point inside
   * the piece, divided down to a block, raised to 0 when negative and then
   * lowered to dim - 1 when past the last block.
   */
  function BlockIndex(offset: int, cs: int, dim: int): (b: int)
    requires cs > 0
    ensures dim >= 1 ==> 0 <= b < dim
    ensures dim < 1 ==> b == dim - 1
    ensures offset < 0 && dim >= 1 ==> b == 0
    ensures 0 <= offset < dim * cs ==> b * cs <= offset < b * cs + cs
    ensures offset >= dim * cs && dim >= 1 ==> b == dim - 1
  {
    var raw := offset / cs;
    var low := if raw < 0 then 0 else raw;
    FloorBetween(offset, cs, dim);
    if low >= dim then dim - 1 else low
  }

  /** Where floor division puts an offset relative to a whole number of blocks. */
  lemma FloorBetween(offset: int, cs: int, dim: int)
    requires cs > 0
    ensures offset / cs * cs <= offset < offset / cs * cs + cs
    ensures 0 <= offset < dim * cs ==> offset / cs < dim
    ensures offset >= dim * cs ==> offset / cs >= dim
  {
    var raw := offset / cs;
    assert raw * cs <= offset < raw * cs + cs;
    if offset < dim * cs && raw >= dim {
      MulMono(cs, dim, raw);
    }
    if offset >= dim * cs && raw < dim {
      MulMono(cs, raw + 1, dim);
    }
  }

  /** `Math.min(Math.max(0, v), Math.max(0, hi))`: clamp into 0 .. max(0, hi). */
  function ClampToRange(v: int, hi: int): (c: int)
    ensures 0 <= c <= Max(0, hi)
    ensures 0 <= v <= hi ==> c == v
    ensures v < 0 ==> c == 0
    ensures v > Max(0, hi) ==> c == Max(0, hi)
  {
    Min(Max(0, v), Max(0, hi))
  }
}
