/**
 * `resizeCanvas`: the board is drawn with square cells, as large as lets
 * the whole grid fit in 900 by 900 canvas pixels.
 */
module Canvas {
  import opened JsNumbers

  const MaxDimension: int := 900

  function Min(a: real, b: real): real {
    if a <= b then a else b
  }

  /** `Math.floor(Math.min(900 / gridW, 900 / gridH))`, for a grid of at least one cell. */
  function CellSize(gridW: int, gridH: int): (size: int)
    requires gridW > 0 && gridH > 0
    ensures size == if MaxDimension / gridW <= MaxDimension / gridH then MaxDimension / gridW else MaxDimension / gridH
  {
    FloorOfQuotient(MaxDimension, gridW);
    FloorOfQuotient(MaxDimension, gridH);
    Min(MaxDimension as real / gridW as real, MaxDimension as real / gridH as real).Floor
  }

  /**
   * The cell size is the largest one with which both the width and the
   * height of the grid fit in 900 pixels; it is at least 1 when the grid
   * is at most 900 cells each way.
   */
  lemma CellSizeIsLargestFit(gridW: int, gridH: int)
    requires gridW > 0 && gridH > 0
    ensures var size := CellSize(gridW, gridH);
      && 0 <= size
      && size * gridW <= MaxDimension && size * gridH <= MaxDimension
      && ((size + 1) * gridW > MaxDimension || (size + 1) * gridH > MaxDimension)
      && (gridW <= MaxDimension && gridH <= MaxDimension ==> size >= 1)
  {
    var size := CellSize(gridW, gridH);
    QuotientBounds(MaxDimension, gridW);
    QuotientBounds(MaxDimension, gridH);
    if size == MaxDimension / gridW {
      MultiplyMonotone(size, MaxDimension / gridH, gridH);
    } else {
      MultiplyMonotone(size, MaxDimension / gridW, gridW);
    }
  }

  lemma QuotientBounds(n: nat, d: int)
    requires d > 0
    ensures 0 <= n / d
    ensures (n / d) * d <= n < (n / d + 1) * d
    ensures d <= n ==> n / d >= 1
  {
  }

  lemma MultiplyMonotone(a: int, b: int, c: int)
    requires a <= b && c > 0
    ensures a * c <= b * c
  {
  }

  /** The canvas size `resizeCanvas` sets: `cellSize * gridW` by `cellSize * gridH`, never above 900 either way. */
  function CanvasSize(gridW: int, gridH: int): (size: (int, int))
    requires gridW > 0 && gridH > 0
    ensures 0 <= size.0 <= MaxDimension && 0 <= size.1 <= MaxDimension
  {
    CellSizeIsLargestFit(gridW, gridH);
    var cell := CellSize(gridW, gridH);
    (cell * gridW, cell * gridH)
  }
}
