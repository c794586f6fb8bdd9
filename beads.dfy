/**
 * The bead board: a list of rows, each a list of cells holding a palette
 * colour or nothing, and the pure parts of the editor's writes to it:
 * `initBeads`, the bounds check and element assignment of `paintCell`,
 * and what one pixel of an imported image turns into.
 */
module Beads {
  import opened Colors

  /** A cell holds no bead (`null`) or a bead of the given colour. */
  datatype Cell = Empty | Bead(color: string)

  /** The `beads` matrix: a list of rows, indexed `beads[y][x]`. */
  type Board = seq<seq<Cell>>

  /** A channel of an RGBA image buffer (a `Uint8ClampedArray` element). */
  type Byte = n: int | 0 <= n <= 255

  /** The length `Array.from({ length: n })` gives for a whole number `n`: negative lengths become 0. */
  function Length(n: int): nat {
    if n < 0 then 0 else n
  }

  /** `b` has `h` rows of `w` cells each. */
  predicate IsRect(b: Board, w: nat, h: nat) {
    |b| == h && forall y :: 0 <= y < |b| ==> |b[y]| == w
  }

  /** `b` is a `w` by `h` board whose every cell is `fill`. */
  predicate IsFilled(b: Board, w: nat, h: nat, fill: Cell) {
    IsRect(b, w, h) && forall y, x :: 0 <= y < |b| && 0 <= x < |b[y]| ==> b[y][x] == fill
  }

  /** The matrix `initBeads(fill)` builds for a grid of `w` columns and `h` rows. */
  function Filled(w: int, h: int, fill: Cell): (b: Board)
    ensures IsFilled(b, Length(w), Length(h), fill)
  {
    seq(Length(h), _ => seq(Length(w), _ => fill))
  }

  /**
   * The JavaScript element assignment `row[x] = c`: inside the row it
   * replaces one element; past the end it lengthens the row to `x + 1`,
   * leaving holes, which read as no bead, in between.
   */
  function Store(row: seq<Cell>, x: nat, c: Cell): (r: seq<Cell>)
    ensures |r| == if x < |row| then |row| else x + 1
    ensures r[x] == c
    ensures forall i :: 0 <= i < |r| && i != x ==> r[i] == if i < |row| then row[i] else Empty
  {
    if x < |row| then row[x := c] else row + seq(x - |row|, _ => Empty) + [c]
  }

  /**
   * How `paintCell` ends: the cell is outside the `gridW` by `gridH` grid
   * and nothing happens; the row `beads[y]` does not exist and the
   * assignment throws a TypeError; or the cell is painted.
   */
  datatype PaintOutcome = OutOfBounds | MissingRow | Painted

  function PaintStatus(b: Board, gridW: int, gridH: int, x: int, y: int): PaintOutcome {
    if x < 0 || y < 0 || x >= gridW || y >= gridH then OutOfBounds
    else if y >= |b| then MissingRow
    else Painted
  }

  /** The board after `paintCell` on `(x, y)` with colour `c`. */
  function AfterPaint(b: Board, gridW: int, gridH: int, x: int, y: int, c: Cell): Board {
    if PaintStatus(b, gridW, gridH, x, y) == Painted then b[y := Store(b[y], x, c)] else b
  }

  /**
   * On a board of the grid's own shape, `paintCell` paints exactly when the
   * cell is inside the grid, writes the colour at that cell, changes no
   * other cell and keeps the shape; outside the grid it changes nothing.
   */
  lemma PaintOnRectBoard(b: Board, gridW: int, gridH: int, x: int, y: int, c: Cell)
    requires IsRect(b, Length(gridW), Length(gridH))
    ensures PaintStatus(b, gridW, gridH, x, y) != MissingRow
    ensures PaintStatus(b, gridW, gridH, x, y) == Painted <==> 0 <= x < gridW && 0 <= y < gridH
    ensures var a := AfterPaint(b, gridW, gridH, x, y, c);
      && IsRect(a, Length(gridW), Length(gridH))
      && (0 <= x < gridW && 0 <= y < gridH ==> a[y][x] == c)
      && (forall j, i :: 0 <= j < |a| && 0 <= i < |a[j]| && (j, i) != (y, x) ==> a[j][i] == b[j][i])
      && (!(0 <= x < gridW && 0 <= y < gridH) ==> a == b)
  {
  }

  // ---------------------------------------------------------------------------
  // Image import, one pixel at a time

  /**
   * The length of the RGBA buffer of a `w` by `h` image, row by row: each
   * row takes `4 * w` bytes.
   */
  function ImageSize(w: nat, h: nat): nat {
    if h == 0 then 0 else ImageSize(w, h - 1) + 4 * w
  }

  /** `getImageData` of a `w` by `h` area returns `w * h * 4` bytes. */
  lemma {:induction false} ImageSizeIsProduct(w: nat, h: nat)
    ensures ImageSize(w, h) == 4 * w * h
  {
    if h > 0 {
      ImageSizeIsProduct(w, h - 1);
      assert 4 * w * h == 4 * w * (h - 1) + 4 * w;
    }
  }

  /**
   * The first byte of pixel `(x, y)` in a row-major RGBA buffer `w` pixels
   * wide: each row before `y` takes `4 * w` bytes, each pixel before `x` in
   * row `y` takes 4.
   */
  function PixelIndex(w: nat, x: nat, y: nat): nat {
    if y == 0 then 4 * x else PixelIndex(w, x, y - 1) + 4 * w
  }

  /** The offset is the source's `(y * w + x) * 4`. */
  lemma {:induction false} PixelIndexIsRowMajor(w: nat, x: nat, y: nat)
    ensures PixelIndex(w, x, y) == (y * w + x) * 4
  {
    if y > 0 {
      PixelIndexIsRowMajor(w, x, y - 1);
      assert (y * w + x) * 4 == ((y - 1) * w + x) * 4 + 4 * w;
    }
  }

  /** All four bytes of a pixel inside a `w` by `h` image lie inside its buffer. */
  lemma {:induction false} PixelIndexInRange(w: nat, h: nat, x: nat, y: nat)
    requires x < w && y < h
    ensures PixelIndex(w, x, y) + 3 < ImageSize(w, h)
    decreases h
  {
    if y == h - 1 {
      if y > 0 {
        PixelIndexInRange(w, h - 1, x, y - 1);
      }
    } else {
      PixelIndexInRange(w, h - 1, x, y);
    }
  }

  /** The cell the conversion writes for pixel `(x, y)` of a decoded image, colours quantised to `levels`. */
  function PixelCell(palette: Palette, pixels: seq<Byte>, w: nat, h: nat, levels: int, x: nat, y: nat): (c: Cell)
    requires x < w && y < h && |pixels| == ImageSize(w, h)
  {
    PixelIndexInRange(w, h, x, y);
    if pixels[PixelIndex(w, x, y) + 3] < 30 then Empty
    else
      var q := QuantizedPixel(pixels, w, h, levels, x, y);
      Bead(palette[NearestIndex(palette, q.0, q.1, q.2)])
  }

  /** The RGB of pixel `(x, y)`, each channel quantised to `levels` levels. */
  function QuantizedPixel(pixels: seq<Byte>, w: nat, h: nat, levels: int, x: nat, y: nat): (q: (real, real, real))
    requires x < w && y < h && |pixels| == ImageSize(w, h)
  {
    PixelIndexInRange(w, h, x, y);
    var idx := PixelIndex(w, x, y);
    (Quantize(pixels[idx] as real, levels), Quantize(pixels[idx + 1] as real, levels), Quantize(pixels[idx + 2] as real, levels))
  }

  /**
   * A pixel becomes an empty cell exactly when its alpha byte is below 30;
   * otherwise it becomes the palette colour that no other palette colour is
   * closer to than, in squared distance to the quantised pixel, and the
   * earliest such colour on ties.
   */
  lemma PixelCellMeaning(palette: Palette, pixels: seq<Byte>, w: nat, h: nat, levels: int, x: nat, y: nat)
    requires x < w && y < h && |pixels| == ImageSize(w, h)
    ensures PixelIndex(w, x, y) + 3 < |pixels|
    ensures PixelCell(palette, pixels, w, h, levels, x, y) == Empty <==> pixels[PixelIndex(w, x, y) + 3] < 30
    ensures PixelCell(palette, pixels, w, h, levels, x, y) != Empty ==>
      var q := QuantizedPixel(pixels, w, h, levels, x, y);
      var k := NearestIndex(palette, q.0, q.1, q.2);
      && PixelCell(palette, pixels, w, h, levels, x, y) == Bead(palette[k])
      && IsEarliestMinimum(Distances(palette, q.0, q.1, q.2), k)
  {
    PixelIndexInRange(w, h, x, y);
    var q := QuantizedPixel(pixels, w, h, levels, x, y);
    NearestIndexIsEarliestMinimum(palette, q.0, q.1, q.2);
  }

  /** The two cases of `PixelCell`, one lemma each, for the loop body that computes it step by step. */
  lemma TransparentPixelCell(palette: Palette, pixels: seq<Byte>, w: nat, h: nat, levels: int, x: nat, y: nat)
    requires x < w && y < h && |pixels| == ImageSize(w, h)
    requires PixelIndex(w, x, y) + 3 < |pixels| && pixels[PixelIndex(w, x, y) + 3] < 30
    ensures PixelCell(palette, pixels, w, h, levels, x, y) == Empty
  {
  }

  lemma OpaquePixelCell(palette: Palette, pixels: seq<Byte>, w: nat, h: nat, levels: int, x: nat, y: nat, q: (real, real, real), color: string)
    requires x < w && y < h && |pixels| == ImageSize(w, h)
    requires PixelIndex(w, x, y) + 3 < |pixels| && pixels[PixelIndex(w, x, y) + 3] >= 30
    requires q == QuantizedPixel(pixels, w, h, levels, x, y)
    requires color == palette[NearestIndex(palette, q.0, q.1, q.2)]
    ensures PixelCell(palette, pixels, w, h, levels, x, y) == Bead(color)
  {
  }

  /** A cell holds nothing or a palette colour. */
  predicate IsPaletteCell(c: Cell, palette: seq<string>) {
    c.Empty? || c.color in palette
  }

  /** The cells the conversion computes for row `y` of the image, one per column, for the first `n` columns. */
  function RowCells(palette: Palette, pixels: seq<Byte>, w: nat, h: nat, levels: int, y: nat, n: nat): (cells: seq<Cell>)
    requires y < h && n <= w && |pixels| == ImageSize(w, h)
    ensures |cells| == n
  {
    if n == 0 then [] else RowCells(palette, pixels, w, h, levels, y, n - 1) + [PixelCell(palette, pixels, w, h, levels, n - 1, y)]
  }

  /** Column `x` of the row's cells is the cell of pixel `(x, y)`. */
  lemma {:induction false} RowCellAt(palette: Palette, pixels: seq<Byte>, w: nat, h: nat, levels: int, y: nat, n: nat, x: nat)
    requires y < h && x < n <= w && |pixels| == ImageSize(w, h)
    ensures RowCells(palette, pixels, w, h, levels, y, n)[x] == PixelCell(palette, pixels, w, h, levels, x, y)
  {
    var front := RowCells(palette, pixels, w, h, levels, y, n - 1);
    var last := PixelCell(palette, pixels, w, h, levels, n - 1, y);
    assert RowCells(palette, pixels, w, h, levels, y, n) == front + [last];
    if x < n - 1 {
      RowCellAt(palette, pixels, w, h, levels, y, n - 1, x);
      assert (front + [last])[x] == front[x];
    }
  }

  /**
   * A row that started as `row` after the inner loop of the conversion has
   * stored `cells[0]` to `cells[n - 1]` into columns `0` to `n - 1`.
   */
  function ConvertRow(row: seq<Cell>, cells: seq<Cell>, n: nat): seq<Cell>
    requires n <= |cells|
  {
    if n == 0 then row else Store(ConvertRow(row, cells, n - 1), n - 1, cells[n - 1])
  }

  /** Storing the next cell into a board whose row `y` holds the first `x` converted cells. */
  lemma ConvertRowStep(b: Board, y: nat, cells: seq<Cell>, x: nat)
    requires y < |b| && x < |cells|
    ensures var before := b[y := ConvertRow(b[y], cells, x)];
      before[y := Store(before[y], x, cells[x])] == b[y := ConvertRow(b[y], cells, x + 1)]
  {
  }

  /**
   * After the inner loop, the row holds the converted cell at every visited
   * column and its old cell at every other one; it is lengthened to `n`
   * cells when it was shorter.
   */
  lemma {:induction false} ConvertRowMeaning(row: seq<Cell>, cells: seq<Cell>, n: nat)
    requires n <= |cells|
    ensures var r := ConvertRow(row, cells, n);
      && |r| == (if n <= |row| then |row| else n)
      && (forall x :: 0 <= x < n ==> r[x] == cells[x])
      && (forall x :: n <= x < |r| ==> r[x] == row[x])
  {
    if n > 0 {
      ConvertRowMeaning(row, cells, n - 1);
    }
  }

  /** Every converted cell holds nothing or a palette colour. */
  lemma PixelCellIsPaletteCell(palette: Palette, pixels: seq<Byte>, w: nat, h: nat, levels: int, x: nat, y: nat)
    requires x < w && y < h && |pixels| == ImageSize(w, h)
    ensures IsPaletteCell(PixelCell(palette, pixels, w, h, levels, x, y), palette)
  {
  }

  /**
   * Once the inner loop has run over a whole row, the row begins with the
   * `w` converted pixels of image row `y`, each empty or a palette colour.
   */
  lemma ConvertWholeRow(palette: Palette, row: seq<Cell>, pixels: seq<Byte>, w: nat, h: nat, levels: int, y: nat)
    requires y < h && |pixels| == ImageSize(w, h)
    ensures var r := ConvertRow(row, RowCells(palette, pixels, w, h, levels, y, w), w);
      && |r| == (if w <= |row| then |row| else w)
      && (forall x :: 0 <= x < w ==> r[x] == PixelCell(palette, pixels, w, h, levels, x, y) && IsPaletteCell(r[x], palette))
      && (forall x :: w <= x < |r| ==> r[x] == row[x])
  {
    var cells := RowCells(palette, pixels, w, h, levels, y, w);
    ConvertRowMeaning(row, cells, w);
    forall x | 0 <= x < w
      ensures cells[x] == PixelCell(palette, pixels, w, h, levels, x, y)
      ensures IsPaletteCell(PixelCell(palette, pixels, w, h, levels, x, y), palette)
    {
      RowCellAt(palette, pixels, w, h, levels, y, w, x);
      PixelCellIsPaletteCell(palette, pixels, w, h, levels, x, y);
    }
  }

  /**
   * On a board of the grid's own shape, where the conversion loop replaces
   * every row, it leaves a board of the same shape whose
   * every cell is the cell of its pixel.
   */
  lemma ConvertRectBoard(palette: Palette, before: Board, after: Board, pixels: seq<Byte>, w: nat, h: nat, levels: int)
    requires IsRect(before, w, h) && |pixels| == ImageSize(w, h)
    requires |after| == |before|
    requires forall y :: 0 <= y < h ==> after[y] == ConvertRow(before[y], RowCells(palette, pixels, w, h, levels, y, w), w)
    ensures IsRect(after, w, h)
    ensures forall y, x :: 0 <= y < h && 0 <= x < w ==>
      after[y][x] == PixelCell(palette, pixels, w, h, levels, x, y) && IsPaletteCell(after[y][x], palette)
  {
    forall y | 0 <= y < h
      ensures |after[y]| == w
      ensures forall x :: 0 <= x < w ==>
        after[y][x] == PixelCell(palette, pixels, w, h, levels, x, y) && IsPaletteCell(after[y][x], palette)
    {
      ConvertWholeRow(palette, before[y], pixels, w, h, levels, y);
    }
  }
}
