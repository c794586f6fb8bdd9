/**
 * The editor's state and the operations that change it: the module-level
 * variables of the page become the fields of one `Editor` object, and the
 * functions and event handlers that reassign them become its methods.
 */
module Editor {
  import opened Wrappers
  import opened Colors
  import opened Beads

  /**
   * A decoded blueprint, the object `applyState` receives. A field absent
   * from the JSON text (or `null`) is `None`.
   */
  datatype Blueprint = Blueprint(
    version: Option<int>,
    w: Option<int>,
    h: Option<int>,
    bead: Option<real>,
    grid: Option<bool>,
    data: Option<Board>)

  /** A number field is truthy when present and not zero. */
  predicate Truthy(n: Option<int>) {
    n.Some? && n.value != 0
  }

  /** `applyState` goes ahead only for a state with data and truthy width and height. */
  predicate Accepts(state: Option<Blueprint>) {
    && state.Some?
    && state.value.data.Some?
    && Truthy(state.value.w)
    && Truthy(state.value.h)
  }

  /** `state.bead || 5`: a missing or zero bead size becomes 5 mm. */
  function BeadOrDefault(bead: Option<real>): real {
    if bead.Some? && bead.value != 0.0 then bead.value else 5.0
  }

  /** `Boolean(state.grid)`. */
  function AsBoolean(grid: Option<bool>): bool {
    grid == Some(true)
  }

  /** The record `encodeState` serialises. */
  function Payload(w: int, h: int, bead: real, grid: bool, beads: Board): Blueprint {
    Blueprint(Some(1), Some(w), Some(h), Some(bead), Some(grid), Some(beads))
  }

  /**
   * Reading back a payload: it is accepted exactly when its width and
   * height are not zero, and then it gives back every value it was made
   * from, except that a bead size of 0 comes back as 5.
   */
  lemma PayloadRoundTrip(w: int, h: int, bead: real, grid: bool, beads: Board)
    ensures var p := Payload(w, h, bead, grid, beads);
      && (Accepts(Some(p)) <==> w != 0 && h != 0)
      && p.w == Some(w) && p.h == Some(h)
      && BeadOrDefault(p.bead) == (if bead == 0.0 then 5.0 else bead)
      && AsBoolean(p.grid) == grid
      && p.data == Some(beads)
  {
  }

  /**
   * `applyState` does not compare the data with the width and height: a
   * 2 by 2 blueprint with no rows is accepted, and painting its top-left
   * cell afterwards reaches a row that does not exist.
   */
  lemma AcceptsDataOfAnotherShape()
    ensures var s := Blueprint(None, Some(2), Some(2), None, None, Some([]));
      && Accepts(Some(s))
      && !IsRect(s.data.value, 2, 2)
      && PaintStatus(s.data.value, 2, 2, 0, 0) == MissingRow
  {
  }

  class Editor {
    /** The global `hamaPalette`, fixed when the page loads. */
    const palette: Palette
    var gridW: int
    var gridH: int
    var beadSizeMm: real
    var activeColor: string
    var showGrid: bool
    var drawing: bool
    var beads: Board

    /**
     * Page start-up: the first palette colour is active, nothing is being
     * drawn, and `rebuildGrid` adopts the size inputs and builds an empty
     * board.
     */
    constructor (w: int, h: int, bead: real, grid: bool)
      ensures gridW == w && gridH == h && beadSizeMm == bead && showGrid == grid
      ensures palette == HamaPalette
      ensures activeColor == palette[0] && !drawing
      ensures beads == Filled(w, h, Empty)
    {
      palette := HamaPalette;
      gridW, gridH, beadSizeMm := w, h, bead;
      activeColor := HamaPalette[0];
      showGrid, drawing := grid, false;
      beads := Filled(w, h, Empty);
    }

    /** The payload `encodeState` builds from the current state. */
    function EncodedPayload(): Blueprint
      reads this
    {
      Payload(gridW, gridH, beadSizeMm, showGrid, beads)
    }

    /** `initBeads(fill)`: a fresh `gridH` by `gridW` board of `fill`. */
    method InitBeads(fill: Cell)
      modifies this`beads
      ensures beads == Filled(gridW, gridH, fill)
      ensures IsFilled(beads, Length(gridW), Length(gridH), fill)
    {
      beads := Filled(gridW, gridH, fill);
    }

    /** The clear button: every cell of the grid becomes empty. */
    method Clear()
      modifies this`beads
      ensures IsFilled(beads, Length(gridW), Length(gridH), Empty)
    {
      InitBeads(Empty);
    }

    /** `rebuildGrid`, with the values the size inputs and the grid checkbox hold. */
    method RebuildGrid(w: int, h: int, bead: real, grid: bool)
      modifies this`gridW, this`gridH, this`beadSizeMm, this`showGrid, this`beads
      ensures gridW == w && gridH == h && beadSizeMm == bead && showGrid == grid
      ensures IsFilled(beads, Length(w), Length(h), Empty)
    {
      gridW, gridH, beadSizeMm, showGrid := w, h, bead, grid;
      InitBeads(Empty);
    }

    /** A click on palette button `i` makes its colour the active one. */
    method SelectColor(i: nat)
      requires i < |palette|
      modifies this`activeColor
      ensures activeColor == palette[i]
    {
      activeColor := palette[i];
    }

    /** The grid checkbox. */
    method SetShowGrid(checked: bool)
      modifies this`showGrid
      ensures showGrid == checked
    {
      showGrid := checked;
    }

    /**
     * `paintCell` on cell `(x, y)`: nothing outside the grid; inside it the
     * active colour is stored at `beads[y][x]`, or the assignment throws
     * when that row does not exist.
     */
    method PaintCell(x: int, y: int) returns (outcome: PaintOutcome)
      modifies this`beads
      ensures outcome == PaintStatus(old(beads), gridW, gridH, x, y)
      ensures beads == AfterPaint(old(beads), gridW, gridH, x, y, Bead(activeColor))
      ensures |beads| == |old(beads)|
    {
      if x < 0 || y < 0 || x >= gridW || y >= gridH {
        return OutOfBounds;
      }
      if y >= |beads| {
        return MissingRow;
      }
      beads := beads[y := Store(beads[y], x, Bead(activeColor))];
      return Painted;
    }

    /** `pointerdown`: drawing starts and the cell under the pointer is painted. */
    method PointerDown(x: int, y: int) returns (outcome: PaintOutcome)
      modifies this`drawing, this`beads
      ensures drawing
      ensures outcome == PaintStatus(old(beads), gridW, gridH, x, y)
      ensures beads == AfterPaint(old(beads), gridW, gridH, x, y, Bead(activeColor))
    {
      drawing := true;
      outcome := PaintCell(x, y);
    }

    /** `pointermove`: paints only while drawing; `None` when it did nothing. */
    method PointerMove(x: int, y: int) returns (outcome: Option<PaintOutcome>)
      modifies this`beads
      ensures !drawing ==> outcome == None && beads == old(beads)
      ensures drawing ==> outcome == Some(PaintStatus(old(beads), gridW, gridH, x, y))
      ensures drawing ==> beads == AfterPaint(old(beads), gridW, gridH, x, y, Bead(activeColor))
    {
      if !drawing {
        return None;
      }
      var painted := PaintCell(x, y);
      return Some(painted);
    }

    /** `pointerup`: drawing stops. */
    method PointerUp()
      modifies this`drawing
      ensures !drawing
    {
      drawing := false;
    }

    /** A pointer that moves after it was released leaves the board as it was. */
    method MoveAfterRelease(x: int, y: int)
      modifies this`drawing, this`beads
      ensures !drawing && beads == old(beads)
    {
      PointerUp();
      var outcome := PointerMove(x, y);
      assert outcome == None;
    }

    /**
     * `applyState`: a state without data, width or height changes nothing;
     * otherwise the width, height, bead size (5 when missing or zero) and
     * grid flag are adopted and the data becomes the board as it is, whatever
     * its shape.
     */
    method ApplyState(state: Option<Blueprint>)
      modifies this`gridW, this`gridH, this`beadSizeMm, this`showGrid, this`beads
      ensures !Accepts(state) ==>
        && gridW == old(gridW) && gridH == old(gridH) && beadSizeMm == old(beadSizeMm)
        && showGrid == old(showGrid) && beads == old(beads)
      ensures Accepts(state) ==>
        && gridW == state.value.w.value && gridH == state.value.h.value
        && beadSizeMm == BeadOrDefault(state.value.bead)
        && showGrid == AsBoolean(state.value.grid)
        && beads == state.value.data.value
    {
      if state.None? || state.value.data.None? || !Truthy(state.value.w) || !Truthy(state.value.h) {
        return;
      }
      var s := state.value;
      gridW := s.w.value;
      gridH := s.h.value;
      beadSizeMm := BeadOrDefault(s.bead);
      showGrid := AsBoolean(s.grid);
      beads := s.data.value;
    }

    /**
     * Opening a share link made by `source`: the blueprint `source` encodes
     * is applied here, which reproduces its grid size, grid flag and board,
     * and its bead size unless that was 0. Only a zero width or height
     * makes the link do nothing.
     */
    method OpenSharedLink(source: Editor)
      modifies this`gridW, this`gridH, this`beadSizeMm, this`showGrid, this`beads
      ensures old(source.gridW) != 0 && old(source.gridH) != 0 ==>
        && gridW == old(source.gridW) && gridH == old(source.gridH)
        && beadSizeMm == (if old(source.beadSizeMm) == 0.0 then 5.0 else old(source.beadSizeMm))
        && showGrid == old(source.showGrid) && beads == old(source.beads)
      ensures !(old(source.gridW) != 0 && old(source.gridH) != 0) ==>
        && gridW == old(gridW) && gridH == old(gridH) && beadSizeMm == old(beadSizeMm)
        && showGrid == old(showGrid) && beads == old(beads)
    {
      var payload := source.EncodedPayload();
      PayloadRoundTrip(source.gridW, source.gridH, source.beadSizeMm, source.showGrid, source.beads);
      ApplyState(Some(payload));
    }

    /**
     * The loop of `convertImageToPattern` over an image already scaled to
     * the grid, as an RGBA buffer: row by row and column by column, a pixel
     * whose alpha is below 30 empties its cell, any other pixel stores the
     * nearest palette colour of its quantised RGB. The loop stops with a
     * TypeError at the first grid row the board does not have; `completed`
     * says whether it ran to the end. On a board of the grid's shape it
     * always does, and every cell is then the cell of its pixel.
     */
    method ConvertImageToPattern(pixels: seq<Byte>, levels: int) returns (completed: bool)
      requires |pixels| == ImageSize(Length(gridW), Length(gridH))
      modifies this`beads
      ensures completed <==> Length(gridW) == 0 || Length(gridH) <= |old(beads)|
      ensures |beads| == |old(beads)|
      ensures forall y :: 0 <= y < |beads| ==>
        beads[y] == if y < Length(gridH)
          then ConvertRow(old(beads)[y], RowCells(palette, pixels, Length(gridW), Length(gridH), levels, y, Length(gridW)), Length(gridW))
          else old(beads)[y]
      ensures IsRect(old(beads), Length(gridW), Length(gridH)) ==>
        && completed && IsRect(beads, Length(gridW), Length(gridH))
        && forall y, x :: 0 <= y < Length(gridH) && 0 <= x < Length(gridW) ==>
          beads[y][x] == PixelCell(palette, pixels, Length(gridW), Length(gridH), levels, x, y)
    {
      var w, h := Length(gridW), Length(gridH);
      var y := 0;
      while y < h
        invariant 0 <= y <= h
        invariant |beads| == |old(beads)|
        invariant w > 0 ==> y <= |beads|
        invariant forall j :: 0 <= j < |beads| ==>
          beads[j] == if j < y then ConvertRow(old(beads)[j], RowCells(palette, pixels, w, h, levels, j, w), w) else old(beads)[j]
      {
        var rowDone := ConvertImageRow(pixels, w, h, levels, y);
        if !rowDone {
          return false;
        }
        y := y + 1;
      }
      if IsRect(old(beads), w, h) {
        ConvertRectBoard(palette, old(beads), beads, pixels, w, h, levels);
      }
      return true;
    }

    /**
     * The inner loop of the conversion, over the columns of grid row `y`.
     * When the board has no row `y`, the first assignment throws and
     * nothing changes; with no columns nothing happens at all.
     */
    method ConvertImageRow(pixels: seq<Byte>, w: nat, h: nat, levels: int, y: nat) returns (completed: bool)
      requires y < h && |pixels| == ImageSize(w, h)
      modifies this`beads
      ensures completed <==> w == 0 || y < |old(beads)|
      ensures beads == if y < |old(beads)|
        then old(beads)[y := ConvertRow(old(beads)[y], RowCells(palette, pixels, w, h, levels, y, w), w)]
        else old(beads)
    {
      ghost var cells := RowCells(palette, pixels, w, h, levels, y, w);
      var x := 0;
      while x < w
        invariant 0 <= x <= w
        invariant x > 0 ==> y < |beads|
        invariant y < |old(beads)| ==> beads == old(beads)[y := ConvertRow(old(beads)[y], cells, x)]
        invariant y >= |old(beads)| ==> beads == old(beads)
      {
        var cell := ConvertPixel(palette, pixels, w, h, levels, x, y);
        if y >= |beads| {
          return false;
        }
        ConvertRowStep(old(beads), y, cells, x);
        beads := beads[y := Store(beads[y], x, cell)];
        x := x + 1;
      }
      return true;
    }
  }

  /** The body of the conversion loop for pixel `(x, y)`. */
  method ConvertPixel(palette: Palette, pixels: seq<Byte>, w: nat, h: nat, levels: int, x: nat, y: nat) returns (cell: Cell)
    requires x < w && y < h && |pixels| == ImageSize(w, h)
    ensures cell == PixelCell(palette, pixels, w, h, levels, x, y)
    ensures cell == RowCells(palette, pixels, w, h, levels, y, w)[x]
  {
    RowCellAt(palette, pixels, w, h, levels, y, w, x);
    PixelIndexInRange(w, h, x, y);
    var idx := PixelIndex(w, x, y);
    var alpha := pixels[idx + 3];
    if alpha < 30 {
      TransparentPixelCell(palette, pixels, w, h, levels, x, y);
      return Empty;
    }
    var q := QuantizedPixel(pixels, w, h, levels, x, y);
    var color := NearestPaletteColor(palette, q.0, q.1, q.2);
    OpaquePixelCell(palette, pixels, w, h, levels, x, y, q, color);
    return Bead(color);
  }
}
