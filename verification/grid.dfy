/** The grid composer of `image_grid`: a white canvas sized from the first
    frame, with frame `idx` pasted into cell `idx` in row-major order. */
module Grid {
  import opened Wrappers
  import opened Raster

  /** `grid_shape = (rows, cols)` and the padding between cells. */
  datatype Layout = Layout(rows: int, cols: int, padding: int) {

    predicate Valid() {
      rows >= 1 && cols >= 1 && padding >= 0
    }

    function Cells(): int {
      rows * cols
    }
  }

  /** The defaults `grid_shape=(3, 3)` and `padding=10`. */
  const DefaultLayout: Layout := Layout(3, 3, 10)

  datatype GridError = NoFrames

  /** Every frame is a well-formed image of the first frame's size. */
  predicate Uniform(frames: seq<Image>) {
    forall i :: 0 <= i < |frames| ==> frames[i].Valid() && frames[i].SameSize(frames[0])
  }

  /** One canvas dimension: `count` cells of `size` pixels with `padding`
      pixels between neighbours and none around the outside. */
  function Extent(size: nat, count: int, padding: int): nat
    requires count >= 1 && padding >= 0
  {
    size * count + padding * (count - 1)
  }

  /** Top-left corner of cell `idx`: column `idx % cols`, row `idx / cols`,
      each a whole stride of cell size plus padding from the previous one. */
  function CellOrigin(idx: nat, w: nat, h: nat, layout: Layout): (nat, nat)
    requires layout.Valid()
  {
    ((idx % layout.cols) * (w + layout.padding), (idx / layout.cols) * (h + layout.padding))
  }

  /** Whether pixel (x, y) lies in the w-by-h box pasted at cell `idx`. */
  predicate InCell(layout: Layout, w: nat, h: nat, idx: nat, x: nat, y: nat)
    requires layout.Valid()
  {
    var origin := CellOrigin(idx, w, h, layout);
    origin.0 <= x < origin.0 + w && origin.1 <= y < origin.1 + h
  }

  /** A canvas pixel seen from the grid: which cell's box it falls in and
      where inside that box. */
  datatype Slot = Slot(cell: nat, dx: nat, dy: nat)

  /** The grid geometry read backwards from a canvas coordinate: dividing
      by the stride gives the column and row, the remainder the offset in
      the cell, and an offset past the cell size is a padding strip. */
  function SlotAt(layout: Layout, w: nat, h: nat, x: nat, y: nat): Option<Slot>
    requires layout.Valid()
    requires x < Extent(w, layout.cols, layout.padding)
    requires y < Extent(h, layout.rows, layout.padding)
  {
    StrideBound(x, w, layout.padding, layout.cols);
    StrideBound(y, h, layout.padding, layout.rows);
    var sx := w + layout.padding;
    var sy := h + layout.padding;
    var col: nat, row: nat := x / sx, y / sy;
    MulMonotone(0, row, layout.cols);
    if x % sx < w && y % sy < h
    then Some(Slot(row * layout.cols + col, x % sx, y % sy))
    else None
  }

  function GridWidth(frames: seq<Image>, layout: Layout): nat
    requires layout.Valid() && |frames| > 0
  {
    Extent(frames[0].width, layout.cols, layout.padding)
  }

  function GridHeight(frames: seq<Image>, layout: Layout): nat
    requires layout.Valid() && |frames| > 0
  {
    Extent(frames[0].height, layout.rows, layout.padding)
  }

  predicate IsCanvasFor(canvas: Image, frames: seq<Image>, layout: Layout)
    requires layout.Valid() && |frames| > 0
  {
    && canvas.Valid()
    && canvas.width == GridWidth(frames, layout)
    && canvas.height == GridHeight(frames, layout)
  }

  /** What the finished grid shows at (x, y): the pixel of the frame whose
      cell covers it, or white in padding strips and in cells with no frame. */
  function ExpectedPixel(frames: seq<Image>, layout: Layout, x: nat, y: nat): Pixel
    requires layout.Valid() && |frames| > 0 && Uniform(frames)
    requires x < GridWidth(frames, layout) && y < GridHeight(frames, layout)
  {
    match SlotAt(layout, frames[0].width, frames[0].height, x, y)
    case Some(s) => if s.cell < |frames| then frames[s.cell].At(s.dx, s.dy) else White
    case None => White
  }

  /** The canvas pixel after the cells below `done` have been visited. */
  function PartialPixel(frames: seq<Image>, layout: Layout, done: nat, x: nat, y: nat): Pixel
    requires layout.Valid() && |frames| > 0 && Uniform(frames)
    requires x < GridWidth(frames, layout) && y < GridHeight(frames, layout)
  {
    match SlotAt(layout, frames[0].width, frames[0].height, x, y)
    case Some(s) =>
      if s.cell < done && s.cell < |frames| then frames[s.cell].At(s.dx, s.dy) else White
    case None => White
  }

  predicate ShowsPartial(canvas: Image, frames: seq<Image>, layout: Layout, done: nat)
    requires layout.Valid() && |frames| > 0 && Uniform(frames)
    requires IsCanvasFor(canvas, frames, layout)
  {
    forall x: nat, y: nat :: x < canvas.width && y < canvas.height ==>
      canvas.At(x, y) == PartialPixel(frames, layout, done, x, y)
  }

  /** One iteration of the paste loop: the frame of cell `idx`, if there is
      one, is pasted at the cell's origin; otherwise the canvas is unchanged. */
  function PasteCell(canvas: Image, frames: seq<Image>, layout: Layout, idx: nat): (r: Image)
    requires layout.Valid() && |frames| > 0 && Uniform(frames) && canvas.Valid()
    ensures r.Valid() && r.SameSize(canvas)
  {
    if idx < |frames| then
      var origin := CellOrigin(idx, frames[0].width, frames[0].height, layout);
      Paste(canvas, frames[idx], origin.0, origin.1)
    else canvas
  }

  /** The loop `for idx in range(total_cells)` from cell `idx` onwards. */
  function PasteCells(canvas: Image, frames: seq<Image>, layout: Layout, idx: nat): (r: Image)
    requires layout.Valid() && |frames| > 0 && Uniform(frames) && canvas.Valid()
    ensures r.Valid() && r.SameSize(canvas)
    decreases layout.Cells() - idx
  {
    if idx >= layout.Cells() then canvas
    else PasteCells(PasteCell(canvas, frames, layout, idx), frames, layout, idx + 1)
  }

  /** `image_grid`: rejects an empty frame list; otherwise a canvas of
      `w * cols + padding * (cols - 1)` by `h * rows + padding * (rows - 1)`
      pixels, `(w, h)` being the first frame's size, showing each frame at
      native resolution in its cell and white everywhere else. */
  function ImageGrid(frames: seq<Image>, layout: Layout): (r: Result<Image, GridError>)
    requires layout.Valid() && Uniform(frames)
    ensures r.Failure? <==> |frames| == 0
    ensures r.Success? ==> IsCanvasFor(r.value, frames, layout)
    ensures r.Success? ==> forall x: nat, y: nat :: x < r.value.width && y < r.value.height ==>
      r.value.At(x, y) == ExpectedPixel(frames, layout, x, y)
  {
    if |frames| == 0 then Failure(NoFrames)
    else
      var canvas := Blank(GridWidth(frames, layout), GridHeight(frames, layout), White);
      PasteCellsShowsGrid(canvas, frames, layout, 0);
      Success(PasteCells(canvas, frames, layout, 0))
  }

  // ---------------------------------------------------------------------
  // Arithmetic of one axis

  lemma MulMonotone(a: nat, b: nat, c: nat)
    requires a <= b
    ensures a * c <= b * c
  {
    assert b * c == a * c + (b - a) * c;
  }

  lemma DivModUnique(p: nat, d: nat, q: nat, off: nat)
    requires 0 < d && off < d && p == q * d + off
    ensures p / d == q && p % d == off
  {
    var q', off' := p / d, p % d;
    assert p == q' * d + off';
    if q' < q {
      MulMonotone(q' + 1, q, d);
      assert false;
    } else if q < q' {
      MulMonotone(q + 1, q', d);
      assert false;
    }
  }

  /** Every coordinate inside an extent falls in a stride slot below the
      cell count, and the stride is positive there. */
  lemma StrideBound(p: nat, size: nat, padding: int, count: int)
    requires count >= 1 && padding >= 0 && p < Extent(size, count, padding)
    ensures size + padding > 0
    ensures p / (size + padding) < count
  {
    var d := size + padding;
    assert Extent(size, count, padding) == d * count - padding;
    assert d * count > 0;
    if p / d >= count {
      MulMonotone(count, p / d, d);
      assert false;
    }
  }

  // ---------------------------------------------------------------------
  // Cell geometry

  /** Cell `idx` of the grid lies wholly inside the canvas. */
  lemma CellInsideCanvas(layout: Layout, w: nat, h: nat, idx: nat)
    requires layout.Valid() && idx < layout.Cells()
    ensures CellOrigin(idx, w, h, layout).0 + w <= Extent(w, layout.cols, layout.padding)
    ensures CellOrigin(idx, w, h, layout).1 + h <= Extent(h, layout.rows, layout.padding)
  {
    var cols, rows, pad := layout.cols, layout.rows, layout.padding;
    var col, row := idx % cols, idx / cols;
    assert row < rows by {
      if row >= rows {
        MulMonotone(rows, row, cols);
        assert false;
      }
    }
    assert col * (w + pad) <= (cols - 1) * (w + pad) by {
      MulMonotone(col, cols - 1, w + pad);
    }
    assert row * (h + pad) <= (rows - 1) * (h + pad) by {
      MulMonotone(row, rows - 1, h + pad);
    }
    LastCellEnd(w, cols, pad);
    LastCellEnd(h, rows, pad);
  }

  /** The last cell of a line ends where the line does. */
  lemma LastCellEnd(size: nat, count: int, padding: int)
    requires count >= 1 && padding >= 0
    ensures (count - 1) * (size + padding) + size == Extent(size, count, padding)
  {
  }

  /** A pixel in the box of cell `idx` reads back as cell `idx`, at its
      offset from the cell origin. */
  lemma InCellSlot(layout: Layout, w: nat, h: nat, idx: nat, x: nat, y: nat)
    requires layout.Valid() && idx < layout.Cells()
    requires x < Extent(w, layout.cols, layout.padding)
    requires y < Extent(h, layout.rows, layout.padding)
    requires InCell(layout, w, h, idx, x, y)
    ensures SlotAt(layout, w, h, x, y) ==
      Some(Slot(idx, x - CellOrigin(idx, w, h, layout).0, y - CellOrigin(idx, w, h, layout).1))
  {
    var cols, pad := layout.cols, layout.padding;
    var sx, sy := w + pad, h + pad;
    var col, row := idx % cols, idx / cols;
    var origin := CellOrigin(idx, w, h, layout);
    StrideBound(x, w, pad, cols);
    StrideBound(y, h, pad, layout.rows);
    DivModUnique(x, sx, col, x - origin.0);
    DivModUnique(y, sy, row, y - origin.1);
    assert row * cols + col == idx;
  }

  /** A pixel that reads back as cell `idx` lies in that cell's box. */
  lemma SlotInCell(layout: Layout, w: nat, h: nat, idx: nat, x: nat, y: nat)
    requires layout.Valid()
    requires x < Extent(w, layout.cols, layout.padding)
    requires y < Extent(h, layout.rows, layout.padding)
    requires SlotAt(layout, w, h, x, y).Some? && SlotAt(layout, w, h, x, y).value.cell == idx
    ensures InCell(layout, w, h, idx, x, y)
  {
    var cols, pad := layout.cols, layout.padding;
    StrideBound(x, w, pad, cols);
    StrideBound(y, h, pad, layout.rows);
    var sx, sy := w + pad, h + pad;
    var c, r := x / sx, y / sy;
    assert x % sx < w && y % sy < h && idx == r * cols + c;
    assert idx % cols == c && idx / cols == r by {
      DivModUnique(idx, cols, r, c);
    }
    assert c * sx <= x < c * sx + w by {
      OffsetInBox(x, w, sx);
    }
    assert r * sy <= y < r * sy + h by {
      OffsetInBox(y, h, sy);
    }
  }

  /** A coordinate whose remainder by the stride is below `size` lies in
      the box starting at its stride multiple. */
  lemma OffsetInBox(p: nat, size: nat, stride: nat)
    requires stride > 0 && p % stride < size
    ensures (p / stride) * stride <= p < (p / stride) * stride + size
  {
  }

  /** A canvas pixel lies in the box of cell `idx` exactly when reading the
      geometry back from the pixel names cell `idx`, at the pixel's offset
      from the cell origin. */
  lemma CellSlot(layout: Layout, w: nat, h: nat, idx: nat, x: nat, y: nat)
    requires layout.Valid() && idx < layout.Cells()
    requires x < Extent(w, layout.cols, layout.padding)
    requires y < Extent(h, layout.rows, layout.padding)
    ensures InCell(layout, w, h, idx, x, y) <==>
      SlotAt(layout, w, h, x, y).Some? && SlotAt(layout, w, h, x, y).value.cell == idx
    ensures InCell(layout, w, h, idx, x, y) ==>
      SlotAt(layout, w, h, x, y).value ==
        Slot(idx, x - CellOrigin(idx, w, h, layout).0, y - CellOrigin(idx, w, h, layout).1)
  {
    if InCell(layout, w, h, idx, x, y) {
      InCellSlot(layout, w, h, idx, x, y);
    }
    var slot := SlotAt(layout, w, h, x, y);
    if slot.Some? && slot.value.cell == idx {
      SlotInCell(layout, w, h, idx, x, y);
    }
  }

  /** Distinct cells never share a pixel. */
  lemma CellsDisjoint(layout: Layout, w: nat, h: nat, i: nat, j: nat, x: nat, y: nat)
    requires layout.Valid() && i < layout.Cells() && j < layout.Cells() && i != j
    ensures !(InCell(layout, w, h, i, x, y) && InCell(layout, w, h, j, x, y))
  {
    if InCell(layout, w, h, i, x, y) {
      CellInsideCanvas(layout, w, h, i);
      CellSlot(layout, w, h, i, x, y);
      CellSlot(layout, w, h, j, x, y);
    }
  }

  /** Every slot read back from the canvas names a cell of the grid. */
  lemma SlotInGrid(layout: Layout, w: nat, h: nat, x: nat, y: nat)
    requires layout.Valid()
    requires x < Extent(w, layout.cols, layout.padding)
    requires y < Extent(h, layout.rows, layout.padding)
    ensures SlotAt(layout, w, h, x, y).Some? ==> SlotAt(layout, w, h, x, y).value.cell < layout.Cells()
  {
    var cols, rows, pad := layout.cols, layout.rows, layout.padding;
    StrideBound(x, w, pad, cols);
    StrideBound(y, h, pad, rows);
    var c, r := x / (w + pad), y / (h + pad);
    MulMonotone(r, rows - 1, cols);
    assert r * cols + c < rows * cols;
  }

  // ---------------------------------------------------------------------
  // The paste loop

  lemma PasteCellStep(canvas: Image, frames: seq<Image>, layout: Layout, idx: nat)
    requires layout.Valid() && |frames| > 0 && Uniform(frames) && idx < layout.Cells()
    requires IsCanvasFor(canvas, frames, layout) && ShowsPartial(canvas, frames, layout, idx)
    ensures IsCanvasFor(PasteCell(canvas, frames, layout, idx), frames, layout)
    ensures ShowsPartial(PasteCell(canvas, frames, layout, idx), frames, layout, idx + 1)
  {
    var w, h := frames[0].width, frames[0].height;
    var next := PasteCell(canvas, frames, layout, idx);
    forall x: nat, y: nat | x < next.width && y < next.height
      ensures next.At(x, y) == PartialPixel(frames, layout, idx + 1, x, y)
    {
      CellSlot(layout, w, h, idx, x, y);
    }
  }

  lemma {:induction false} PasteCellsShowsGrid(canvas: Image, frames: seq<Image>, layout: Layout, idx: nat)
    requires layout.Valid() && |frames| > 0 && Uniform(frames) && idx <= layout.Cells()
    requires IsCanvasFor(canvas, frames, layout) && ShowsPartial(canvas, frames, layout, idx)
    ensures IsCanvasFor(PasteCells(canvas, frames, layout, idx), frames, layout)
    ensures forall x: nat, y: nat :: x < GridWidth(frames, layout) && y < GridHeight(frames, layout) ==>
      PasteCells(canvas, frames, layout, idx).At(x, y) == ExpectedPixel(frames, layout, x, y)
    decreases layout.Cells() - idx
  {
    if idx < layout.Cells() {
      PasteCellStep(canvas, frames, layout, idx);
      PasteCellsShowsGrid(PasteCell(canvas, frames, layout, idx), frames, layout, idx + 1);
    } else {
      forall x: nat, y: nat | x < GridWidth(frames, layout) && y < GridHeight(frames, layout)
        ensures canvas.At(x, y) == ExpectedPixel(frames, layout, x, y)
      {
        SlotInGrid(layout, frames[0].width, frames[0].height, x, y);
      }
    }
  }

  // ---------------------------------------------------------------------
  // Properties of the composed grid

  /** Frame `idx`, when it exists and the grid has a cell for it, appears
      at native resolution with its top-left pixel at the cell origin, and
      that whole box lies inside the canvas. */
  lemma PlacedFramePixels(frames: seq<Image>, layout: Layout, idx: nat, dx: nat, dy: nat)
    requires layout.Valid() && Uniform(frames)
    requires idx < |frames| && idx < layout.Cells()
    requires dx < frames[0].width && dy < frames[0].height
    ensures ImageGrid(frames, layout).Success?
    ensures var g := ImageGrid(frames, layout).value;
            var origin := CellOrigin(idx, frames[0].width, frames[0].height, layout);
            && origin.0 + dx < g.width && origin.1 + dy < g.height
            && g.At(origin.0 + dx, origin.1 + dy) == frames[idx].At(dx, dy)
  {
    var w, h := frames[0].width, frames[0].height;
    var origin := CellOrigin(idx, w, h, layout);
    CellInsideCanvas(layout, w, h, idx);
    InCellSlot(layout, w, h, idx, origin.0 + dx, origin.1 + dy);
  }

  /** A cell of the grid with no frame for it is left white throughout. */
  lemma EmptyCellWhite(frames: seq<Image>, layout: Layout, idx: nat, dx: nat, dy: nat)
    requires layout.Valid() && Uniform(frames) && |frames| > 0
    requires |frames| <= idx < layout.Cells()
    requires dx < frames[0].width && dy < frames[0].height
    ensures ImageGrid(frames, layout).Success?
    ensures var g := ImageGrid(frames, layout).value;
            var origin := CellOrigin(idx, frames[0].width, frames[0].height, layout);
            && origin.0 + dx < g.width && origin.1 + dy < g.height
            && g.At(origin.0 + dx, origin.1 + dy) == White
  {
    var w, h := frames[0].width, frames[0].height;
    var origin := CellOrigin(idx, w, h, layout);
    CellInsideCanvas(layout, w, h, idx);
    InCellSlot(layout, w, h, idx, origin.0 + dx, origin.1 + dy);
  }

  /** A canvas pixel that no placed frame covers (a padding strip, or a
      cell beyond the last frame) stays white. */
  lemma UncoveredPixelsWhite(frames: seq<Image>, layout: Layout, x: nat, y: nat)
    requires layout.Valid() && Uniform(frames) && |frames| > 0
    requires x < GridWidth(frames, layout) && y < GridHeight(frames, layout)
    requires forall idx: nat :: idx < |frames| && idx < layout.Cells() ==>
      !InCell(layout, frames[0].width, frames[0].height, idx, x, y)
    ensures ImageGrid(frames, layout).Success?
    ensures ImageGrid(frames, layout).value.At(x, y) == White
  {
    var w, h := frames[0].width, frames[0].height;
    var slot := SlotAt(layout, w, h, x, y);
    if slot.Some? && slot.value.cell < |frames| {
      SlotInGrid(layout, w, h, x, y);
      SlotInCell(layout, w, h, slot.value.cell, x, y);
      assert false;
    }
  }

  /** Frames past the last cell are never pasted: the grid is the same as
      for the first `rows * cols` frames alone. */
  lemma ExtraFramesIgnored(frames: seq<Image>, layout: Layout)
    requires layout.Valid() && Uniform(frames) && |frames| > layout.Cells()
    ensures ImageGrid(frames, layout) == ImageGrid(frames[..layout.Cells()], layout)
  {
    var shown := frames[..layout.Cells()];
    var a, b := ImageGrid(frames, layout).value, ImageGrid(shown, layout).value;
    forall x: nat, y: nat | x < a.width && y < a.height
      ensures a.At(x, y) == b.At(x, y)
    {
      SlotInGrid(layout, frames[0].width, frames[0].height, x, y);
    }
    SamePixelsSameImage(a, b);
  }

  /** One 100x100 frame in the default 3x3 grid with padding 10: a 320x320
      canvas with the frame in its top-left corner and white elsewhere. */
  lemma SingleFrameGrid(frame: Image)
    requires frame.Valid() && frame.width == 100 && frame.height == 100
    ensures ImageGrid([frame], DefaultLayout).Success?
    ensures var g := ImageGrid([frame], DefaultLayout).value;
            && g.width == 320 && g.height == 320
            && forall x: nat, y: nat :: x < 320 && y < 320 ==>
                 g.At(x, y) == if x < 100 && y < 100 then frame.At(x, y) else White
  {
    var g := ImageGrid([frame], DefaultLayout).value;
    forall x: nat, y: nat | x < 320 && y < 320
      ensures g.At(x, y) == if x < 100 && y < 100 then frame.At(x, y) else White
    {
      CellSlot(DefaultLayout, 100, 100, 0, x, y);
      SlotInGrid(DefaultLayout, 100, 100, x, y);
    }
  }
}
