/** `manipulatePixels` end to end on an RGBA buffer of a `w` by `h` canvas:
    energy fill, bottom-up DP, backtrace and render, all on one energy buffer.
    ManipulatePixels runs the backtrace as written (SeamTrace.Backtrace);
    ManipulatePixelsCorrected runs it with line 105 corrected
    (CorrectedTrace.BacktraceCorrected). */
module SeamCarving {
  import opened Extended
  import opened Convolution
  import opened EnergyMap
  import opened Accumulation
  import opened SeamTrace
  import opened SeamCells
  import opened CorrectedTrace
  import opened Render

  /** The buffer of integer energies is finite and gives its values back. */
  lemma LiftedFinite(e: seq<int>)
    ensures AllFinite(Lift(e)) && Values(Lift(e)) == e
  {
    var v := Values(Lift(e));
    assert forall j :: 0 <= j < |e| ==> Lift(v)[j] == Lift(e)[j];
  }

  /** The energy buffer as the backtrace receives it: the DP grid. */
  function DpGrid(px: seq<int>, w: nat, h: nat): (g: seq<Cell>)
    requires w > 0
    ensures |g| == w * h
  {
    Lift(AccGrid(EnergyGrid(px, w, h), w, h))
  }

  /** The columns the as-written backtrace follows, one per step. */
  function AsWrittenSeam(px: seq<int>, w: nat, h: nat): (p: seq<int>)
    requires w > 0
    ensures |p| == h && forall k :: 0 <= k < h ==> 0 <= p[k] < w
  {
    AsWrittenCols(DpGrid(px, w, h), w, h, h)
  }

  /** The seam the corrected backtrace marks: one column per row, from the top. */
  function Seam(px: seq<int>, w: nat, h: nat): (p: seq<int>)
    requires w > 0
    ensures |p| == h
  {
    GreedyCols(DpGrid(px, w, h), w, h, h)
  }

  /** The range the DP loop leaves in `min` and `max`. */
  function RangeMin(px: seq<int>, w: nat, h: nat): Ext
    requires w > 0
  {
    RunningMin(Added(EnergyGrid(px, w, h), w, h), 0)
  }

  function RangeMax(px: seq<int>, w: nat, h: nat): Ext
    requires w > 0
  {
    RunningMax(Added(EnergyGrid(px, w, h), w, h), 0)
  }

  /** The bytes of the canvas after `manipulatePixels` as written. */
  function Processed(px: seq<int>, w: nat, h: nat): (out: seq<Byte>)
    requires w > 0
    ensures |out| == 4 * (w * h)
  {
    Rendered(MarkAll(DpGrid(px, w, h), AsWrittenMarks(w, AsWrittenSeam(px, w, h))), RangeMin(px, w, h), RangeMax(px, w, h))
  }

  /** The bytes of the canvas after `manipulatePixels` with line 105 corrected. */
  function ProcessedCorrected(px: seq<int>, w: nat, h: nat): (out: seq<Byte>)
    requires w > 0
    ensures |out| == 4 * (w * h)
  {
    Rendered(MarkAll(DpGrid(px, w, h), SeamMarks(w, Seam(px, w, h))), RangeMin(px, w, h), RangeMax(px, w, h))
  }

  /** The four passes over the buffers, as the source writes them. A zero-width
      canvas has no pixels: the DP loop would start at index -1 and every
      backtrace write would fall outside the buffer, so only the (empty) fill
      and render remain. */
  method ManipulatePixels(pixels: array<Byte>, w: nat, h: nat)
    requires pixels.Length == 4 * (w * h)
    modifies pixels
    ensures w > 0 ==> pixels[..] == Processed(old(pixels[..]), w, h)
    ensures w == 0 ==> pixels[..] == old(pixels[..])
  {
    ghost var px := pixels[..];
    assert w == 0 ==> px == [] by {
      if w == 0 {
        assert w * h == 0;
      }
    }
    var energy := BuildEnergy(pixels, w, h);
    var min, max := PosInf, NegInf;
    if w > 0 {
      LiftedFinite(EnergyGrid(px, w, h));
      min, max := Accumulate(energy, w, h);
      Backtrace(energy, w, h);
    }
    RenderPixels(pixels, energy, min, max);
  }

  /** The same passes with the corrected backtrace. */
  method ManipulatePixelsCorrected(pixels: array<Byte>, w: nat, h: nat)
    requires pixels.Length == 4 * (w * h)
    modifies pixels
    ensures w > 0 ==> pixels[..] == ProcessedCorrected(old(pixels[..]), w, h)
    ensures w == 0 ==> pixels[..] == old(pixels[..])
  {
    ghost var px := pixels[..];
    assert w == 0 ==> px == [] by {
      if w == 0 {
        assert w * h == 0;
      }
    }
    var energy := BuildEnergy(pixels, w, h);
    var min, max := PosInf, NegInf;
    if w > 0 {
      LiftedFinite(EnergyGrid(px, w, h));
      min, max := Accumulate(energy, w, h);
      BacktraceCorrected(energy, w, h);
    }
    RenderPixels(pixels, energy, min, max);
  }

  /** The cell of (row, col) that the render loop of the source reads: -inf
      exactly when row is even and the backtrace was in column col at step
      row / 2, and the DP value elsewhere. */
  lemma AsWrittenDpCell(px: seq<int>, w: nat, h: nat, row: nat, col: nat)
    requires w > 0 && row < h && col < w
    ensures RowStart(row, w) + col < w * h
    ensures MarkAll(DpGrid(px, w, h), AsWrittenMarks(w, AsWrittenSeam(px, w, h)))[RowStart(row, w) + col] ==
      if row % 2 == 0 && AsWrittenSeam(px, w, h)[row / 2] == col then NegInf
      else Fin(Acc(EnergyGrid(px, w, h), w, h, row, col))
  {
    var g := DpGrid(px, w, h);
    var cells := MarkAll(g, AsWrittenMarks(w, AsWrittenSeam(px, w, h)));
    GridCellIndex(g, w, h, row, col);
    GridCellIndex(cells, w, h, row, col);
    AsWrittenMarksAt(g, w, h, AsWrittenSeam(px, w, h), row, col);
    RowStartIsProduct(row, w);
    AccGridAt(EnergyGrid(px, w, h), w, h, row, col);
  }

  /** Pixel (row, col) of the source's output is red exactly when row is even
      and the backtrace was in column col at step row / 2; every other pixel is
      grey at the normalised DP value of its cell. */
  lemma ProcessedAsWritten(px: seq<int>, w: nat, h: nat, row: nat, col: nat)
    requires w > 0 && row < h && col < w
    ensures RowStart(row, w) + col < w * h
    ensures var out := Processed(px, w, h);
      var marked := row % 2 == 0 && AsWrittenSeam(px, w, h)[row / 2] == col;
      && (PixelOf(out, RowStart(row, w) + col) == Red <==> marked)
      && (!marked ==>
            PixelOf(out, RowStart(row, w) + col) ==
            Grey(GreyLevel(Acc(EnergyGrid(px, w, h), w, h, row, col), RangeMin(px, w, h), RangeMax(px, w, h))))
  {
    var cells := MarkAll(DpGrid(px, w, h), AsWrittenMarks(w, AsWrittenSeam(px, w, h)));
    var lo, hi := RangeMin(px, w, h), RangeMax(px, w, h);
    assert Processed(px, w, h) == Rendered(cells, lo, hi);
    AsWrittenDpCell(px, w, h, row, col);
    RenderedCell(cells, lo, hi, RowStart(row, w) + col);
  }

  /** The flaw of line 105 in the output: on a canvas of two or more rows no
      pixel of row 1 is red. */
  lemma ProcessedRowOneNotRed(px: seq<int>, w: nat, h: nat, col: nat)
    requires w > 0 && 2 <= h && col < w
    ensures RowStart(1, w) + col < w * h
    ensures PixelOf(Processed(px, w, h), RowStart(1, w) + col) != Red
  {
    var cells := MarkAll(DpGrid(px, w, h), AsWrittenMarks(w, AsWrittenSeam(px, w, h)));
    var lo, hi := RangeMin(px, w, h), RangeMax(px, w, h);
    assert Processed(px, w, h) == Rendered(cells, lo, hi);
    AsWrittenDpCell(px, w, h, 1, col);
    RenderedCell(cells, lo, hi, RowStart(1, w) + col);
  }

  /** With line 105 corrected, the cell of (row, col) that the render loop
      reads: -inf exactly on the seam, and the DP value elsewhere. */
  lemma MarkedDpCell(px: seq<int>, w: nat, h: nat, row: nat, col: nat)
    requires w > 0 && row < h && col < w
    ensures RowStart(row, w) + col < w * h
    ensures MarkAll(DpGrid(px, w, h), SeamMarks(w, Seam(px, w, h)))[RowStart(row, w) + col] ==
      if col == Seam(px, w, h)[row] then NegInf else Fin(Acc(EnergyGrid(px, w, h), w, h, row, col))
  {
    var g := DpGrid(px, w, h);
    var cells := MarkAll(g, SeamMarks(w, Seam(px, w, h)));
    GridCellIndex(g, w, h, row, col);
    GridCellIndex(cells, w, h, row, col);
    SeamMarksAt(g, w, h, Seam(px, w, h), row, col);
    RowStartIsProduct(row, w);
    AccGridAt(EnergyGrid(px, w, h), w, h, row, col);
  }

  /** With line 105 corrected, pixel (row, col) of the result is red exactly on
      the seam; every other pixel is grey at the normalised DP value of its cell. */
  lemma ProcessedMarksSeam(px: seq<int>, w: nat, h: nat, row: nat, col: nat)
    requires w > 0 && row < h && col < w
    ensures RowStart(row, w) + col < w * h
    ensures var out := ProcessedCorrected(px, w, h);
      && (PixelOf(out, RowStart(row, w) + col) == Red <==> col == Seam(px, w, h)[row])
      && (col != Seam(px, w, h)[row] ==>
            PixelOf(out, RowStart(row, w) + col) ==
            Grey(GreyLevel(Acc(EnergyGrid(px, w, h), w, h, row, col), RangeMin(px, w, h), RangeMax(px, w, h))))
  {
    var cells := MarkAll(DpGrid(px, w, h), SeamMarks(w, Seam(px, w, h)));
    var lo, hi := RangeMin(px, w, h), RangeMax(px, w, h);
    assert ProcessedCorrected(px, w, h) == Rendered(cells, lo, hi);
    MarkedDpCell(px, w, h, row, col);
    RenderedCell(cells, lo, hi, RowStart(row, w) + col);
  }

  /** The seam the corrected backtrace marks is a least-energy seam of the
      energy grid. */
  lemma ProcessedSeamIsOptimal(px: seq<int>, w: nat, h: nat, q: seq<int>)
    requires w > 0 && IsSeam(w, h, 0, q)
    ensures IsSeam(w, h, 0, Seam(px, w, h))
    ensures PathCost(EnergyGrid(px, w, h), w, h, 0, Seam(px, w, h)) <= PathCost(EnergyGrid(px, w, h), w, h, 0, q)
  {
    GreedySeamIsOptimal(EnergyGrid(px, w, h), w, h, q);
  }
}
