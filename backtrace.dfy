/** The top-down backtrace of `manipulatePixels`: starting from the first least
    cell of row 0 it walks down one row per step, each time to the first least of
    the three cells below (a side outside the row counts as +inf), and marks the
    cells it visits with -inf. */
module SeamTrace {
  import opened Extended
  import opened EnergyMap
  import opened Accumulation
  import Grid

  /** The flat index row * w of the first cell of a row, by repeated addition.
      The seam functions below index rows through it, which keeps their proofs
      free of products of two unknowns. */
  function RowStart(row: nat, w: nat): nat {
    if row == 0 then 0 else RowStart(row - 1, w) + w
  }

  lemma {:induction false} RowStartIsProduct(row: nat, w: nat)
    ensures RowStart(row, w) == row * w
  {
    if row > 0 {
      RowStartIsProduct(row - 1, w);
      assert (row - 1) * w + w == row * w;
    }
  }

  lemma RowStartNext(row: nat, next: nat, w: nat)
    requires next == row + 1
    ensures RowStart(next, w) == RowStart(row, w) + w
  {
    assert next - 1 == row;
  }

  /** Every row of a `w` by `h` grid lies inside its buffer. */
  lemma RowInGrid(row: nat, w: nat, h: nat)
    requires row < h
    ensures RowStart(row, w) + w <= w * h
  {
    RowStartIsProduct(row, w);
    Grid.MulMonotone(row + 1, h, w);
  }

  /** `energy.slice(0, w)`: the first w cells, fewer when the buffer is shorter. */
  function TopRow(g: seq<Cell>, w: nat): (r: seq<Cell>)
    ensures |r| == if w <= |g| then w else |g|
    ensures forall j :: 0 <= j < |r| ==> r[j] == g[j]
  {
    g[..if w <= |g| then w else |g|]
  }

  /** The cell in column d of the row below `row`. */
  function CellBelow(g: seq<Cell>, w: nat, h: nat, row: nat, d: nat): Cell
    requires |g| == w * h && row + 1 < h && d < w
  {
    RowInGrid(row + 1, w, h);
    g[RowStart(row + 1, w) + d]
  }

  /** The three values one step compares: left, centre and right below, a side
      outside the row being +inf. */
  function Candidates(g: seq<Cell>, w: nat, h: nat, row: nat, col: nat): (s: seq<Ext>)
    requires |g| == w * h && row + 1 < h && col < w
    ensures |s| == 3 && s[1] == CellBelow(g, w, h, row, col)
    ensures s[0] == if col > 0 then CellBelow(g, w, h, row, col - 1) else PosInf
    ensures s[2] == if col < w - 1 then CellBelow(g, w, h, row, col + 1) else PosInf
  {
    [ if col > 0 then CellBelow(g, w, h, row, col - 1) else PosInf,
      CellBelow(g, w, h, row, col),
      if col < w - 1 then CellBelow(g, w, h, row, col + 1) else PosInf ]
  }

  /** The column one step moves to: `col + indexOf(min) - 1` over the candidates.
      It stays in the grid, moves at most one column, and is the leftmost of the
      in-row columns below whose cell is least. */
  function NextCol(g: seq<Cell>, w: nat, h: nat, row: nat, col: nat): (r: int)
    requires |g| == w * h && row + 1 < h && col < w
    ensures 0 <= r < w && col - 1 <= r <= col + 1
  {
    var s := Candidates(g, w, h, row, col);
    FirstMinIsFirstLeast(s);
    col + FirstMin(s) - 1
  }

  /** The column a step moves to holds the least in-row cell below, and every
      in-row column left of it holds a strictly greater one: ties go left. */
  lemma NextColIsLeftmostLeast(g: seq<Cell>, w: nat, h: nat, row: nat, col: nat)
    requires |g| == w * h && row + 1 < h && col < w
    ensures var r := NextCol(g, w, h, row, col);
      && (forall d :: col - 1 <= d <= col + 1 && 0 <= d < w ==>
            LessEq(CellBelow(g, w, h, row, r), CellBelow(g, w, h, row, d)))
      && (forall d :: col - 1 <= d < r && 0 <= d ==>
            Less(CellBelow(g, w, h, row, r), CellBelow(g, w, h, row, d)))
  {
    var s := Candidates(g, w, h, row, col);
    FirstMinIsFirstLeast(s);
    assert forall d :: col - 1 <= d <= col + 1 && 0 <= d < w ==> CellBelow(g, w, h, row, d) == s[d - col + 1];
  }

  /** The buffer after writing -inf at every mark that lies inside it, in order;
      a mark past the end is dropped, as a Float32Array drops such a write. */
  function MarkAll(g: seq<Cell>, marks: seq<int>): (r: seq<Cell>)
    ensures |r| == |g|
    decreases |marks|
  {
    if |marks| == 0 then g
    else
      var r := MarkAll(g, marks[..|marks| - 1]);
      var m := marks[|marks| - 1];
      if 0 <= m < |r| then r[m := NegInf] else r
  }

  /** A cell ends up -inf exactly when it is one of the marks; every other cell
      keeps its value. */
  lemma {:induction false} MarkAllAt(g: seq<Cell>, marks: seq<int>, j: int)
    requires 0 <= j < |g|
    ensures MarkAll(g, marks)[j] == if j in marks then NegInf else g[j]
    decreases |marks|
  {
    if |marks| > 0 {
      var earlier := marks[..|marks| - 1];
      assert marks == earlier + [marks[|marks| - 1]];
      MarkAllAt(g, earlier, j);
    }
  }

  /** One more mark: the buffer gains -inf at that index, if it is inside. */
  lemma MarkAllSnoc(g: seq<Cell>, marks: seq<int>, m: int)
    ensures MarkAll(g, marks + [m]) ==
      if 0 <= m < |g| then MarkAll(g, marks)[m := NegInf] else MarkAll(g, marks)
  {
    assert (marks + [m])[..|marks|] == marks;
  }

  /** The cells a seam of columns `cols` (one per row from row 0) occupies. */
  function SeamMarks(w: nat, cols: seq<int>): seq<int> {
    seq(|cols|, k requires 0 <= k < |cols| => RowStart(k, w) + cols[k])
  }

  /** The indices the source writes: at step k `removalIndex` already holds the
      flat index k*w + cols[k], and line 105 adds k*w to it once more. */
  function AsWrittenMarks(w: nat, cols: seq<int>): seq<int> {
    seq(|cols|, k requires 0 <= k < |cols| => RowStart(k, w) + (RowStart(k, w) + cols[k]))
  }

  /** The first n columns the backtrace visits as written: every step reads the
      buffer carrying the marks of all steps so far, the current one included. */
  function AsWrittenCols(g: seq<Cell>, w: nat, h: nat, n: nat): (p: seq<int>)
    requires w > 0 && |g| == w * h && n <= h
    ensures |p| == n
    ensures forall k :: 0 <= k < n ==> 0 <= p[k] < w
    decreases n
  {
    if n == 0 then []
    else if n == 1 then
      RowInGrid(0, w, h);
      [FirstMin(TopRow(g, w))]
    else
      var p := AsWrittenCols(g, w, h, n - 1);
      p + [NextCol(MarkAll(g, AsWrittenMarks(w, p)), w, h, n - 2, p[n - 2])]
  }

  lemma AsWrittenMarksSnoc(w: nat, cols: seq<int>, c: int)
    ensures AsWrittenMarks(w, cols + [c]) == AsWrittenMarks(w, cols) + [RowStart(|cols|, w) + (RowStart(|cols|, w) + c)]
  {
  }

  lemma SeamMarksSnoc(w: nat, cols: seq<int>, c: int)
    ensures SeamMarks(w, cols + [c]) == SeamMarks(w, cols) + [RowStart(|cols|, w) + c]
  {
  }

  /** For a step from flat index row*w + col the source's row tests on the
      cells below keep a side exactly when it is inside the row. */
  lemma RowTests(w: nat, h: nat, row: nat, col: nat, centerIndex: int, leftIndex: int, rightIndex: int)
    requires w > 0 && row + 1 < h && col < w
    requires centerIndex == RowStart(row, w) + col + w && leftIndex == centerIndex - 1 && rightIndex == centerIndex + 1
    ensures centerIndex == RowStart(row + 1, w) + col && 0 <= centerIndex < w * h
    ensures (leftIndex / w == centerIndex / w) <==> col > 0
    ensures (rightIndex / w == centerIndex / w) <==> col < w - 1
  {
    RowStartIsProduct(row + 1, w);
    RowInGrid(row + 1, w, h);
    Grid.RowCol(row + 1, col, w);
    Grid.LeftInRow(centerIndex, w);
    Grid.RightInRow(centerIndex, w);
  }

  /** The source's reads for one step from flat index row*w + col are exactly
      the candidates of (row, col), and every cell it reads is inside the buffer. */
  lemma ReadsCandidates(g: seq<Cell>, w: nat, h: nat, row: nat, col: nat,
                        centerIndex: int, leftIndex: int, rightIndex: int)
    requires w > 0 && |g| == w * h && row + 1 < h && col < w
    requires centerIndex == RowStart(row, w) + col + w && leftIndex == centerIndex - 1 && rightIndex == centerIndex + 1
    ensures 0 <= centerIndex < |g|
    ensures leftIndex / w == centerIndex / w ==> 0 <= leftIndex
    ensures rightIndex / w == centerIndex / w ==> rightIndex < |g|
    ensures [ if leftIndex / w == centerIndex / w then g[leftIndex] else PosInf,
              g[centerIndex],
              if rightIndex / w == centerIndex / w then g[rightIndex] else PosInf ]
            == Candidates(g, w, h, row, col)
  {
    RowTests(w, h, row, col, centerIndex, leftIndex, rightIndex);
    RowInGrid(row + 1, w, h);
  }

  /** One step's choice, as the source writes it: from flat index
      `removalIndex` of (row, col), the row tests, the three reads below and
      `indexOf(Math.min(...)) - 1`. The offset moves to the step's column. */
  method StepOffset(energy: array<Cell>, w: nat, h: nat, row: nat, ghost col: int, removalIndex: int) returns (offset: int)
    requires w > 0 && energy.Length == w * h && row + 1 < h && 0 <= col < w
    requires removalIndex == RowStart(row, w) + col
    ensures col + offset == NextCol(energy[..], w, h, row, col)
    ensures -1 <= offset <= 1
  {
    var centerIndex := removalIndex + w;
    var leftIndex := centerIndex - 1;
    var rightIndex := centerIndex + 1;

    var centerY := centerIndex / w;
    var leftY := leftIndex / w;
    var rightY := rightIndex / w;

    var isLeftInBounds := leftY == centerY;
    var isRightInBounds := rightY == centerY;

    ReadsCandidates(energy[..], w, h, row, col, centerIndex, leftIndex, rightIndex);
    var values := [
      if isLeftInBounds then energy[leftIndex] else PosInf,
      energy[centerIndex],
      if isRightInBounds then energy[rightIndex] else PosInf];

    offset := FirstMin(values) - 1;
  }

  /** Writing the as-written mark of one more column. */
  lemma MarkNext(g0: seq<Cell>, w: nat, q: seq<int>, c: int, g: seq<Cell>, mark: int)
    requires g == MarkAll(g0, AsWrittenMarks(w, q))
    requires mark == RowStart(|q|, w) + (RowStart(|q|, w) + c)
    ensures (if 0 <= mark < |g| then g[mark := NegInf] else g) == MarkAll(g0, AsWrittenMarks(w, q + [c]))
  {
    AsWrittenMarksSnoc(w, q, c);
    MarkAllSnoc(g0, AsWrittenMarks(w, q), mark);
  }

  /** Line 105 as written: step `row` writes -inf at `row * w + removalIndex`,
      which is row 2 * row; a write past the end of the buffer is dropped. */
  method MarkAsWritten(energy: array<Cell>, w: nat, row: nat, removalIndex: int,
                       ghost g0: seq<Cell>, ghost done: seq<int>, ghost col: int)
    requires |done| == row && 0 <= col && removalIndex == RowStart(row, w) + col
    requires energy[..] == MarkAll(g0, AsWrittenMarks(w, done))
    modifies energy
    ensures energy[..] == MarkAll(g0, AsWrittenMarks(w, done + [col]))
  {
    RowStartIsProduct(row, w);
    var mark := row * w + removalIndex;
    MarkNext(g0, w, done, col, energy[..], mark);
    if mark < energy.Length {
      energy[mark] := NegInf;
    }
  }

  /** The as-written seam extended by the column one more step moves to. */
  lemma AsWrittenColsStep(g0: seq<Cell>, w: nat, h: nat, row: nat, cols: seq<int>, col: int, g: seq<Cell>, c: int)
    requires w > 0 && |g0| == w * h && row + 1 < h && |cols| == row + 1 && cols[row] == col
    requires cols == AsWrittenCols(g0, w, h, |cols|)
    requires g == MarkAll(g0, AsWrittenMarks(w, cols))
    requires c == col + FirstMin(Candidates(g, w, h, row, col)) - 1
    ensures cols + [c] == AsWrittenCols(g0, w, h, |cols + [c]|)
    ensures 0 <= c < w
  {
    var n := |cols + [c]|;
    var p := AsWrittenCols(g0, w, h, n - 1);
    assert n - 1 == |cols| && n - 2 == row;
    assert p == cols;
    assert NextCol(MarkAll(g0, AsWrittenMarks(w, p)), w, h, n - 2, p[n - 2]) == c;
  }

  /** The move at the end of a step: from the last column of `done`, in row
      `row`, by the offset the step picks, to the next as-written column and its
      flat index in row `row + 1`. */
  lemma Advance(g0: seq<Cell>, w: nat, h: nat, row: nat, done: seq<int>, prev: int, g: seq<Cell>, col: int, removalIndex: int)
    requires w > 0 && |g0| == w * h && |done| == row && row + 1 < h
    requires done + [prev] == AsWrittenCols(g0, w, h, |done + [prev]|)
    requires g == MarkAll(g0, AsWrittenMarks(w, done + [prev]))
    requires col == NextCol(g, w, h, row, prev)
    requires removalIndex == RowStart(row, w) + w + col
    ensures done + [prev] + [col] == AsWrittenCols(g0, w, h, |done + [prev] + [col]|)
    ensures 0 <= col < w && removalIndex == RowStart(row + 1, w) + col
  {
    AsWrittenColsStep(g0, w, h, row, done + [prev], prev, g, col);
    RowStartNext(row, row + 1, w);
  }

  /** The backtrace starts at the first least cell of the top row. */
  lemma FirstCol(g0: seq<Cell>, w: nat, h: nat, firstRow: seq<Cell>)
    requires w > 0 && |g0| == w * h && 0 < h
    requires firstRow == g0[..if w <= |g0| then w else |g0|]
    ensures [FirstMin(firstRow)] == AsWrittenCols(g0, w, h, |[FirstMin(firstRow)]|)
    ensures 0 <= FirstMin(firstRow) < w
  {
    assert firstRow == TopRow(g0, w);
  }

  /** One turn of the source's loop: the mark of line 105 as written, then,
      unless this is the last row, the step of lines 107-125 to the next column. */
  method TraceStep(energy: array<Cell>, w: nat, h: nat, i: nat, removalIndex: int,
            ghost g0: seq<Cell>, ghost done: seq<int>, ghost col: int) returns (next: int, ghost nextCol: int)
    requires w > 0 && energy.Length == w * h && |g0| == w * h && i < h && |done| == i
    requires done + [col] == AsWrittenCols(g0, w, h, |done + [col]|)
    requires 0 <= col < w && removalIndex == RowStart(i, w) + col
    requires energy[..] == MarkAll(g0, AsWrittenMarks(w, done))
    modifies energy
    ensures energy[..] == MarkAll(g0, AsWrittenMarks(w, done + [col]))
    ensures i + 1 < h ==> done + [col] + [nextCol] == AsWrittenCols(g0, w, h, |done + [col] + [nextCol]|)
    ensures i + 1 < h ==> 0 <= nextCol < w && next == RowStart(i + 1, w) + nextCol
  {
    MarkAsWritten(energy, w, i, removalIndex, g0, done, col);
    next, nextCol := removalIndex, col;
    if i + 1 < h {
      var offset := StepOffset(energy, w, h, i, col, removalIndex);
      next := removalIndex + w + offset;
      nextCol := col + offset;
      Advance(g0, w, h, i, done, col, energy[..], nextCol, next);
    }
  }

  /** The backtrace as the source writes it. The seam it follows is
      AsWrittenCols; the -inf marks land at AsWrittenMarks, i.e. in row 2k for
      step k, and a mark past the end of the buffer is dropped. The reads below
      the grid on the last step are not performed: the index they give is never used. */
  method Backtrace(energy: array<Cell>, w: nat, h: nat)
    requires w > 0 && energy.Length == w * h
    modifies energy
    ensures energy[..] == MarkAll(old(energy[..]), AsWrittenMarks(w, AsWrittenCols(old(energy[..]), w, h, h)))
  {
    ghost var g0 := energy[..];
    var firstRow := energy[..if w <= energy.Length then w else energy.Length];
    var removalIndex := FirstMin(firstRow);
    var i := 0;
    ghost var done: seq<int> := [];
    ghost var col := removalIndex;
    if h > 0 {
      FirstCol(g0, w, h, firstRow);
    }
    while i < h
      invariant 0 <= i <= h && |done| == i
      invariant done == AsWrittenCols(g0, w, h, |done|)
      invariant i < h ==> done + [col] == AsWrittenCols(g0, w, h, |done + [col]|)
      invariant i < h ==> 0 <= col < w && removalIndex == RowStart(i, w) + col
      invariant energy[..] == MarkAll(g0, AsWrittenMarks(w, done))
    {
      var next;
      ghost var nextCol;
      next, nextCol := TraceStep(energy, w, h, i, removalIndex, g0, done, col);
      done := done + [col];
      removalIndex, col := next, nextCol;
      i := i + 1;
    }
    assert |done| == h;
  }

  /** The cell at (row, col) of a `w` by `h` grid. */
  function GridCell(g: seq<Cell>, w: nat, h: nat, row: nat, col: nat): Cell
    requires |g| == w * h && row < h && col < w
  {
    RowInGrid(row, w, h);
    g[RowStart(row, w) + col]
  }

  lemma GridCellIndex(g: seq<Cell>, w: nat, h: nat, row: nat, col: nat)
    requires |g| == w * h && row < h && col < w
    ensures RowStart(row, w) + col < |g|
    ensures GridCell(g, w, h, row, col) == g[RowStart(row, w) + col]
  {
    RowInGrid(row, w, h);
  }
}
