/** The backtrace as evidently intended: line 105 writes -inf at `removalIndex`
    itself, so step k marks the seam's own cell in row k, and since no mark lies
    below the current row every step reads the grid as the DP left it. On the
    DP grid this greedy descent is a least-energy seam. */
module CorrectedTrace {
  import opened Extended
  import opened EnergyMap
  import opened Accumulation
  import opened SeamTrace
  import opened SeamCells

  /** The first n columns of the greedy descent over the unmarked grid g. */
  function GreedyCols(g: seq<Cell>, w: nat, h: nat, n: nat): (p: seq<int>)
    requires w > 0 && |g| == w * h && n <= h
    ensures |p| == n
    ensures forall k :: 0 <= k < n ==> 0 <= p[k] < w
    decreases n
  {
    if n == 0 then []
    else if n == 1 then
      RowInGrid(0, w, h);
      [FirstMin(TopRow(g, w))]
    else
      var p := GreedyCols(g, w, h, n - 1);
      p + [NextCol(g, w, h, n - 2, p[n - 2])]
  }

  /** The descent starts at the first least cell of the top row. */
  lemma {:induction false} GreedyFirst(g: seq<Cell>, w: nat, h: nat, n: nat)
    requires w > 0 && |g| == w * h && 0 < n <= h
    ensures w <= |g| && GreedyCols(g, w, h, n)[0] == FirstMin(TopRow(g, w))
    decreases n
  {
    RowInGrid(0, w, h);
    if n > 1 {
      GreedyFirst(g, w, h, n - 1);
    }
  }

  /** Each further column is the step NextCol takes from the one above it. */
  lemma {:induction false} GreedyStep(g: seq<Cell>, w: nat, h: nat, n: nat, k: nat)
    requires w > 0 && |g| == w * h && k + 1 < n <= h
    ensures GreedyCols(g, w, h, n)[k + 1] == NextCol(g, w, h, k, GreedyCols(g, w, h, n)[k])
    decreases n
  {
    var p := GreedyCols(g, w, h, n - 1);
    assert GreedyCols(g, w, h, n) == p + [NextCol(g, w, h, n - 2, p[n - 2])];
    if k + 1 < n - 1 {
      GreedyStep(g, w, h, n - 1, k);
    } else {
      assert k == n - 2;
    }
  }

  /** The full descent is a seam: one column per row, adjacent rows at most one
      column apart. */
  lemma GreedyIsSeam(g: seq<Cell>, w: nat, h: nat)
    requires w > 0 && |g| == w * h
    ensures IsSeam(w, h, 0, GreedyCols(g, w, h, h))
  {
    var p := GreedyCols(g, w, h, h);
    forall k | 0 <= k < |p| - 1
      ensures p[k] - 1 <= p[k + 1] <= p[k] + 1
    {
      GreedyStep(g, w, h, h, k);
    }
  }

  /** The flat index of (row, col) is one of a seam's cells exactly when the
      seam passes through col in that row. */
  lemma SeamMarkHit(w: nat, p: seq<int>, row: nat, col: nat, j: int)
    requires col < w && j == RowStart(row, w) + col
    requires forall k :: 0 <= k < |p| ==> 0 <= p[k] < w
    ensures (j in SeamMarks(w, p)) == (row < |p| && p[row] == col)
  {
    var marks := SeamMarks(w, p);
    if row < |p| && p[row] == col {
      assert marks[row] == j;
    } else if j in marks {
      var k :| 0 <= k < |marks| && marks[k] == j;
      RowStartInjective(k, p[k], row, col, w);
      assert false;
    }
  }

  /** Marking a seam's cells turns exactly those cells -inf. */
  lemma SeamMarksAt(g: seq<Cell>, w: nat, h: nat, p: seq<int>, row: nat, col: nat)
    requires |g| == w * h && row < h && col < w
    requires forall k :: 0 <= k < |p| ==> 0 <= p[k] < w
    ensures GridCell(MarkAll(g, SeamMarks(w, p)), w, h, row, col) ==
      if row < |p| && p[row] == col then NegInf else GridCell(g, w, h, row, col)
  {
    var hit := row < |p| && p[row] == col;
    SeamMarkHit(w, p, row, col, RowStart(row, w) + col);
    MarkedCell(g, w, h, SeamMarks(w, p), row, col, hit);
  }

  /** With the marking fixed the result has one -inf cell in every row, in the
      descent's column, and every other cell keeps its value. */
  lemma CorrectedMarksEveryRow(g: seq<Cell>, w: nat, h: nat, row: nat, col: nat)
    requires w > 0 && |g| == w * h && row < h && col < w && AllFinite(g)
    ensures var r := MarkAll(g, SeamMarks(w, GreedyCols(g, w, h, h)));
      && (GridCell(r, w, h, row, col) == NegInf <==> col == GreedyCols(g, w, h, h)[row])
      && (col != GreedyCols(g, w, h, h)[row] ==> GridCell(r, w, h, row, col) == GridCell(g, w, h, row, col))
  {
    SeamMarksAt(g, w, h, GreedyCols(g, w, h, h), row, col);
    GridCellIndex(g, w, h, row, col);
  }

  /** A cell of the row below `row` is not yet marked while the seam has
      reached only rows up to `row`. */
  lemma CellBelowUnmarked(g0: seq<Cell>, w: nat, h: nat, q: seq<int>, row: nat, d: nat)
    requires |g0| == w * h && row + 1 < h && d < w && |q| == row + 1
    requires forall k :: 0 <= k < |q| ==> 0 <= q[k] < w
    ensures CellBelow(MarkAll(g0, SeamMarks(w, q)), w, h, row, d) == CellBelow(g0, w, h, row, d)
  {
    var marks := SeamMarks(w, q);
    SeamMarkHit(w, q, row + 1, d, RowStart(row + 1, w) + d);
    MarkedCell(g0, w, h, marks, row + 1, d, false);
    GridCellIndex(g0, w, h, row + 1, d);
    GridCellIndex(MarkAll(g0, marks), w, h, row + 1, d);
  }

  /** No cell of the row below `row` is marked yet. */
  lemma RowBelowUnmarked(g0: seq<Cell>, w: nat, h: nat, q: seq<int>, row: nat)
    requires |g0| == w * h && row + 1 < h && |q| == row + 1
    requires forall k :: 0 <= k < |q| ==> 0 <= q[k] < w
    ensures forall d :: 0 <= d < w ==> CellBelow(MarkAll(g0, SeamMarks(w, q)), w, h, row, d) == CellBelow(g0, w, h, row, d)
  {
    forall d | 0 <= d < w
      ensures CellBelow(MarkAll(g0, SeamMarks(w, q)), w, h, row, d) == CellBelow(g0, w, h, row, d)
    {
      CellBelowUnmarked(g0, w, h, q, row, d);
    }
  }

  /** Two grids that agree on the cells below (row, col) give the same candidates. */
  lemma CandidatesAgree(g: seq<Cell>, g0: seq<Cell>, w: nat, h: nat, row: nat, col: nat)
    requires |g| == w * h && |g0| == w * h && row + 1 < h && col < w
    requires CellBelow(g, w, h, row, col) == CellBelow(g0, w, h, row, col)
    requires col > 0 ==> CellBelow(g, w, h, row, col - 1) == CellBelow(g0, w, h, row, col - 1)
    requires col < w - 1 ==> CellBelow(g, w, h, row, col + 1) == CellBelow(g0, w, h, row, col + 1)
    ensures Candidates(g, w, h, row, col) == Candidates(g0, w, h, row, col)
  {
    var s, t := Candidates(g, w, h, row, col), Candidates(g0, w, h, row, col);
    assert s[0] == t[0] && s[1] == t[1] && s[2] == t[2];
    assert forall k :: 0 <= k < 3 ==> s[k] == t[k];
  }

  /** So a step reads the same candidates as on the unmarked grid. */
  lemma CandidatesUnmarked(g0: seq<Cell>, w: nat, h: nat, q: seq<int>, row: nat, col: nat, g: seq<Cell>)
    requires |g0| == w * h && row + 1 < h && col < w && |q| == row + 1
    requires forall k :: 0 <= k < |q| ==> 0 <= q[k] < w
    requires g == MarkAll(g0, SeamMarks(w, q))
    ensures Candidates(g, w, h, row, col) == Candidates(g0, w, h, row, col)
  {
    RowBelowUnmarked(g0, w, h, q, row);
    CandidatesAgree(g, g0, w, h, row, col);
  }

  /** Writing the mark of one more seam cell. */
  lemma MarkSeamNext(g0: seq<Cell>, w: nat, q: seq<int>, c: int, g: seq<Cell>, mark: int)
    requires g == MarkAll(g0, SeamMarks(w, q))
    requires mark == RowStart(|q|, w) + c && 0 <= mark < |g|
    ensures g[mark := NegInf] == MarkAll(g0, SeamMarks(w, q + [c]))
  {
    SeamMarksSnoc(w, q, c);
    MarkAllSnoc(g0, SeamMarks(w, q), mark);
  }

  /** Line 105 corrected: step `row` writes -inf at `removalIndex`, the cell of
      the seam in row `row`. */
  method MarkSeamCell(energy: array<Cell>, w: nat, h: nat, row: nat, removalIndex: int,
                      ghost g0: seq<Cell>, ghost done: seq<int>, ghost col: int)
    requires energy.Length == w * h && |done| == row && row < h && 0 <= col < w
    requires removalIndex == RowStart(row, w) + col
    requires energy[..] == MarkAll(g0, SeamMarks(w, done))
    modifies energy
    ensures energy[..] == MarkAll(g0, SeamMarks(w, done + [col]))
  {
    RowInGrid(row, w, h);
    MarkSeamNext(g0, w, done, col, energy[..], removalIndex);
    energy[removalIndex] := NegInf;
  }

  /** The descent extended by the column one more step moves to. */
  lemma GreedyColsStep(g0: seq<Cell>, w: nat, h: nat, row: nat, cols: seq<int>, col: int, c: int)
    requires w > 0 && |g0| == w * h && row + 1 < h && |cols| == row + 1 && cols[row] == col
    requires cols == GreedyCols(g0, w, h, |cols|)
    requires c == col + FirstMin(Candidates(g0, w, h, row, col)) - 1
    ensures cols + [c] == GreedyCols(g0, w, h, |cols + [c]|)
    ensures 0 <= c < w
  {
    var n := |cols + [c]|;
    var p := GreedyCols(g0, w, h, n - 1);
    assert n - 1 == |cols| && n - 2 == row;
    assert p == cols;
    assert NextCol(g0, w, h, n - 2, p[n - 2]) == c;
    assert GreedyCols(g0, w, h, n) == p + [NextCol(g0, w, h, n - 2, p[n - 2])];
  }

  /** The move at the end of a corrected step, from the last column of `done`,
      in row `row`, to the next column of the descent and its flat index in row
      `row + 1`. */
  lemma AdvanceGreedy(g0: seq<Cell>, w: nat, h: nat, row: nat, done: seq<int>, prev: int, g: seq<Cell>, col: int, removalIndex: int)
    requires w > 0 && |g0| == w * h && |done| == row && row + 1 < h
    requires done + [prev] == GreedyCols(g0, w, h, |done + [prev]|)
    requires g == MarkAll(g0, SeamMarks(w, done + [prev]))
    requires col == NextCol(g, w, h, row, prev)
    requires removalIndex == RowStart(row, w) + w + col
    ensures done + [prev] + [col] == GreedyCols(g0, w, h, |done + [prev] + [col]|)
    ensures 0 <= col < w && removalIndex == RowStart(row + 1, w) + col
  {
    CandidatesUnmarked(g0, w, h, done + [prev], row, prev, g);
    GreedyColsStep(g0, w, h, row, done + [prev], prev, col);
    RowStartNext(row, row + 1, w);
  }

  lemma FirstGreedyCol(g0: seq<Cell>, w: nat, h: nat, firstRow: seq<Cell>)
    requires w > 0 && |g0| == w * h && 0 < h
    requires firstRow == g0[..if w <= |g0| then w else |g0|]
    ensures [FirstMin(firstRow)] == GreedyCols(g0, w, h, |[FirstMin(firstRow)]|)
    ensures 0 <= FirstMin(firstRow) < w
  {
    assert firstRow == TopRow(g0, w);
  }

  /** One turn of the corrected loop: the mark of line 105 corrected, then,
      unless this is the last row, the step of lines 107-125 to the next column. */
  method TraceStepCorrected(energy: array<Cell>, w: nat, h: nat, i: nat, removalIndex: int,
            ghost g0: seq<Cell>, ghost done: seq<int>, ghost col: int) returns (next: int, ghost nextCol: int)
    requires w > 0 && energy.Length == w * h && |g0| == w * h && i < h && |done| == i
    requires done + [col] == GreedyCols(g0, w, h, |done + [col]|)
    requires 0 <= col < w && removalIndex == RowStart(i, w) + col
    requires energy[..] == MarkAll(g0, SeamMarks(w, done))
    modifies energy
    ensures energy[..] == MarkAll(g0, SeamMarks(w, done + [col]))
    ensures i + 1 < h ==> done + [col] + [nextCol] == GreedyCols(g0, w, h, |done + [col] + [nextCol]|)
    ensures i + 1 < h ==> 0 <= nextCol < w && next == RowStart(i + 1, w) + nextCol
  {
    MarkSeamCell(energy, w, h, i, removalIndex, g0, done, col);
    next, nextCol := removalIndex, col;
    if i + 1 < h {
      var offset := StepOffset(energy, w, h, i, col, removalIndex);
      next := removalIndex + w + offset;
      nextCol := col + offset;
      AdvanceGreedy(g0, w, h, i, done, col, energy[..], nextCol, next);
    }
  }

  /** The backtrace with line 105 writing `energy[removalIndex]`: it marks the
      cells of the greedy descent over the grid it is given, one per row. */
  method BacktraceCorrected(energy: array<Cell>, w: nat, h: nat)
    requires w > 0 && energy.Length == w * h
    modifies energy
    ensures energy[..] == MarkAll(old(energy[..]), SeamMarks(w, GreedyCols(old(energy[..]), w, h, h)))
  {
    ghost var g0 := energy[..];
    var firstRow := energy[..if w <= energy.Length then w else energy.Length];
    var removalIndex := FirstMin(firstRow);
    var i := 0;
    ghost var done: seq<int> := [];
    ghost var col := removalIndex;
    if h > 0 {
      FirstGreedyCol(g0, w, h, firstRow);
    }
    while i < h
      invariant 0 <= i <= h && |done| == i
      invariant done == GreedyCols(g0, w, h, |done|)
      invariant i < h ==> done + [col] == GreedyCols(g0, w, h, |done + [col]|)
      invariant i < h ==> 0 <= col < w && removalIndex == RowStart(i, w) + col
      invariant energy[..] == MarkAll(g0, SeamMarks(w, done))
    {
      var next;
      ghost var nextCol;
      next, nextCol := TraceStepCorrected(energy, w, h, i, removalIndex, g0, done, col);
      done := done + [col];
      removalIndex, col := next, nextCol;
      i := i + 1;
    }
    assert |done| == h;
  }

  /** On the DP grid, the cell below in column d holds the DP value there. */
  lemma LiftedCellBelow(e: seq<int>, w: nat, h: nat, row: nat, d: nat)
    requires w > 0 && |e| == w * h && row + 1 < h && d < w
    ensures CellBelow(Lift(AccGrid(e, w, h)), w, h, row, d) == Fin(Acc(e, w, h, row + 1, d))
  {
    RowStartIsProduct(row + 1, w);
    AccGridAt(e, w, h, row + 1, d);
  }

  /** On the DP grid a step moves to a column whose DP value is exactly what
      the DP added above it. */
  lemma NextColFollowsStep(e: seq<int>, w: nat, h: nat, row: nat, col: nat)
    requires w > 0 && |e| == w * h && row + 1 < h && col < w
    ensures Acc(e, w, h, row + 1, NextCol(Lift(AccGrid(e, w, h)), w, h, row, col)) == Step(e, w, h, row, col)
  {
    var g := Lift(AccGrid(e, w, h));
    var r := NextCol(g, w, h, row, col);
    NextColIsLeftmostLeast(g, w, h, row, col);
    LiftedCellBelow(e, w, h, row, r);
    LiftedCellBelow(e, w, h, row, col);
    if col > 0 {
      LiftedCellBelow(e, w, h, row, col - 1);
    }
    if col < w - 1 {
      LiftedCellBelow(e, w, h, row, col + 1);
    }
  }

  /** Along the descent over the DP grid, the energy of the rest of the seam
      from `row` down is the DP value of its cell in `row`. */
  lemma {:induction false} GreedyDescent(e: seq<int>, w: nat, h: nat, row: nat)
    requires w > 0 && |e| == w * h && row < h
    ensures var p := GreedyCols(Lift(AccGrid(e, w, h)), w, h, h);
      IsSeam(w, h, row, p[row..]) && PathCost(e, w, h, row, p[row..]) == Acc(e, w, h, row, p[row])
    decreases h - row
  {
    var g := Lift(AccGrid(e, w, h));
    var p := GreedyCols(g, w, h, h);
    GreedyIsSeam(g, w, h);
    assert IsSeam(w, h, row, p[row..]);
    if row < h - 1 {
      var rest := p[row + 1..];
      assert p[row..][1..] == rest && p[row..][0] == p[row];
      assert IsSeam(w, h, row + 1, rest) && PathCost(e, w, h, row + 1, rest) == Acc(e, w, h, row + 1, p[row + 1]) by {
        GreedyDescent(e, w, h, row + 1);
      }
      assert Acc(e, w, h, row + 1, p[row + 1]) == Step(e, w, h, row, p[row]) by {
        GreedyStep(g, w, h, h, row);
        NextColFollowsStep(e, w, h, row, p[row]);
      }
    }
  }

  /** The descent starts in a column of least DP value in the top row. */
  lemma GreedyTopIsLeast(e: seq<int>, w: nat, h: nat, c: nat)
    requires w > 0 && |e| == w * h && 0 < h && c < w
    ensures Acc(e, w, h, 0, GreedyCols(Lift(AccGrid(e, w, h)), w, h, h)[0]) <= Acc(e, w, h, 0, c)
  {
    var g := Lift(AccGrid(e, w, h));
    GreedyFirst(g, w, h, h);
    var top := TopRow(g, w);
    FirstMinIsFirstLeast(top);
    var r := FirstMin(top);
    AccGridAt(e, w, h, 0, r);
    AccGridAt(e, w, h, 0, c);
    assert LessEq(top[r], top[c]);
  }

  /** The corrected backtrace over the DP grid follows a least-energy seam: its
      energy is the least DP value of the top row, and no seam costs less. */
  lemma GreedySeamIsOptimal(e: seq<int>, w: nat, h: nat, q: seq<int>)
    requires w > 0 && |e| == w * h && IsSeam(w, h, 0, q)
    ensures var p := GreedyCols(Lift(AccGrid(e, w, h)), w, h, h);
      && IsSeam(w, h, 0, p)
      && (0 < h ==> PathCost(e, w, h, 0, p) == Acc(e, w, h, 0, p[0]))
      && PathCost(e, w, h, 0, p) <= PathCost(e, w, h, 0, q)
  {
    var p := GreedyCols(Lift(AccGrid(e, w, h)), w, h, h);
    GreedyIsSeam(Lift(AccGrid(e, w, h)), w, h);
    if 0 < h {
      GreedyDescent(e, w, h, 0);
      assert p[0..] == p;
      AccLowerBound(e, w, h, 0, q);
      GreedyTopIsLeast(e, w, h, q[0]);
    }
  }
}
