/** Where the backtrace's -inf marks end up, cell by cell: the source's marks
    (step k writes row 2k) and a seam's own cells (step k writes row k). */
module SeamCells {
  import opened Extended
  import opened Accumulation
  import opened SeamTrace

  /** Distinct cells have distinct flat indices. */
  lemma {:induction false} RowStartInjective(a: nat, b: int, c: nat, d: int, w: nat)
    requires 0 <= b < w && 0 <= d < w
    requires RowStart(a, w) + b == RowStart(c, w) + d
    ensures a == c && b == d
    decreases a
  {
    if a > 0 && c > 0 {
      RowStartInjective(a - 1, b, c - 1, d, w);
    }
  }

  lemma {:induction false} RowStartDouble(k: nat, w: nat)
    ensures RowStart(k, w) + RowStart(k, w) == RowStart(2 * k, w)
  {
    if k > 0 {
      RowStartDouble(k - 1, w);
      RowStartNext(k - 1, k, w);
      RowStartNext(2 * k - 2, 2 * k - 1, w);
      RowStartNext(2 * k - 1, 2 * k, w);
    }
  }

  /** Where the source's marks land: step k marks row 2k, so a cell turns -inf
      exactly when it lies in an even row 2k, k is a step taken, and the seam
      was in its column at step k. Odd rows are never marked. */
  lemma AsWrittenMarksAt(g: seq<Cell>, w: nat, h: nat, p: seq<int>, row: nat, col: nat)
    requires |g| == w * h && row < h && col < w
    requires forall k :: 0 <= k < |p| ==> 0 <= p[k] < w
    ensures GridCell(MarkAll(g, AsWrittenMarks(w, p)), w, h, row, col) ==
      if row % 2 == 0 && row / 2 < |p| && p[row / 2] == col then NegInf else GridCell(g, w, h, row, col)
  {
    var hit := row % 2 == 0 && row / 2 < |p| && p[row / 2] == col;
    AsWrittenMarkHit(w, p, row, col, RowStart(row, w) + col);
    MarkedCell(g, w, h, AsWrittenMarks(w, p), row, col, hit);
  }

  /** A cell of the marked buffer is -inf when its index is a mark and keeps
      its value otherwise. */
  lemma MarkedCell(g: seq<Cell>, w: nat, h: nat, marks: seq<int>, row: nat, col: nat, hit: bool)
    requires |g| == w * h && row < h && col < w
    requires (RowStart(row, w) + col in marks) == hit
    ensures GridCell(MarkAll(g, marks), w, h, row, col) == if hit then NegInf else GridCell(g, w, h, row, col)
  {
    GridCellIndex(g, w, h, row, col);
    GridCellIndex(MarkAll(g, marks), w, h, row, col);
    MarkAllAt(g, marks, RowStart(row, w) + col);
  }

  /** The flat index of (row, col) is one of the source's marks exactly when
      row is even and the seam was in column col at step row / 2. */
  lemma AsWrittenMarkHit(w: nat, p: seq<int>, row: nat, col: nat, j: int)
    requires col < w && j == RowStart(row, w) + col
    requires forall k :: 0 <= k < |p| ==> 0 <= p[k] < w
    ensures (j in AsWrittenMarks(w, p)) == (row % 2 == 0 && row / 2 < |p| && p[row / 2] == col)
  {
    var marks := AsWrittenMarks(w, p);
    if row % 2 == 0 && row / 2 < |p| && p[row / 2] == col {
      var k := row / 2;
      RowStartDouble(k, w);
      assert 2 * k == row;
      assert marks[k] == j;
    } else if j in marks {
      var k :| 0 <= k < |marks| && marks[k] == j;
      RowStartDouble(k, w);
      RowStartInjective(2 * k, p[k], row, col, w);
      assert false;
    }
  }

  /** Consecutive columns differ by at most one. */
  predicate Connected(p: seq<int>) {
    forall k :: 0 <= k < |p| - 1 ==> p[k] - 1 <= p[k + 1] <= p[k] + 1
  }

  /** The as-written columns still form a connected path: each step moves at
      most one column. */
  lemma {:induction false} AsWrittenColsConnected(g: seq<Cell>, w: nat, h: nat, n: nat)
    requires w > 0 && |g| == w * h && n <= h
    ensures Connected(AsWrittenCols(g, w, h, n))
    decreases n
  {
    if n > 1 {
      AsWrittenColsConnected(g, w, h, n - 1);
      var q := AsWrittenCols(g, w, h, n - 1);
      var c := NextCol(MarkAll(g, AsWrittenMarks(w, q)), w, h, n - 2, q[n - 2]);
      var p := AsWrittenCols(g, w, h, n);
      assert p == q + [c];
      forall k | 0 <= k < n - 1
        ensures p[k] - 1 <= p[k + 1] <= p[k] + 1
      {
        if k < n - 2 {
          assert p[k] == q[k] && p[k + 1] == q[k + 1];
        } else {
          assert p[k] == q[n - 2] && p[k + 1] == c;
        }
      }
    }
  }

  /** The flaw of line 105 shown on any image of two or more rows: no cell of
      row 1 ever turns -inf, so the rendered seam has a gap there. */
  lemma AsWrittenSkipsRowOne(g: seq<Cell>, w: nat, h: nat, col: nat)
    requires w > 0 && |g| == w * h && 2 <= h && col < w && AllFinite(g)
    ensures GridCell(MarkAll(g, AsWrittenMarks(w, AsWrittenCols(g, w, h, h))), w, h, 1, col).Fin?
  {
    AsWrittenMarksAt(g, w, h, AsWrittenCols(g, w, h, h), 1, col);
    GridCellIndex(g, w, h, 1, col);
  }
}
