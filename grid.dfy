/** Index arithmetic of a row-major grid of `w` columns stored in a flat buffer.
    Dafny's `/` with a positive divisor is floor division, as JavaScript's
    `Math.floor(a / w)` is on the integers the source divides. */
module Grid {

  lemma MulMonotone(a: int, b: int, w: int)
    requires a <= b && w >= 0
    ensures a * w <= b * w
  {
    assert b * w - a * w == (b - a) * w;
  }

  /** The cell at (row, col) has flat index row*w + col, and the division recovers both. */
  lemma RowCol(row: int, col: int, w: int)
    requires 0 <= col < w
    ensures (row * w + col) / w == row
    ensures (row * w + col) % w == col
  {
    var n := row * w + col;
    var q, r := n / w, n % w;
    assert n == q * w + r;
    assert (q - row) * w == col - r;
    if q > row {
      MulMonotone(1, q - row, w);
    } else if q < row {
      MulMonotone(q - row, -1, w);
    }
  }

  /** Every (row, col) inside a `w` by `h` grid has a flat index inside the buffer. */
  lemma CellIndex(row: int, col: int, w: int, h: int)
    requires 0 <= row < h && 0 <= col < w
    ensures 0 <= row * w + col < w * h
  {
    MulMonotone(0, row, w);
    MulMonotone(row + 1, h, w);
  }

  /** Every flat index inside the buffer names one (row, col) of the grid. */
  lemma FlatCell(j: int, w: int, h: int)
    requires 0 <= j < w * h && w > 0
    ensures 0 <= j / w < h && 0 <= j % w < w
    ensures j == (j / w) * w + j % w
  {
    if j / w >= h {
      MulMonotone(h, j / w, w);
    }
  }

  /** The source's left-neighbour test `floor((c-1)/w) == floor(c/w)` holds exactly
      when c is not in the first column; a width-1 grid never passes it. */
  lemma LeftInRow(center: int, w: int)
    requires w > 0
    ensures ((center - 1) / w == center / w) <==> center % w > 0
    ensures w == 1 ==> (center - 1) / w != center / w
  {
    var q, r := center / w, center % w;
    assert center == q * w + r;
    if r > 0 {
      RowCol(q, r - 1, w);
    } else {
      assert center - 1 == (q - 1) * w + (w - 1);
      RowCol(q - 1, w - 1, w);
    }
  }

  /** The source's right-neighbour test `floor((c+1)/w) == floor(c/w)` holds exactly
      when c is not in the last column; a width-1 grid never passes it. */
  lemma RightInRow(center: int, w: int)
    requires w > 0
    ensures ((center + 1) / w == center / w) <==> center % w < w - 1
    ensures w == 1 ==> (center + 1) / w != center / w
  {
    var q, r := center / w, center % w;
    assert center == q * w + r;
    if r < w - 1 {
      RowCol(q, r + 1, w);
    } else {
      assert center + 1 == (q + 1) * w + 0;
      RowCol(q + 1, 0, w);
    }
  }
}
