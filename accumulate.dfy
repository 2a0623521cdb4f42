/** The bottom-up cumulative minimum of `manipulatePixels`: walking the flat
    energy buffer downwards from the last cell of the second-to-last row, each
    cell gains the least of its three lower neighbours, where a side that leaves
    the row is replaced by the cell directly below. */
module Accumulation {
  import opened Extended
  import opened EnergyMap
  import Grid

  /** Math.min of three numbers. */
  function Min3(a: int, b: int, c: int): (m: int)
    ensures m <= a && m <= b && m <= c
    ensures m == a || m == b || m == c
  {
    if a <= b && a <= c then a else if b <= c then b else c
  }

  /** The value the DP leaves at (row, col) of a `w` by `h` grid of energies `e`. */
  function Acc(e: seq<int>, w: nat, h: nat, row: nat, col: nat): int
    requires |e| == w * h && row < h && col < w
    decreases h - row, 1
  {
    Grid.CellIndex(row, col, w, h);
    if row == h - 1 then e[row * w + col]
    else e[row * w + col] + Step(e, w, h, row, col)
  }

  /** The amount the DP adds to (row, col): the least final value below it. */
  function Step(e: seq<int>, w: nat, h: nat, row: nat, col: nat): int
    requires |e| == w * h && row + 1 < h && col < w
    decreases h - row, 0
  {
    var centre := Acc(e, w, h, row + 1, col);
    var left := if col > 0 then Acc(e, w, h, row + 1, col - 1) else centre;
    var right := if col < w - 1 then Acc(e, w, h, row + 1, col + 1) else centre;
    Min3(left, centre, right)
  }

  /** The cell directly below flat index j is j + w, one row further down. */
  lemma BelowCell(j: int, w: int, h: int)
    requires w > 0 && 0 <= j && j + w < w * h
    ensures j / w + 1 < h
    ensures (j + w) / w == j / w + 1 && (j + w) % w == j % w
  {
    var q, r := j / w, j % w;
    Grid.FlatCell(j, w, h);
    assert j + w == (q + 1) * w + r by {
      assert (q + 1) * w == q * w + w;
    }
    Grid.RowCol(q + 1, r, w);
    Grid.FlatCell(j + w, w, h);
  }

  function AccAt(e: seq<int>, w: nat, h: nat, j: int): int
    requires w > 0 && |e| == w * h && 0 <= j < w * h
  {
    Grid.FlatCell(j, w, h);
    Acc(e, w, h, j / w, j % w)
  }

  function StepAt(e: seq<int>, w: nat, h: nat, j: int): int
    requires w > 0 && |e| == w * h && 0 <= j && j + w < w * h
  {
    BelowCell(j, w, h);
    Grid.FlatCell(j, w, h);
    Step(e, w, h, j / w, j % w)
  }

  /** The first n cells of the grid after the DP, in flat order. */
  function AccPrefix(e: seq<int>, w: nat, h: nat, n: nat): (a: seq<int>)
    requires w > 0 && |e| == w * h && n <= w * h
    ensures |a| == n
  {
    if n == 0 then [] else AccPrefix(e, w, h, n - 1) + [AccAt(e, w, h, n - 1)]
  }

  /** The whole grid after the DP. */
  function AccGrid(e: seq<int>, w: nat, h: nat): (a: seq<int>)
    requires w > 0 && |e| == w * h
    ensures |a| == w * h
  {
    AccPrefix(e, w, h, w * h)
  }

  lemma {:induction false} AccPrefixAt(e: seq<int>, w: nat, h: nat, n: nat, j: int)
    requires w > 0 && |e| == w * h && n <= w * h && 0 <= j < n
    ensures AccPrefix(e, w, h, n)[j] == AccAt(e, w, h, j)
  {
    if j < n - 1 {
      AccPrefixAt(e, w, h, n - 1, j);
    }
  }

  lemma AccGridIndex(e: seq<int>, w: nat, h: nat, j: int)
    requires w > 0 && |e| == w * h && 0 <= j < w * h
    ensures AccGrid(e, w, h)[j] == AccAt(e, w, h, j)
  {
    AccPrefixAt(e, w, h, w * h, j);
  }

  lemma AccGridAt(e: seq<int>, w: nat, h: nat, row: nat, col: nat)
    requires w > 0 && |e| == w * h && row < h && col < w
    ensures 0 <= row * w + col < w * h
    ensures AccGrid(e, w, h)[row * w + col] == Acc(e, w, h, row, col)
  {
    Grid.CellIndex(row, col, w, h);
    Grid.RowCol(row, col, w);
    AccGridIndex(e, w, h, row * w + col);
  }

  /** Flat indices from |e| - w on are the last row. */
  lemma LastRow(j: int, w: int, h: int)
    requires w > 0 && 0 <= j && w * h - w <= j < w * h
    ensures j / w == h - 1
  {
    Grid.FlatCell(j, w, h);
    var q := j / w;
    if q < h - 1 {
      Grid.MulMonotone(q + 1, h - 1, w);
    }
  }

  /** The DP never changes the last row; for a one-row image it changes nothing. */
  lemma AccGridKeepsLastRow(e: seq<int>, w: nat, h: nat)
    requires w > 0 && |e| == w * h
    ensures forall j :: 0 <= j && w * h - w <= j < w * h ==> AccGrid(e, w, h)[j] == e[j]
    ensures h <= 1 ==> AccGrid(e, w, h) == e
  {
    forall j | 0 <= j && w * h - w <= j < w * h
      ensures AccGrid(e, w, h)[j] == e[j]
    {
      LastRow(j, w, h);
      Grid.FlatCell(j, w, h);
      AccGridIndex(e, w, h, j);
    }
  }

  /** A vertical path from `row` to the bottom: one column per row, each within
      the grid and at most one column from the previous one. */
  predicate IsSeam(w: nat, h: nat, row: nat, p: seq<int>) {
    && row <= h
    && |p| == h - row
    && (forall k :: 0 <= k < |p| ==> 0 <= p[k] < w)
    && (forall k :: 0 <= k < |p| - 1 ==> p[k] - 1 <= p[k + 1] <= p[k] + 1)
  }

  /** The total original energy along a path starting at `row`. */
  function PathCost(e: seq<int>, w: nat, h: nat, row: nat, p: seq<int>): int
    requires |e| == w * h && IsSeam(w, h, row, p)
    decreases |p|
  {
    if |p| == 0 then 0
    else
      Grid.CellIndex(row, p[0], w, h);
      e[row * w + p[0]] + PathCost(e, w, h, row + 1, p[1..])
  }

  /** No path from (row, col) costs less than the DP value there. */
  lemma {:induction false} AccLowerBound(e: seq<int>, w: nat, h: nat, row: nat, p: seq<int>)
    requires |e| == w * h && row < h && IsSeam(w, h, row, p)
    ensures Acc(e, w, h, row, p[0]) <= PathCost(e, w, h, row, p)
    decreases h - row
  {
    if row < h - 1 {
      assert IsSeam(w, h, row + 1, p[1..]);
      AccLowerBound(e, w, h, row + 1, p[1..]);
      assert p[1..][0] == p[1];
      assert Step(e, w, h, row, p[0]) <= Acc(e, w, h, row + 1, p[1]);
    }
  }

  /** A column below (row, col), at most one away, whose DP value is the least
      the DP added at (row, col). */
  function BestBelow(e: seq<int>, w: nat, h: nat, row: nat, col: nat): (d: nat)
    requires |e| == w * h && row + 1 < h && col < w
    ensures d < w && col - 1 <= d <= col + 1
    ensures Acc(e, w, h, row + 1, d) == Step(e, w, h, row, col)
  {
    var m := Step(e, w, h, row, col);
    if col > 0 && Acc(e, w, h, row + 1, col - 1) == m then col - 1
    else if Acc(e, w, h, row + 1, col) == m then col
    else col + 1
  }

  /** A path from (row, col) to the bottom that always steps to a least cell below. */
  function BestPath(e: seq<int>, w: nat, h: nat, row: nat, col: nat): (p: seq<int>)
    requires |e| == w * h && row < h && col < w
    ensures |p| == h - row && p[0] == col
    decreases h - row
  {
    if row == h - 1 then [col]
    else [col] + BestPath(e, w, h, row + 1, BestBelow(e, w, h, row, col))
  }

  /** Such a path is a seam from `row`. */
  lemma {:induction false} BestPathIsSeam(e: seq<int>, w: nat, h: nat, row: nat, col: nat)
    requires |e| == w * h && row < h && col < w
    ensures IsSeam(w, h, row, BestPath(e, w, h, row, col))
    decreases h - row
  {
    var p := BestPath(e, w, h, row, col);
    if row < h - 1 {
      var rest := BestPath(e, w, h, row + 1, BestBelow(e, w, h, row, col));
      assert p == [col] + rest;
      BestPathIsSeam(e, w, h, row + 1, BestBelow(e, w, h, row, col));
      forall k | 0 <= k < |p|
        ensures 0 <= p[k] < w && (k < |p| - 1 ==> p[k] - 1 <= p[k + 1] <= p[k] + 1)
      {
        if k > 0 {
          assert p[k] == rest[k - 1];
        }
        if 0 < k < |p| - 1 {
          assert p[k + 1] == rest[k];
        }
      }
    }
  }

  /** One step of AccIsPathCost: a best path from the least cell below extends
      to one from (row, col). */
  lemma BestPathStep(e: seq<int>, w: nat, h: nat, row: nat, col: nat)
    requires |e| == w * h && row + 1 < h && col < w
    requires var rest := BestPath(e, w, h, row + 1, BestBelow(e, w, h, row, col));
      IsSeam(w, h, row + 1, rest) && PathCost(e, w, h, row + 1, rest) == Acc(e, w, h, row + 1, BestBelow(e, w, h, row, col))
    requires IsSeam(w, h, row, BestPath(e, w, h, row, col))
    ensures PathCost(e, w, h, row, BestPath(e, w, h, row, col)) == Acc(e, w, h, row, col)
  {
    var p := BestPath(e, w, h, row, col);
    var d := BestBelow(e, w, h, row, col);
    var rest := BestPath(e, w, h, row + 1, d);
    Grid.CellIndex(row, col, w, h);
    var here := e[row * w + col];
    assert p[1..] == rest by {
      assert p == [col] + rest;
    }
    assert PathCost(e, w, h, row, p) == here + PathCost(e, w, h, row + 1, rest);
    assert Acc(e, w, h, row, col) == here + Step(e, w, h, row, col);
  }

  /** The DP value at (row, col) is the cost of a path from there: with
      AccLowerBound, it is the least cost of any path from (row, col). */
  lemma {:induction false} AccIsPathCost(e: seq<int>, w: nat, h: nat, row: nat, col: nat)
    requires |e| == w * h && row < h && col < w
    ensures IsSeam(w, h, row, BestPath(e, w, h, row, col))
    ensures PathCost(e, w, h, row, BestPath(e, w, h, row, col)) == Acc(e, w, h, row, col)
    decreases h - row
  {
    BestPathIsSeam(e, w, h, row, col);
    if row < h - 1 {
      AccIsPathCost(e, w, h, row + 1, BestBelow(e, w, h, row, col));
      BestPathStep(e, w, h, row, col);
    } else {
      var p := BestPath(e, w, h, row, col);
      Grid.CellIndex(row, col, w, h);
      assert p == [col];
      assert PathCost(e, w, h, row, p) == e[row * w + col] + PathCost(e, w, h, row + 1, p[1..]);
    }
  }

  predicate AllFinite(g: seq<Cell>) {
    forall j :: 0 <= j < |g| ==> g[j].Fin?
  }

  /** The energies held by a buffer of finite cells. */
  function Values(g: seq<Cell>): (e: seq<int>)
    requires AllFinite(g)
    ensures |e| == |g| && Lift(e) == g
  {
    seq(|g|, j requires 0 <= j < |g| => g[j].v)
  }

  /** The buffer as the loop is about to treat flat index i: cells up to i still
      hold their energies, every later cell already holds its DP value. */
  function Midway(e: seq<int>, a: seq<int>, i: int): (g: seq<Cell>)
    requires |a| == |e|
    ensures |g| == |e|
  {
    seq(|e|, j requires 0 <= j < |e| => if j <= i then Fin(e[j]) else Fin(a[j]))
  }

  /** Writing the DP value at i moves the buffer one index further. */
  lemma MidwayStep(e: seq<int>, a: seq<int>, i: int)
    requires |a| == |e| && 0 <= i < |e|
    ensures Midway(e, a, i)[i := Fin(a[i])] == Midway(e, a, i - 1)
  {
  }

  /** Before the loop the buffer is the energy grid, whose last row is already final;
      after it the buffer is the DP grid. */
  lemma MidwayEnds(e: seq<int>, w: nat, h: nat)
    requires w > 0 && |e| == w * h
    ensures Midway(e, AccGrid(e, w, h), w * h - w - 1) == Lift(e)
    ensures Midway(e, AccGrid(e, w, h), -1) == Lift(AccGrid(e, w, h))
    ensures h <= 1 ==> Lift(AccGrid(e, w, h)) == Lift(e)
  {
    AccGridKeepsLastRow(e, w, h);
  }

  /** What the DP adds to each of the first n cells, in flat order. */
  function AddedPrefix(e: seq<int>, w: nat, h: nat, n: nat): (d: seq<int>)
    requires w > 0 && |e| == w * h && n <= w * h
    ensures |d| == n
  {
    if n == 0 then [] else AddedPrefix(e, w, h, n - 1) + [AccGrid(e, w, h)[n - 1] - e[n - 1]]
  }

  /** What the DP adds to each cell above the last row, in flat order. */
  function Added(e: seq<int>, w: nat, h: nat): (d: seq<int>)
    requires w > 0 && |e| == w * h
    ensures |d| == if h == 0 then 0 else w * h - w
  {
    AddedPrefix(e, w, h, if h == 0 then 0 else w * h - w)
  }

  lemma {:induction false} AddedPrefixAt(e: seq<int>, w: nat, h: nat, n: nat, j: int)
    requires w > 0 && |e| == w * h && n <= w * h && 0 <= j < n
    ensures AddedPrefix(e, w, h, n)[j] == AccGrid(e, w, h)[j] - e[j]
  {
    if j < n - 1 {
      AddedPrefixAt(e, w, h, n - 1, j);
    }
  }

  lemma AddedAt(e: seq<int>, w: nat, h: nat, j: int)
    requires w > 0 && |e| == w * h && 0 <= j < |Added(e, w, h)|
    ensures Added(e, w, h)[j] == AccGrid(e, w, h)[j] - e[j]
  {
    AddedPrefixAt(e, w, h, if h == 0 then 0 else w * h - w, j);
  }

  /** The added value at j is the DP step there. */
  lemma AddedIsStep(e: seq<int>, w: nat, h: nat, j: int)
    requires w > 0 && |e| == w * h && 0 <= j && j + w < w * h
    ensures j < |Added(e, w, h)| && Added(e, w, h)[j] == StepAt(e, w, h, j)
  {
    BelowCell(j, w, h);
    Grid.FlatCell(j, w, h);
    AccGridIndex(e, w, h, j);
    AddedAt(e, w, h, j);
  }

  /** What one DP step at flat index i reads once every later cell is final:
      the row tests of the source select exactly the in-row neighbours, and the
      least of the three reads is what the DP adds at i. */
  lemma ReadsBelow(e: seq<int>, w: nat, h: nat, i: int, centerIndex: int, leftIndex: int, rightIndex: int)
    requires w > 0 && |e| == w * h && 0 <= i && i + w < w * h
    requires centerIndex == i + w && leftIndex == centerIndex - 1 && rightIndex == centerIndex + 1
    ensures 0 <= leftIndex && centerIndex < w * h
    ensures rightIndex / w == centerIndex / w ==> rightIndex < w * h
    ensures var g := Midway(e, AccGrid(e, w, h), i);
      AccGrid(e, w, h)[i] == e[i] + Min3(
        if leftIndex / w == centerIndex / w then g[leftIndex].v else g[centerIndex].v,
        g[centerIndex].v,
        if rightIndex / w == centerIndex / w then g[rightIndex].v else g[centerIndex].v)
  {
    var row, col := i / w, i % w;
    var a := AccGrid(e, w, h);
    var g := Midway(e, a, i);
    BelowCell(i, w, h);
    Grid.FlatCell(i, w, h);
    Grid.LeftInRow(centerIndex, w);
    Grid.RightInRow(centerIndex, w);
    BelowValues(e, w, h, row, col, centerIndex);
    AccGridAt(e, w, h, row, col);
    var centre := Acc(e, w, h, row + 1, col);
    var left := if col > 0 then Acc(e, w, h, row + 1, col - 1) else centre;
    var right := if col < w - 1 then Acc(e, w, h, row + 1, col + 1) else centre;
    assert g[centerIndex] == Fin(centre);
    if col > 0 {
      assert g[leftIndex] == Fin(left);
    }
    if col < w - 1 {
      assert g[rightIndex] == Fin(right);
    }
    assert Step(e, w, h, row, col) == Min3(left, centre, right);
  }

  /** The final values of the three cells below (row, col), the centre at c. */
  lemma BelowValues(e: seq<int>, w: nat, h: nat, row: nat, col: nat, c: int)
    requires w > 0 && |e| == w * h && row + 1 < h && col < w
    requires c == row * w + col + w
    ensures 0 <= c < w * h && AccGrid(e, w, h)[c] == Acc(e, w, h, row + 1, col)
    ensures col > 0 ==> 0 <= c - 1 && AccGrid(e, w, h)[c - 1] == Acc(e, w, h, row + 1, col - 1)
    ensures col < w - 1 ==> c + 1 < w * h && AccGrid(e, w, h)[c + 1] == Acc(e, w, h, row + 1, col + 1)
  {
    var a := AccGrid(e, w, h);
    assert 0 <= c < w * h && a[c] == Acc(e, w, h, row + 1, col) by {
      assert (row + 1) * w == row * w + w;
      AccGridAt(e, w, h, row + 1, col);
    }
    if col > 0 {
      assert 0 <= c - 1 && a[c - 1] == Acc(e, w, h, row + 1, col - 1) by {
        assert (row + 1) * w == row * w + w;
        AccGridAt(e, w, h, row + 1, col - 1);
      }
    }
    if col < w - 1 {
      assert c + 1 < w * h && a[c + 1] == Acc(e, w, h, row + 1, col + 1) by {
        assert (row + 1) * w == row * w + w;
        AccGridAt(e, w, h, row + 1, col + 1);
      }
    }
  }

  /** The reads of one DP step stay inside the buffer: the centre is the cell
      below i, the left read is never before the buffer, and the right read
      passes the row test only inside the buffer. */
  lemma ReadsInRange(w: nat, h: nat, i: int, centerIndex: int, leftIndex: int, rightIndex: int)
    requires w > 0 && 0 <= i && i + w < w * h
    requires centerIndex == i + w && leftIndex == centerIndex - 1 && rightIndex == centerIndex + 1
    ensures 0 <= leftIndex && centerIndex < w * h
    ensures rightIndex / w == centerIndex / w ==> rightIndex < w * h
  {
    Grid.FlatCell(centerIndex, w, h);
    Grid.RightInRow(centerIndex, w);
    if rightIndex / w == centerIndex / w {
      Grid.CellIndex(centerIndex / w, centerIndex % w + 1, w, h);
    }
  }

  /** One turn of the DP loop on a buffer midway through: adding the least read
      below finishes cell i, and what it adds is the DP step there. */
  lemma SweepStep(e: seq<int>, w: nat, h: nat, i: int, g: seq<Cell>,
                  centerIndex: int, leftIndex: int, rightIndex: int, value: int)
    requires w > 0 && |e| == w * h && 0 <= i && i + w < w * h
    requires centerIndex == i + w && leftIndex == centerIndex - 1 && rightIndex == centerIndex + 1
    requires g == Midway(e, AccGrid(e, w, h), i)
    requires 0 <= leftIndex && centerIndex < w * h
    requires rightIndex / w == centerIndex / w ==> rightIndex < w * h
    requires value == Min3(
      if leftIndex / w == centerIndex / w then g[leftIndex].v else g[centerIndex].v,
      g[centerIndex].v,
      if rightIndex / w == centerIndex / w then g[rightIndex].v else g[centerIndex].v)
    ensures g[i] == Fin(e[i])
    ensures g[i := Fin(g[i].v + value)] == Midway(e, AccGrid(e, w, h), i - 1)
    ensures i < |Added(e, w, h)| && Added(e, w, h)[i] == value
  {
    ReadsBelow(e, w, h, i, centerIndex, leftIndex, rightIndex);
    MidwayStep(e, AccGrid(e, w, h), i);
    AddedAt(e, w, h, i);
  }

  /** The value `min` holds once the loop has seen d[k..], last to first:
      it starts at +inf and is replaced whenever a value is strictly smaller. */
  function RunningMin(d: seq<int>, k: nat): Ext
    requires k <= |d|
    decreases |d| - k
  {
    if k == |d| then PosInf
    else
      var rest := RunningMin(d, k + 1);
      if Less(Fin(d[k]), rest) then Fin(d[k]) else rest
  }

  /** The value `max` holds once the loop has seen d[k..]: it starts at -inf. */
  function RunningMax(d: seq<int>, k: nat): Ext
    requires k <= |d|
    decreases |d| - k
  {
    if k == |d| then NegInf
    else
      var rest := RunningMax(d, k + 1);
      if Less(rest, Fin(d[k])) then Fin(d[k]) else rest
  }

  /** One more value seen, last to first: min and max follow it. */
  lemma RunningStep(d: seq<int>, k: nat, x: int, oldMin: Ext, oldMax: Ext, min: Ext, max: Ext)
    requires k < |d| && d[k] == x
    requires oldMin == RunningMin(d, k + 1) && oldMax == RunningMax(d, k + 1)
    requires min == (if Less(Fin(x), oldMin) then Fin(x) else oldMin)
    requires max == (if Less(oldMax, Fin(x)) then Fin(x) else oldMax)
    ensures min == RunningMin(d, k) && max == RunningMax(d, k)
  {
  }

  /** The running minimum is +inf for no values and otherwise the least of them. */
  lemma {:induction false} RunningMinIsLeast(d: seq<int>, k: nat)
    requires k <= |d|
    ensures k == |d| ==> RunningMin(d, k) == PosInf
    ensures k < |d| ==> (RunningMin(d, k).Fin?
      && (forall j :: k <= j < |d| ==> RunningMin(d, k).v <= d[j])
      && (exists j :: k <= j < |d| && d[j] == RunningMin(d, k).v))
    decreases |d| - k
  {
    if k < |d| {
      RunningMinIsLeast(d, k + 1);
    }
  }

  /** The running maximum is -inf for no values and otherwise the greatest of them. */
  lemma {:induction false} RunningMaxIsGreatest(d: seq<int>, k: nat)
    requires k <= |d|
    ensures k == |d| ==> RunningMax(d, k) == NegInf
    ensures k < |d| ==> (RunningMax(d, k).Fin?
      && (forall j :: k <= j < |d| ==> d[j] <= RunningMax(d, k).v)
      && (exists j :: k <= j < |d| && d[j] == RunningMax(d, k).v))
    decreases |d| - k
  {
    if k < |d| {
      RunningMaxIsGreatest(d, k + 1);
    }
  }

  /** For an image of two or more rows the range the DP method returns is
      finite and is exactly the range of the steps it added. */
  lemma StepRange(e: seq<int>, w: nat, h: nat)
    requires w > 0 && |e| == w * h && h >= 2
    ensures RunningMin(Added(e, w, h), 0).Fin? && RunningMax(Added(e, w, h), 0).Fin?
    ensures forall j :: 0 <= j && j + w < w * h ==>
      RunningMin(Added(e, w, h), 0).v <= StepAt(e, w, h, j) <= RunningMax(Added(e, w, h), 0).v
    ensures exists j :: 0 <= j && j + w < w * h && StepAt(e, w, h, j) == RunningMin(Added(e, w, h), 0).v
    ensures exists j :: 0 <= j && j + w < w * h && StepAt(e, w, h, j) == RunningMax(Added(e, w, h), 0).v
  {
    var d := Added(e, w, h);
    assert |d| > 0 by {
      Grid.MulMonotone(2, h, w);
    }
    RunningMinIsLeast(d, 0);
    RunningMaxIsGreatest(d, 0);
    forall j | 0 <= j && j + w < w * h
      ensures RunningMin(d, 0).v <= StepAt(e, w, h, j) <= RunningMax(d, 0).v
    {
      AddedIsStep(e, w, h, j);
    }
    var lo :| 0 <= lo < |d| && d[lo] == RunningMin(d, 0).v;
    var hi :| 0 <= hi < |d| && d[hi] == RunningMax(d, 0).v;
    AddedIsStep(e, w, h, lo);
    AddedIsStep(e, w, h, hi);
  }

  /** The reads of one DP step at flat index i: the three cells below, where
      a side whose row differs from the centre's is replaced by the centre, and
      their least value. */
  method LeastBelow(energy: array<Cell>, w: nat, h: nat, i: int)
    returns (centerIndex: int, leftIndex: int, rightIndex: int, value: int)
    requires w > 0 && energy.Length == w * h && 0 <= i && i + w < w * h && AllFinite(energy[..])
    ensures centerIndex == i + w && leftIndex == centerIndex - 1 && rightIndex == centerIndex + 1
    ensures 0 <= leftIndex && centerIndex < w * h
    ensures rightIndex / w == centerIndex / w ==> rightIndex < w * h
    ensures var g := energy[..]; value == Min3(
      if leftIndex / w == centerIndex / w then g[leftIndex].v else g[centerIndex].v,
      g[centerIndex].v,
      if rightIndex / w == centerIndex / w then g[rightIndex].v else g[centerIndex].v)
  {
    centerIndex := i + w + 0;
    leftIndex := centerIndex - 1;
    rightIndex := centerIndex + 1;

    var centerY := centerIndex / w;
    var leftY := leftIndex / w;
    var rightY := rightIndex / w;

    var isLeftInBounds := leftY == centerY;
    var isRightInBounds := rightY == centerY;

    ReadsInRange(w, h, i, centerIndex, leftIndex, rightIndex);
    value := Min3(
      if isLeftInBounds then energy[leftIndex].v else energy[centerIndex].v,
      energy[centerIndex].v,
      if isRightInBounds then energy[rightIndex].v else energy[centerIndex].v);
  }

  /** One turn of the DP loop at flat index i: read below, follow the added
      value with `min` and `max`, and add it to cell i. */
  method Relax(energy: array<Cell>, w: nat, h: nat, i: int, ghost e: seq<int>, ghost d: seq<int>,
               min0: Ext, max0: Ext) returns (min: Ext, max: Ext)
    requires w > 0 && |e| == w * h && energy.Length == w * h && 0 <= i && i + w < w * h
    requires d == Added(e, w, h) && i < |d|
    requires energy[..] == Midway(e, AccGrid(e, w, h), i)
    requires min0 == RunningMin(d, i + 1) && max0 == RunningMax(d, i + 1)
    modifies energy
    ensures energy[..] == Midway(e, AccGrid(e, w, h), i - 1)
    ensures min == RunningMin(d, i) && max == RunningMax(d, i)
  {
    var centerIndex, leftIndex, rightIndex, value := LeastBelow(energy, w, h, i);
    SweepStep(e, w, h, i, energy[..], centerIndex, leftIndex, rightIndex, value);
    min, max := min0, max0;
    if Less(Fin(value), min) { min := Fin(value); }
    if Less(max, Fin(value)) { max := Fin(value); }
    energy[i] := Fin(energy[i].v + value);
    RunningStep(d, i, value, min0, max0, min, max);
  }

  /** The DP loop, in place. `min`/`max` start at +inf/-inf and follow every
      added value; with fewer than two rows the loop does not run. */
  method Accumulate(energy: array<Cell>, w: nat, h: nat) returns (min: Ext, max: Ext)
    requires w > 0 && energy.Length == w * h && AllFinite(energy[..])
    modifies energy
    ensures energy[..] == Lift(AccGrid(Values(old(energy[..])), w, h))
    ensures h <= 1 ==> energy[..] == old(energy[..])
    ensures min == RunningMin(Added(Values(old(energy[..])), w, h), 0)
    ensures max == RunningMax(Added(Values(old(energy[..])), w, h), 0)
  {
    ghost var e := Values(energy[..]);
    var len := energy.Length;
    min, max := PosInf, NegInf;
    ghost var a := AccGrid(e, w, h);
    ghost var d := Added(e, w, h);
    MidwayEnds(e, w, h);
    assert h <= 1 ==> len - w - 1 < 0 by {
      if h <= 1 { Grid.MulMonotone(h, 1, w); }
    }
    var i := len - w - 1;
    ghost var seen := |d|;
    while i >= 0
      invariant 0 <= seen <= |d| && (i >= -1 || h == 0)
      invariant if i >= 0 then seen == i + 1 else seen == 0
      invariant energy[..] == Midway(e, a, i)
      invariant min == RunningMin(d, seen)
      invariant max == RunningMax(d, seen)
      decreases i + 1
    {
      min, max := Relax(energy, w, h, i, e, d, min, max);
      i := i - 1;
      seen := seen - 1;
    }
    assert energy[..] == Midway(e, a, -1);
  }
}
