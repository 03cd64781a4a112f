// image_compression_by_seam_carving.py: `find_optimal_seam`, the bottom-up
// seam DP whose column-0 cells also read the last column of the row below
// (an `if` where an `elif` was meant), the `best_start` scan that never
// settles on column 0 of a wider map, and the greedy top-down descent.

module ImageCompressionRoot {
  import opened Common
  import opened SeamPaths
  import opened SeamTables

  /** numpy's out-of-bounds read `dp[row + 1, 1]` on a map one column wide. */
  datatype Error = IndexError

  // ---------------------------------------------------------------------
  // The table
  // ---------------------------------------------------------------------

  /**
   * The minimum the fill loop takes for column `col` over the table row
   * `next` below it. As written (`wraps`), the `if` for the right edge is not
   * chained to the one for the left edge, so column 0 of a row at least two
   * wide ends in the three-way `min`, whose `dp[row + 1, col - 1]` is Python's
   * `dp[row + 1, -1]`: the last column. With `elif` (not `wraps`) column 0
   * keeps its two-way minimum.
   */
  function RootMin(next: seq<int>, col: int, wraps: bool): (m: int)
    requires |next| >= 2 && 0 <= col < |next|
    ensures m <= next[col] && (col + 1 < |next| ==> m <= next[col + 1])
    ensures col > 0 || wraps ==> m <= next[(col - 1 + |next|) % |next|]
    ensures m == next[col] || (col + 1 < |next| && m == next[col + 1]) ||
            ((col > 0 || wraps) && m == next[(col - 1 + |next|) % |next|])
  {
    var j := |next|;
    if col == 0 && !wraps then Min(next[col], next[col + 1])
    else if col == j - 1 then Min(next[col], next[col - 1])
    else Min(Min(next[col], PyIndex(next, col - 1)), next[col + 1])
  }

  /** Except at column 0 of a row three or more wide as written, the minimum is that of the window below. */
  lemma RootMinIsWindowMin(next: seq<int>, col: int, wraps: bool)
    requires |next| >= 2 && 0 <= col < |next| && (!wraps || col > 0 || |next| == 2)
    ensures RootMin(next, col, wraps) == MinOf(Window(next, col))
  {
    var m := RootMin(next, col, wraps);
    var k := if next[col] == m then col else if col > 0 && next[col - 1] == m then col - 1 else col + 1;
    WindowMinIs(next, col, k, m);
  }

  /** At column 0 of a row three or more wide, as written, the last column joins the window. */
  lemma RootMinWrapsAtColumnZero(next: seq<int>)
    requires |next| >= 3
    ensures RootMin(next, 0, true) == Min(MinOf(Window(next, 0)), next[|next| - 1])
  {
    RootMinIsWindowMin(next, 0, false);
  }

  /**
   * Row i of the table: the last energy row, and above it each cell's energy
   * plus the fill loop's minimum over the row below. A table of two or more
   * rows needs two or more columns (one column fails with `IndexError`).
   */
  ghost function RootRow(e: Grid, i: nat, wraps: bool): (row: seq<int>)
    requires IsEnergyMap(e) && i < |e| && (i == |e| - 1 || |e[0]| >= 2)
    ensures |row| == |e[0]|
    decreases |e| - i
  {
    if i == |e| - 1 then e[i]
    else
      var next := RootRow(e, i + 1, wraps);
      seq(|e[0]|, c requires 0 <= c < |e[0]| => e[i][c] + RootMin(next, c, wraps))
  }

  /** With `elif`, or on a map at most two columns wide, the table is the bottom-up minimum-energy table. */
  lemma RootRowWithoutWrap(e: Grid, i: nat, wraps: bool)
    requires IsEnergyMap(e) && i < |e| && (i == |e| - 1 || |e[0]| >= 2)
    requires !wraps || |e[0]| <= 2
    ensures RootRow(e, i, wraps) == DownRow(e, i)
  {
    RootCellsWithoutWrap(e, i, wraps);
  }

  /** Two rows of one width that agree cell by cell. */
  ghost predicate SameCells(a: seq<int>, b: seq<int>)
  {
    |a| == |b| && forall c :: 0 <= c < |a| ==> a[c] == b[c]
  }

  /** The same, cell by cell, by induction from the last row up. */
  lemma {:induction false} RootCellsWithoutWrap(e: Grid, i: nat, wraps: bool)
    requires IsEnergyMap(e) && i < |e| && (i == |e| - 1 || |e[0]| >= 2)
    requires !wraps || |e[0]| <= 2
    ensures SameCells(RootRow(e, i, wraps), DownRow(e, i))
    decreases |e| - i
  {
    if i < |e| - 1 {
      RootCellsWithoutWrap(e, i + 1, wraps);
      RootRowStepWithoutWrap(e, i, wraps);
    }
  }

  /** One row of that: equal cells below give equal cells above. */
  lemma RootRowStepWithoutWrap(e: Grid, i: nat, wraps: bool)
    requires IsEnergyMap(e) && i < |e| - 1 && |e[0]| >= 2
    requires !wraps || |e[0]| <= 2
    requires SameCells(RootRow(e, i + 1, wraps), DownRow(e, i + 1))
    ensures SameCells(RootRow(e, i, wraps), DownRow(e, i))
  {
    var next := DownRow(e, i + 1);
    assert RootRow(e, i + 1, wraps) == next;
    forall c | 0 <= c < |e[0]|
      ensures RootRow(e, i, wraps)[c] == DownRow(e, i)[c]
    {
      RootMinIsWindowMin(next, c, wraps);
    }
  }

  /** The rows of the table, as one grid. */
  ghost function RootTable(e: Grid, wraps: bool): (t: Grid)
    requires IsEnergyMap(e) && (|e| == 1 || |e[0]| >= 2)
    ensures IsEnergyMap(t) && |t| == |e| && |t[0]| == |e[0]|
    ensures forall k :: 0 <= k < |e| ==> t[k] == RootRow(e, k, wraps)
  {
    seq(|e|, k requires 0 <= k < |e| => RootRow(e, k, wraps))
  }

  /** With `elif` the table is the bottom-up minimum-energy table. */
  lemma RootTableFixed(e: Grid)
    requires IsEnergyMap(e) && (|e| == 1 || |e[0]| >= 2)
    ensures RootTable(e, false) == DownTable(e)
  {
    forall k | 0 <= k < |e|
      ensures RootTable(e, false)[k] == DownTable(e)[k]
    {
      RootRowWithoutWrap(e, k, false);
    }
  }

  /** The body of the inner fill loop: the left-edge `if`, then the right-edge `if`/`else`, then the write. */
  method FillCell(e: Grid, dp: array2<int>, row: int, col: int, wraps: bool, ghost below: seq<int>)
    requires IsEnergyMap(e) && dp.Length0 == |e| && dp.Length1 == |e[0]| >= 2
    requires 0 <= row < |e| - 1 && 0 <= col < |e[0]|
    requires |below| == dp.Length1 && RowIs(dp, row + 1, below)
    modifies dp
    ensures dp[row, col] == e[row][col] + RootMin(below, col, wraps)
    ensures forall r, c :: 0 <= r < dp.Length0 && 0 <= c < dp.Length1 && (r != row || c != col) ==>
      dp[r, c] == old(dp[r, c])
  {
    var j := dp.Length1;
    var minimumDisruption := 0;
    if col == 0 {
      minimumDisruption := Min(dp[row + 1, col], dp[row + 1, col + 1]);
    }
    if col == j - 1 {
      minimumDisruption := Min(dp[row + 1, col], dp[row + 1, col - 1]);
    } else if wraps || col != 0 {
      minimumDisruption := Min(Min(dp[row + 1, col], dp[row + 1, PyPos(col - 1, j)]), dp[row + 1, col + 1]);
    }
    dp[row, col] := minimumDisruption + e[row][col];
  }

  /** One pass of the inner loop: row `row` of `dp` from the row below it. */
  method FillRow(e: Grid, dp: array2<int>, row: int, wraps: bool)
    requires IsEnergyMap(e) && dp.Length0 == |e| && dp.Length1 == |e[0]| >= 2 && 0 <= row < |e| - 1
    requires RowIs(dp, row + 1, RootRow(e, row + 1, wraps))
    modifies dp
    ensures RowIs(dp, row, RootRow(e, row, wraps))
    ensures forall r, c :: 0 <= r < dp.Length0 && r != row && 0 <= c < dp.Length1 ==> dp[r, c] == old(dp[r, c])
  {
    var j := |e[0]|;
    ghost var below := RootRow(e, row + 1, wraps);
    ghost var cur := RootRow(e, row, wraps);
    forall c | 0 <= c < j
      ensures cur[c] == e[row][c] + RootMin(below, c, wraps)
    {
    }
    for col := 0 to j
      invariant forall r, c :: 0 <= r < dp.Length0 && r != row && 0 <= c < j ==> dp[r, c] == old(dp[r, c])
      invariant RowIs(dp, row + 1, below)
      invariant forall c :: 0 <= c < col ==> dp[row, c] == cur[c]
    {
      FillCell(e, dp, row, col, wraps, below);
    }
  }

  /** The table: zeros, the last energy row copied in column by column, then rows filled from i-2 up to 0. */
  method FillTable(e: Grid, wraps: bool) returns (dp: array2<int>)
    requires IsEnergyMap(e) && (|e| == 1 || |e[0]| >= 2)
    ensures fresh(dp) && dp.Length0 == |e| && dp.Length1 == |e[0]|
    ensures forall r :: 0 <= r < |e| ==> RowIs(dp, r, RootRow(e, r, wraps))
  {
    var i, j := |e|, |e[0]|;
    var bottom := i - 1;
    dp := new int[i, j]((r, c) => 0);
    for column := 0 to j
      invariant forall c :: 0 <= c < column ==> dp[bottom, c] == e[bottom][c]
    {
      dp[bottom, column] := e[bottom][column];
    }
    for row := i - 1 downto 0
      invariant forall r :: row <= r < i ==> RowIs(dp, r, RootRow(e, r, wraps))
    {
      label before:
      FillRow(e, dp, row, wraps);
      forall r | row < r < i
        ensures RowIs(dp, r, RootRow(e, r, wraps))
      {
        assert old@before(RowIs(dp, r, RootRow(e, r, wraps)));
      }
    }
  }

  // ---------------------------------------------------------------------
  // The start column
  // ---------------------------------------------------------------------

  /**
   * The column the `best_start` scan settles on: `[0, 0]` doubles as "nothing
   * seen yet", and it is still `[0, 0]` after column 0, so column 1 is taken
   * unconditionally and column 0 never competes; from there on a column wins
   * only when strictly smaller.
   */
  function StartColumn(row: seq<int>): (k: nat)
    requires |row| >= 1
    ensures k < |row| && (|row| >= 2 <==> k >= 1)
  {
    if |row| == 1 then 0 else 1 + FirstArgMin(row[1..])
  }

  /** On a row two or more wide the start is the first minimum among columns 1 onwards. */
  lemma StartColumnIsFirstMinFromOne(row: seq<int>)
    requires |row| >= 2
    ensures forall c :: 1 <= c < |row| ==> row[StartColumn(row)] <= row[c]
    ensures forall c :: 1 <= c < StartColumn(row) ==> row[StartColumn(row)] < row[c]
  {
    var tail := row[1..];
    FirstArgMinIsFirstMin(tail);
    assert forall c :: 1 <= c < |row| ==> row[c] == tail[c - 1];
  }

  /** A column that is a first minimum among columns 1 onwards is the start. */
  lemma StartColumnIs(row: seq<int>, b: int)
    requires |row| >= 2 && 1 <= b < |row|
    requires forall c :: 1 <= c < |row| ==> row[b] <= row[c]
    requires forall c :: 1 <= c < b ==> row[b] < row[c]
    ensures b == StartColumn(row)
  {
    StartColumnIsFirstMinFromOne(row);
  }

  /** The `best_start` loop over the top row of the table, which holds `top`. */
  method PickStart(dp: array2<int>, ghost top: seq<int>) returns (start: int)
    requires dp.Length0 >= 1 && dp.Length1 == |top| >= 1 && RowIs(dp, 0, top)
    ensures start == StartColumn(top)
  {
    var j := dp.Length1;
    var bestStart := [0, 0];
    for pixel := 0 to j
      invariant |bestStart| == 2
      invariant pixel <= 1 ==> bestStart == [0, 0]
      invariant pixel >= 2 ==> bestStart[0] == 0 && 1 <= bestStart[1] < pixel
      invariant pixel >= 2 ==> forall c :: 1 <= c < pixel ==> top[bestStart[1]] <= top[c]
      invariant pixel >= 2 ==> forall c :: 1 <= c < bestStart[1] ==> top[bestStart[1]] < top[c]
    {
      if bestStart == [0, 0] {
        bestStart := bestStart[1 := pixel];
      } else if dp[0, pixel] < dp[0, bestStart[1]] {
        bestStart := bestStart[1 := pixel];
      }
    }
    start := bestStart[1];
    if j >= 2 {
      StartColumnIs(top, start);
    }
  }

  // ---------------------------------------------------------------------
  // The descent
  // ---------------------------------------------------------------------

  /**
   * One step of the descent into the table row `below` from column `col`:
   * the edges move only when the neighbour is strictly smaller; inside, left
   * when it is at most both others, else right when it is at most both
   * others, else straight.
   */
  function RootStep(below: seq<int>, col: int): (next: int)
    requires |below| >= 2 && 0 <= col < |below|
    ensures -1 <= next - col <= 1 && 0 <= next < |below|
  {
    var j := |below|;
    if col == 0 then (if below[col] > below[col + 1] then col + 1 else col)
    else if col == j - 1 then (if below[col] > below[col - 1] then col - 1 else col)
    else if below[col - 1] <= below[col] && below[col - 1] <= below[col + 1] then col - 1
    else if below[col + 1] <= below[col] && below[col + 1] <= below[col - 1] then col + 1
    else col
  }

  /** Every step lands on the minimum of the window below. */
  lemma RootStepIsWindowMin(below: seq<int>, col: int)
    requires |below| >= 2 && 0 <= col < |below|
    ensures below[RootStep(below, col)] == MinOf(Window(below, col))
  {
    var next := RootStep(below, col);
    WindowMinIs(below, col, next, below[next]);
  }

  /** The first n columns of the descent over a table t from column `start` of its top row. */
  ghost function RootColumns(t: Grid, n: int, start: int): (cols: seq<int>)
    requires IsEnergyMap(t) && 1 <= n <= |t| && (n == 1 || |t[0]| >= 2) && 0 <= start < |t[0]|
    ensures |cols| == n && 0 <= cols[n - 1] < |t[0]|
  {
    if n == 1 then [start]
    else
      var prev := RootColumns(t, n - 1, start);
      prev + [RootStep(t[n - 1], prev[n - 2])]
  }

  /** Every column of the descent is in range, and each one after the first is the step from the one before. */
  lemma {:induction false} RootColumnsSteps(t: Grid, n: int, start: int)
    requires IsEnergyMap(t) && 1 <= n <= |t| && (n == 1 || |t[0]| >= 2) && 0 <= start < |t[0]|
    ensures var cols := RootColumns(t, n, start);
      cols[0] == start &&
      (forall k :: 0 <= k < n ==> 0 <= cols[k] < |t[0]|) &&
      forall k :: 1 <= k < n ==> cols[k] == RootStep(t[k], cols[k - 1])
  {
    if n > 1 {
      RootColumnsSteps(t, n - 1, start);
      var prev := RootColumns(t, n - 1, start);
      var last := RootStep(t[n - 1], prev[n - 2]);
      var cols := RootColumns(t, n, start);
      assert cols == prev + [last];
      forall k | 0 <= k < n
        ensures 0 <= cols[k] < |t[0]|
      {
        if k < n - 1 {
          assert cols[k] == prev[k];
        }
      }
      forall k | 1 <= k < n
        ensures cols[k] == RootStep(t[k], cols[k - 1])
      {
        if k < n - 1 {
          assert cols[k] == prev[k] && cols[k - 1] == prev[k - 1];
        } else {
          assert cols[k] == last && cols[k - 1] == prev[n - 2];
        }
      }
    }
  }

  /** The descent is a monotone path, and each step lands on the window minimum of the table row. */
  lemma RootColumnsIsPath(t: Grid, start: int)
    requires IsEnergyMap(t) && (|t| == 1 || |t[0]| >= 2) && 0 <= start < |t[0]|
    ensures IsPath(RootColumns(t, |t|, start), |t|, |t[0]|)
    ensures var cols := RootColumns(t, |t|, start);
      forall k :: 1 <= k < |t| ==> t[k][cols[k]] == MinOf(Window(t[k], cols[k - 1]))
  {
    RootColumnsSteps(t, |t|, start);
    var cols := RootColumns(t, |t|, start);
    forall k | 1 <= k < |t|
      ensures Adjacent(cols, k) && t[k][cols[k]] == MinOf(Window(t[k], cols[k - 1]))
    {
      assert cols[k] == RootStep(t[k], cols[k - 1]);
      RootStepIsWindowMin(t[k], cols[k - 1]);
    }
  }

  /** From the first minimum of the top row of the minimum-energy table, the descent follows its window minima. */
  lemma RootColumnsFollowDownMin(e: Grid)
    requires IsEnergyMap(e) && (|e| == 1 || |e[0]| >= 2)
    ensures FollowsDownMin(e, RootColumns(DownTable(e), |e|, FirstArgMin(DownRow(e, 0))))
  {
    var t := DownTable(e);
    var cols := RootColumns(t, |e|, FirstArgMin(DownRow(e, 0)));
    RootColumnsSteps(t, |e|, FirstArgMin(DownRow(e, 0)));
    RootColumnsIsPath(t, FirstArgMin(DownRow(e, 0)));
    forall k | 1 <= k < |e|
      ensures DescentStep(e, cols, k)
    {
      assert Adjacent(cols, k);
    }
  }

  /** Hence that descent is a minimum-energy path. */
  lemma RootColumnsFixedIsOptimal(e: Grid)
    requires IsEnergyMap(e) && (|e| == 1 || |e[0]| >= 2)
    ensures var cols := RootColumns(DownTable(e), |e|, FirstArgMin(DownRow(e, 0)));
      IsPath(cols, |e|, |e[0]|) && Cost(e, cols) == MinOf(DownRow(e, 0)) &&
      forall p :: IsPath(p, |e|, |e[0]|) ==> Cost(e, cols) <= Cost(e, p)
  {
    var cols := RootColumns(DownTable(e), |e|, FirstArgMin(DownRow(e, 0)));
    RootColumnsFollowDownMin(e);
    DescentIsPath(e, cols);
    forall p | IsPath(p, |e|, |e[0]|)
      ensures Cost(e, cols) <= Cost(e, p)
    {
      DescentIsOptimal(e, cols, p);
    }
    DescentIsOptimal(e, cols, cols);
  }

  /** The body of the descent loop: the step from column `col` into table row `row`. */
  method StepInto(dp: array2<int>, row: int, col: int, ghost below: seq<int>) returns (next: int)
    requires 0 <= row < dp.Length0 && 0 <= col < dp.Length1 == |below| && |below| >= 2 && RowIs(dp, row, below)
    ensures next == RootStep(below, col)
  {
    var j := dp.Length1;
    next := col;
    if col == 0 {
      if dp[row, col] > dp[row, col + 1] {
        next := col + 1;
      }
    } else if col == j - 1 {
      if dp[row, col] > dp[row, col - 1] {
        next := col - 1;
      }
    } else {
      if dp[row, col - 1] <= dp[row, col] && dp[row, col - 1] <= dp[row, col + 1] {
        next := col - 1;
      } else if dp[row, col + 1] <= dp[row, col] && dp[row, col + 1] <= dp[row, col - 1] {
        next := col + 1;
      }
    }
  }

  /** One more step of the descent loop extends both the cells and the columns. */
  lemma DescentGrows(t: Grid, start: int, cells: seq<(int, int)>, cols: seq<int>, col: int)
    requires IsEnergyMap(t) && |t[0]| >= 2 && 0 <= start < |t[0]|
    requires 1 <= |cols| < |t| && cols == RootColumns(t, |cols|, start)
    requires |cells| == |cols| && forall k :: 0 <= k < |cols| ==> cells[k] == (k, cols[k])
    requires col == RootStep(t[|cols|], cols[|cols| - 1])
    ensures cols + [col] == RootColumns(t, |cols| + 1, start)
    ensures forall k :: 0 <= k <= |cols| ==> (cells + [(|cols|, col)])[k] == (k, (cols + [col])[k])
  {
    CellsExtend(cells, cols, col);
  }

  /** The descent loop over the filled table, whose rows are those of t, from column `start`. */
  method Descend(dp: array2<int>, ghost t: Grid, start: int) returns (seamCells: seq<(int, int)>)
    requires IsEnergyMap(t) && (|t| == 1 || |t[0]| >= 2) && dp.Length0 == |t| && dp.Length1 == |t[0]|
    requires forall r :: 0 <= r < |t| ==> RowIs(dp, r, t[r])
    requires 0 <= start < |t[0]|
    ensures OneCellPerRow(seamCells, |t|) && Columns(seamCells) == RootColumns(t, |t|, start)
  {
    var i := dp.Length0;
    var column := start;
    seamCells := [(0, column)];
    ghost var cols := [column];
    for row := 1 to i
      invariant cols == RootColumns(t, row, start) && column == cols[row - 1]
      invariant |seamCells| == row && forall k :: 0 <= k < row ==> seamCells[k] == (k, cols[k])
    {
      column := StepInto(dp, row, column, t[row]);
      DescentGrows(t, start, seamCells, cols, column);
      seamCells := seamCells + [(row, column)];
      cols := cols + [column];
    }
  }

  // ---------------------------------------------------------------------
  // find_optimal_seam
  // ---------------------------------------------------------------------

  /**
   * `find_optimal_seam` as written. A map one column wide and two or more
   * rows tall fails on the first table cell filled (`dp[row + 1, 1]`); any
   * other map gives one `(row, col)` per row: the `best_start` column of the
   * table's top row, then one descent step per row.
   */
  method FindOptimalSeam(e: Grid) returns (r: Result<seq<(int, int)>, Error>)
    requires IsEnergyMap(e)
    ensures r.Failure? <==> |e| >= 2 && |e[0]| == 1
    ensures r.Success? ==>
      OneCellPerRow(r.value, |e|) &&
      Columns(r.value) == RootColumns(RootTable(e, true), |e|, StartColumn(RootRow(e, 0, true))) &&
      IsPath(Columns(r.value), |e|, |e[0]|)
  {
    var i, j := |e|, |e[0]|;
    if i >= 2 && j == 1 {
      return Failure(IndexError);
    }
    var dp := FillTable(e, true);
    ghost var t := RootTable(e, true);
    var start := PickStart(dp, t[0]);
    var seamCells := Descend(dp, t, start);
    RootColumnsIsPath(t, start);
    r := Success(seamCells);
  }

  /**
   * `find_optimal_seam` as evidently intended: `elif` at the right edge and
   * numpy's `argmin` for the start. It fails on the same maps (the descent
   * would read `dp[row, 1]`), and otherwise gives a minimum-energy seam.
   */
  method FindOptimalSeamFixed(e: Grid) returns (r: Result<seq<(int, int)>, Error>)
    requires IsEnergyMap(e)
    ensures r.Failure? <==> |e| >= 2 && |e[0]| == 1
    ensures r.Success? ==>
      OneCellPerRow(r.value, |e|) &&
      IsPath(Columns(r.value), |e|, |e[0]|) &&
      Cost(e, Columns(r.value)) == MinOf(DownRow(e, 0)) &&
      forall p :: IsPath(p, |e|, |e[0]|) ==> Cost(e, Columns(r.value)) <= Cost(e, p)
  {
    var i, j := |e|, |e[0]|;
    if i >= 2 && j == 1 {
      return Failure(IndexError);
    }
    var dp := FillTable(e, false);
    ghost var t := RootTable(e, false);
    RowSliceIs(dp, 0, t[0]);
    var start := FirstArgMin(RowSlice(dp, 0, 0, j));
    var seamCells := Descend(dp, t, start);
    RootTableFixed(e);
    RootColumnsFixedIsOptimal(e);
    r := Success(seamCells);
  }

  // ---------------------------------------------------------------------
  // Two maps on which the code as written misses the cheapest seam
  // ---------------------------------------------------------------------

  /** On `[[0, 5]]` the scan starts in column 1, costing 5, though column 0 costs 0. */
  lemma StartSkipsCheaperColumn()
    ensures RootColumns(RootTable([[0, 5]], true), 1, StartColumn(RootRow([[0, 5]], 0, true))) == [1]
    ensures Cost([[0, 5]], [1]) == 5 && Cost([[0, 5]], [0]) == 0
  {
    OneRowStart([[0, 5]]);
  }

  /** The start and the costs on that map. */
  lemma OneRowStart(e: Grid)
    requires e == [[0, 5]]
    ensures StartColumn(RootRow(e, 0, true)) == 1
    ensures Cost(e, [1]) == 5 && Cost(e, [0]) == 0
  {
    assert RootRow(e, 0, true) == [0, 5];
    assert FirstArgMin([0, 5][1..]) == 0;
  }

  /**
   * On this map the wraparound lets row 1, column 0 read the 0 in the far
   * corner of row 2, so the descent turns left into a seam costing 9 where
   * one costing 1 exists.
   */
  lemma WrapMissesCheaperSeam()
    ensures var e := [[9, 0, 9], [0, 1, 9], [9, 9, 0]];
      RootColumns(RootTable(e, true), 3, StartColumn(RootRow(e, 0, true))) == [1, 0, 0] &&
      Cost(e, [1, 0, 0]) == 9 && Cost(e, [1, 1, 2]) == 1
  {
    WrappedRootDescent([[9, 0, 9], [0, 1, 9], [9, 9, 0]]);
    ThreeRowCosts([[9, 0, 9], [0, 1, 9], [9, 9, 0]]);
  }

  /** The descent as written on that map. */
  lemma WrappedRootDescent(e: Grid)
    requires e == [[9, 0, 9], [0, 1, 9], [9, 9, 0]]
    ensures RootColumns(RootTable(e, true), 3, StartColumn(RootRow(e, 0, true))) == [1, 0, 0]
  {
    var t := RootTable(e, true);
    WrapTableRows(e);
    assert t == [[9, 0, 10], [0, 1, 9], [9, 9, 0]];
    assert StartColumn([9, 0, 10]) == 1 by {
      assert [9, 0, 10][1..] == [0, 10];
      assert FirstArgMin([0, 10]) == 0;
    }
    assert RootColumns(t, 1, 1) == [1];
    assert RootStep([0, 1, 9], 1) == 0;
    assert RootColumns(t, 2, 1) == [1, 0];
    assert RootStep([9, 9, 0], 0) == 0;
  }

  /** The rows of the table as written on that map. */
  lemma WrapTableRows(e: Grid)
    requires e == [[9, 0, 9], [0, 1, 9], [9, 9, 0]]
    ensures RootRow(e, 2, true) == [9, 9, 0]
    ensures RootRow(e, 1, true) == [0, 1, 9]
    ensures RootRow(e, 0, true) == [9, 0, 10]
  {
    WrapRowOne(e);
    var below := RootRow(e, 1, true);
    assert RootMin(below, 0, true) == 0 && RootMin(below, 1, true) == 0 && RootMin(below, 2, true) == 1;
  }

  /** Row 1 of that table: column 0 reads the 0 of column 2. */
  lemma WrapRowOne(e: Grid)
    requires e == [[9, 0, 9], [0, 1, 9], [9, 9, 0]]
    ensures RootRow(e, 2, true) == [9, 9, 0] && RootRow(e, 1, true) == [0, 1, 9]
  {
    var below := RootRow(e, 2, true);
    assert below == [9, 9, 0];
    assert RootMin(below, 0, true) == 0 && RootMin(below, 1, true) == 0 && RootMin(below, 2, true) == 0;
  }

  /** The energies of the two seams compared on that map. */
  lemma ThreeRowCosts(e: Grid)
    requires e == [[9, 0, 9], [0, 1, 9], [9, 9, 0]]
    ensures Cost(e, [1, 0, 0]) == 9 && Cost(e, [1, 1, 2]) == 1
  {
    assert IsPath([1, 0, 0], 3, 3) && IsPath([1, 1, 2], 3, 3) by {
      assert Adjacent([1, 0, 0], 1) && Adjacent([1, 0, 0], 2);
      assert Adjacent([1, 1, 2], 1) && Adjacent([1, 1, 2], 2);
    }
  }
}
