// The vocabulary shared by the four seam-carving scripts: energy maps as
// integer grids, the three-cell predecessor window, monotone paths and their
// cost, the two dynamic programmes (top-down `CumRow` and bottom-up `DownRow`)
// and the lemmas that make both of them optimal. Images and seam removal
// helpers live here too.

module SeamPaths {
  import opened Common

  /** An energy map: `e[row][col]`. */
  type Grid = seq<seq<int>>

  /** A pixel is the list of its channel samples. */
  type Pixel = seq<int>

  /** An image: `img[row][col]` is a pixel. */
  type Image = seq<seq<Pixel>>

  ghost predicate IsGrid<T>(g: seq<seq<T>>, h: int, w: int)
  {
    |g| == h && forall r :: 0 <= r < h ==> |g[r]| == w
  }

  /** A rectangular energy map with at least one row and one column. */
  ghost predicate IsEnergyMap(e: Grid)
  {
    |e| >= 1 && |e[0]| >= 1 && IsGrid(e, |e|, |e[0]|)
  }

  /** An h x w image whose pixels all have `ch` channels. */
  ghost predicate IsImage(img: Image, h: int, w: int, ch: int)
  {
    IsGrid(img, h, w) &&
    forall r, c :: 0 <= r < h && 0 <= c < w ==> |img[r][c]| == ch
  }

  /** The number of columns of a grid; a grid without rows is taken to have none. */
  function Width<T>(g: seq<seq<T>>): nat
  {
    if |g| == 0 then 0 else |g[0]|
  }

  /** The number of channels of an image's pixels (that of its first pixel). */
  function Channels(img: Image): nat
  {
    if |img| == 0 || |img[0]| == 0 then 0 else |img[0][0]|
  }

  /** A row whose pixels all have `ch` channels. */
  ghost predicate IsPixelRow(row: seq<Pixel>, ch: int)
  {
    forall c :: 0 <= c < |row| ==> |row[c]| == ch
  }

  /** numpy's `g.T` (or `transpose(1, 0, 2)` on an image), with the shape given explicitly. */
  function Transpose<T>(g: seq<seq<T>>, h: nat, w: nat): (t: seq<seq<T>>)
    requires IsGrid(g, h, w)
  {
    seq(w, c requires 0 <= c < w => seq(h, r requires 0 <= r < h => g[r][c]))
  }

  lemma TransposeShape<T>(g: seq<seq<T>>, h: nat, w: nat)
    requires IsGrid(g, h, w)
    ensures IsGrid(Transpose(g, h, w), w, h)
    ensures forall c, r :: 0 <= c < w && 0 <= r < h ==> Transpose(g, h, w)[c][r] == g[r][c]
  {
  }

  /**
   * The energy map of an image: one value per pixel. `energyAt(img, row, col)`
   * stands for `calculate_energy`, whose gradient filters are not modelled.
   */
  function EnergyMap<T>(img: seq<seq<T>>, energyAt: (seq<seq<T>>, int, int) -> int): (e: Grid)
    ensures IsGrid(e, |img|, Width(img))
    ensures forall r, c :: 0 <= r < |img| && 0 <= c < Width(img) ==> e[r][c] == energyAt(img, r, c)
  {
    seq(|img|, r requires 0 <= r < |img| => seq(Width(img), c requires 0 <= c < Width(img) => energyAt(img, r, c)))
  }

  /**
   * An extent after a loop that removes one seam per round for up to n rounds
   * and stops as soon as the extent is `floor` or less.
   */
  function Shrunk(extent: int, n: int, floor: int): int
  {
    extent - Min(Max(n, 0), Max(extent - floor, 0))
  }

  /** `row[:k] + row[k+1:]`: the row without its element `k`. */
  function RemoveAt<T>(row: seq<T>, k: int): seq<T>
    requires 0 <= k < |row|
  {
    row[..k] + row[k + 1..]
  }

  /** A pixel row without one pixel is one pixel shorter, and its pixels keep their channels. */
  lemma RemoveAtPixels(row: seq<Pixel>, k: int, ch: int)
    requires 0 <= k < |row| && IsPixelRow(row, ch)
    ensures |RemoveAt(row, k)| == |row| - 1 && IsPixelRow(RemoveAt(row, k), ch)
  {
    var out := RemoveAt(row, k);
    assert forall x :: 0 <= x < |out| ==> out[x] == row[if x < k then x else x + 1];
  }

  /** Removing element k loses exactly that element: nothing else disappears or appears. */
  lemma RemoveAtMultiset<T>(row: seq<T>, k: int)
    requires 0 <= k < |row|
    ensures multiset(RemoveAt(row, k)) + multiset{row[k]} == multiset(row)
  {
    assert row == row[..k] + [row[k]] + row[k + 1..];
  }

  // ---------------------------------------------------------------------
  // The predecessor window of column j: columns max(0, j-1) .. min(w, j+2)-1
  // ---------------------------------------------------------------------

  /** `max(0, j - 1)` */
  function Lo(j: int): int { if j > 0 then j - 1 else 0 }

  /** `min(w, j + 2)` */
  function Hi(w: int, j: int): int { if j + 2 < w then j + 2 else w }

  function Window(row: seq<int>, j: int): seq<int>
    requires 0 <= j < |row|
  {
    row[Lo(j)..Hi(|row|, j)]
  }

  /** The relative column (-1, 0 or +1) of the first minimum in the window of column j. */
  function Offset(row: seq<int>, j: int): int
    requires 0 <= j < |row|
  {
    FirstArgMin(Window(row, j)) + Lo(j) - j
  }

  /**
   * The offset moves at most one column, stays in range, lands on the window
   * minimum, and on ties lands on the leftmost minimal neighbour.
   */
  lemma OffsetIsFirstWindowMin(row: seq<int>, j: int)
    requires 0 <= j < |row|
    ensures var d := Offset(row, j);
      -1 <= d <= 1 && 0 <= j + d < |row| &&
      row[j + d] == MinOf(Window(row, j)) &&
      (forall k :: Lo(j) <= k < Hi(|row|, j) ==> row[j + d] <= row[k]) &&
      (forall k :: Lo(j) <= k < j + d ==> row[j + d] < row[k])
  {
    var win := Window(row, j);
    FirstArgMinIsFirstMin(win);
    assert forall k :: Lo(j) <= k < Hi(|row|, j) ==> win[k - Lo(j)] == row[k];
  }

  /** The window minimum is at most every neighbour within one column. */
  lemma WindowMinBelow(row: seq<int>, j: int, k: int)
    requires 0 <= j < |row| && 0 <= k < |row| && -1 <= k - j <= 1
    ensures MinOf(Window(row, j)) <= row[k]
  {
    FirstArgMinIsFirstMin(Window(row, j));
    assert Window(row, j)[k - Lo(j)] == row[k];
  }

  /** A value that occurs in the window of column j and is at most every value there is its minimum. */
  lemma WindowMinIs(row: seq<int>, j: int, k: int, m: int)
    requires 0 <= j < |row| && Lo(j) <= k < Hi(|row|, j) && row[k] == m
    requires forall c :: Lo(j) <= c < Hi(|row|, j) ==> m <= row[c]
    ensures MinOf(Window(row, j)) == m
  {
    var win := Window(row, j);
    FirstArgMinIsFirstMin(win);
    assert win[k - Lo(j)] == m;
    assert win[FirstArgMin(win)] == row[FirstArgMin(win) + Lo(j)];
  }

  // ---------------------------------------------------------------------
  // Monotone paths and their cost
  // ---------------------------------------------------------------------

  /** Rows k-1 and k of the path are at most one column apart. */
  ghost predicate Adjacent(p: seq<int>, k: int)
    requires 1 <= k < |p|
  {
    -1 <= p[k] - p[k - 1] <= 1
  }

  /** One column per row, all in range, consecutive columns at most one apart. */
  ghost predicate IsPath(p: seq<int>, h: int, w: int)
  {
    |p| == h &&
    (forall k :: 0 <= k < h ==> 0 <= p[k] < w) &&
    (forall k :: 1 <= k < h ==> Adjacent(p, k))
  }

  /** The columns of a list of `(row, col)` cells. */
  function Columns(cells: seq<(int, int)>): (cols: seq<int>)
    ensures |cols| == |cells| && forall k :: 0 <= k < |cells| ==> cols[k] == cells[k].1
  {
    seq(|cells|, k requires 0 <= k < |cells| => cells[k].1)
  }

  /** Appending the cell `(|cols|, c)` to the cells of `cols` gives the cells of `cols + [c]`. */
  lemma CellsExtend(cells: seq<(int, int)>, cols: seq<int>, c: int)
    requires |cells| == |cols| && forall k :: 0 <= k < |cols| ==> cells[k] == (k, cols[k])
    ensures forall k :: 0 <= k <= |cols| ==> (cells + [(|cols|, c)])[k] == (k, (cols + [c])[k])
  {
  }

  /** Cell k of the list lies in row k: one cell per row, top to bottom. */
  ghost predicate OneCellPerRow(cells: seq<(int, int)>, h: int)
  {
    |cells| == h && forall k :: 0 <= k < h ==> cells[k].0 == k
  }

  /** Energy summed along rows 0..i of the path. */
  function PrefixCost(e: Grid, p: seq<int>, i: int): int
    requires IsEnergyMap(e) && IsPath(p, |e|, |e[0]|) && i < |e|
    decreases i
  {
    if i < 0 then 0 else PrefixCost(e, p, i - 1) + e[i][p[i]]
  }

  /** Energy summed along rows i..h-1 of the path. */
  function SuffixCost(e: Grid, p: seq<int>, i: nat): int
    requires IsEnergyMap(e) && IsPath(p, |e|, |e[0]|)
    decreases |e| - i
  {
    if i >= |e| then 0 else e[i][p[i]] + SuffixCost(e, p, i + 1)
  }

  /** Total energy along the path. */
  function Cost(e: Grid, p: seq<int>): int
    requires IsEnergyMap(e) && IsPath(p, |e|, |e[0]|)
  {
    PrefixCost(e, p, |e| - 1)
  }

  lemma {:induction false} CostSplit(e: Grid, p: seq<int>, i: nat)
    requires IsEnergyMap(e) && IsPath(p, |e|, |e[0]|) && i <= |e|
    ensures PrefixCost(e, p, i - 1) + SuffixCost(e, p, i) == Cost(e, p)
    decreases |e| - i
  {
    if i < |e| {
      CostSplit(e, p, i + 1);
    }
  }

  /** A running total that adds each row's energy along the path, from row 0 on, is the prefix cost. */
  lemma {:induction false} PrefixCostIsRunningTotal(e: Grid, p: seq<int>, totals: seq<int>, i: nat)
    requires IsEnergyMap(e) && IsPath(p, |e|, |e[0]|) && i < |e| == |totals|
    requires totals[0] == e[0][p[0]]
    requires forall k :: 1 <= k <= i ==> totals[k] == totals[k - 1] + e[k][p[k]]
    ensures PrefixCost(e, p, i) == totals[i]
  {
    if i > 0 {
      PrefixCostIsRunningTotal(e, p, totals, i - 1);
    }
  }

  /** A running total that adds each row's energy along the path, from the last row up, is the suffix cost. */
  lemma {:induction false} SuffixCostIsRunningTotal(e: Grid, p: seq<int>, totals: seq<int>, i: nat)
    requires IsEnergyMap(e) && IsPath(p, |e|, |e[0]|) && i < |e| == |totals|
    requires totals[|e| - 1] == e[|e| - 1][p[|e| - 1]]
    requires forall k :: i <= k < |e| - 1 ==> totals[k] == e[k][p[k]] + totals[k + 1]
    ensures SuffixCost(e, p, i) == totals[i]
    decreases |e| - i
  {
    if i < |e| - 1 {
      SuffixCostIsRunningTotal(e, p, totals, i + 1);
    }
  }

  // ---------------------------------------------------------------------
  // Top-down programme: row 0 is free, row i adds the window minimum of row i-1
  // ---------------------------------------------------------------------

  /** Row i of the cumulative-cost table filled from the top. */
  function CumRow(e: Grid, i: nat): (row: seq<int>)
    requires IsEnergyMap(e) && i < |e|
    ensures |row| == |e[0]|
  {
    if i == 0 then e[0]
    else
      var prev := CumRow(e, i - 1);
      seq(|e[0]|, j requires 0 <= j < |e[0]| => e[i][j] + MinOf(Window(prev, j)))
  }

  /** No monotone path reaches row i more cheaply than the table says. */
  lemma {:induction false} CumRowBelowPath(e: Grid, p: seq<int>, i: nat)
    requires IsEnergyMap(e) && IsPath(p, |e|, |e[0]|) && i < |e|
    ensures CumRow(e, i)[p[i]] <= PrefixCost(e, p, i)
  {
    if i > 0 {
      CumRowBelowPath(e, p, i - 1);
      assert Adjacent(p, i);
      CumRowStep(e, i, p[i], p[i - 1], PrefixCost(e, p, i - 1));
    }
  }

  /** A bound on the table entry of one neighbour above bounds the entry below it. */
  lemma CumRowStep(e: Grid, i: nat, a: int, b: int, before: int)
    requires IsEnergyMap(e) && 0 < i < |e| && 0 <= a < |e[0]| && 0 <= b < |e[0]| && -1 <= a - b <= 1
    requires CumRow(e, i - 1)[b] <= before
    ensures CumRow(e, i)[a] <= before + e[i][a]
  {
    WindowMinBelow(CumRow(e, i - 1), a, b);
  }

  /**
   * The seam that the top-down backtrack produces: it ends at the first
   * minimum of the last row, and each row above is the row below moved by the
   * recorded offset (clamped into range).
   */
  ghost predicate IsTraceback(e: Grid, s: seq<int>)
    requires IsEnergyMap(e)
  {
    var h := |e|;
    var w := |e[0]|;
    |s| == h &&
    (forall k :: 0 <= k < h ==> 0 <= s[k] < w) &&
    s[h - 1] == FirstArgMin(CumRow(e, h - 1)) &&
    forall k :: 1 <= k < h ==> BacktrackStep(e, s, k)
  }

  /** The four parts of a traceback make one. */
  lemma TracebackIntro(e: Grid, s: seq<int>)
    requires IsEnergyMap(e) && |s| == |e| && forall k :: 0 <= k < |e| ==> 0 <= s[k] < |e[0]|
    requires s[|e| - 1] == FirstArgMin(CumRow(e, |e| - 1))
    requires forall k :: 1 <= k < |e| ==> BacktrackStep(e, s, k)
    ensures IsTraceback(e, s)
  {
  }

  /** Row k-1 of the seam is row k moved by the offset recorded for cell (k, s[k]), clamped. */
  ghost predicate BacktrackStep(e: Grid, s: seq<int>, k: int)
    requires IsEnergyMap(e) && 1 <= k < |e| == |s| && 0 <= s[k] < |e[0]|
  {
    s[k - 1] == Clamp(s[k] + Offset(CumRow(e, k - 1), s[k]), 0, |e[0]| - 1)
  }

  lemma CumRowAt(e: Grid, i: nat, j: int)
    requires IsEnergyMap(e) && 0 < i < |e| && 0 <= j < |e[0]|
    ensures CumRow(e, i)[j] == e[i][j] + MinOf(Window(CumRow(e, i - 1), j))
  {
  }

  /** One backtrack step moves by the recorded offset; the clamp never bites. */
  lemma TracebackStep(e: Grid, s: seq<int>, k: nat)
    requires IsEnergyMap(e) && IsTraceback(e, s) && 1 <= k < |e|
    ensures 0 <= s[k] < |e[0]|
    ensures s[k - 1] == s[k] + Offset(CumRow(e, k - 1), s[k])
    ensures CumRow(e, k - 1)[s[k - 1]] == MinOf(Window(CumRow(e, k - 1), s[k]))
  {
    assert BacktrackStep(e, s, k);
    OffsetIsFirstWindowMin(CumRow(e, k - 1), s[k]);
  }

  lemma TracebackIsPath(e: Grid, s: seq<int>)
    requires IsEnergyMap(e) && IsTraceback(e, s)
    ensures IsPath(s, |e|, |e[0]|)
  {
    forall k | 1 <= k < |e|
      ensures Adjacent(s, k)
    {
      TracebackStep(e, s, k);
    }
  }

  /** One backtrack step: the table entry is the cell's energy plus the entry the seam came from. */
  lemma TracebackStepCost(e: Grid, s: seq<int>, i: nat)
    requires IsEnergyMap(e) && IsTraceback(e, s) && 1 <= i < |e|
    ensures 0 <= s[i - 1] < |e[0]| && 0 <= s[i] < |e[0]|
    ensures CumRow(e, i)[s[i]] == e[i][s[i]] + CumRow(e, i - 1)[s[i - 1]]
  {
    TracebackStep(e, s, i);
    CumRowAt(e, i, s[i]);
  }

  /** Along a traceback seam, the total energy equals the seam's last-row table entry. */
  lemma TracebackFollowsCum(e: Grid, s: seq<int>)
    requires IsEnergyMap(e) && IsTraceback(e, s) && IsPath(s, |e|, |e[0]|)
    ensures Cost(e, s) == CumRow(e, |e| - 1)[s[|e| - 1]]
  {
    var totals := seq(|e|, k requires 0 <= k < |e| => CumRow(e, k)[s[k]]);
    forall k | 0 <= k < |e|
      ensures totals[k] == CumRow(e, k)[s[k]]
    {
    }
    forall k | 1 <= k < |e|
      ensures totals[k] == totals[k - 1] + e[k][s[k]]
    {
      TracebackStepCost(e, s, k);
    }
    PrefixCostIsRunningTotal(e, s, totals, |e| - 1);
  }

  /** The traceback seam costs the minimum of the last row, and no monotone path costs less. */
  lemma TracebackIsOptimal(e: Grid, s: seq<int>, p: seq<int>)
    requires IsEnergyMap(e) && IsTraceback(e, s) && IsPath(p, |e|, |e[0]|)
    ensures IsPath(s, |e|, |e[0]|)
    ensures Cost(e, s) == MinOf(CumRow(e, |e| - 1))
    ensures Cost(e, s) <= Cost(e, p)
  {
    TracebackIsPath(e, s);
    TracebackFollowsCum(e, s);
    CumRowBelowCost(e, p);
    MinOfIsBelow(CumRow(e, |e| - 1), p[|e| - 1]);
  }

  /** No monotone path costs less than its last-row table entry. */
  lemma CumRowBelowCost(e: Grid, p: seq<int>)
    requires IsEnergyMap(e) && IsPath(p, |e|, |e[0]|)
    ensures CumRow(e, |e| - 1)[p[|e| - 1]] <= Cost(e, p)
  {
    CumRowBelowPath(e, p, |e| - 1);
  }

  /** One backtrack step is a function of the row below: equal at row k, equal at row k-1. */
  lemma TracebacksStepTogether(e: Grid, s: seq<int>, t: seq<int>, k: nat)
    requires IsEnergyMap(e) && IsTraceback(e, s) && IsTraceback(e, t) && 1 <= k < |e|
    requires s[k] == t[k]
    ensures s[k - 1] == t[k - 1]
  {
    TracebackStep(e, s, k);
    TracebackStep(e, t, k);
  }

  /** Two tracebacks of one map agree from row k down to the last row. */
  lemma {:induction false} TracebacksAgreeBelow(e: Grid, s: seq<int>, t: seq<int>, k: nat)
    requires IsEnergyMap(e) && IsTraceback(e, s) && IsTraceback(e, t) && k < |e|
    ensures s[k] == t[k]
    decreases |e| - k
  {
    if k < |e| - 1 {
      TracebacksAgreeBelow(e, s, t, k + 1);
      TracebacksStepTogether(e, s, t, k + 1);
    }
  }

  /** The backtrack is deterministic: two tracebacks of one map are the same seam. */
  lemma TracebackUnique(e: Grid, s: seq<int>, t: seq<int>)
    requires IsEnergyMap(e) && IsTraceback(e, s) && IsTraceback(e, t)
    ensures s == t
  {
    forall k | 0 <= k < |e|
      ensures s[k] == t[k]
    {
      TracebacksAgreeBelow(e, s, t, k);
    }
  }

  // ---------------------------------------------------------------------
  // Bottom-up programme: the last row is free, row i adds the window minimum
  // of row i+1
  // ---------------------------------------------------------------------

  /** Row i of the cost-to-bottom table filled from the last row upwards. */
  function DownRow(e: Grid, i: nat): (row: seq<int>)
    requires IsEnergyMap(e) && i < |e|
    ensures |row| == |e[0]|
    decreases |e| - i
  {
    if i == |e| - 1 then e[i]
    else
      var next := DownRow(e, i + 1);
      seq(|e[0]|, j requires 0 <= j < |e[0]| => e[i][j] + MinOf(Window(next, j)))
  }

  /** The rows of the bottom-up table, as one grid. */
  ghost function DownTable(e: Grid): (t: Grid)
    requires IsEnergyMap(e)
    ensures IsEnergyMap(t) && |t| == |e| && |t[0]| == |e[0]|
    ensures forall k :: 0 <= k < |e| ==> t[k] == DownRow(e, k)
  {
    seq(|e|, k requires 0 <= k < |e| => DownRow(e, k))
  }

  /** No monotone path from row i to the bottom is cheaper than the table says. */
  lemma {:induction false} DownRowBelowPath(e: Grid, p: seq<int>, i: nat)
    requires IsEnergyMap(e) && IsPath(p, |e|, |e[0]|) && i < |e|
    ensures DownRow(e, i)[p[i]] <= SuffixCost(e, p, i)
    decreases |e| - i
  {
    if i < |e| - 1 {
      DownRowBelowPath(e, p, i + 1);
      assert Adjacent(p, i + 1);
      DownRowStep(e, i, p[i], p[i + 1], SuffixCost(e, p, i + 1));
    }
  }

  /** A bound on the table entry of one neighbour below bounds the entry above it. */
  lemma DownRowStep(e: Grid, i: nat, a: int, b: int, rest: int)
    requires IsEnergyMap(e) && i < |e| - 1 && 0 <= a < |e[0]| && 0 <= b < |e[0]| && -1 <= a - b <= 1
    requires DownRow(e, i + 1)[b] <= rest
    ensures DownRow(e, i)[a] <= e[i][a] + rest
  {
    WindowMinBelow(DownRow(e, i + 1), a, b);
  }

  /**
   * A greedy descent: it starts at a column holding the minimum of the top
   * row and, row after row, moves to a neighbour holding the window minimum.
   */
  ghost predicate FollowsDownMin(e: Grid, cols: seq<int>)
    requires IsEnergyMap(e)
  {
    var h := |e|;
    var w := |e[0]|;
    |cols| == h &&
    (forall k :: 0 <= k < h ==> 0 <= cols[k] < w) &&
    DownRow(e, 0)[cols[0]] == MinOf(DownRow(e, 0)) &&
    forall k :: 1 <= k < h ==> DescentStep(e, cols, k)
  }

  /** Row k of the descent is a neighbour of row k-1 holding the window minimum of DownRow(e, k). */
  ghost predicate DescentStep(e: Grid, cols: seq<int>, k: int)
    requires IsEnergyMap(e) && 1 <= k < |e| == |cols| && 0 <= cols[k - 1] < |e[0]| && 0 <= cols[k] < |e[0]|
  {
    Adjacent(cols, k) && DownRow(e, k)[cols[k]] == MinOf(Window(DownRow(e, k), cols[k - 1]))
  }

  lemma DescentIsPath(e: Grid, cols: seq<int>)
    requires IsEnergyMap(e) && FollowsDownMin(e, cols)
    ensures IsPath(cols, |e|, |e[0]|)
  {
    forall k | 1 <= k < |e|
      ensures Adjacent(cols, k)
    {
      assert DescentStep(e, cols, k);
    }
  }

  /** One descent step: the table entry is the cell's energy plus the entry the descent moves to. */
  lemma DescentStepCost(e: Grid, cols: seq<int>, i: nat)
    requires IsEnergyMap(e) && FollowsDownMin(e, cols) && i < |e| - 1
    ensures DownRow(e, i)[cols[i]] == e[i][cols[i]] + DownRow(e, i + 1)[cols[i + 1]]
  {
    assert DescentStep(e, cols, i + 1);
  }

  /** Along a greedy descent, the energy still to come equals the table entry. */
  lemma DescentFollowsDown(e: Grid, cols: seq<int>, i: nat)
    requires IsEnergyMap(e) && FollowsDownMin(e, cols) && i < |e|
    ensures IsPath(cols, |e|, |e[0]|)
    ensures SuffixCost(e, cols, i) == DownRow(e, i)[cols[i]]
  {
    DescentIsPath(e, cols);
    var totals := seq(|e|, k requires 0 <= k < |e| => DownRow(e, k)[cols[k]]);
    forall k | 0 <= k < |e|
      ensures totals[k] == DownRow(e, k)[cols[k]]
    {
    }
    forall k | i <= k < |e| - 1
      ensures totals[k] == e[k][cols[k]] + totals[k + 1]
    {
      DescentStepCost(e, cols, k);
    }
    SuffixCostIsRunningTotal(e, cols, totals, i);
  }

  /** A greedy descent is a minimum-energy monotone path. */
  lemma DescentIsOptimal(e: Grid, cols: seq<int>, p: seq<int>)
    requires IsEnergyMap(e) && FollowsDownMin(e, cols) && IsPath(p, |e|, |e[0]|)
    ensures IsPath(cols, |e|, |e[0]|)
    ensures Cost(e, cols) == MinOf(DownRow(e, 0))
    ensures Cost(e, cols) <= Cost(e, p)
  {
    DescentFollowsDown(e, cols, 0);
    CostSplit(e, cols, 0);
    CostSplit(e, p, 0);
    DownRowBelowPath(e, p, 0);
    MinOfIsBelow(DownRow(e, 0), p[0]);
  }
}
