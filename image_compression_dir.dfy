// Image_Compression_by_Seam_carving/image_compression_by_seam_carving.py:
// the bottom-up seam DP, the greedy top-down descent that reads its table,
// and `remove_seam`, which writes the listed rows into a zeroed image.

module ImageCompressionDir {
  import opened Common
  import opened SeamPaths
  import opened SeamTables

  // ---------------------------------------------------------------------
  // The table: dp[row, col] is the cheapest energy from (row, col) down
  // ---------------------------------------------------------------------

  /** The body of the inner fill loop: the minimum over the in-range cells below, plus the energy. */
  method FillCell(e: Grid, dp: array2<int>, row: int, col: int, ghost below: seq<int>)
    requires IsEnergyMap(e) && dp.Length0 == |e| && dp.Length1 == |e[0]|
    requires 0 <= row < |e| - 1 && 0 <= col < |e[0]|
    requires |below| == dp.Length1 && RowIs(dp, row + 1, below)
    modifies dp
    ensures dp[row, col] == e[row][col] + MinOf(Window(below, col))
    ensures forall r, c :: 0 <= r < dp.Length0 && 0 <= c < dp.Length1 && (r != row || c != col) ==>
      dp[r, c] == old(dp[r, c])
  {
    var j := dp.Length1;
    var minPrev := dp[row + 1, col];
    ghost var at := col;
    if col > 0 {
      if dp[row + 1, col - 1] < minPrev {
        at := col - 1;
      }
      minPrev := Min(minPrev, dp[row + 1, col - 1]);
    }
    if col < j - 1 {
      if dp[row + 1, col + 1] < minPrev {
        at := col + 1;
      }
      minPrev := Min(minPrev, dp[row + 1, col + 1]);
    }
    WindowMinIs(below, col, at, minPrev);
    dp[row, col] := e[row][col] + minPrev;
  }

  /** One pass of the inner loop: row `row` of `dp` from row `row + 1`. */
  method FillRow(e: Grid, dp: array2<int>, row: int)
    requires IsEnergyMap(e) && dp.Length0 == |e| && dp.Length1 == |e[0]| && 0 <= row < |e| - 1
    requires RowIs(dp, row + 1, DownRow(e, row + 1))
    modifies dp
    ensures RowIs(dp, row, DownRow(e, row))
    ensures forall r, c :: 0 <= r < dp.Length0 && r != row && 0 <= c < dp.Length1 ==> dp[r, c] == old(dp[r, c])
  {
    var j := |e[0]|;
    ghost var below := DownRow(e, row + 1);
    ghost var cur := DownRow(e, row);
    forall c | 0 <= c < j
      ensures cur[c] == e[row][c] + MinOf(Window(below, c))
    {
    }
    for col := 0 to j
      invariant forall r, c :: 0 <= r < dp.Length0 && r != row && 0 <= c < j ==> dp[r, c] == old(dp[r, c])
      invariant RowIs(dp, row + 1, below)
      invariant forall c :: 0 <= c < col ==> dp[row, c] == cur[c]
    {
      FillCell(e, dp, row, col, below);
    }
  }

  /** The table of `find_optimal_seam`: zeros, the last energy row copied in, then rows filled from i-2 up to 0. */
  method FillTable(e: Grid) returns (dp: array2<int>)
    requires IsEnergyMap(e)
    ensures fresh(dp) && dp.Length0 == |e| && dp.Length1 == |e[0]|
    ensures forall r :: 0 <= r < |e| ==> RowIs(dp, r, DownRow(e, r))
  {
    var i, j := |e|, |e[0]|;
    // np.zeros, then `dp[-1, :] = array[-1, :]`
    dp := new int[i, j]((r, c) requires 0 <= r < i && 0 <= c < j => if r == i - 1 then e[r][c] else 0);
    for row := i - 1 downto 0
      invariant forall r :: row <= r < i ==> RowIs(dp, r, DownRow(e, r))
    {
      label before:
      FillRow(e, dp, row);
      forall r | row < r < i
        ensures RowIs(dp, r, DownRow(e, r))
      {
        assert old@before(RowIs(dp, r, DownRow(e, r)));
      }
    }
  }

  // ---------------------------------------------------------------------
  // The descent
  // ---------------------------------------------------------------------

  /**
   * One step of the descent into a table row `below` from column `col`: left
   * when the left cell is at most the straight one and (unless at the right
   * edge) the right one; else right when the right cell is at most the
   * straight one and the left one. With `wraps` this is the code as written,
   * where "the left one" at column 0 is Python's `dp[row, -1]`, the last
   * column; without it column 0 has no left neighbour to compare with.
   */
  function DirStep(below: seq<int>, col: int, wraps: bool): (next: int)
    requires 0 <= col < |below|
    ensures -1 <= next - col <= 1 && 0 <= next < |below|
  {
    var j := |below|;
    if col > 0 && below[col - 1] <= below[col] && (col == j - 1 || below[col - 1] <= below[col + 1]) then col - 1
    else if col < j - 1 && below[col + 1] <= below[col] &&
            ((col == 0 && !wraps) || below[col + 1] <= PyIndex(below, col - 1)) then col + 1
    else col
  }

  /** Without the wraparound the step lands on the minimum of the window below. */
  lemma DirStepIsWindowMin(below: seq<int>, col: int)
    requires 0 <= col < |below|
    ensures below[DirStep(below, col, false)] == MinOf(Window(below, col))
  {
    var next := DirStep(below, col, false);
    WindowMinIs(below, col, next, below[next]);
  }

  /** Away from column 0, or in a row at most two columns wide, the wraparound changes nothing. */
  lemma DirStepWrapsOnlyAtColumnZero(below: seq<int>, col: int)
    requires 0 <= col < |below| && (col > 0 || |below| <= 2)
    ensures DirStep(below, col, true) == DirStep(below, col, false)
  {
  }

  /**
   * The first n columns of the descent over a table t: from the first minimum
   * of its top row, one step per row.
   */
  ghost function DirColumns(t: Grid, n: int, wraps: bool): (cols: seq<int>)
    requires IsEnergyMap(t) && 1 <= n <= |t|
    ensures |cols| == n && 0 <= cols[n - 1] < |t[0]|
  {
    if n == 1 then [FirstArgMin(t[0])]
    else
      var prev := DirColumns(t, n - 1, wraps);
      prev + [DirStep(t[n - 1], prev[n - 2], wraps)]
  }

  /** Every column of the descent is in range, and each one after the first is the step from the one before. */
  lemma {:induction false} DirColumnsSteps(t: Grid, n: int, wraps: bool)
    requires IsEnergyMap(t) && 1 <= n <= |t|
    ensures var cols := DirColumns(t, n, wraps);
      cols[0] == FirstArgMin(t[0]) &&
      (forall k :: 0 <= k < n ==> 0 <= cols[k] < |t[0]|) &&
      forall k :: 1 <= k < n ==> cols[k] == DirStep(t[k], cols[k - 1], wraps)
  {
    if n > 1 {
      DirColumnsSteps(t, n - 1, wraps);
      var prev := DirColumns(t, n - 1, wraps);
      var last := DirStep(t[n - 1], prev[n - 2], wraps);
      var cols := DirColumns(t, n, wraps);
      assert cols == prev + [last];
      forall k | 0 <= k < n
        ensures 0 <= cols[k] < |t[0]|
      {
        if k < n - 1 {
          assert cols[k] == prev[k];
        }
      }
      forall k | 1 <= k < n
        ensures cols[k] == DirStep(t[k], cols[k - 1], wraps)
      {
        if k < n - 1 {
          assert cols[k] == prev[k] && cols[k - 1] == prev[k - 1];
        } else {
          assert cols[k] == last && cols[k - 1] == prev[n - 2];
        }
      }
    }
  }

  /** The descent is a monotone path. */
  lemma DirColumnsIsPath(t: Grid, wraps: bool)
    requires IsEnergyMap(t)
    ensures IsPath(DirColumns(t, |t|, wraps), |t|, |t[0]|)
  {
    DirColumnsSteps(t, |t|, wraps);
    var cols := DirColumns(t, |t|, wraps);
    forall k | 1 <= k < |t|
      ensures Adjacent(cols, k)
    {
      assert cols[k] == DirStep(t[k], cols[k - 1], wraps);
    }
  }

  /** On a table at most two columns wide the wraparound changes nothing. */
  lemma {:induction false} DirColumnsNarrow(t: Grid, n: int)
    requires IsEnergyMap(t) && |t[0]| <= 2 && 1 <= n <= |t|
    ensures DirColumns(t, n, true) == DirColumns(t, n, false)
  {
    if n > 1 {
      DirColumnsNarrow(t, n - 1);
      var prev := DirColumns(t, n - 1, false);
      DirStepWrapsOnlyAtColumnZero(t[n - 1], prev[n - 2]);
    }
  }

  /** Without the wraparound the descent over the table moves, row after row, to the window minimum. */
  lemma DirColumnsFollowDownMin(e: Grid)
    requires IsEnergyMap(e)
    ensures FollowsDownMin(e, DirColumns(DownTable(e), |e|, false))
  {
    var t := DownTable(e);
    DirColumnsSteps(t, |e|, false);
    var cols := DirColumns(t, |e|, false);
    DirColumnsIsPath(t, false);
    forall k | 1 <= k < |e|
      ensures DescentStep(e, cols, k)
    {
      assert Adjacent(cols, k);
      assert cols[k] == DirStep(t[k], cols[k - 1], false);
      DirStepIsWindowMin(t[k], cols[k - 1]);
    }
    assert cols[0] == FirstArgMin(DownRow(e, 0));
  }

  /** Hence, without the wraparound, the descent is a minimum-energy path. */
  lemma DirColumnsFixedIsOptimal(e: Grid, p: seq<int>)
    requires IsEnergyMap(e) && IsPath(p, |e|, |e[0]|)
    ensures IsPath(DirColumns(DownTable(e), |e|, false), |e|, |e[0]|)
    ensures Cost(e, DirColumns(DownTable(e), |e|, false)) == MinOf(DownRow(e, 0))
    ensures Cost(e, DirColumns(DownTable(e), |e|, false)) <= Cost(e, p)
  {
    DirColumnsFollowDownMin(e);
    DescentIsOptimal(e, DirColumns(DownTable(e), |e|, false), p);
  }

  /** On a map at most two columns wide the descent as written is optimal too. */
  lemma DirColumnsOptimalWhenNarrow(e: Grid, p: seq<int>)
    requires IsEnergyMap(e) && |e[0]| <= 2 && IsPath(p, |e|, |e[0]|)
    ensures IsPath(DirColumns(DownTable(e), |e|, true), |e|, |e[0]|)
    ensures Cost(e, DirColumns(DownTable(e), |e|, true)) <= Cost(e, p)
  {
    DirColumnsNarrow(DownTable(e), |e|);
    DirColumnsFixedIsOptimal(e, p);
  }

  /**
   * A map on which the wraparound bites: the descent starts in column 0, and
   * the cheaper cell to its right loses to the last column, read as `dp[1, -1]`.
   */
  lemma WraparoundMissesCheaperSeam()
    ensures IsEnergyMap([[0, 9, 9], [5, 1, 0]]) && IsPath([0, 0], 2, 3) && IsPath([0, 1], 2, 3)
    ensures DirColumns(DownTable([[0, 9, 9], [5, 1, 0]]), 2, true) == [0, 0]
    ensures Cost([[0, 9, 9], [5, 1, 0]], [0, 0]) == 5 && Cost([[0, 9, 9], [5, 1, 0]], [0, 1]) == 1
  {
    WrappedDescent([[0, 9, 9], [5, 1, 0]]);
    TwoRowCosts([[0, 9, 9], [5, 1, 0]]);
  }

  /** The descent as written on that map. */
  lemma WrappedDescent(e: Grid)
    requires e == [[0, 9, 9], [5, 1, 0]]
    ensures DirColumns(DownTable(e), 2, true) == [0, 0]
  {
    var t := DownTable(e);
    DirTableRows(e);
    assert t == [[1, 9, 9], [5, 1, 0]];
    assert FirstArgMin([1, 9, 9]) == 0;
    assert DirColumns(t, 1, true) == [0];
    assert DirStep([5, 1, 0], 0, true) == 0;
  }

  /** The energies of the two seams compared on that map. */
  lemma TwoRowCosts(e: Grid)
    requires e == [[0, 9, 9], [5, 1, 0]]
    ensures IsEnergyMap(e) && IsPath([0, 0], 2, 3) && IsPath([0, 1], 2, 3)
    ensures Cost(e, [0, 0]) == 5 && Cost(e, [0, 1]) == 1
  {
    assert IsPath([0, 0], 2, 3) && IsPath([0, 1], 2, 3) by {
      assert Adjacent([0, 0], 1) && Adjacent([0, 1], 1);
    }
  }

  /** The table rows of that map. */
  lemma DirTableRows(e: Grid)
    requires e == [[0, 9, 9], [5, 1, 0]]
    ensures DownRow(e, 1) == [5, 1, 0] && DownRow(e, 0) == [1, 9, 9]
  {
    var below := DownRow(e, 1);
    assert below == [5, 1, 0];
    assert Window(below, 0) == [5, 1] && MinOf([5, 1]) == 1;
    assert Window(below, 1) == [5, 1, 0] && MinOf([5, 1, 0]) == 0;
    assert Window(below, 2) == below[1..3] == [1, 0] && MinOf([1, 0]) == 0;
  }

  /** The body of the descent loop: the step from column `col` into table row `row`. */
  method StepInto(dp: array2<int>, row: int, col: int, wraps: bool, ghost below: seq<int>) returns (next: int)
    requires 0 <= row < dp.Length0 && 0 <= col < dp.Length1 == |below| && RowIs(dp, row, below)
    ensures next == DirStep(below, col, wraps)
  {
    var j := dp.Length1;
    next := col;
    if col > 0 && dp[row, col - 1] <= dp[row, col] && (col == j - 1 || dp[row, col - 1] <= dp[row, col + 1]) {
      next := col - 1;
    } else if col < j - 1 && dp[row, col + 1] <= dp[row, col] &&
              ((col == 0 && !wraps) || dp[row, col + 1] <= dp[row, PyPos(col - 1, j)]) {
      next := col + 1;
    }
  }

  /** One more step of the descent loop extends both the cells and the columns. */
  lemma DescentGrows(t: Grid, cells: seq<(int, int)>, cols: seq<int>, col: int, wraps: bool)
    requires IsEnergyMap(t) && 1 <= |cols| < |t| && cols == DirColumns(t, |cols|, wraps)
    requires |cells| == |cols| && forall k :: 0 <= k < |cols| ==> cells[k] == (k, cols[k])
    requires col == DirStep(t[|cols|], cols[|cols| - 1], wraps)
    ensures cols + [col] == DirColumns(t, |cols| + 1, wraps)
    ensures forall k :: 0 <= k <= |cols| ==> (cells + [(|cols|, col)])[k] == (k, (cols + [col])[k])
  {
    CellsExtend(cells, cols, col);
  }

  /** The descent loop of `find_optimal_seam`, reading the filled table, whose rows are those of t. */
  method Descend(dp: array2<int>, ghost t: Grid, wraps: bool) returns (seamCells: seq<(int, int)>)
    requires IsEnergyMap(t) && dp.Length0 == |t| && dp.Length1 == |t[0]|
    requires forall r :: 0 <= r < |t| ==> RowIs(dp, r, t[r])
    ensures OneCellPerRow(seamCells, |t|) && Columns(seamCells) == DirColumns(t, |t|, wraps)
  {
    var i, j := dp.Length0, dp.Length1;
    RowSliceIs(dp, 0, t[0]);
    var col := FirstArgMin(RowSlice(dp, 0, 0, j));
    seamCells := [(0, col)];
    ghost var cols := [col];
    for row := 1 to i
      invariant cols == DirColumns(t, row, wraps) && col == cols[row - 1]
      invariant |seamCells| == row && forall k :: 0 <= k < row ==> seamCells[k] == (k, cols[k])
    {
      col := StepInto(dp, row, col, wraps, t[row]);
      DescentGrows(t, seamCells, cols, col, wraps);
      seamCells := seamCells + [(row, col)];
      cols := cols + [col];
    }
  }

  /**
   * `find_optimal_seam` as written: the bottom-up table, then one `(row, col)`
   * per row from the first minimum of the top row, each step with the
   * wraparound at column 0.
   */
  method FindOptimalSeam(e: Grid) returns (seamCells: seq<(int, int)>)
    requires IsEnergyMap(e)
    ensures OneCellPerRow(seamCells, |e|)
    ensures Columns(seamCells) == DirColumns(DownTable(e), |e|, true)
    ensures IsPath(Columns(seamCells), |e|, |e[0]|)
  {
    var dp := FillTable(e);
    ghost var t := DownTable(e);
    seamCells := Descend(dp, t, true);
    DirColumnsIsPath(t, true);
  }

  /** `find_optimal_seam` without the wraparound: the same table and start, and a seam of minimum energy. */
  method FindOptimalSeamFixed(e: Grid) returns (seamCells: seq<(int, int)>)
    requires IsEnergyMap(e)
    ensures OneCellPerRow(seamCells, |e|)
    ensures IsPath(Columns(seamCells), |e|, |e[0]|)
    ensures Cost(e, Columns(seamCells)) == MinOf(DownRow(e, 0))
    ensures forall p :: IsPath(p, |e|, |e[0]|) ==> Cost(e, Columns(seamCells)) <= Cost(e, p)
  {
    var dp := FillTable(e);
    ghost var t := DownTable(e);
    seamCells := Descend(dp, t, false);
    DirColumnsIsPath(t, false);
    forall p | IsPath(p, |e|, |e[0]|)
      ensures Cost(e, Columns(seamCells)) <= Cost(e, p)
    {
      DirColumnsFixedIsOptimal(e, p);
    }
    DirColumnsFixedIsOptimal(e, Columns(seamCells));
  }

  // ---------------------------------------------------------------------
  // remove_seam
  // ---------------------------------------------------------------------

  /** The column of the last cell listed for row r, if any: later cells overwrite earlier ones. */
  ghost function LastListed(cells: seq<(int, int)>, r: int): (o: Option<int>)
    ensures o.Some? ==> (r, o.value) in cells
  {
    if |cells| == 0 then None
    else if cells[|cells| - 1].0 == r then Some(cells[|cells| - 1].1)
    else LastListed(cells[..|cells| - 1], r)
  }

  /** A row of zero pixels. */
  function ZeroRow(w: int, ch: nat): (row: seq<Pixel>)
    ensures |row| == Max(w, 0) && IsPixelRow(row, ch)
  {
    seq(Max(w, 0), _ => seq(ch, _ => 0))
  }

  /**
   * `remove_seam`: a zero image one column narrower; each listed row gets the
   * input row without the listed column, the pixels before it in place and
   * the ones after it shifted left. Rows no cell lists stay zero.
   */
  method RemoveSeam(img: Image, seamCells: seq<(int, int)>) returns (out: Image)
    requires |img| >= 1 && Width(img) >= 1 && IsImage(img, |img|, Width(img), Channels(img))
    requires forall k :: 0 <= k < |seamCells| ==> 0 <= seamCells[k].0 < |img| && 0 <= seamCells[k].1 < Width(img)
    ensures IsImage(out, |img|, Width(img) - 1, Channels(img))
    ensures forall r :: 0 <= r < |img| && LastListed(seamCells, r).Some? ==>
      out[r] == RemoveAt(img[r], LastListed(seamCells, r).value)
    ensures forall r :: 0 <= r < |img| && LastListed(seamCells, r).None? ==>
      out[r] == ZeroRow(Width(img) - 1, Channels(img))
  {
    var h, w, ch := |img|, Width(img), Channels(img);
    var newImg := new seq<Pixel>[h](_ => ZeroRow(w - 1, ch));
    for k := 0 to |seamCells|
      invariant forall r :: 0 <= r < h ==> newImg[r] == RowAfter(img, seamCells[..k], r)
    {
      var (row, col) := seamCells[k];
      RowAfterShape(img, seamCells[..k], row);
      WriteRow(newImg, img, row, col);
      forall r | 0 <= r < h
        ensures newImg[r] == RowAfter(img, seamCells[..k + 1], r)
      {
        RowAfterStep(img, seamCells, k, r);
      }
    }
    assert seamCells[..|seamCells|] == seamCells;
    out := newImg[..];
    forall r | 0 <= r < h
      ensures |out[r]| == w - 1 && IsPixelRow(out[r], ch)
    {
      RowAfterShape(img, seamCells, r);
    }
  }

  /** The body of the loop: row `row` becomes the input row without column `col`, by two slice writes. */
  method WriteRow(newImg: array<seq<Pixel>>, img: Image, row: int, col: int)
    requires 0 <= row < newImg.Length == |img| && 0 <= col < |img[row]| && |newImg[row]| == |img[row]| - 1
    modifies newImg
    ensures newImg[row] == RemoveAt(img[row], col)
    ensures forall r :: 0 <= r < newImg.Length && r != row ==> newImg[r] == old(newImg[r])
  {
    newImg[row] := img[row][..col] + newImg[row][col..];
    newImg[row] := newImg[row][..col] + img[row][col + 1..];
  }

  /** What row r of the output holds once the cells `cells` have been written. */
  ghost function RowAfter(img: Image, cells: seq<(int, int)>, r: int): seq<Pixel>
    requires 0 <= r < |img| && Width(img) >= 1
    requires forall k :: 0 <= k < |cells| ==> 0 <= cells[k].1 < |img[r]|
  {
    match LastListed(cells, r)
    case Some(c) => RemoveAt(img[r], c)
    case None => ZeroRow(Width(img) - 1, Channels(img))
  }

  /** Every row of the output is one pixel narrower than the input and keeps its channels. */
  lemma RowAfterShape(img: Image, cells: seq<(int, int)>, r: int)
    requires IsImage(img, |img|, Width(img), Channels(img)) && 0 <= r < |img| && Width(img) >= 1
    requires forall k :: 0 <= k < |cells| ==> 0 <= cells[k].1 < |img[r]|
    ensures |RowAfter(img, cells, r)| == Width(img) - 1
    ensures IsPixelRow(RowAfter(img, cells, r), Channels(img))
  {
    match LastListed(cells, r)
    case Some(c) =>
      assert IsPixelRow(img[r], Channels(img));
      RemoveAtPixels(img[r], c, Channels(img));
    case None =>
  }

  /** Writing cell k changes only its own row. */
  lemma RowAfterStep(img: Image, cells: seq<(int, int)>, k: int, r: int)
    requires 0 <= r < |img| && Width(img) >= 1 && 0 <= k < |cells|
    requires forall i :: 0 <= i < |cells| ==> 0 <= cells[i].1 < |img[r]|
    ensures RowAfter(img, cells[..k + 1], r) ==
      if cells[k].0 == r then RemoveAt(img[r], cells[k].1) else RowAfter(img, cells[..k], r)
  {
    assert cells[..k + 1][..k] == cells[..k];
  }
}
