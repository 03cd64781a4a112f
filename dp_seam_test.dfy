// dynamic_programming/Image_Compression_by_Seam_carving/test.py: the forward
// seam DP with an offset table and a clamped backtrack, the seam removal for
// both axes, and the two seam loops of `compress_image` over an abstract
// energy function.

module DpSeamTest {
  import opened Common
  import opened SeamPaths
  import opened SeamTables

  /** The body of the inner loop for cell (i, j): the first minimum of the window above, its offset, and the sum. */
  method FillCell(dp: array2<int>, backtrack: array2<int>, i: int, j: int, ghost above: seq<int>)
    requires 1 <= i < dp.Length0 == backtrack.Length0 && 0 <= j < dp.Length1 == backtrack.Length1
    requires dp != backtrack && |above| == dp.Length1 && RowIs(dp, i - 1, above)
    modifies dp, backtrack
    ensures dp[i, j] == old(dp[i, j]) + MinOf(Window(above, j))
    ensures backtrack[i, j] == Offset(above, j)
    ensures forall r, c :: 0 <= r < dp.Length0 && 0 <= c < dp.Length1 && (r != i || c != j) ==>
      dp[r, c] == old(dp[r, c]) && backtrack[r, c] == old(backtrack[r, c])
  {
    var width := dp.Length1;
    var lo, hi := Max(0, j - 1), Min(width, j + 2);
    var prevCols := RowSlice(dp, i - 1, lo, hi);
    SliceIsWindow(dp, i - 1, above, j);
    var minIdx: int := FirstArgMin(prevCols);
    var minEnergy := prevCols[minIdx];
    backtrack[i, j] := minIdx - (if j > 0 then 1 else 0);
    dp[i, j] := dp[i, j] + minEnergy;
  }

  /** One pass of the inner loop: row i of `dp` gains the window minima of row i-1, and the offsets are recorded. */
  method FillRow(energy: Grid, dp: array2<int>, backtrack: array2<int>, i: int)
    requires IsEnergyMap(energy) && 1 <= i < |energy|
    requires dp.Length0 == backtrack.Length0 == |energy| && dp.Length1 == backtrack.Length1 == |energy[0]|
    requires dp != backtrack
    requires RowIs(dp, i - 1, CumRow(energy, i - 1)) && RowIs(dp, i, energy[i])
    modifies dp, backtrack
    ensures RowIs(dp, i, CumRow(energy, i)) && OffsetsAre(energy, backtrack, i)
    ensures forall r, c :: 0 <= r < dp.Length0 && r != i && 0 <= c < dp.Length1 ==>
      dp[r, c] == old(dp[r, c]) && backtrack[r, c] == old(backtrack[r, c])
  {
    var width := |energy[0]|;
    ghost var above := CumRow(energy, i - 1);
    ghost var cur := CumRow(energy, i);
    forall c | 0 <= c < width
      ensures cur[c] == energy[i][c] + MinOf(Window(above, c))
    {
      CumRowAt(energy, i, c);
    }
    for j := 0 to width
      invariant forall r, c :: 0 <= r < dp.Length0 && r != i && 0 <= c < width ==>
        dp[r, c] == old(dp[r, c]) && backtrack[r, c] == old(backtrack[r, c])
      invariant RowIs(dp, i - 1, above)
      invariant forall c :: 0 <= c < j ==> dp[i, c] == cur[c]
      invariant forall c :: j <= c < width ==> dp[i, c] == energy[i][c]
      invariant forall c :: 0 <= c < j ==> backtrack[i, c] == Offset(above, c)
    {
      FillCell(dp, backtrack, i, j, above);
    }
  }

  /** The two nested loops of `find_vertical_seam`: `dp` starts as a copy of the energy map. */
  method FillTables(energy: Grid) returns (dp: array2<int>, backtrack: array2<int>)
    requires IsEnergyMap(energy)
    ensures fresh(dp) && fresh(backtrack)
    ensures dp.Length0 == backtrack.Length0 == |energy| && dp.Length1 == backtrack.Length1 == |energy[0]|
    ensures forall r :: 0 <= r < |energy| ==> RowIs(dp, r, CumRow(energy, r))
    ensures forall r :: 1 <= r < |energy| ==> OffsetsAre(energy, backtrack, r)
  {
    var height, width := |energy|, |energy[0]|;
    dp := new int[height, width]((i, j) requires 0 <= i < height && 0 <= j < width => energy[i][j]);
    backtrack := new int[height, width]((i, j) => 0);
    assert RowIs(dp, 0, CumRow(energy, 0));
    for i := 1 to height
      invariant forall r :: 0 <= r < i ==> RowIs(dp, r, CumRow(energy, r))
      invariant forall r :: i <= r < height ==> RowIs(dp, r, energy[r])
      invariant forall r :: 1 <= r < i ==> OffsetsAre(energy, backtrack, r)
    {
      label before:
      FillRow(energy, dp, backtrack, i);
      forall r | 1 <= r < i
        ensures OffsetsAre(energy, backtrack, r)
      {
        assert old@before(OffsetsAre(energy, backtrack, r));
      }
    }
  }

  /** The backtrack of `find_vertical_seam`: from the first minimum of the last row upwards. */
  method TraceBack(dp: array2<int>, backtrack: array2<int>, ghost lastRow: seq<int>) returns (seam: seq<int>)
    requires dp.Length0 == backtrack.Length0 >= 1 && dp.Length1 == backtrack.Length1 == |lastRow| >= 1
    requires RowIs(dp, dp.Length0 - 1, lastRow)
    ensures |seam| == dp.Length0 && seam[|seam| - 1] == FirstArgMin(lastRow)
    ensures forall k :: 0 <= k < |seam| ==> 0 <= seam[k] < dp.Length1
    ensures forall k :: 0 < k < |seam| ==> FollowsTable(seam, backtrack, k)
  {
    var height, width := dp.Length0, dp.Length1;
    RowSliceIs(dp, height - 1, lastRow);
    var last := RowSlice(dp, height - 1, 0, width);
    seam := WalkUp(backtrack, FirstArgMin(last));
  }

  /** The loop of the backtrack: from column `start` of the last row upwards, each row the one below moved by its offset, `min(max(seam[i+1] + offset, 0), width - 1)`. */
  method WalkUp(backtrack: array2<int>, start: int) returns (seam: seq<int>)
    requires backtrack.Length0 >= 1 && 0 <= start < backtrack.Length1
    ensures |seam| == backtrack.Length0 && seam[|seam| - 1] == start
    ensures forall k :: 0 <= k < |seam| ==> 0 <= seam[k] < backtrack.Length1
    ensures forall k :: 0 < k < |seam| ==> FollowsTable(seam, backtrack, k)
  {
    var height, width := backtrack.Length0, backtrack.Length1;
    var s := new int[height](_ => 0);
    s[height - 1] := start;
    for i := height - 1 downto 0
      invariant forall k :: i <= k < height ==> 0 <= s[k] < width
      invariant s[height - 1] == start
      invariant forall k :: i < k < height ==> FollowsTable(s[..], backtrack, k)
    {
      ghost var before := s[..];
      var offset := backtrack[i + 1, s[i + 1]];
      s[i] := Min(Max(s[i + 1] + offset, 0), width - 1);
      forall k | i + 1 < k < height
        ensures FollowsTable(s[..], backtrack, k)
      {
        assert FollowsTable(before, backtrack, k);
      }
    }
    seam := s[..];
  }

  /**
   * `find_vertical_seam`: fills `dp` (a copy of the energy map) and the offset
   * table `backtrack` row by row, then walks back from the first minimum of the
   * last row, clamping every step into the width. The seam is a minimum-energy
   * monotone path.
   */
  method FindVerticalSeam(energy: Grid) returns (seam: seq<int>)
    requires IsEnergyMap(energy)
    ensures IsTraceback(energy, seam)
    ensures IsPath(seam, |energy|, |energy[0]|)
    ensures Cost(energy, seam) == MinOf(CumRow(energy, |energy| - 1))
    ensures forall p :: IsPath(p, |energy|, |energy[0]|) ==> Cost(energy, seam) <= Cost(energy, p)
  {
    var dp, backtrack := FillTables(energy);
    seam := TraceBack(dp, backtrack, CumRow(energy, |energy| - 1));
    TableSeamIsTraceback(energy, backtrack, seam);
    TracebackIsPath(energy, seam);
    forall p | IsPath(p, |energy|, |energy[0]|)
      ensures Cost(energy, seam) <= Cost(energy, p)
    {
      TracebackIsOptimal(energy, seam, p);
    }
    TracebackIsOptimal(energy, seam, seam);
  }

  // ---------------------------------------------------------------------
  // remove_seam
  // ---------------------------------------------------------------------

  /** The seam can be removed along `axis`: one in-range entry per row (axis 1) or per column (any other axis). */
  ghost predicate SeamFits<T>(img: seq<seq<T>>, seam: seq<int>, axis: int)
  {
    var h, w := |img|, Width(img);
    IsGrid(img, h, w) &&
    if axis == 1 then
      |seam| >= h && forall r :: 0 <= r < h ==> 0 <= seam[r] < w
    else
      h >= 1 && |seam| >= w && forall c :: 0 <= c < w ==> 0 <= seam[c] < h
  }

  /**
   * `remove_seam`. With axis 1 every row i loses the pixel in column seam[i];
   * with any other axis the image is transposed, the seam removed along axis 1
   * and the result transposed back, so every column c loses the pixel in row seam[c].
   */
  method RemoveSeam<T(0)>(img: seq<seq<T>>, seam: seq<int>, axis: int) returns (out: seq<seq<T>>)
    requires SeamFits(img, seam, axis)
    ensures axis == 1 ==>
      IsGrid(out, |img|, Width(img) - 1) &&
      forall r, c :: 0 <= r < |img| && 0 <= c < Width(img) - 1 ==>
        out[r][c] == img[r][if c < seam[r] then c else c + 1]
    ensures axis == 1 ==> forall r :: 0 <= r < |img| ==> out[r] == RemoveAt(img[r], seam[r])
    ensures axis != 1 ==>
      IsGrid(out, |img| - 1, Width(img)) &&
      forall r, c :: 0 <= r < |img| - 1 && 0 <= c < Width(img) ==>
        out[r][c] == img[if r < seam[c] then r else r + 1][c]
    decreases if axis == 1 then 0 else 1
  {
    var height, width := |img|, Width(img);
    if axis == 1 {
      var newArray := new seq<T>[height];
      for i := 0 to height
        invariant forall r :: 0 <= r < i ==> newArray[r] == RemoveAt(img[r], seam[r])
      {
        newArray[i] := img[i][..seam[i]] + img[i][seam[i] + 1..];
      }
      out := newArray[..];
    } else {
      var t := Transpose(img, height, width);
      TransposeShape(img, height, width);
      assert width > 0 ==> Width(t) == height;
      var removed := RemoveSeam(t, seam, 1);
      assert IsGrid(removed, width, height - 1);
      out := Transpose(removed, width, height - 1);
      TransposeShape(removed, width, height - 1);
    }
  }

  // ---------------------------------------------------------------------
  // compress_image
  // ---------------------------------------------------------------------

  /** How many vertical and horizontal seams a direction asks for (`//` is floor division). */
  function SeamCounts(numSeams: int, direction: string): (counts: (int, int))
    ensures direction == "both" ==> counts.0 == counts.1 && 2 * counts.0 <= numSeams <= 2 * counts.0 + 1
    ensures direction != "both" ==> counts.0 + counts.1 == numSeams
    ensures direction == "vertical" ==> counts.1 == 0
    ensures direction != "both" && direction != "vertical" ==> counts.0 == 0
  {
    if direction == "both" then (numSeams / 2, numSeams / 2)
    else if direction == "vertical" then (numSeams, 0)
    else (0, numSeams)
  }

  /**
   * The seam loops of `compress_image`: first up to v vertical seams, each
   * found on a freshly computed energy map and removed along axis 1, while the
   * width exceeds 2; then up to h horizontal seams, found on the transposed
   * energy map and removed along axis 0, while the height exceeds 2.
   */
  method CompressImage<T(0)>(img: seq<seq<T>>, numSeams: int, direction: string,
                                  energyAt: (seq<seq<T>>, int, int) -> int)
    returns (out: seq<seq<T>>)
    requires |img| >= 1 && Width(img) >= 1 && IsGrid(img, |img|, Width(img))
    ensures IsGrid(out, |out|, Width(out))
    ensures Width(out) == Shrunk(Width(img), SeamCounts(numSeams, direction).0, 2)
    ensures |out| == Shrunk(|img|, SeamCounts(numSeams, direction).1, 2)
  {
    var counts := SeamCounts(numSeams, direction);
    var vSeams, hSeams := counts.0, counts.1;
    var width0, height0 := Width(img), |img|;
    out := img;

    for i := 0 to Max(vSeams, 0)
      invariant |out| == height0 && IsGrid(out, height0, Width(out))
      invariant Width(out) == width0 - i && (i == 0 || Width(out) >= 2)
    {
      if Width(out) <= 2 {
        break;
      }
      var energyMap := EnergyMap(out, energyAt);
      var seam := FindVerticalSeam(energyMap);
      out := RemoveSeam(out, seam, 1);
    }
    var width := Width(out);
    assert width == Shrunk(width0, vSeams, 2);

    for i := 0 to Max(hSeams, 0)
      invariant |out| >= 1 && IsGrid(out, |out|, width) && Width(out) == width
      invariant |out| == height0 - i && (i == 0 || |out| >= 2)
    {
      if |out| <= 2 {
        break;
      }
      var energyMap := EnergyMap(out, energyAt);
      TransposeShape(energyMap, |out|, width);
      var seam := FindVerticalSeam(Transpose(energyMap, |out|, width));
      out := RemoveSeam(out, seam, 0);
    }
    assert |out| == Shrunk(height0, hSeams, 2);
  }
}
