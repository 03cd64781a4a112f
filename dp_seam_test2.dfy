// dynamic_programming/Image_Compression_by_Seam_carving/test2.py: the forward
// seam DP written with three explicit edge cases (without the random
// tie-breaking noise), the seam removal that blends the two neighbours of the
// removed pixel, and the seam loops of `compress_image` with a minimum
// dimension and an energy map recomputed only every tenth seam.

module DpSeamTest2 {
  import opened Common
  import opened SeamPaths
  import opened SeamTables

  // ---------------------------------------------------------------------
  // find_vertical_seam
  // ---------------------------------------------------------------------

  /**
   * The body of the inner loop for cell (i, j): column 0 looks at columns
   * 0..1 above, the last column at its left neighbour and itself, any other
   * column at three cells; the recorded offset is the first minimum's
   * position relative to j.
   */
  method FillCell(dp: array2<int>, backtrack: array2<int>, i: int, j: int, ghost above: seq<int>)
    requires 1 <= i < dp.Length0 == backtrack.Length0 && 0 <= j < dp.Length1 == backtrack.Length1
    requires dp != backtrack && |above| == dp.Length1 && RowIs(dp, i - 1, above)
    modifies dp, backtrack
    ensures dp[i, j] == old(dp[i, j]) + MinOf(Window(above, j))
    ensures backtrack[i, j] == Offset(above, j)
    ensures forall r, c :: 0 <= r < dp.Length0 && 0 <= c < dp.Length1 && (r != i || c != j) ==>
      dp[r, c] == old(dp[r, c]) && backtrack[r, c] == old(backtrack[r, c])
  {
    var width := dp.Length1;
    SliceIsWindow(dp, i - 1, above, j);
    if j == 0 {
      var neighbors := RowSlice(dp, i - 1, j, Min(j + 2, width));
      var minIdx := FirstArgMin(neighbors);
      backtrack[i, j] := minIdx;
      dp[i, j] := dp[i, j] + neighbors[minIdx];
    } else if j == width - 1 {
      var neighbors := RowSlice(dp, i - 1, j - 1, j + 1);
      var minIdx: int := FirstArgMin(neighbors);
      backtrack[i, j] := minIdx - 1;
      dp[i, j] := dp[i, j] + neighbors[minIdx];
    } else {
      var neighbors := RowSlice(dp, i - 1, j - 1, j + 2);
      var minIdx: int := FirstArgMin(neighbors);
      backtrack[i, j] := minIdx - 1;
      dp[i, j] := dp[i, j] + neighbors[minIdx];
    }
  }

  /** The inner loop over the columns of row i. */
  method FillRow(energy: Grid, dp: array2<int>, backtrack: array2<int>, i: int)
    requires IsEnergyMap(energy) && 1 <= i < |energy|
    requires dp.Length0 == backtrack.Length0 == |energy| && dp.Length1 == backtrack.Length1 == |energy[0]|
    requires dp != backtrack
    requires RowIs(dp, i - 1, CumRow(energy, i - 1)) && RowIs(dp, i, energy[i])
    modifies dp, backtrack
    ensures RowIs(dp, i, CumRow(energy, i)) && OffsetsAre(energy, backtrack, i)
    ensures forall r, c :: 0 <= r < dp.Length0 && r != i && 0 <= c < dp.Length1 ==>
      dp[r, c] == old(dp[r, c]) && backtrack[r, c] == old(backtrack[r, c])
  {
    var width := |energy[0]|;
    ghost var above := CumRow(energy, i - 1);
    ghost var cur := CumRow(energy, i);
    forall c | 0 <= c < width
      ensures cur[c] == energy[i][c] + MinOf(Window(above, c))
    {
      CumRowAt(energy, i, c);
    }
    for j := 0 to width
      invariant forall r, c :: 0 <= r < dp.Length0 && r != i && 0 <= c < width ==>
        dp[r, c] == old(dp[r, c]) && backtrack[r, c] == old(backtrack[r, c])
      invariant RowIs(dp, i - 1, above)
      invariant forall c :: 0 <= c < j ==> dp[i, c] == cur[c]
      invariant forall c :: j <= c < width ==> dp[i, c] == energy[i][c]
      invariant forall c :: 0 <= c < j ==> backtrack[i, c] == Offset(above, c)
    {
      FillCell(dp, backtrack, i, j, above);
    }
  }

  /** The nested fill loops; `dp` starts as a copy of the energy map. */
  method FillTables(energy: Grid) returns (dp: array2<int>, backtrack: array2<int>)
    requires IsEnergyMap(energy)
    ensures fresh(dp) && fresh(backtrack)
    ensures dp.Length0 == backtrack.Length0 == |energy| && dp.Length1 == backtrack.Length1 == |energy[0]|
    ensures forall r :: 0 <= r < |energy| ==> RowIs(dp, r, CumRow(energy, r))
    ensures forall r :: 1 <= r < |energy| ==> OffsetsAre(energy, backtrack, r)
  {
    var height, width := |energy|, |energy[0]|;
    dp := new int[height, width]((i, j) requires 0 <= i < height && 0 <= j < width => energy[i][j]);
    backtrack := new int[height, width]((i, j) => 0);
    assert RowIs(dp, 0, CumRow(energy, 0));
    for i := 1 to height
      invariant forall r :: 0 <= r < i ==> RowIs(dp, r, CumRow(energy, r))
      invariant forall r :: i <= r < height ==> RowIs(dp, r, energy[r])
      invariant forall r :: 1 <= r < i ==> OffsetsAre(energy, backtrack, r)
    {
      label before:
      FillRow(energy, dp, backtrack, i);
      forall r | 1 <= r < i
        ensures OffsetsAre(energy, backtrack, r)
      {
        assert old@before(OffsetsAre(energy, backtrack, r));
      }
    }
  }

  /** The backtrack of `find_vertical_seam`: from the first minimum of the last row upwards. */
  method TraceBack(dp: array2<int>, backtrack: array2<int>, ghost lastRow: seq<int>) returns (seam: seq<int>)
    requires dp.Length0 == backtrack.Length0 >= 1 && dp.Length1 == backtrack.Length1 == |lastRow| >= 1
    requires RowIs(dp, dp.Length0 - 1, lastRow)
    ensures |seam| == dp.Length0 && seam[|seam| - 1] == FirstArgMin(lastRow)
    ensures forall k :: 0 <= k < |seam| ==> 0 <= seam[k] < dp.Length1
    ensures forall k :: 0 < k < |seam| ==> FollowsTable(seam, backtrack, k)
  {
    var height, width := dp.Length0, dp.Length1;
    RowSliceIs(dp, height - 1, lastRow);
    var last := RowSlice(dp, height - 1, 0, width);
    seam := WalkUp(backtrack, FirstArgMin(last));
  }

  /** The loop of the backtrack: from column `start` of the last row upwards, each row the one below moved by its offset, `np.clip(seam[i+1] + offset, 0, width-1)`. */
  method WalkUp(backtrack: array2<int>, start: int) returns (seam: seq<int>)
    requires backtrack.Length0 >= 1 && 0 <= start < backtrack.Length1
    ensures |seam| == backtrack.Length0 && seam[|seam| - 1] == start
    ensures forall k :: 0 <= k < |seam| ==> 0 <= seam[k] < backtrack.Length1
    ensures forall k :: 0 < k < |seam| ==> FollowsTable(seam, backtrack, k)
  {
    var height, width := backtrack.Length0, backtrack.Length1;
    var s := new int[height](_ => 0);
    s[height - 1] := start;
    for i := height - 1 downto 0
      invariant forall k :: i <= k < height ==> 0 <= s[k] < width
      invariant s[height - 1] == start
      invariant forall k :: i < k < height ==> FollowsTable(s[..], backtrack, k)
    {
      ghost var before := s[..];
      var offset := backtrack[i + 1, s[i + 1]];
      s[i] := Clamp(s[i + 1] + offset, 0, width - 1);
      forall k | i + 1 < k < height
        ensures FollowsTable(s[..], backtrack, k)
      {
        assert FollowsTable(before, backtrack, k);
      }
    }
    seam := s[..];
  }

  /**
   * `find_vertical_seam` without the noise: the same traceback as the
   * single-slice variant, hence a minimum-energy monotone path.
   */
  method FindVerticalSeam(energy: Grid) returns (seam: seq<int>)
    requires IsEnergyMap(energy)
    ensures IsTraceback(energy, seam)
    ensures IsPath(seam, |energy|, |energy[0]|)
    ensures Cost(energy, seam) == MinOf(CumRow(energy, |energy| - 1))
    ensures forall p :: IsPath(p, |energy|, |energy[0]|) ==> Cost(energy, seam) <= Cost(energy, p)
  {
    var dp, backtrack := FillTables(energy);
    seam := TraceBack(dp, backtrack, CumRow(energy, |energy| - 1));
    TableSeamIsTraceback(energy, backtrack, seam);
    TracebackIsPath(energy, seam);
    forall p | IsPath(p, |energy|, |energy[0]|)
      ensures Cost(energy, seam) <= Cost(energy, p)
    {
      TracebackIsOptimal(energy, seam, p);
    }
    TracebackIsOptimal(energy, seam, seam);
  }

  // ---------------------------------------------------------------------
  // remove_seam
  // ---------------------------------------------------------------------

  /** The exceptions `remove_seam` raises: a bad axis, or a seam that reaches past the image. */
  datatype RemoveError = ValueError | IndexError

  /** `int(x / 2)` for an integer x: halving rounded toward zero, as a cast to an integer dtype does. */
  function HalfTowardZero(x: int): (h: int)
    ensures x >= 0 ==> 0 <= x - 2 * h <= 1
    ensures x < 0 ==> 0 <= 2 * h - x <= 1
  {
    if x >= 0 then x / 2 else -((-x) / 2)
  }

  /**
   * `((left + right) / 2).astype(dtype)`: the channel-wise average of two
   * pixels. Each channel lies between the two inputs, so it fits their dtype.
   */
  function Blend(left: Pixel, right: Pixel): (p: Pixel)
    requires |left| == |right|
    ensures |p| == |left|
    ensures forall k :: 0 <= k < |p| ==> Min(left[k], right[k]) <= p[k] <= Max(left[k], right[k])
  {
    seq(|left|, k requires 0 <= k < |left| => HalfTowardZero(left[k] + right[k]))
  }

  /**
   * `out` is the row `remove_seam` builds when it drops the pixel at s: the
   * pixels before s - 1 are kept, the pixels from s on are the input's next
   * ones, and the pixel at s - 1 is kept when s is the last column but is the
   * blend of the two pixels around the removed one when s is interior. (At
   * s = 0 the blend is written to index -1 and then overwritten.)
   */
  ghost predicate IsBlendedRemoval(row: seq<Pixel>, s: int, out: seq<Pixel>)
    requires 0 <= s < |row| && IsPixelRow(row, |row[0]|)
  {
    |out| == |row| - 1 &&
    (forall c :: 0 <= c < |out| && !(c == s - 1 && s < |row| - 1) ==> out[c] == row[if c < s then c else c + 1]) &&
    (0 < s < |row| - 1 ==> out[s - 1] == Blend(row[s - 1], row[s + 1]))
  }

  /**
   * The blended row is plain removal (`RemoveAt`) with, when s is interior,
   * the pixel at s - 1 replaced by the blend; so at either edge it is plain
   * removal, and its pixels keep their channel count.
   */
  lemma BlendedRemovalIsRemoveAt(row: seq<Pixel>, s: int, ch: nat, out: seq<Pixel>)
    requires 0 <= s < |row| && IsPixelRow(row, ch) && IsBlendedRemoval(row, s, out)
    ensures 0 < s < |row| - 1 ==> out == RemoveAt(row, s)[s - 1 := Blend(row[s - 1], row[s + 1])]
    ensures !(0 < s < |row| - 1) ==> out == RemoveAt(row, s)
    ensures IsPixelRow(out, ch)
  {
    var removed := RemoveAt(row, s);
    assert forall c :: 0 <= c < |removed| ==> removed[c] == row[if c < s then c else c + 1];
  }

  /**
   * One iteration of the row loop: start from a zero row, copy the pixels
   * left of the seam, write the blend at index s - 1 (index -1, the last one,
   * when s is 0), then copy the pixels right of the seam from index s on.
   */
  method RemoveFromRow(row: seq<Pixel>, s: int, ch: nat) returns (newRow: seq<Pixel>)
    requires 0 <= s < |row| && IsPixelRow(row, ch)
    ensures IsBlendedRemoval(row, s, newRow)
  {
    var width := |row|;
    var blendColor := if 0 < s < width - 1 then Blend(row[s - 1], row[s + 1]) else row[s];
    newRow := seq(width - 1, _ => seq(ch, _ => 0));
    newRow := row[..s] + newRow[s..];
    if s < width - 1 {
      newRow := newRow[PyPos(s - 1, width - 1) := blendColor];
    }
    newRow := newRow[..s] + row[s + 1..];
  }

  /** Every one of the first h seam entries exists and is below w. */
  ghost predicate SeamReaches(seam: seq<int>, h: int, w: int)
  {
    |seam| >= h && forall k :: 0 <= k < h ==> seam[k] < w
  }

  /** The rows of an h x w image are rows of w pixels with `ch` channels each. */
  lemma ImageRows(img: Image, h: int, w: int, ch: int)
    requires IsImage(img, h, w, ch)
    ensures forall r :: 0 <= r < h ==> |img[r]| == w && IsPixelRow(img[r], ch)
  {
  }

  lemma TransposeImage(img: Image, h: nat, w: nat, ch: nat)
    requires IsImage(img, h, w, ch)
    ensures IsImage(Transpose(img, h, w), w, h, ch)
    ensures forall c, r :: 0 <= c < w && 0 <= r < h ==> Transpose(img, h, w)[c][r] == img[r][c]
  {
    TransposeShape(img, h, w);
  }

  /**
   * `remove_seam`: ValueError for an axis other than 0 or 1. Along axis 1 each
   * row i loses the pixel at seam[i] and is rebuilt as `IsBlendedRemoval` says; an
   * entry missing or past the last column is an IndexError. Along axis 0 the
   * image is transposed, reduced along axis 1 and transposed back, so column c
   * loses the pixel in row seam[c].
   */
  method RemoveSeam(img: Image, seam: seq<int>, axis: int) returns (r: Result<Image, RemoveError>)
    requires |img| >= 1 && Width(img) >= 1 && IsImage(img, |img|, Width(img), Channels(img))
    requires forall k :: 0 <= k < |seam| ==> seam[k] >= 0
    decreases if axis == 1 then 0 else 1
    ensures axis != 0 && axis != 1 ==> r == Failure(ValueError)
    ensures axis == 1 ==>
      (r.Failure? <==> !SeamReaches(seam, |img|, Width(img))) && (r.Failure? ==> r.error == IndexError)
    ensures axis == 0 ==>
      (r.Failure? <==> !SeamReaches(seam, Width(img), |img|)) && (r.Failure? ==> r.error == IndexError)
    ensures axis == 1 && r.Success? ==>
      IsImage(r.value, |img|, Width(img) - 1, Channels(img)) &&
      forall i :: 0 <= i < |img| ==> IsBlendedRemoval(img[i], seam[i], r.value[i])
    ensures axis == 0 && r.Success? ==>
      IsImage(r.value, |img| - 1, Width(img), Channels(img)) &&
      HorizontalRemoval(img, seam, r.value)
  {
    if axis != 0 && axis != 1 {
      return Failure(ValueError);
    }
    if axis == 1 {
      r := RemoveVerticalSeam(img, seam);
    } else {
      var height, width := |img|, Width(img);
      var t := Transpose(img, height, width);
      TransposeImage(img, height, width, Channels(img));
      var removed := RemoveSeam(t, seam, 1);
      if removed.Failure? {
        return removed;
      }
      var back := removed.value;
      HorizontalCells(img, seam, back);
      return Success(Transpose(back, width, height - 1));
    }
  }

  /** The axis-1 branch of `RemoveSeam`: a zero image of one column less, filled row by row. */
  method RemoveVerticalSeam(img: Image, seam: seq<int>) returns (r: Result<Image, RemoveError>)
    requires |img| >= 1 && Width(img) >= 1 && IsImage(img, |img|, Width(img), Channels(img))
    requires forall k :: 0 <= k < |seam| ==> seam[k] >= 0
    ensures r.Failure? <==> !SeamReaches(seam, |img|, Width(img))
    ensures r.Failure? ==> r.error == IndexError
    ensures r.Success? ==>
      IsImage(r.value, |img|, Width(img) - 1, Channels(img)) &&
      forall i :: 0 <= i < |img| ==> IsBlendedRemoval(img[i], seam[i], r.value[i])
  {
    var height, width := |img|, Width(img);
    var ch := Channels(img);
    ImageRows(img, height, width, ch);
    var newArray := new seq<Pixel>[height](_ => seq(width - 1, _ => seq(ch, _ => 0)));
    for i := 0 to height
      invariant i <= |seam| && forall k :: 0 <= k < i ==> seam[k] < width
      invariant forall k :: 0 <= k < i ==> IsBlendedRemoval(img[k], seam[k], newArray[k])
    {
      if i >= |seam| || seam[i] >= width {
        return Failure(IndexError);
      }
      newArray[i] := RemoveFromRow(img[i], seam[i], ch);
    }
    ghost var rows := newArray[..];
    forall k | 0 <= k < height
      ensures IsPixelRow(rows[k], ch) && |rows[k]| == width - 1
    {
      BlendedRemovalIsRemoveAt(img[k], seam[k], ch, rows[k]);
    }
    return Success(newArray[..]);
  }

  /**
   * `out` is `img` with, in each column c, the pixel in row seam[c] removed
   * and the rows below it moved up; when seam[c] is not at either edge, the
   * pixel above the gap is the blend of the two pixels around the removed one.
   */
  ghost predicate HorizontalRemoval(img: Image, seam: seq<int>, out: Image)
    requires IsImage(img, |img|, Width(img), Channels(img)) && SeamReaches(seam, Width(img), |img|)
    requires forall k :: 0 <= k < |seam| ==> seam[k] >= 0
    requires IsImage(out, |img| - 1, Width(img), Channels(img))
  {
    (forall i, c :: 0 <= i < |img| - 1 && 0 <= c < Width(img) && !(i == seam[c] - 1 && seam[c] < |img| - 1) ==>
      out[i][c] == img[if i < seam[c] then i else i + 1][c]) &&
    (forall c :: 0 <= c < Width(img) && 0 < seam[c] < |img| - 1 ==>
      out[seam[c] - 1][c] == Blend(img[seam[c] - 1][c], img[seam[c] + 1][c]))
  }

  /** Transposing back a column-wise blended removal of the transposed image is a horizontal removal. */
  lemma HorizontalCells(img: Image, seam: seq<int>, back: Image)
    requires |img| >= 1 && Width(img) >= 1 && IsImage(img, |img|, Width(img), Channels(img))
    requires SeamReaches(seam, Width(img), |img|) && forall k :: 0 <= k < |seam| ==> seam[k] >= 0
    requires IsImage(back, Width(img), |img| - 1, Channels(img))
    requires forall c :: 0 <= c < Width(img) ==> IsBlendedRemoval(Transpose(img, |img|, Width(img))[c], seam[c], back[c])
    ensures IsImage(Transpose(back, Width(img), |img| - 1), |img| - 1, Width(img), Channels(img))
    ensures HorizontalRemoval(img, seam, Transpose(back, Width(img), |img| - 1))
  {
    var h, w, ch := |img|, Width(img), Channels(img);
    var t := Transpose(img, h, w);
    TransposeImage(img, h, w, ch);
    TransposeImage(back, w, h - 1, ch);
    forall c | 0 <= c < w
      ensures forall i :: 0 <= i < h - 1 && !(i == seam[c] - 1 && seam[c] < h - 1) ==>
        back[c][i] == img[if i < seam[c] then i else i + 1][c]
      ensures 0 < seam[c] < h - 1 ==> back[c][seam[c] - 1] == Blend(img[seam[c] - 1][c], img[seam[c] + 1][c])
    {
      assert IsBlendedRemoval(t[c], seam[c], back[c]);
    }
  }

  // ---------------------------------------------------------------------
  // compress_image
  // ---------------------------------------------------------------------

  /**
   * The seam loops of `compress_image` for given seam counts: up to vSeams
   * vertical seams while the width exceeds minDimension, then up to hSeams
   * horizontal ones while the height exceeds it. Round i recomputes the energy
   * map only when i is a multiple of 10; the other rounds reuse the map of an
   * earlier, larger image, so the seam found on it can reach past the current
   * edge, and `remove_seam` then raises IndexError.
   */
  method CompressImage(img: Image, vSeams: int, hSeams: int, minDimension: int,
                       energyAt: (Image, int, int) -> int)
    returns (r: Result<Image, RemoveError>)
    requires |img| >= 1 && Width(img) >= 1 && IsImage(img, |img|, Width(img), Channels(img))
    requires minDimension >= 1
    ensures r.Failure? ==> r.error == IndexError && (vSeams >= 2 || hSeams >= 2)
    ensures r.Success? ==> IsImage(r.value, |r.value|, Width(r.value), Channels(img))
    ensures r.Success? ==> Width(r.value) == Shrunk(Width(img), vSeams, minDimension)
    ensures r.Success? ==> |r.value| == Shrunk(|img|, hSeams, minDimension)
  {
    var narrowed, vImages, vMaps, vSeamList := VerticalSeams(img, vSeams, minDimension, energyAt);
    if narrowed.Failure? {
      return narrowed;
    }
    ghost var hImages, hMaps, hSeamList;
    r, hImages, hMaps, hSeamList := HorizontalSeams(narrowed.value, hSeams, minDimension, energyAt);
  }

  /** `seam` is the traceback of the energy map `e`. */
  ghost predicate FoundOn(e: Grid, seam: seq<int>)
  {
    IsEnergyMap(e) && IsTraceback(e, seam)
  }

  /** `seam` is the traceback of the transpose of the map `e`, `w` columns wide, as the horizontal loop finds it. */
  ghost predicate FoundOnColumns(e: Grid, w: nat, seam: seq<int>)
  {
    IsGrid(e, |e|, w) && FoundOn(Transpose(e, |e|, w), seam)
  }

  /** One vertical round that succeeds: the seam reaches every row and `next` is `prev` without it, blended. */
  ghost predicate VerticalRound(prev: Image, seam: seq<int>, next: Image)
  {
    |prev| >= 1 && Width(prev) >= 1 && IsImage(prev, |prev|, Width(prev), Channels(prev)) &&
    SeamReaches(seam, |prev|, Width(prev)) && (forall k :: 0 <= k < |seam| ==> seam[k] >= 0) &&
    IsImage(next, |prev|, Width(prev) - 1, Channels(prev)) &&
    forall i :: 0 <= i < |prev| ==> IsBlendedRemoval(prev[i], seam[i], next[i])
  }

  /** One horizontal round that succeeds: the seam reaches every column and `next` is `prev` without it, blended. */
  ghost predicate HorizontalRound(prev: Image, seam: seq<int>, next: Image)
  {
    |prev| >= 1 && Width(prev) >= 1 && IsImage(prev, |prev|, Width(prev), Channels(prev)) &&
    SeamReaches(seam, Width(prev), |prev|) && (forall k :: 0 <= k < |seam| ==> seam[k] >= 0) &&
    IsImage(next, |prev| - 1, Width(prev), Channels(prev)) &&
    HorizontalRemoval(prev, seam, next)
  }

  /** How a round's seam relates to its map: its traceback, of the transposed map for horizontal seams. */
  ghost predicate Found(vertical: bool, w: nat, e: Grid, seam: seq<int>)
  {
    if vertical then FoundOn(e, seam) else FoundOnColumns(e, w, seam)
  }

  /** A successful round in either direction. */
  ghost predicate RoundDone(vertical: bool, prev: Image, seam: seq<int>, next: Image)
  {
    if vertical then VerticalRound(prev, seam, next) else HorizontalRound(prev, seam, next)
  }

  /**
   * Round n of a seam loop of `CompressImage`: it starts from images[n]; its
   * map maps[n] is that of images[n] when n is a multiple of 10 and the map
   * of round n - 1 otherwise; seams[n] is found on that map; and when the
   * round succeeded, images[n + 1] is images[n] without that seam.
   */
  ghost predicate RoundOk(vertical: bool, w: nat, images: seq<Image>, maps: seq<Grid>, seams: seq<seq<int>>,
                          energyAt: (Image, int, int) -> int, n: int)
  {
    0 <= n < |seams| && n < |maps| && n < |images| &&
    (n % 10 == 0 ==> maps[n] == EnergyMap(images[n], energyAt)) &&
    (n % 10 != 0 ==> maps[n] == maps[n - 1]) &&
    Found(vertical, w, maps[n], seams[n]) &&
    (n + 1 < |images| ==> RoundDone(vertical, images[n], seams[n], images[n + 1]))
  }

  /** The rounds of a seam loop so far: every one of them as `RoundOk` says, and every one but the last succeeded. */
  ghost predicate StaleTrace(vertical: bool, w: nat, images: seq<Image>, maps: seq<Grid>, seams: seq<seq<int>>,
                             energyAt: (Image, int, int) -> int)
  {
    |maps| == |seams| && 1 <= |images| && |seams| <= |images| <= |seams| + 1 &&
    forall n :: 0 <= n < |seams| ==> RoundOk(vertical, w, images, maps, seams, energyAt, n)
  }

  /** The trace round by round: the recompute cadence, the seam of each map, and each successful removal. */
  lemma StaleTraceRounds(vertical: bool, w: nat, images: seq<Image>, maps: seq<Grid>,
                         seams: seq<seq<int>>, energyAt: (Image, int, int) -> int)
    requires StaleTrace(vertical, w, images, maps, seams, energyAt)
    ensures forall i :: 0 <= i < |seams| && i % 10 == 0 ==> maps[i] == EnergyMap(images[i], energyAt)
    ensures forall i :: 0 < i < |seams| && i % 10 != 0 ==> maps[i] == maps[i - 1]
    ensures forall i :: 0 <= i < |seams| ==> Found(vertical, w, maps[i], seams[i])
    ensures forall i :: 0 <= i < |images| - 1 ==> RoundDone(vertical, images[i], seams[i], images[i + 1])
  {
    forall i | 0 <= i < |seams|
      ensures (i % 10 == 0 ==> maps[i] == EnergyMap(images[i], energyAt)) &&
              (0 < i && i % 10 != 0 ==> maps[i] == maps[i - 1]) &&
              Found(vertical, w, maps[i], seams[i]) &&
              (i < |images| - 1 ==> RoundDone(vertical, images[i], seams[i], images[i + 1]))
    {
      assert RoundOk(vertical, w, images, maps, seams, energyAt, i);
    }
  }

  /** A new round has found its seam on its map. */
  lemma StartRound(vertical: bool, w: nat, images: seq<Image>, maps: seq<Grid>, seams: seq<seq<int>>,
                   energyAt: (Image, int, int) -> int, e: Grid, seam: seq<int>)
    requires StaleTrace(vertical, w, images, maps, seams, energyAt) && |images| == |seams| + 1
    requires |seams| % 10 == 0 ==> e == EnergyMap(images[|seams|], energyAt)
    requires |seams| % 10 != 0 ==> e == maps[|seams| - 1]
    requires Found(vertical, w, e, seam)
    ensures StaleTrace(vertical, w, images, maps + [e], seams + [seam], energyAt)
  {
    var maps', seams' := maps + [e], seams + [seam];
    forall n | 0 <= n < |seams'|
      ensures RoundOk(vertical, w, images, maps', seams', energyAt, n)
    {
      if n < |seams| {
        assert RoundOk(vertical, w, images, maps, seams, energyAt, n);
        assert maps'[n] == maps[n] && seams'[n] == seams[n];
        assert n > 0 ==> maps'[n - 1] == maps[n - 1];
      } else {
        assert maps'[n] == e && seams'[n] == seam;
        assert n > 0 ==> maps'[n - 1] == maps[n - 1];
      }
    }
  }

  /** The round just started has removed its seam, giving `next`. */
  lemma FinishRound(vertical: bool, w: nat, images: seq<Image>, maps: seq<Grid>, seams: seq<seq<int>>,
                    energyAt: (Image, int, int) -> int, next: Image)
    requires StaleTrace(vertical, w, images, maps, seams, energyAt) && |images| == |seams| >= 1
    requires RoundDone(vertical, images[|seams| - 1], seams[|seams| - 1], next)
    ensures StaleTrace(vertical, w, images + [next], maps, seams, energyAt)
  {
    var images' := images + [next];
    forall n | 0 <= n < |seams|
      ensures RoundOk(vertical, w, images', maps, seams, energyAt, n)
    {
      assert RoundOk(vertical, w, images, maps, seams, energyAt, n);
      assert images'[n] == images[n] && images'[n + 1] == if n + 1 < |images| then images[n + 1] else next;
    }
  }

  /**
   * The vertical loop of `CompressImage`. Its rounds are those `StaleTrace`
   * describes (round by round in `StaleTraceRounds`): the map is recomputed
   * only when the round is a multiple of 10, and each seam is the traceback
   * of its round's map. Every round but the last succeeds; the loop fails
   * exactly when the last round's seam does not reach the current image.
   */
  method VerticalSeams(img: Image, vSeams: int, minDimension: int,
                       energyAt: (Image, int, int) -> int)
    returns (r: Result<Image, RemoveError>, ghost images: seq<Image>, ghost maps: seq<Grid>, ghost seams: seq<seq<int>>)
    requires |img| >= 1 && Width(img) >= 1 && IsImage(img, |img|, Width(img), Channels(img))
    requires minDimension >= 1
    ensures |maps| == |seams| <= Max(vSeams, 0)
    ensures r.Failure? ==> |seams| >= 1
    ensures |images| == |seams| + (if r.Success? then 1 else 0) && images[0] == img
    ensures StaleTrace(true, Width(img), images, maps, seams, energyAt)
    ensures r.Success? ==> r.value == images[|images| - 1]
    ensures r.Failure? ==>
      r.error == IndexError && vSeams >= 2 && !SeamReaches(seams[|seams| - 1], |img|, Width(images[|seams| - 1]))
    ensures r.Success? ==>
      |r.value| == |img| && Width(r.value) >= 1 && IsImage(r.value, |img|, Width(r.value), Channels(img))
    ensures r.Success? ==> Width(r.value) == Shrunk(Width(img), vSeams, minDimension)
  {
    var ch := Channels(img);
    var width0, height0 := Width(img), |img|;
    var out := img;
    var energyMap: Grid := [];
    images, maps, seams := [img], [], [];
    for i := 0 to Max(vSeams, 0)
      invariant |out| == height0 && Width(out) >= 1 && IsImage(out, height0, Width(out), ch)
      invariant Width(out) == width0 - i && (i == 0 || Width(out) >= minDimension)
      invariant i > 0 ==> IsEnergyMap(energyMap) && |energyMap| == height0 && |energyMap[0]| >= Width(out)
      invariant |images| == i + 1 && images[i] == out && images[0] == img && |maps| == i && |seams| == i
      invariant i > 0 ==> energyMap == maps[i - 1]
      invariant StaleTrace(true, width0, images, maps, seams, energyAt)
    {
      if Width(out) <= minDimension {
        break;
      }
      if i % 10 == 0 {
        energyMap := EnergyMap(out, energyAt);
      }
      var seam, removed := StaleVerticalRound(out, energyMap, width0, images, maps, seams, energyAt);
      maps, seams := maps + [energyMap], seams + [seam];
      if removed.Failure? {
        r := removed;
        return;
      }
      out := removed.value;
      images := images + [out];
    }
    r := Success(out);
  }

  /**
   * The horizontal loop of `CompressImage`: as `VerticalSeams`, with each
   * seam the traceback of the transposed map and removed along axis 0.
   */
  method HorizontalSeams(img: Image, hSeams: int, minDimension: int,
                         energyAt: (Image, int, int) -> int)
    returns (r: Result<Image, RemoveError>, ghost images: seq<Image>, ghost maps: seq<Grid>, ghost seams: seq<seq<int>>)
    requires |img| >= 1 && Width(img) >= 1 && IsImage(img, |img|, Width(img), Channels(img))
    requires minDimension >= 1
    ensures |maps| == |seams| <= Max(hSeams, 0)
    ensures r.Failure? ==> |seams| >= 1
    ensures |images| == |seams| + (if r.Success? then 1 else 0) && images[0] == img
    ensures StaleTrace(false, Width(img), images, maps, seams, energyAt)
    ensures r.Success? ==> r.value == images[|images| - 1]
    ensures r.Failure? ==>
      r.error == IndexError && hSeams >= 2 && !SeamReaches(seams[|seams| - 1], Width(img), |images[|seams| - 1]|)
    ensures r.Success? ==>
      |r.value| >= 1 && Width(r.value) == Width(img) && IsImage(r.value, |r.value|, Width(img), Channels(img))
    ensures r.Success? ==> |r.value| == Shrunk(|img|, hSeams, minDimension)
  {
    var ch := Channels(img);
    var width, height0 := Width(img), |img|;
    var out := img;
    var energyMap: Grid := [];
    images, maps, seams := [img], [], [];
    for i := 0 to Max(hSeams, 0)
      invariant |out| >= 1 && IsImage(out, |out|, width, ch) && Width(out) == width
      invariant |out| == height0 - i && (i == 0 || |out| >= minDimension)
      invariant i > 0 ==> |energyMap| >= |out| && IsGrid(energyMap, |energyMap|, width)
      invariant |images| == i + 1 && images[i] == out && images[0] == img && |maps| == i && |seams| == i
      invariant i > 0 ==> energyMap == maps[i - 1]
      invariant StaleTrace(false, width, images, maps, seams, energyAt)
    {
      if |out| <= minDimension {
        break;
      }
      if i % 10 == 0 {
        energyMap := EnergyMap(out, energyAt);
      }
      var seam, removed := StaleHorizontalRound(out, energyMap, width, images, maps, seams, energyAt);
      maps, seams := maps + [energyMap], seams + [seam];
      if removed.Failure? {
        r := removed;
        return;
      }
      out := removed.value;
      images := images + [out];
    }
    r := Success(out);
  }

  /**
   * One round of the vertical loop of `CompressImage` on a map that may be
   * wider than the image: the map's traceback, removed along axis 1. The
   * round extends the loop's trace: started with its seam, and finished
   * with the narrower image when the removal succeeds.
   */
  method StaleVerticalRound(img: Image, energyMap: Grid, ghost w: nat, ghost images: seq<Image>, ghost maps: seq<Grid>,
                            ghost seams: seq<seq<int>>, ghost energyAt: (Image, int, int) -> int)
    returns (seam: seq<int>, r: Result<Image, RemoveError>)
    requires |img| >= 1 && Width(img) >= 1 && IsImage(img, |img|, Width(img), Channels(img))
    requires IsEnergyMap(energyMap)
    requires StaleTrace(true, w, images, maps, seams, energyAt) && |images| == |seams| + 1 && images[|seams|] == img
    requires |seams| % 10 == 0 ==> energyMap == EnergyMap(img, energyAt)
    requires |seams| % 10 != 0 ==> energyMap == maps[|seams| - 1]
    ensures r.Failure? <==> !SeamReaches(seam, |img|, Width(img))
    ensures energyMap == EnergyMap(img, energyAt) ==> r.Success?
    ensures r.Failure? ==> r.error == IndexError && StaleTrace(true, w, images, maps + [energyMap], seams + [seam], energyAt)
    ensures r.Success? ==>
      |r.value| == |img| && Width(r.value) == Width(img) - 1 && IsImage(r.value, |img|, Width(img) - 1, Channels(img)) &&
      StaleTrace(true, w, images + [r.value], maps + [energyMap], seams + [seam], energyAt)
  {
    seam := FindVerticalSeam(energyMap);
    StartRound(true, w, images, maps, seams, energyAt, energyMap, seam);
    r := RemoveSeam(img, seam, 1);
    if r.Success? {
      FinishRound(true, w, images, maps + [energyMap], seams + [seam], energyAt, r.value);
    }
  }

  /**
   * One round of the horizontal loop of `CompressImage` on a map that may be
   * taller than the image: the traceback of the transposed map, removed along
   * axis 0, extending the loop's trace as `StaleVerticalRound` does.
   */
  method StaleHorizontalRound(img: Image, energyMap: Grid, ghost w: nat, ghost images: seq<Image>, ghost maps: seq<Grid>,
                              ghost seams: seq<seq<int>>, ghost energyAt: (Image, int, int) -> int)
    returns (seam: seq<int>, r: Result<Image, RemoveError>)
    requires |img| >= 1 && Width(img) >= 1 && IsImage(img, |img|, Width(img), Channels(img))
    requires |energyMap| >= 1 && IsGrid(energyMap, |energyMap|, Width(img)) && w == Width(img)
    requires StaleTrace(false, w, images, maps, seams, energyAt) && |images| == |seams| + 1 && images[|seams|] == img
    requires |seams| % 10 == 0 ==> energyMap == EnergyMap(img, energyAt)
    requires |seams| % 10 != 0 ==> energyMap == maps[|seams| - 1]
    ensures r.Failure? <==> !SeamReaches(seam, Width(img), |img|)
    ensures energyMap == EnergyMap(img, energyAt) ==> r.Success?
    ensures r.Failure? ==> r.error == IndexError && StaleTrace(false, w, images, maps + [energyMap], seams + [seam], energyAt)
    ensures r.Success? ==>
      |r.value| == |img| - 1 && (|img| >= 2 ==> Width(r.value) == Width(img)) &&
      IsImage(r.value, |img| - 1, Width(img), Channels(img)) &&
      StaleTrace(false, w, images + [r.value], maps + [energyMap], seams + [seam], energyAt)
  {
    seam := FindHorizontalSeam(energyMap, Width(img));
    StartRound(false, w, images, maps, seams, energyAt, energyMap, seam);
    r := RemoveSeam(img, seam, 0);
    if r.Success? {
      FinishRound(false, w, images, maps + [energyMap], seams + [seam], energyAt, r.value);
    }
  }

  /** The seam `CompressImage` removes along axis 0: the traceback of the transposed map. */
  method FindHorizontalSeam(energyMap: Grid, w: nat) returns (seam: seq<int>)
    requires |energyMap| >= 1 && w >= 1 && IsGrid(energyMap, |energyMap|, w)
    ensures FoundOnColumns(energyMap, w, seam)
    ensures |seam| == w && forall k :: 0 <= k < w ==> 0 <= seam[k] < |energyMap|
  {
    TransposeShape(energyMap, |energyMap|, w);
    seam := FindVerticalSeam(Transpose(energyMap, |energyMap|, w));
  }

  /**
   * An energy map on which reusing the map goes wrong: its seam ends in
   * column 3, so once that seam is gone the image has 3 columns, and the next
   * round, reusing this map, finds the same seam, which no longer fits.
   */
  lemma StaleSeamPassesTheEdge(seam: seq<int>)
    requires IsTraceback([[1, 1, 1, 0], [1, 1, 1, 0]], seam)
    ensures seam[1] == 3 && !SeamReaches(seam, 2, 3)
  {
    StaleMapLastRow([[1, 1, 1, 0], [1, 1, 1, 0]]);
    assert FirstArgMin([2, 2, 1, 0]) == 3;
  }

  /** The cumulative last row of the map of `StaleSeamPassesTheEdge`. */
  lemma StaleMapLastRow(e: Grid)
    requires e == [[1, 1, 1, 0], [1, 1, 1, 0]]
    ensures CumRow(e, 1) == [2, 2, 1, 0]
  {
    StaleMapWindowMins(CumRow(e, 0));
    CumRowAt(e, 1, 0);
    CumRowAt(e, 1, 1);
    CumRowAt(e, 1, 2);
    CumRowAt(e, 1, 3);
  }

  /** The window minima of the first row of that map. */
  lemma StaleMapWindowMins(row: seq<int>)
    requires row == [1, 1, 1, 0]
    ensures MinOf(Window(row, 0)) == 1 && MinOf(Window(row, 1)) == 1
    ensures MinOf(Window(row, 2)) == 0 && MinOf(Window(row, 3)) == 0
  {
    assert Window(row, 0) == [1, 1] && MinOf([1, 1]) == 1;
    assert Window(row, 1) == [1, 1, 1] && MinOf([1, 1, 1]) == 1;
    assert Window(row, 2) == row[1..4] == [1, 1, 0] && MinOf([1, 1, 0]) == 0;
    assert Window(row, 3) == row[2..4] == [1, 0] && MinOf([1, 0]) == 0;
  }

  /** The grid without one cell per row: cell seam[r] of row r. */
  function DropVerticalSeam(e: Grid, seam: seq<int>): (d: Grid)
    requires |seam| >= |e| && forall r :: 0 <= r < |e| ==> 0 <= seam[r] < |e[r]|
    ensures |d| == |e| && forall r :: 0 <= r < |e| ==> d[r] == RemoveAt(e[r], seam[r])
  {
    seq(|e|, r requires 0 <= r < |e| => RemoveAt(e[r], seam[r]))
  }

  /**
   * The seam loops with the reused energy map kept in step with the image:
   * every removed seam is also removed from the map, so the map always has
   * the image's shape and every seam fits. The loops then never fail and
   * shrink each extent down to the same sizes as recomputing every round.
   */
  method CompressImageSynced(img: Image, vSeams: int, hSeams: int, minDimension: int,
                             energyAt: (Image, int, int) -> int)
    returns (out: Image)
    requires |img| >= 1 && Width(img) >= 1 && IsImage(img, |img|, Width(img), Channels(img))
    requires minDimension >= 1
    ensures IsImage(out, |out|, Width(out), Channels(img))
    ensures Width(out) == Shrunk(Width(img), vSeams, minDimension)
    ensures |out| == Shrunk(|img|, hSeams, minDimension)
  {
    out := SyncedVerticalSeams(img, vSeams, minDimension, energyAt);
    out := SyncedHorizontalSeams(out, hSeams, minDimension, energyAt);
  }

  /** The vertical loop of `CompressImageSynced`. */
  method SyncedVerticalSeams(img: Image, vSeams: int, minDimension: int,
                             energyAt: (Image, int, int) -> int)
    returns (out: Image)
    requires |img| >= 1 && Width(img) >= 1 && IsImage(img, |img|, Width(img), Channels(img))
    requires minDimension >= 1
    ensures |out| == |img| && Width(out) >= 1 && IsImage(out, |img|, Width(out), Channels(img))
    ensures Width(out) == Shrunk(Width(img), vSeams, minDimension)
  {
    var ch := Channels(img);
    var width0, height0 := Width(img), |img|;
    out := img;
    var energyMap: Grid := [];
    for i := 0 to Max(vSeams, 0)
      invariant |out| == height0 && Width(out) >= 1 && IsImage(out, height0, Width(out), ch)
      invariant Width(out) == width0 - i && (i == 0 || Width(out) >= minDimension)
      invariant i > 0 ==> IsGrid(energyMap, height0, Width(out))
    {
      if Width(out) <= minDimension {
        break;
      }
      if i % 10 == 0 {
        energyMap := EnergyMap(out, energyAt);
      }
      var seam;
      seam, out, energyMap := SyncedVerticalRound(out, energyMap, ch);
    }
  }

  /** The horizontal loop of `CompressImageSynced`: the map loses one cell per column. */
  method SyncedHorizontalSeams(img: Image, hSeams: int, minDimension: int,
                               energyAt: (Image, int, int) -> int)
    returns (out: Image)
    requires |img| >= 1 && Width(img) >= 1 && IsImage(img, |img|, Width(img), Channels(img))
    requires minDimension >= 1
    ensures |out| >= 1 && Width(out) == Width(img) && IsImage(out, |out|, Width(img), Channels(img))
    ensures |out| == Shrunk(|img|, hSeams, minDimension)
  {
    var ch := Channels(img);
    var width, height0 := Width(img), |img|;
    out := img;
    var energyMap: Grid := [];
    for i := 0 to Max(hSeams, 0)
      invariant |out| >= 1 && IsImage(out, |out|, width, ch) && Width(out) == width
      invariant |out| == height0 - i && (i == 0 || |out| >= minDimension)
      invariant i > 0 ==> IsGrid(energyMap, |out|, width)
    {
      if |out| <= minDimension {
        break;
      }
      if i % 10 == 0 {
        energyMap := EnergyMap(out, energyAt);
      }
      var seam;
      seam, out, energyMap := SyncedHorizontalRound(out, energyMap, ch);
    }
  }

  /**
   * One round of `SyncedVerticalSeams`: the seam found on the map is removed
   * from the image (blending as `remove_seam` does) and from the map alike.
   */
  method SyncedVerticalRound(img: Image, energyMap: Grid, ch: nat)
    returns (seam: seq<int>, out: Image, nextMap: Grid)
    requires |img| >= 1 && Width(img) >= 2 && IsImage(img, |img|, Width(img), ch) && ch == Channels(img)
    requires IsGrid(energyMap, |img|, Width(img))
    ensures IsTraceback(energyMap, seam) && IsPath(seam, |img|, Width(img))
    ensures IsImage(out, |img|, Width(img) - 1, ch) && IsGrid(nextMap, |img|, Width(img) - 1)
    ensures forall i :: 0 <= i < |img| ==> IsBlendedRemoval(img[i], seam[i], out[i])
    ensures forall i :: 0 <= i < |img| ==> nextMap[i] == RemoveAt(energyMap[i], seam[i])
  {
    seam := FindVerticalSeam(energyMap);
    var removed := RemoveSeam(img, seam, 1);
    out := removed.value;
    nextMap := DropVerticalSeam(energyMap, seam);
  }

  /**
   * Dropping a seam from the columns of an h x w map (through its transpose)
   * leaves each column without the cell at that column's seam row.
   */
  lemma DropColumnSeam(e: Grid, h: nat, w: nat, seam: seq<int>) returns (d: Grid)
    requires h >= 1 && IsGrid(e, h, w) && |seam| >= w && forall c :: 0 <= c < w ==> 0 <= seam[c] < h
    ensures IsGrid(Transpose(e, h, w), w, h)
    ensures IsGrid(DropVerticalSeam(Transpose(e, h, w), seam), w, h - 1)
    ensures d == Transpose(DropVerticalSeam(Transpose(e, h, w), seam), w, h - 1) && IsGrid(d, h - 1, w)
    ensures forall r, c :: 0 <= r < h - 1 && 0 <= c < w ==> d[r][c] == e[if r < seam[c] then r else r + 1][c]
  {
    TransposeShape(e, h, w);
    var columns := Transpose(e, h, w);
    var dropped := DropVerticalSeam(columns, seam);
    TransposeShape(dropped, w, h - 1);
    d := Transpose(dropped, w, h - 1);
    forall r, c | 0 <= r < h - 1 && 0 <= c < w
      ensures d[r][c] == e[if r < seam[c] then r else r + 1][c]
    {
      assert dropped[c] == RemoveAt(columns[c], seam[c]);
    }
  }

  /**
   * One round of `SyncedHorizontalSeams`: the seam is found on the transposed
   * map, and its cells leave the image's columns and the map's columns.
   */
  method SyncedHorizontalRound(img: Image, energyMap: Grid, ch: nat)
    returns (seam: seq<int>, out: Image, nextMap: Grid)
    requires |img| >= 2 && Width(img) >= 1 && IsImage(img, |img|, Width(img), ch) && ch == Channels(img)
    requires IsGrid(energyMap, |img|, Width(img))
    ensures IsTraceback(Transpose(energyMap, |img|, Width(img)), seam) && IsPath(seam, Width(img), |img|)
    ensures IsImage(out, |img| - 1, Width(img), ch) && IsGrid(nextMap, |img| - 1, Width(img))
    ensures HorizontalRemoval(img, seam, out)
    ensures forall r, c :: 0 <= r < |img| - 1 && 0 <= c < Width(img) ==>
      nextMap[r][c] == energyMap[if r < seam[c] then r else r + 1][c]
  {
    var height, width := |img|, Width(img);
    TransposeShape(energyMap, height, width);
    var columns := Transpose(energyMap, height, width);
    seam := FindVerticalSeam(columns);
    var removed := RemoveSeam(img, seam, 0);
    out := removed.value;
    ghost var dropped := DropColumnSeam(energyMap, height, width, seam);
    nextMap := Transpose(DropVerticalSeam(columns, seam), width, height - 1);
  }
}
