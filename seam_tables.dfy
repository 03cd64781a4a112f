// The tables the two forward seam programmes fill: numpy row slices of an
// `array2`, what it means for a row of `dp` or `backtrack` to be filled
// correctly, and why a seam that follows a correct offset table is the
// traceback of SeamPaths.

module SeamTables {
  import opened Common
  import opened SeamPaths

  /** The cells `dp[i-1, lo..hi-1]` of a table row, as numpy's slice `dp[i-1, lo:hi]`. */
  function RowSlice(dp: array2<int>, i: int, lo: int, hi: int): (s: seq<int>)
    requires 0 <= i < dp.Length0 && 0 <= lo <= hi <= dp.Length1
    reads dp
    ensures |s| == hi - lo
    ensures forall k :: 0 <= k < hi - lo ==> s[k] == dp[i, lo + k]
  {
    seq(hi - lo, k requires 0 <= k < hi - lo reads dp => dp[i, lo + k])
  }

  /** Row r of the table holds `row`. */
  ghost predicate RowIs(t: array2<int>, r: int, row: seq<int>)
    requires 0 <= r < t.Length0 && |row| == t.Length1
    reads t
  {
    forall c :: 0 <= c < t.Length1 ==> t[r, c] == row[c]
  }

  /** Reading a whole row back gives the row it holds. */
  lemma RowSliceIs(t: array2<int>, r: int, row: seq<int>)
    requires 0 <= r < t.Length0 && |row| == t.Length1 && RowIs(t, r, row)
    ensures RowSlice(t, r, 0, t.Length1) == row
  {
  }

  /** numpy's slice `t[r, max(0, j-1):min(width, j+2)]` of a row holding `row` is the window of column j. */
  lemma SliceIsWindow(t: array2<int>, r: int, row: seq<int>, j: int)
    requires 0 <= r < t.Length0 && |row| == t.Length1 && RowIs(t, r, row) && 0 <= j < |row|
    ensures RowSlice(t, r, Max(0, j - 1), Min(|row|, j + 2)) == Window(row, j)
  {
    var lo, hi := Max(0, j - 1), Min(|row|, j + 2);
    assert lo == Lo(j) && hi == Hi(|row|, j);
    var slice := RowSlice(t, r, lo, hi);
    forall k | 0 <= k < hi - lo
      ensures slice[k] == row[lo + k]
    {
      assert slice[k] == t[r, lo + k];
    }
  }

  /** Row r of the offset table holds the offset of every column into row r-1 of the cumulative table. */
  ghost predicate OffsetsAre(energy: Grid, t: array2<int>, r: int)
    requires IsEnergyMap(energy) && 1 <= r < |energy| == t.Length0 && |energy[0]| == t.Length1
    reads t
  {
    forall c :: 0 <= c < t.Length1 ==> t[r, c] == Offset(CumRow(energy, r - 1), c)
  }

  /** Row k-1 of the seam is row k moved by the offset recorded in the table, clamped into the width. */
  ghost predicate FollowsTable(s: seq<int>, t: array2<int>, k: int)
    requires 1 <= k < |s| == t.Length0 && 0 <= s[k] < t.Length1
    reads t
  {
    s[k - 1] == Clamp(s[k] + t[k, s[k]], 0, t.Length1 - 1)
  }

  /** A seam that follows a correct offset table from the first minimum of the last row is the traceback. */
  lemma TableSeamIsTraceback(energy: Grid, backtrack: array2<int>, seam: seq<int>)
    requires IsEnergyMap(energy)
    requires backtrack.Length0 == |energy| == |seam| && backtrack.Length1 == |energy[0]|
    requires forall r :: 1 <= r < |energy| ==> OffsetsAre(energy, backtrack, r)
    requires forall k :: 0 <= k < |seam| ==> 0 <= seam[k] < |energy[0]|
    requires seam[|seam| - 1] == FirstArgMin(CumRow(energy, |energy| - 1))
    requires forall k :: 0 < k < |seam| ==> FollowsTable(seam, backtrack, k)
    ensures IsTraceback(energy, seam)
  {
    TableStepsAreBacktrackSteps(energy, backtrack, seam);
    TracebackIntro(energy, seam);
  }

  /** Every step of a walk that follows a correct offset table is a step of the traceback. */
  lemma TableStepsAreBacktrackSteps(energy: Grid, backtrack: array2<int>, seam: seq<int>)
    requires IsEnergyMap(energy)
    requires backtrack.Length0 == |energy| == |seam| && backtrack.Length1 == |energy[0]|
    requires forall r :: 1 <= r < |energy| ==> OffsetsAre(energy, backtrack, r)
    requires forall k :: 0 <= k < |seam| ==> 0 <= seam[k] < |energy[0]|
    requires forall k :: 0 < k < |seam| ==> FollowsTable(seam, backtrack, k)
    ensures forall k :: 1 <= k < |seam| ==> BacktrackStep(energy, seam, k)
  {
    forall k | 1 <= k < |seam|
      ensures BacktrackStep(energy, seam, k)
    {
      TableStepIsBacktrackStep(energy, backtrack, seam, k);
    }
  }

  /** One step of the table walk is one step of the traceback. */
  lemma TableStepIsBacktrackStep(energy: Grid, backtrack: array2<int>, seam: seq<int>, k: int)
    requires IsEnergyMap(energy)
    requires backtrack.Length0 == |energy| == |seam| && backtrack.Length1 == |energy[0]|
    requires 1 <= k < |seam| && 0 <= seam[k] < |energy[0]|
    requires OffsetsAre(energy, backtrack, k) && FollowsTable(seam, backtrack, k)
    ensures BacktrackStep(energy, seam, k)
  {
    assert backtrack[k, seam[k]] == Offset(CumRow(energy, k - 1), seam[k]);
  }
}
