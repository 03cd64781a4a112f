# Verified models of a collection of small dynamic programs

This project models, in Dafny, the algorithmic core of a Python collection of dynamic programs and simulations:

- **Seam carving.** Four variants of the minimum-energy seam search are modelled separately, because each has its own edge handling and tie-breaking:
  - the forward DP with an offset table and a clamped backtrack (`find_vertical_seam` in `test.py` and `test2.py`);
  - the bottom-up DP with a greedy top-down descent (`find_optimal_seam` in the two `image_compression_by_seam_carving.py` files).

  Seam removal is modelled too: plain removal, removal with colour blending, and removal from a list of cells. So are the seam loops of `compress_image`.
- **Longest palindromic subsequence.** The interval table, the two-pointer walk and the mirroring (`return_longest_palindrome`).
- **Shortest-remaining-time task scheduler** (`plan_tasks`). A discrete-time state machine over a dictionary of waiting tasks, a pool of available tasks and a log.
- **Inventory planning DP** (`fill_dp_matrix`, with `c` and `h`). An integer cost table with an infinity sentinel, indexed by month and inventory.

Each loop of the source is a Dafny method with a loop. The method is proved against a specification function, and the properties of the algorithm are proved about that function.

- **Tables.** A numpy table becomes an `array2`.
- **Energy maps.** An energy map is an integer grid (`SeamPaths.Grid`).
- **Images.** An image is a grid of pixels, one integer per channel.
- **Energy computation.** The image loops compute energy through an `energyAt` function parameter, an oracle that stands for `calculate_energy`.
- **Python indexing.** A read at index -1 is modelled explicitly where the source relies on one. A read past the end is modelled as an `IndexError` result in the seam searches, `test2.py`'s seam removal and loops, the palindrome, the scheduler and the inventory scan. Three entry points take in-range inputs as a precondition instead; they are listed under "Left out".

Module layout:

| module | covers |
|---|---|
| `Common` | Option and Result, `min`, first-occurrence `argmin`, Python negative indexing |
| `SeamPaths` | grids, windows of neighbouring columns, monotone paths and their energy, both DP tables and their optimality |
| `SeamTables` | the link between an `array2` table and the specification rows |
| `DpSeamTest` | `test.py` |
| `DpSeamTest2` | `test2.py` |
| `ImageCompressionDir` | `Image_Compression_by_Seam_carving/image_compression_by_seam_carving.py` |
| `ImageCompressionRoot` | the top-level `image_compression_by_seam_carving.py` |
| `LongestPalindrome` | the palindrome DP |
| `TaskScheduling` | the scheduler |
| `InventoryPlanning` | the inventory DP |

The costs `c(x) = 5x` and `h(x) = 6x` are the functions `InventoryPlanning.ProductionCost` and `InventoryPlanning.HoldingCost`.

## Model

| member | source | states |
|---|---|---|
| Common.FirstArgMinIsFirstMin | dynamic_programming/Image_Compression_by_Seam_carving/test.py:44 | `np.argmin` picks a minimum, and every earlier entry is strictly larger, so ties go to the first occurrence |
| SeamPaths.OffsetIsFirstWindowMin | dynamic_programming/Image_Compression_by_Seam_carving/test.py:34-39 | the stored offset is in {-1, 0, +1}. `j + offset` is an in-range column of the window `max(0,j-1)..min(width,j+2)-1`, holds the window minimum, and is the leftmost such column |
| SeamPaths.TransposeShape | dynamic_programming/Image_Compression_by_Seam_carving/test.py:64 | transposing an h x w grid gives a w x h grid with cell (c, r) equal to cell (r, c) |
| SeamPaths.RemoveAtPixels | dynamic_programming/Image_Compression_by_Seam_carving/test.py:59-60 | dropping one pixel of a row leaves one pixel fewer, with the same channel count |
| SeamPaths.RemoveAtMultiset | dynamic_programming/Image_Compression_by_Seam_carving/test.py:59-60 | dropping column k removes exactly that cell: the multiset of the rest plus that cell is the multiset of the row |
| SeamPaths.CumRowAt | dynamic_programming/Image_Compression_by_Seam_carving/test.py:31-40 | each cell of a later row of the forward table is its energy plus the minimum of the window above it |
| SeamPaths.TracebackIsPath | dynamic_programming/Image_Compression_by_Seam_carving/test.py:43-48 | the traceback has one entry per row, each in `[0, width-1]`, and consecutive entries differ by at most 1 |
| SeamPaths.TracebackStep | dynamic_programming/Image_Compression_by_Seam_carving/test.py:46-48 | each traceback entry is the one below moved by the offset stored for it, and lands on the window minimum of the row above |
| SeamPaths.TracebackIsOptimal | dynamic_programming/Image_Compression_by_Seam_carving/test.py:30-48 | the traceback's energy equals `min(dp[-1])`, and no monotone path has a smaller energy |
| SeamPaths.TracebackUnique | dynamic_programming/Image_Compression_by_Seam_carving/test.py:35-48 | the first-occurrence argmins determine the seam: two tracebacks of one map are equal |
| SeamPaths.DescentIsOptimal | Image_Compression_by_Seam_carving/image_compression_by_seam_carving.py:28-47 | a descent that starts at a minimum of the bottom-up table's top row and steps to a window minimum of each next row is a path. Its energy equals the minimum of the top row and is at most that of any monotone path |
| SeamTables.SliceIsWindow | dynamic_programming/Image_Compression_by_Seam_carving/test.py:34-36 | the numpy slice `dp[i-1, max(0,j-1):min(width,j+2)]` is the window of column j |
| SeamTables.RowSliceIs | dynamic_programming/Image_Compression_by_Seam_carving/test.py:44 | reading a whole table row gives the row it holds |
| SeamTables.TableSeamIsTraceback | dynamic_programming/Image_Compression_by_Seam_carving/test.py:43-48 | a seam that ends at the first argmin of the last row and moves by the stored, clamped offsets is the traceback of the map |
| DpSeamTest.FillCell | dynamic_programming/Image_Compression_by_Seam_carving/test.py:34-40 | the cell gains the minimum of its window in the row above, its offset is that window's first argmin, and no other cell changes |
| DpSeamTest.FillRow | dynamic_programming/Image_Compression_by_Seam_carving/test.py:32-40 | after the inner loop, row i is the forward cumulative row and its offsets are the first window argmins; other rows are unchanged |
| DpSeamTest.FillTables | dynamic_programming/Image_Compression_by_Seam_carving/test.py:27-40 | `dp` starts as a copy of the energy; afterwards row 0 is energy row 0 and every row is the cumulative row, with every offset as above |
| DpSeamTest.WalkUp | dynamic_programming/Image_Compression_by_Seam_carving/test.py:46-48 | the backward loop yields one entry per row, each in range, each the clamped sum of the entry below and its stored offset |
| DpSeamTest.TraceBack | dynamic_programming/Image_Compression_by_Seam_carving/test.py:43-48 | as `WalkUp`, with the last entry the first argmin of the last dp row |
| DpSeamTest.FindVerticalSeam | dynamic_programming/Image_Compression_by_Seam_carving/test.py:24-50 | the seam is the traceback: a monotone path with energy `min(dp[-1])`, at most that of every monotone path |
| DpSeamTest.RemoveSeam | dynamic_programming/Image_Compression_by_Seam_carving/test.py:52-64 | axis 1 gives H rows of W-1 cells, each row the input row without column `seam[i]`. Any other axis gives the transpose of the axis-1 removal of the transposed image |
| DpSeamTest.SeamCounts | dynamic_programming/Image_Compression_by_Seam_carving/test.py:70-75 | `'both'` gives the same count each way, half of `num_seams` rounded down. `'vertical'` gives all of them to the width, and any other direction all of them to the height |
| DpSeamTest.CompressImage | dynamic_programming/Image_Compression_by_Seam_carving/test.py:66-101 | 'both' splits `num_seams // 2` each way. Each loop recomputes the energy, removes a seam per round and stops at an extent of 2, so the width and the height end at `Shrunk` of the counts |
| DpSeamTest2.FillCell | dynamic_programming/Image_Compression_by_Seam_carving/test2.py:63-79 | the three edge branches store the offset of the first argmin of two or three neighbours and add that minimum; no other cell changes |
| DpSeamTest2.FillRow | dynamic_programming/Image_Compression_by_Seam_carving/test2.py:64-79 | after the inner loop, row i is the cumulative row, with first-argmin offsets |
| DpSeamTest2.FillTables | dynamic_programming/Image_Compression_by_Seam_carving/test2.py:58-79 | without the noise, every dp row is the cumulative row and every offset is the first window argmin |
| DpSeamTest2.WalkUp | dynamic_programming/Image_Compression_by_Seam_carving/test2.py:84-86 | `np.clip(seam[i+1] + offset, 0, width-1)` yields entries in range, each following its stored offset |
| DpSeamTest2.TraceBack | dynamic_programming/Image_Compression_by_Seam_carving/test2.py:81-86 | the seam has length `height` and ends at the first argmin of the last dp row |
| DpSeamTest2.FindVerticalSeam | dynamic_programming/Image_Compression_by_Seam_carving/test2.py:55-89 | without the noise the seam is the traceback, a monotone path of least energy |
| DpSeamTest2.HalfTowardZero | dynamic_programming/Image_Compression_by_Seam_carving/test2.py:106 | casting `x / 2` to an integer dtype rounds toward zero |
| DpSeamTest2.Blend | dynamic_programming/Image_Compression_by_Seam_carving/test2.py:104-106 | the blend keeps the channel count, and each channel lies between the two neighbours' channels |
| DpSeamTest2.BlendedRemovalIsRemoveAt | dynamic_programming/Image_Compression_by_Seam_carving/test2.py:103-116 | for `0 < seam[i] < width-1` the row is plain removal with column `seam[i]-1` replaced by the blend. At either edge it is plain removal, because the write to index -1 is overwritten |
| DpSeamTest2.RemoveFromRow | dynamic_programming/Image_Compression_by_Seam_carving/test2.py:101-116 | the per-row loop body builds exactly the blended removal |
| DpSeamTest2.RemoveVerticalSeam | dynamic_programming/Image_Compression_by_Seam_carving/test2.py:96-118 | `IndexError` exactly when a seam entry is missing or past the last column; otherwise H rows of W-1 pixels, each row the blended removal |
| DpSeamTest2.TransposeImage | dynamic_programming/Image_Compression_by_Seam_carving/test2.py:121 | the transposed image is an image of swapped extents with the same pixels |
| DpSeamTest2.HorizontalCells | dynamic_programming/Image_Compression_by_Seam_carving/test2.py:120-121 | transposing back the column-wise blended removal is the horizontal removal |
| DpSeamTest2.RemoveSeam | dynamic_programming/Image_Compression_by_Seam_carving/test2.py:91-121 | `ValueError` for an axis other than 0 or 1. `IndexError` exactly when the seam does not reach. Otherwise axis 1 is the blended removal per row and axis 0 the blended removal per column |
| DpSeamTest2.VerticalSeams | dynamic_programming/Image_Compression_by_Seam_carving/test2.py:148-156 | the loop stops at `min_dimension`. Its ghost trace of images, maps and seams satisfies `StaleTrace`: round i's map is recomputed from the current image when `i % 10 == 0` and is otherwise the previous round's map; its seam is that map's traceback; and a successful round's image is the previous one with that seam blended out. The loop fails, with `IndexError`, exactly at the first round whose seam does not reach the current image, which is never round 0; the result is the last image, and on success the width is `Shrunk(width, v_seams, min_dimension)` |
| DpSeamTest2.HorizontalSeams | dynamic_programming/Image_Compression_by_Seam_carving/test2.py:158-166 | the same for rows: each seam is the traceback of the transposed map (`energy_map.T`) and is removed along axis 0, and on success the height is `Shrunk(height, h_seams, min_dimension)` |
| DpSeamTest2.StaleTraceRounds | dynamic_programming/Image_Compression_by_Seam_carving/test2.py:148-166 | a trace states, round by round: the map is that of the round's image when the round is a multiple of 10 and the previous map otherwise; the seam is found on the map; and each successful round removes its seam from the image before it |
| DpSeamTest2.StaleVerticalRound | dynamic_programming/Image_Compression_by_Seam_carving/test2.py:155-156 | one round on a possibly stale map: it fails, with `IndexError`, exactly when the map's traceback does not reach the image, and never on the image's own map. It extends the trace with its map and seam, and on success with the image one column narrower |
| DpSeamTest2.StaleHorizontalRound | dynamic_programming/Image_Compression_by_Seam_carving/test2.py:165-166 | the same along axis 0, with the seam found on the transposed map; on success the image is one row shorter |
| DpSeamTest2.FindHorizontalSeam | dynamic_programming/Image_Compression_by_Seam_carving/test2.py:165 | `find_vertical_seam(energy_map.T)` is the traceback of the transposed map: one entry per column, each a row of the map |
| DpSeamTest2.CompressImage | dynamic_programming/Image_Compression_by_Seam_carving/test2.py:146-168 | the two loops in sequence, for explicit `v_seams` and `h_seams`: failure is an `IndexError` and needs two or more seams on an axis; success shrinks each extent to its floor |
| DpSeamTest2.StaleSeamPassesTheEdge | dynamic_programming/Image_Compression_by_Seam_carving/test2.py:152-156 | on the reused map `[[1,1,1,0],[1,1,1,0]]`, after one seam was removed from a 2 x 4 image, the seam ends in column 3, past the new width of 3 |
| DpSeamTest2.DropVerticalSeam | dynamic_programming/Image_Compression_by_Seam_carving/test2.py:156 | the map without one cell per row keeps its height and loses exactly `seam[r]` of each row |
| DpSeamTest2.SyncedVerticalRound | dynamic_programming/Image_Compression_by_Seam_carving/test2.py:152-156 | a round with the map kept in step: the seam is the map's traceback, and the image and the map both lose that seam |
| DpSeamTest2.DropColumnSeam | dynamic_programming/Image_Compression_by_Seam_carving/test2.py:165-166 | dropping a seam from the columns of a map leaves each column without the cell in that column's seam row, the cells below moving up |
| DpSeamTest2.SyncedHorizontalRound | dynamic_programming/Image_Compression_by_Seam_carving/test2.py:162-166 | the same for rows: the seam is the transposed map's traceback, the image loses it along axis 0, and cell (r, c) of the next map is cell r of column c of the old map, or cell r + 1 from the seam row on |
| DpSeamTest2.SyncedVerticalSeams | dynamic_programming/Image_Compression_by_Seam_carving/test2.py:148-156 | with the map kept in step, the vertical loop never fails and the width ends at `Shrunk(width, v_seams, min_dimension)` |
| DpSeamTest2.SyncedHorizontalSeams | dynamic_programming/Image_Compression_by_Seam_carving/test2.py:158-166 | the same for the height |
| DpSeamTest2.CompressImageSynced | dynamic_programming/Image_Compression_by_Seam_carving/test2.py:146-168 | the corrected loops never fail and shrink both extents to their floors |
| ImageCompressionDir.FillCell | Image_Compression_by_Seam_carving/image_compression_by_seam_carving.py:31-36 | the in-range neighbours below give the window minimum, and the cell is its energy plus that minimum |
| ImageCompressionDir.FillRow | Image_Compression_by_Seam_carving/image_compression_by_seam_carving.py:29-36 | row `row` becomes the bottom-up minimum-energy row; other rows are unchanged |
| ImageCompressionDir.FillTable | Image_Compression_by_Seam_carving/image_compression_by_seam_carving.py:23-36 | the bottom row is the energy's bottom row, and every row above is the bottom-up table row |
| ImageCompressionDir.DirStep | Image_Compression_by_Seam_carving/image_compression_by_seam_carving.py:43-46 | a step moves at most one column and stays in `[0, j-1]` |
| ImageCompressionDir.DirStepIsWindowMin | Image_Compression_by_Seam_carving/image_compression_by_seam_carving.py:43-46 | without the wraparound, the step (left, then right, then straight) lands on the window minimum |
| ImageCompressionDir.DirStepWrapsOnlyAtColumnZero | Image_Compression_by_Seam_carving/image_compression_by_seam_carving.py:45 | the `dp[row, -1]` comparison changes the step only at column 0 of a row three or more wide |
| ImageCompressionDir.DirColumnsSteps | Image_Compression_by_Seam_carving/image_compression_by_seam_carving.py:39-47 | the descent starts at `np.argmin(dp[0])`, and every later column is the step from the one before |
| ImageCompressionDir.DirColumnsIsPath | Image_Compression_by_Seam_carving/image_compression_by_seam_carving.py:42-47 | the descent, as written, is a monotone path within the columns |
| ImageCompressionDir.DirColumnsNarrow | Image_Compression_by_Seam_carving/image_compression_by_seam_carving.py:45 | on maps at most two columns wide the wraparound never changes the descent |
| ImageCompressionDir.DirColumnsFollowDownMin | Image_Compression_by_Seam_carving/image_compression_by_seam_carving.py:39-47 | without the wraparound, the descent starts at the top-row minimum and follows the window minima |
| ImageCompressionDir.DirColumnsFixedIsOptimal | Image_Compression_by_Seam_carving/image_compression_by_seam_carving.py:21-48 | without the wraparound, the descent's energy is the top-row minimum and at most that of any monotone path |
| ImageCompressionDir.DirColumnsOptimalWhenNarrow | Image_Compression_by_Seam_carving/image_compression_by_seam_carving.py:21-48 | as written, the seam is optimal on maps at most two columns wide |
| ImageCompressionDir.WraparoundMissesCheaperSeam | Image_Compression_by_Seam_carving/image_compression_by_seam_carving.py:45 | on `[[0,9,9],[5,1,0]]` the descent as written gives columns `[0,0]`, with energy 5, though `[0,1]` has energy 1 |
| ImageCompressionDir.StepInto | Image_Compression_by_Seam_carving/image_compression_by_seam_carving.py:43-46 | the loop body's branches compute the step |
| ImageCompressionDir.DescentGrows | Image_Compression_by_Seam_carving/image_compression_by_seam_carving.py:47 | appending `(row, col)` extends the cell list and the descent together |
| ImageCompressionDir.Descend | Image_Compression_by_Seam_carving/image_compression_by_seam_carving.py:38-47 | `seam_cells` holds exactly one `(row, col)` per row, in order, with the descent's columns |
| ImageCompressionDir.FindOptimalSeam | Image_Compression_by_Seam_carving/image_compression_by_seam_carving.py:21-48 | as written: one cell per row, forming a monotone path, with the columns of the descent with the wraparound |
| ImageCompressionDir.FindOptimalSeamFixed | Image_Compression_by_Seam_carving/image_compression_by_seam_carving.py:21-48 | with the column-0 comparison guarded: one cell per row, forming a path of least energy |
| ImageCompressionDir.ZeroRow | Image_Compression_by_Seam_carving/image_compression_by_seam_carving.py:52 | a zero row of `w` pixels with the image's channel count |
| ImageCompressionDir.WriteRow | Image_Compression_by_Seam_carving/image_compression_by_seam_carving.py:55-56 | the two slice assignments make the row the input row without column `col`; other rows are unchanged |
| ImageCompressionDir.RemoveSeam | Image_Compression_by_Seam_carving/image_compression_by_seam_carving.py:50-57 | the output is H x (W-1) x C. A row listed in `seam_cells` is the input row without its last-listed column; an unlisted row stays zero |
| ImageCompressionRoot.RootMin | image_compression_by_seam_carving.py:39-48 | the minimum is at most the cell below, the cell below-right when there is one, and the cell below-left, which wraps to the last column at column 0 when the `if` falls through. It is one of the cells read |
| ImageCompressionRoot.RootMinIsWindowMin | image_compression_by_seam_carving.py:39-46 | the right edge and the interior take the minimum of the in-range cells below. Column 0 does too when `elif` is used, or when the row is two wide |
| ImageCompressionRoot.RootMinWrapsAtColumnZero | image_compression_by_seam_carving.py:39-46 | as written, column 0 of a row three or more wide falls through to the `else` branch, and its minimum also takes the last column below |
| ImageCompressionRoot.RootRowWithoutWrap | image_compression_by_seam_carving.py:36-48 | with `elif`, or on maps at most two wide, each table row is the bottom-up minimum-energy row |
| ImageCompressionRoot.RootTableFixed | image_compression_by_seam_carving.py:36-48 | with `elif` the whole table is the bottom-up minimum-energy table |
| ImageCompressionRoot.FillCell | image_compression_by_seam_carving.py:37-48 | the `if`, then `if`/`else`, branches give the cell its energy plus that minimum; no other cell changes |
| ImageCompressionRoot.FillRow | image_compression_by_seam_carving.py:37-48 | a pass of the inner loop fills row `row` from the row below; other rows are unchanged |
| ImageCompressionRoot.FillTable | image_compression_by_seam_carving.py:24-48 | the bottom row is copied from the energy, and rows `i-2` down to 0 are filled from the row below |
| ImageCompressionRoot.StartColumn | image_compression_by_seam_carving.py:52-58 | the start is in range and is never column 0 of a row two or more wide |
| ImageCompressionRoot.StartColumnIsFirstMinFromOne | image_compression_by_seam_carving.py:52-58 | on a wide row the start is the first strict minimum scanning from column 1 |
| ImageCompressionRoot.StartColumnIs | image_compression_by_seam_carving.py:52-58 | any first minimum from column 1 is the start |
| ImageCompressionRoot.PickStart | image_compression_by_seam_carving.py:52-58 | the `best_start` loop, with its `[0, 0]` sentinel, ends on that start column |
| ImageCompressionRoot.RootStep | image_compression_by_seam_carving.py:72-85 | a step moves at most one column and stays in `[0, j-1]` |
| ImageCompressionRoot.RootStepIsWindowMin | image_compression_by_seam_carving.py:72-85 | edges move only on a strict improvement and the interior prefers left, then right, then straight; every step lands on the window minimum |
| ImageCompressionRoot.RootColumnsSteps | image_compression_by_seam_carving.py:66-88 | the descent starts at `(0, start)`, and each later column is the step from the one before |
| ImageCompressionRoot.RootColumnsIsPath | image_compression_by_seam_carving.py:66-88 | the descent is a monotone path, and each step lands on the window minimum of its table row |
| ImageCompressionRoot.RootColumnsFollowDownMin | image_compression_by_seam_carving.py:66-88 | from the first minimum of the top row of the bottom-up table, the descent follows its window minima |
| ImageCompressionRoot.RootColumnsFixedIsOptimal | image_compression_by_seam_carving.py:36-88 | that descent is a path of least energy |
| ImageCompressionRoot.StepInto | image_compression_by_seam_carving.py:72-85 | the loop body's branches compute the step |
| ImageCompressionRoot.DescentGrows | image_compression_by_seam_carving.py:88 | appending `(row, column)` extends the cell list and the descent together |
| ImageCompressionRoot.Descend | image_compression_by_seam_carving.py:66-88 | one `(row, col)` per row, in order, with the descent's columns |
| ImageCompressionRoot.FindOptimalSeam | image_compression_by_seam_carving.py:23-90 | as written: `IndexError` exactly for a map one column wide and two or more tall. Otherwise one cell per row, forming a monotone path from the `best_start` column through the table with the wraparound |
| ImageCompressionRoot.FindOptimalSeamFixed | image_compression_by_seam_carving.py:23-90 | with `elif` and a first-argmin start: the same failures, otherwise a path of least energy |
| ImageCompressionRoot.StartSkipsCheaperColumn | image_compression_by_seam_carving.py:52-58 | on `[[0, 5]]` the seam starts in column 1, with energy 5, though column 0 has energy 0 |
| ImageCompressionRoot.WrapMissesCheaperSeam | image_compression_by_seam_carving.py:39-48 | on `[[9,0,9],[0,1,9],[9,9,0]]` the seam as written is `[1,0,0]`, with energy 9, though `[1,1,2]` has energy 1 |
| LongestPalindrome.Lps | Longest_Palindrome_Subsequence/longest_palindrome_subsequence.py:8-24 | the recurrence gives 0 for an empty range, and otherwise a length between 1 and the range's length |
| LongestPalindrome.IncreasingSpread | Longest_Palindrome_Subsequence/longest_palindrome_subsequence.py:15-24 | strictly increasing positions at or above `lo` have their k-th entry at least `lo + k` |
| LongestPalindrome.PalindromeWithin | Longest_Palindrome_Subsequence/longest_palindrome_subsequence.py:15-24 | no palindromic subsequence of `s[i..j]` is longer than the table cell `dp[i][j]` |
| LongestPalindrome.LongestBound | Longest_Palindrome_Subsequence/longest_palindrome_subsequence.py:26-28 | every palindromic subsequence of `s` is at most `dp[0][n-1]` long |
| LongestPalindrome.FillRow | Longest_Palindrome_Subsequence/longest_palindrome_subsequence.py:14-24 | row i gets the recurrence: `dp[i+1][j-1] + 2` on a match, otherwise `max(dp[i][j-1], dp[i+1][j])`; other rows are unchanged |
| LongestPalindrome.FillTable | Longest_Palindrome_Subsequence/longest_palindrome_subsequence.py:5-24 | every cell holds the recurrence's value: 1 on the diagonal, 0 below it |
| LongestPalindrome.HalvesTake | Longest_Palindrome_Subsequence/longest_palindrome_subsequence.py:38-41 | appending a matched character and moving both pointers keeps the walk's invariant, and `i == j` records the middle |
| LongestPalindrome.HalvesNarrow | Longest_Palindrome_Subsequence/longest_palindrome_subsequence.py:45-48 | moving one pointer inward keeps the walk's invariant |
| LongestPalindrome.Walk | Longest_Palindrome_Subsequence/longest_palindrome_subsequence.py:30-48 | the walk terminates. Its output holds matched characters at increasing positions, mirrored by decreasing positions, and `dp[0][n-1]` is twice the pairs plus one for a middle |
| LongestPalindrome.Reverse | Longest_Palindrome_Subsequence/longest_palindrome_subsequence.py:56 | `left[::-1]` has the same length and the characters in reverse order |
| LongestPalindrome.Mirror | Longest_Palindrome_Subsequence/longest_palindrome_subsequence.py:54-61 | the result starts with `left` and has length `2|left|`, less one for an odd `dp[0][n-1]` |
| LongestPalindrome.MirrorIsPalindrome | Longest_Palindrome_Subsequence/longest_palindrome_subsequence.py:54-61 | `left + reverse(left)` and `left + reverse(left)[1:]` are palindromes, of length `2|left|` and `2|left|-1` |
| LongestPalindrome.MirrorAt | Longest_Palindrome_Subsequence/longest_palindrome_subsequence.py:56-60 | the second half of the mirror reads the left half backwards |
| LongestPalindrome.PositionsIncrease | Longest_Palindrome_Subsequence/longest_palindrome_subsequence.py:35-48 | the left pointer's positions followed by the right pointer's positions, reversed, increase |
| LongestPalindrome.MirrorIsSubsequence | Longest_Palindrome_Subsequence/longest_palindrome_subsequence.py:30-61 | the mirrored output is a subsequence of `s` at those positions |
| LongestPalindrome.ReturnLongestPalindrome | Longest_Palindrome_Subsequence/longest_palindrome_subsequence.py:3-61 | `IndexError` exactly for the empty string. Otherwise the result is a palindrome and a subsequence of `s`, of length `dp[0][n-1]`, and no palindromic subsequence is longer |
| TaskScheduling.SumOfAppend | Task_Scheduling/task_scheduling.py:29 | `sum` over a concatenation is the sum of the sums |
| TaskScheduling.InsertPermutes | Task_Scheduling/task_scheduling.py:44 | insertion keeps the multiset, and the new head is the inserted item only when its key is strictly smaller |
| TaskScheduling.InsertSorts | Task_Scheduling/task_scheduling.py:44 | inserting into a sorted list keeps it sorted |
| TaskScheduling.SortBySorts | Task_Scheduling/task_scheduling.py:44 | the stable sort (also used for the table order at line 25) returns a sorted permutation |
| TaskScheduling.SortByMembers | Task_Scheduling/task_scheduling.py:25 | sorting keeps exactly the same members |
| TaskScheduling.SortBySum | Task_Scheduling/task_scheduling.py:44 | sorting keeps any weighted sum |
| TaskScheduling.FirstMinIsFirstLeast | Task_Scheduling/task_scheduling.py:44-50 | the first minimal element is minimal, and every earlier one is strictly larger |
| TaskScheduling.SortByHead | Task_Scheduling/task_scheduling.py:44-50 | after the stable sort the head is the first element of least key |
| TaskScheduling.Put | Task_Scheduling/task_scheduling.py:23 | assigning a key of the dictionary maps it to the new task and keeps the key order free of duplicates |
| TaskScheduling.LastWith | Task_Scheduling/task_scheduling.py:22-23 | finds the last index with a given start time, or -1 |
| TaskScheduling.Populate | Task_Scheduling/task_scheduling.py:22-23 | the filled dictionary is well formed: its key order lists each key exactly once |
| TaskScheduling.PopulateOverwrites | Task_Scheduling/task_scheduling.py:22-23 | a start time is a key exactly when some task has it, and it maps to the last such task |
| TaskScheduling.PopulatePositive | Task_Scheduling/task_scheduling.py:22-23 | with positive process times every stored task has positive remaining time |
| TaskScheduling.SortTable | Task_Scheduling/task_scheduling.py:25 | rebuilding the dictionary in process-time order keeps its entries |
| TaskScheduling.UpToFacts | Task_Scheduling/task_scheduling.py:31-37 | the keys collected at time t are exactly the keys at most t, each at most once |
| TaskScheduling.DropFacts | Task_Scheduling/task_scheduling.py:40-41 | deleting keys leaves exactly the other keys |
| TaskScheduling.WaitingValid | Task_Scheduling/task_scheduling.py:30-41 | after the two inner loops the dictionary holds exactly the keys later than t |
| TaskScheduling.ServeShape | Task_Scheduling/task_scheduling.py:50-56 | serving an empty pool changes nothing. Otherwise the head loses one unit and is popped exactly when that was its last, and the tasks behind it are untouched |
| TaskScheduling.StepLogs | Task_Scheduling/task_scheduling.py:43-56 | each step appends exactly one entry, the task served from that step's pool |
| TaskScheduling.RunLogs | Task_Scheduling/task_scheduling.py:29-56 | n steps append n entries, entry t being the task served at step `from + t` |
| TaskScheduling.ScheduleLogs | Task_Scheduling/task_scheduling.py:29-52 | the log has exactly `sum(task_process_times) + 1` entries (none for a negative sum), and entry t is what is served at time t |
| TaskScheduling.ServedIsFirstShortest | Task_Scheduling/task_scheduling.py:44-52 | `"idle"` exactly for an empty pool. Otherwise the served task has the least remaining time, and every task before it (earlier ones first, then new arrivals in dictionary order) has strictly more |
| TaskScheduling.RunTable | Task_Scheduling/task_scheduling.py:29-41 | after n steps the dictionary holds exactly the original entries not yet due, unchanged |
| TaskScheduling.ArrivesOnce | Task_Scheduling/task_scheduling.py:31-41 | a start time is due at step `max(start, 0)` and at no other step, so its task joins the pool once |
| TaskScheduling.ServeWork | Task_Scheduling/task_scheduling.py:50-56 | serving decrements the head and pops it at 0, so a name's remaining work drops by one exactly when it is served |
| TaskScheduling.StepWork | Task_Scheduling/task_scheduling.py:29-56 | the number of times a name is logged plus its remaining work is preserved by a step |
| TaskScheduling.StepPositive | Task_Scheduling/task_scheduling.py:29-56 | a step keeps every remaining time positive, in the dictionary and in the pool, since a task is popped when its last unit is served |
| TaskScheduling.RunPositive | Task_Scheduling/task_scheduling.py:29-56 | every remaining time, queued or in the table, stays at least one over any number of steps |
| TaskScheduling.RunWork | Task_Scheduling/task_scheduling.py:29-56 | the number of times a name is logged plus its remaining work is the same after any number of steps |
| TaskScheduling.LogBound | Task_Scheduling/task_scheduling.py:29-56 | a name is logged at most its remaining work more times |
| TaskScheduling.NameServedAtMostItsTime | Task_Scheduling/task_scheduling.py:11-59 | for positive process times, any name other than `"idle"` appears in the log at most the total process time of its stored tasks. A task named `"idle"` is excluded because idle steps log the same string |
| TaskScheduling.Collect | Task_Scheduling/task_scheduling.py:30-37 | the first inner loop collects the tasks due at t in dictionary order, and their start times |
| TaskScheduling.DeleteAll | Task_Scheduling/task_scheduling.py:40-41 | the deletion loop leaves the dictionary of tasks not yet due |
| TaskScheduling.Tick | Task_Scheduling/task_scheduling.py:30-56 | one iteration of the time loop is one step of the model |
| TaskScheduling.TimeLoop | Task_Scheduling/task_scheduling.py:29-56 | the time loop's log is the model's log after the same number of steps |
| TaskScheduling.Schedule | Task_Scheduling/task_scheduling.py:11-59 | the schedule fails, with `IndexError`, exactly when `task_process_times` or `potential_start_times` is shorter than `task_names` |
| TaskScheduling.PlanTasks | Task_Scheduling/task_scheduling.py:11-59 | `IndexError` exactly when a list is shorter than `task_names`. Otherwise the log is the model's schedule, with `sum(task_process_times) + 1` entries |
| InventoryPlanning.ProductionCost | inventory_planning/inventory_planning.py:14-16 | `c(x)` is non-negative for non-negative x, and zero exactly for x = 0 |
| InventoryPlanning.HoldingCost | inventory_planning/inventory_planning.py:18-20 | `h(x)` is non-negative for non-negative x, and zero exactly for x = 0 |
| InventoryPlanning.CostPerMachine | inventory_planning/inventory_planning.py:14-20 | each further machine costs 5 to produce and 6 to hold |
| InventoryPlanning.ScanAsWritten | inventory_planning/inventory_planning.py:37-40 | the scan ends infinite exactly when every read of the row below is infinite |
| InventoryPlanning.Cell | inventory_planning/inventory_planning.py:30-42 | when the demand is at least the inventory plus the free quantity, both first branches give `dp[month+1][0]` plus `c` of the excess demand |
| InventoryPlanning.ProductionEntry | inventory_planning/inventory_planning.py:30-41 | with a non-negative free quantity every branch stores the distance between the inventory and the month's demand |
| InventoryPlanning.TableIsTable | inventory_planning/inventory_planning.py:28-42 | row n is the base row (`dp[n][0] = 0`, else infinity), and every other cell follows from the row below by the three cases |
| InventoryPlanning.ScanAsWrittenVsLeast | inventory_planning/inventory_planning.py:37-42 | the scan as written is never below the least read plus holding cost, is infinite exactly when that least is, and otherwise equals read plus `h(p)` for some scanned p |
| InventoryPlanning.ScanCanExceedLeast | inventory_planning/inventory_planning.py:39-40 | comparing the read without `h` against a value with `h` can end above the least: reads 10, 5 give 11, not 10 |
| InventoryPlanning.ScanAtColumnZero | inventory_planning/inventory_planning.py:36-42 | in column 0 only `p = 0` is a finite read, and the scan returns it |
| InventoryPlanning.ColumnZeroIsExcess | inventory_planning/inventory_planning.py:28-42 | column 0 of row `month` is 5 times the demand beyond the free quantity, summed over months `month..n-1` |
| InventoryPlanning.RowNonNegative | inventory_planning/inventory_planning.py:28-42 | every finite cell is non-negative |
| InventoryPlanning.FillCell | inventory_planning/inventory_planning.py:30-42 | the three branches give the cell and the production entry. The scan fails exactly when it would read past the table; no other cell changes |
| InventoryPlanning.ReadsBelow | inventory_planning/inventory_planning.py:28-39 | with inventory ascending and months descending, a read of `dp[month+1][p]` with `p > inventory` still sees infinity |
| InventoryPlanning.FillColumn | inventory_planning/inventory_planning.py:29-42 | the month loop fills column `inventory` of both tables, or fails exactly when some month's scan reads past the table |
| InventoryPlanning.FillTables | inventory_planning/inventory_planning.py:28-42 | the inventory loop fills every column, or fails as above |
| InventoryPlanning.FillDpMatrix | inventory_planning/inventory_planning.py:22-44 | `IndexError` exactly when the global `n` is past the table or the demand list, or a scan reads past the table. Otherwise the production table is `(num_months+1) x (sum(demand)+1)` with rows `0..n-1` filled and the rest zero, and `best_cost = dp[0][0]` is `c` of the demand beyond the free quantity, summed over the months |

## Left out

- `calculate_energy` (all four files) uses Sobel filters, gradients, float weights and normalisation through scipy and numpy. The energy is an abstract integer grid, or the `energyAt` oracle in the image loops.
- The random tie-breaking noise in `test2.py` (line 61) is nondeterministic. The DP is modelled without it.
- Image I/O and script plumbing are left out: `Image.open`, `fromarray`, `save`, `image_to_array`, the `compression` driver, the `__main__` blocks, the module-level calls, `print_results` and the progress prints. This includes the break message in `test.py` (`print` before `break`).
- `remove_seam` in the top-level `image_compression_by_seam_carving.py` (lines 93-110) and its module-level loop (113-114) read and write image files. Only `find_optimal_seam` of that file is modelled.
- The `'both'` split of `test2.py` (lines 135-140) computes an aspect-ratio weight in floating point. `DpSeamTest2.CompressImage` takes the two seam counts directly, and the `FileNotFoundError` check (131-132) is file I/O.
- `inventory_planning/test.py` is a print script over random demands, and its table is never filled.
- The float `np.inf` of the inventory table is the `Cost` value `Inf`, and all finite costs are integers.
- `DpSeamTest2.RemoveSeam`: requires seam entries to be non-negative. A negative entry would index from the end in numpy; the seams the model produces never have one.
- `DpSeamTest2.CompressImage`: requires `min_dimension >= 1`. A floor of 0 lets an extent reach 0, where `find_vertical_seam` fails on an empty map, and that failure is not modelled.
- `DpSeamTest2.CompressImage`: states the result's shape and when it fails; which seam each round removes is stated by `VerticalSeams` and `HorizontalSeams`.
- `DpSeamTest.CompressImage`: states the shape of the result, not which pixels remain; each round's removal is stated by `DpSeamTest.RemoveSeam`.
- `ImageCompressionDir.FindOptimalSeam`: as written it states a monotone path and the descent's columns, not optimality, because the wraparound makes the seam suboptimal (see Findings).
- `ImageCompressionRoot.FindOptimalSeam`: the same, for the start column and the wraparound of that file.
- `DpSeamTest.RemoveSeam`: requires every seam entry to be a column of its row (`SeamFits`). In `test.py` (lines 59-60) an entry past the end gives a numpy `ValueError` on the shape mismatch, a negative one indexes from the end, and a missing one raises `IndexError`; the seams the model produces always fit.
- `ImageCompressionDir.RemoveSeam`: requires every `(row, col)` cell to lie inside the image. The source (lines 55-56) would raise `IndexError` for a row past the end, index from the end for a negative one, and fail on the shape mismatch for a column past the end; `find_optimal_seam` only produces cells inside the image.
- `InventoryPlanning.FillDpMatrix`: the month counts are `nat` and the demands `seq<nat>`, so negative demands and a negative `n` are not modelled. In the source, `np.full` raises `ValueError` for a negative extent, and a negative `n` makes `dp[n, 0]` index from the end.
- Energy maps and images with no rows or no columns are excluded (`IsEnergyMap`, `IsImage`): an image always has at least one pixel.
- The inventory globals `n` and `d` are explicit parameters of `InventoryPlanning.FillDpMatrix`; the source reads the module globals instead of its parameters.
- Floating point and integer widths: the source's energies and tables are floats and the model's are unbounded integers, which is exact for sums and minima of integral energies. Pixel channels are unbounded integers too; the blend keeps each channel between its inputs (`DpSeamTest2.Blend`), so it would fit the image dtype.

## Findings

| source | as written | input that shows it | evidently intended | confidence | as-written member | corrected member |
|---|---|---|---|---|---|---|
| dynamic_programming/Image_Compression_by_Seam_carving/test2.py:152-156 | the energy map is recomputed only when `i % 10 == 0`, and the old map is reused after the image has shrunk | a 2 x 4 image whose energy is `[[1,1,1,0],[1,1,1,0]]`, `v_seams = 2`, `min_dimension = 2`: the second seam ends in column 3 of an image now 3 wide, and `remove_seam` raises `IndexError` | every seam found on a map of the current image's shape | not executed | DpSeamTest2.StaleSeamPassesTheEdge | DpSeamTest2.CompressImageSynced |
| Image_Compression_by_Seam_carving/image_compression_by_seam_carving.py:45 | at column 0 the right move also needs `dp[row, 1] <= dp[row, col - 1]`, which reads the last column | map `[[0,9,9],[5,1,0]]`: the seam is `[0,0]` with energy 5, while `[0,1]` has energy 1 | the right move compared only with in-range neighbours, giving a least-energy seam | not executed | ImageCompressionDir.WraparoundMissesCheaperSeam | ImageCompressionDir.FindOptimalSeamFixed |
| image_compression_by_seam_carving.py:52-58 | `best_start == [0, 0]` doubles as "nothing seen yet", so column 0 never competes on a row two or more wide | map `[[0, 5]]`: the seam starts in column 1 with energy 5, while column 0 has energy 0 | the first minimum of the top row | not executed | ImageCompressionRoot.StartSkipsCheaperColumn | ImageCompressionRoot.FindOptimalSeamFixed |
| image_compression_by_seam_carving.py:42 | `if` instead of `elif`, so column 0 falls through to the three-way `else`, whose `dp[row+1, -1]` is the last column | map `[[9,0,9],[0,1,9],[9,9,0]]`: the seam is `[1,0,0]` with energy 9, while `[1,1,2]` has energy 1 | column 0 takes only its two in-range neighbours | not executed | ImageCompressionRoot.WrapMissesCheaperSeam | ImageCompressionRoot.FindOptimalSeamFixed |
