// Longest_Palindrome_Subsequence/longest_palindrome_subsequence.py:
// `return_longest_palindrome`, the interval table of palindromic subsequence
// lengths, the two-pointer walk that collects the left half, and the mirror
// that completes it.

module LongestPalindrome {
  import opened Common

  /** numpy's `dp[0, n-1]` on the 0 x 0 table of an empty string. */
  datatype Error = IndexError

  // ---------------------------------------------------------------------
  // The recurrence and what it measures
  // ---------------------------------------------------------------------

  /**
   * The table's recurrence over `s[i..j]` (both ends included): an empty
   * range has 0, one character 1, equal ends the inside plus 2, and unequal
   * ends the larger of the two ranges one shorter.
   */
  function Lps(s: string, i: int, j: int): (n: nat)
    requires 0 <= i <= j + 1 && j < |s|
    ensures i > j ==> n == 0
    ensures i <= j ==> 1 <= n <= j - i + 1
    decreases j - i + 1
  {
    if i > j then 0
    else if i == j then 1
    else if s[i] == s[j] then Lps(s, i + 1, j - 1) + 2
    else Max(Lps(s, i, j - 1), Lps(s, i + 1, j))
  }

  /** Cell `dp[i, j]` of the filled table: the recurrence on and above the diagonal, 0 below it. */
  function Cell(s: string, i: int, j: int): int
    requires 0 <= i < |s| && 0 <= j < |s|
  {
    if i <= j then Lps(s, i, j) else 0
  }

  ghost predicate IsPalindrome(t: string)
  {
    forall k :: 0 <= k < |t| ==> t[k] == t[|t| - 1 - k]
  }

  ghost predicate Increasing(idx: seq<int>)
  {
    forall a, b :: 0 <= a < b < |idx| ==> idx[a] < idx[b]
  }

  /** `t` is read off `s` at the increasing positions `idx`. */
  ghost predicate SubsequenceAt(t: string, s: string, idx: seq<int>)
  {
    |idx| == |t| && Increasing(idx) &&
    forall k :: 0 <= k < |idx| ==> 0 <= idx[k] < |s| && t[k] == s[idx[k]]
  }

  ghost predicate IsSubsequence(t: string, s: string)
  {
    exists idx :: SubsequenceAt(t, s, idx)
  }

  /** Increasing positions from `lo` on are at least `lo + k` at place k. */
  lemma {:induction false} IncreasingSpread(idx: seq<int>, lo: int, k: int)
    requires Increasing(idx) && 0 <= k < |idx| && forall m :: 0 <= m < |idx| ==> lo <= idx[m]
    ensures lo + k <= idx[k]
  {
    if k > 0 {
      IncreasingSpread(idx, lo, k - 1);
      assert idx[k - 1] < idx[k];
    }
  }

  /**
   * Dropping the outer pair of a palindrome's positions leaves the positions
   * of a palindrome strictly inside `s[i..j]`.
   */
  lemma InnerPositions(s: string, i: int, j: int, idx: seq<int>) returns (inner: seq<int>)
    requires |idx| > 2 && Increasing(idx) && forall k :: 0 <= k < |idx| ==> i <= idx[k] <= j && 0 <= idx[k] < |s|
    requires forall k :: 0 <= k < |idx| ==> s[idx[k]] == s[idx[|idx| - 1 - k]]
    ensures inner == idx[1..|idx| - 1] && Increasing(inner)
    ensures forall k :: 0 <= k < |inner| ==> i + 1 <= inner[k] <= j - 1
    ensures forall k :: 0 <= k < |inner| ==> s[inner[k]] == s[inner[|inner| - 1 - k]]
  {
    var m := |idx|;
    inner := idx[1..m - 1];
    forall k | 0 <= k < |inner|
      ensures i + 1 <= inner[k] <= j - 1
    {
      assert inner[k] == idx[k + 1];
      assert idx[0] < idx[k + 1] < idx[m - 1];
    }
    forall k | 0 <= k < |inner|
      ensures s[inner[k]] == s[inner[|inner| - 1 - k]]
    {
      assert inner[k] == idx[k + 1] && inner[|inner| - 1 - k] == idx[m - 1 - (k + 1)];
    }
  }

  /**
   * No palindrome read off `s[i..j]` is longer than the recurrence says: its
   * positions, paired from both ends, spell equal characters.
   */
  lemma {:induction false} PalindromeWithin(s: string, i: int, j: int, idx: seq<int>)
    requires 0 <= i <= j + 1 && j < |s|
    requires Increasing(idx) && forall k :: 0 <= k < |idx| ==> i <= idx[k] <= j
    requires forall k :: 0 <= k < |idx| ==> s[idx[k]] == s[idx[|idx| - 1 - k]]
    ensures |idx| <= Lps(s, i, j)
    decreases j - i + 1
  {
    var m := |idx|;
    if m > 0 {
      IncreasingSpread(idx, i, m - 1);
      if i < j {
        if s[i] == s[j] {
          if m > 2 {
            var inner := InnerPositions(s, i, j, idx);
            PalindromeWithin(s, i + 1, j - 1, inner);
          }
        } else if idx[0] > i {
          PalindromeWithin(s, i + 1, j, idx);
        } else {
          assert s[idx[m - 1]] == s[i] && idx[m - 1] != j;
          PalindromeWithin(s, i, j - 1, idx);
        }
      }
    }
  }

  /** Hence no palindromic subsequence of `s` is longer than `Lps(s, 0, |s| - 1)`. */
  lemma LongestBound(s: string, t: string)
    requires |s| >= 1 && IsSubsequence(t, s) && IsPalindrome(t)
    ensures |t| <= Lps(s, 0, |s| - 1)
  {
    var idx :| SubsequenceAt(t, s, idx);
    forall k | 0 <= k < |idx|
      ensures s[idx[k]] == s[idx[|idx| - 1 - k]]
    {
      assert t[k] == t[|t| - 1 - k];
    }
    PalindromeWithin(s, 0, |s| - 1, idx);
  }

  // ---------------------------------------------------------------------
  // The table
  // ---------------------------------------------------------------------

  /** Row a of the table is filled. */
  ghost predicate RowDone(s: string, dp: array2<int>, a: int)
    requires dp.Length0 == dp.Length1 == |s| && 0 <= a < |s|
    reads dp
  {
    forall b :: 0 <= b < |s| ==> dp[a, b] == Cell(s, a, b)
  }

  /** Row a of the table still holds only its diagonal 1. */
  ghost predicate RowFresh(dp: array2<int>, a: int)
    requires 0 <= a < dp.Length0
    reads dp
  {
    forall b :: 0 <= b < dp.Length1 ==> dp[a, b] == if b == a then 1 else 0
  }

  /** The inner loop: row i from the one below it, left to right. */
  method FillRow(s: string, dp: array2<int>, i: int)
    requires dp.Length0 == dp.Length1 == |s| && 0 <= i < |s| - 1
    requires RowDone(s, dp, i + 1) && RowFresh(dp, i)
    modifies dp
    ensures RowDone(s, dp, i)
    ensures forall a, b :: 0 <= a < |s| && a != i && 0 <= b < |s| ==> dp[a, b] == old(dp[a, b])
  {
    var n := |s|;
    for j := i + 1 to n
      invariant forall a, b :: 0 <= a < n && a != i && 0 <= b < n ==> dp[a, b] == old(dp[a, b])
      invariant RowDone(s, dp, i + 1)
      invariant forall b :: 0 <= b < j ==> dp[i, b] == Cell(s, i, b)
      invariant forall b :: j <= b < n ==> dp[i, b] == 0
    {
      assert dp[i + 1, j - 1] == Cell(s, i + 1, j - 1) == Lps(s, i + 1, j - 1);
      assert dp[i + 1, j] == Lps(s, i + 1, j) && dp[i, j - 1] == Lps(s, i, j - 1);
      if s[i] == s[j] {
        dp[i, j] := dp[i + 1, j - 1] + 2;
      } else {
        dp[i, j] := Max(dp[i, j - 1], dp[i + 1, j]);
      }
    }
  }

  /** The table: zeros, the diagonal set to 1, then rows n-2 up to 0 filled. */
  method FillTable(s: string) returns (dp: array2<int>)
    requires |s| >= 1
    ensures fresh(dp) && dp.Length0 == dp.Length1 == |s|
    ensures forall a, b :: 0 <= a < |s| && 0 <= b < |s| ==> dp[a, b] == Cell(s, a, b)
  {
    var n := |s|;
    dp := new int[n, n]((a, b) => 0);
    for i := 0 to n
      invariant forall a, b :: 0 <= a < n && 0 <= b < n ==> dp[a, b] == if a == b && a < i then 1 else 0
    {
      dp[i, i] := 1;
    }
    for i := n - 1 downto 0
      invariant forall a :: i <= a < n ==> RowDone(s, dp, a)
      invariant forall a :: 0 <= a < i ==> RowFresh(dp, a)
    {
      label before:
      FillRow(s, dp, i);
      forall a | 0 <= a < n && a != i
        ensures a > i ==> RowDone(s, dp, a)
        ensures a < i ==> RowFresh(dp, a)
      {
        if a > i {
          assert old@before(RowDone(s, dp, a));
        } else {
          assert old@before(RowFresh(dp, a));
        }
      }
    }
    forall a, b | 0 <= a < n && 0 <= b < n
      ensures dp[a, b] == Cell(s, a, b)
    {
      assert RowDone(s, dp, a);
    }
  }

  // ---------------------------------------------------------------------
  // The walk and the mirror
  // ---------------------------------------------------------------------

  ghost predicate Decreasing(idx: seq<int>)
  {
    forall a, b :: 0 <= a < b < |idx| ==> idx[a] > idx[b]
  }

  /**
   * What the walk has collected while its pointers stand at i and j: the
   * characters of `output` come from positions `lo`, increasing and left of
   * i, and all but a middle one (`mid`) have a partner at positions `hi`,
   * decreasing and right of j.
   */
  ghost predicate Halves(s: string, output: string, lo: seq<int>, hi: seq<int>, mid: bool, i: int, j: int)
  {
    |lo| == |output| && |hi| == |output| - (if mid then 1 else 0) &&
    Increasing(lo) && Decreasing(hi) &&
    (forall k :: 0 <= k < |lo| ==> 0 <= lo[k] < i && lo[k] < |s| && output[k] == s[lo[k]]) &&
    (forall k :: 0 <= k < |hi| ==> 0 <= hi[k] && j < hi[k] < |s| && output[k] == s[hi[k]]) &&
    (forall a, b :: 0 <= a < |lo| && 0 <= b < |hi| ==> lo[a] < hi[b])
  }

  /** Taking the equal ends i and j keeps the halves paired. */
  lemma HalvesTake(s: string, output: string, lo: seq<int>, hi: seq<int>, i: int, j: int)
    requires Halves(s, output, lo, hi, false, i, j) && 0 <= i <= j < |s| && s[i] == s[j]
    ensures Halves(s, output + [s[i]], lo + [i], if i < j then hi + [j] else hi, i == j, i + 1, j - 1)
  {
  }

  /** Moving a pointer inwards keeps the halves paired. */
  lemma HalvesNarrow(s: string, output: string, lo: seq<int>, hi: seq<int>, mid: bool, i: int, j: int, i': int, j': int)
    requires Halves(s, output, lo, hi, mid, i, j) && i <= i' && j' <= j
    ensures Halves(s, output, lo, hi, mid, i', j')
  {
  }

  /**
   * The `while i <= j` walk over the filled table. It returns the collected
   * left half with, as ghosts, the positions its characters came from, the
   * positions of their partners, and whether it ended on a middle character.
   */
  method Walk(s: string, dp: array2<int>) returns (output: string, ghost lo: seq<int>, ghost hi: seq<int>, ghost mid: bool)
    requires |s| >= 1 && dp.Length0 == dp.Length1 == |s|
    requires forall a, b :: 0 <= a < |s| && 0 <= b < |s| ==> dp[a, b] == Cell(s, a, b)
    ensures Lps(s, 0, |s| - 1) == 2 * |hi| + (if mid then 1 else 0)
    ensures Halves(s, output, lo, hi, mid, |s|, -1)
  {
    var n := |s|;
    var i, j := 0, n - 1;
    output, lo, hi, mid := [], [], [], false;
    while i <= j
      invariant 0 <= i <= n && -1 <= j < n && (if mid then i == j + 2 else i <= j + 1)
      invariant Lps(s, 0, n - 1) == 2 * |hi| + (if mid then 1 else Lps(s, i, j))
      invariant Halves(s, output, lo, hi, mid, i, j)
      decreases j - i + 2
    {
      if s[i] == s[j] {
        HalvesTake(s, output, lo, hi, i, j);
        output := output + [s[i]];
        lo := lo + [i];
        if i < j {
          hi := hi + [j];
        } else {
          mid := true;
        }
        i, j := i + 1, j - 1;
      } else if dp[i, j - 1] > dp[i + 1, j] {
        HalvesNarrow(s, output, lo, hi, mid, i, j, i, j - 1);
        j := j - 1;
      } else {
        HalvesNarrow(s, output, lo, hi, mid, i, j, i + 1, j);
        i := i + 1;
      }
    }
    HalvesNarrow(s, output, lo, hi, mid, i, j, n, -1);
  }

  /** `s[::-1]` */
  function Reverse(t: string): (r: string)
    ensures |r| == |t| && forall k :: 0 <= k < |t| ==> r[k] == t[|t| - 1 - k]
  {
    seq(|t|, k requires 0 <= k < |t| => t[|t| - 1 - k])
  }

  /** The left half followed by its reverse, without its last character when the length is odd. */
  function Mirror(left: string, odd: bool): (r: string)
    requires odd ==> |left| >= 1
    ensures |r| == 2 * |left| - (if odd then 1 else 0)
    ensures r[..|left|] == left
  {
    if odd then left + Reverse(left)[1..] else left + Reverse(left)
  }

  /** The mirror is a palindrome of length twice the half, less one when odd. */
  lemma MirrorIsPalindrome(left: string, odd: bool)
    requires odd ==> |left| >= 1
    ensures IsPalindrome(Mirror(left, odd))
    ensures |Mirror(left, odd)| == 2 * |left| - (if odd then 1 else 0)
  {
    var r := Mirror(left, odd);
    var m := |left|;
    forall k | 0 <= k < |r|
      ensures r[k] == r[|r| - 1 - k]
    {
      var q := |r| - 1 - k;
      assert forall p :: 0 <= p < |r| ==> r[p] == if p < m then left[p] else left[|r| - 1 - p];
    }
  }

  /** Place k of the mirror: the half itself, then the half's first `h` characters backwards. */
  lemma MirrorAt(left: string, odd: bool, k: int)
    requires odd ==> |left| >= 1
    requires |left| <= k < 2 * |left| - (if odd then 1 else 0)
    ensures k < |Mirror(left, odd)|
    ensures Mirror(left, odd)[k] == left[|left| - (if odd then 1 else 0) - 1 - (k - |left|)]
  {
  }

  /** The positions `lo` followed by `hi` reversed increase. */
  lemma PositionsIncrease(lo: seq<int>, hi: seq<int>)
    requires Increasing(lo) && Decreasing(hi)
    requires forall a, b :: 0 <= a < |lo| && 0 <= b < |hi| ==> lo[a] < hi[b]
    ensures Increasing(lo + Reverse2(hi))
  {
    var idx := lo + Reverse2(hi);
    var m, h := |lo|, |hi|;
    forall a, b | 0 <= a < b < |idx|
      ensures idx[a] < idx[b]
    {
      if b < m {
        assert idx[a] == lo[a] && idx[b] == lo[b];
      } else if a < m {
        assert idx[a] == lo[a] && idx[b] == hi[h - 1 - (b - m)];
      } else {
        assert idx[a] == hi[h - 1 - (a - m)] && idx[b] == hi[h - 1 - (b - m)];
      }
    }
  }

  /** The mirror of the walk's output is read off `s` at `lo` followed by `hi` reversed. */
  lemma MirrorIsSubsequence(s: string, output: string, lo: seq<int>, hi: seq<int>, mid: bool)
    requires Halves(s, output, lo, hi, mid, |s|, -1)
    ensures SubsequenceAt(Mirror(output, mid), s, lo + Reverse2(hi))
  {
    var r := Mirror(output, mid);
    var idx := lo + Reverse2(hi);
    var m, h := |output|, |hi|;
    MirrorIsPalindrome(output, mid);
    forall k | 0 <= k < |idx|
      ensures 0 <= idx[k] < |s| && r[k] == s[idx[k]]
    {
      if k < m {
        assert idx[k] == lo[k] && r[k] == output[k];
      } else {
        MirrorAt(output, mid, k);
        assert idx[k] == hi[h - 1 - (k - m)];
      }
    }
    PositionsIncrease(lo, hi);
  }

  /** A sequence of positions in reverse order. */
  function Reverse2(p: seq<int>): (r: seq<int>)
    ensures |r| == |p| && forall k :: 0 <= k < |p| ==> r[k] == p[|p| - 1 - k]
  {
    seq(|p|, k requires 0 <= k < |p| => p[|p| - 1 - k])
  }

  /**
   * `return_longest_palindrome`: the empty string fails reading `dp[0, n-1]`;
   * any other string gives a palindrome read off it, as long as the table's
   * top-right cell says, and no palindromic subsequence is longer.
   */
  method ReturnLongestPalindrome(s: string) returns (r: Result<string, Error>)
    ensures r.Failure? <==> |s| == 0
    ensures r.Success? ==> IsPalindrome(r.value) && IsSubsequence(r.value, s) && |r.value| == Lps(s, 0, |s| - 1)
    ensures r.Success? ==> forall t :: IsPalindrome(t) && IsSubsequence(t, s) ==> |t| <= |r.value|
  {
    var n := |s|;
    if n == 0 {
      return Failure(IndexError);
    }
    var dp := FillTable(s);
    var output, lo, hi, mid := Walk(s, dp);
    var odd := dp[0, n - 1] % 2 != 0;
    assert odd == mid;
    var result := Mirror(output, odd);
    MirrorIsPalindrome(output, odd);
    MirrorIsSubsequence(s, output, lo, hi, mid);
    forall t | IsPalindrome(t) && IsSubsequence(t, s)
      ensures |t| <= |result|
    {
      LongestBound(s, t);
    }
    r := Success(result);
  }
}
