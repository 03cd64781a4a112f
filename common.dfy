// Small helpers shared by every model in this project: the outcome datatypes
// that stand for Python exceptions, integer min/max/clamp, and numpy's argmin.

module Common {

  datatype Option<T> = None | Some(value: T)

  datatype Result<T, E> = Success(value: T) | Failure(error: E)

  function Min(a: int, b: int): int { if a <= b then a else b }

  function Max(a: int, b: int): int { if a >= b then a else b }

  /** `min(max(x, lo), hi)`, which is also what `np.clip(x, lo, hi)` computes. */
  function Clamp(x: int, lo: int, hi: int): int { Min(Max(x, lo), hi) }

  /** numpy's `argmin` over a non-empty sequence: the FIRST index holding the minimum. */
  function FirstArgMin(s: seq<int>): (k: nat)
    requires |s| > 0
    ensures k < |s|
  {
    if |s| == 1 then 0
    else
      var k := FirstArgMin(s[1..]);
      if s[0] <= s[1 + k] then 0 else 1 + k
  }

  /** `FirstArgMin` picks a minimum, and every index before it holds a strictly larger value. */
  lemma {:induction false} FirstArgMinIsFirstMin(s: seq<int>)
    requires |s| > 0
    ensures forall i :: 0 <= i < |s| ==> s[FirstArgMin(s)] <= s[i]
    ensures forall i :: 0 <= i < FirstArgMin(s) ==> s[FirstArgMin(s)] < s[i]
  {
    if |s| > 1 {
      var t := s[1..];
      FirstArgMinIsFirstMin(t);
      assert forall i :: 1 <= i < |s| ==> s[i] == t[i - 1];
    }
  }

  /** The entry at the first minimum is the minimum and is at most the entry at any index. */
  lemma MinOfIsBelow(s: seq<int>, k: int)
    requires 0 <= k < |s|
    ensures MinOf(s) == s[FirstArgMin(s)] <= s[k]
  {
    FirstArgMinIsFirstMin(s);
  }

  /** The minimum of a non-empty sequence. */
  function MinOf(s: seq<int>): int
    requires |s| > 0
  {
    s[FirstArgMin(s)]
  }

  /** Python's `s[k]` for `-|s| <= k < |s|`: a negative index counts from the end. */
  function PyIndex<T>(s: seq<T>, k: int): T
    requires -|s| <= k < |s|
  {
    if k < 0 then s[|s| + k] else s[k]
  }

  /** The position Python's `s[k]` refers to in a sequence of length n: a negative k counts from the end. */
  function PyPos(k: int, n: int): int
  {
    if k < 0 then n + k else k
  }
}
