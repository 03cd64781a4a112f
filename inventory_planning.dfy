// inventory_planning/inventory_planning.py: `fill_dp_matrix` with its cost
// functions `c` and `h`. The loops read the module globals `n` (a month count)
// and `d` (a demand list) rather than their own parameters; here both are
// explicit parameters. The float `dp` table with `np.inf` becomes a table of
// `Cost` values.

module InventoryPlanning {
  import opened Common

  /** numpy's `IndexError`: an index past a table or past the demand list. */
  datatype Error = IndexError

  /** A cell of the float `dp` table: `np.inf`, or an integral cost. */
  datatype Cost = Inf | Fin(value: int)

  /** `c(x)`: 5 per machine produced beyond the free quantity. */
  function ProductionCost(x: int): (cost: int)
    ensures x >= 0 ==> cost >= 0
    ensures cost == 0 <==> x == 0
  {
    x * 5
  }

  /** `h(x)`: 6 per machine held in inventory at the end of a month. */
  function HoldingCost(x: int): (cost: int)
    ensures x >= 0 ==> cost >= 0
    ensures cost == 0 <==> x == 0
  {
    x * 6
  }

  /** Each further machine costs 5 to produce and 6 to hold. */
  lemma CostPerMachine(x: int)
    ensures ProductionCost(x + 1) == ProductionCost(x) + 5
    ensures HoldingCost(x + 1) == HoldingCost(x) + 6
  {
  }

  /** Float `a < b`, where `np.inf` is above every integer and not below itself. */
  predicate Below(a: Cost, b: Cost)
  {
    match (a, b)
    case (Fin(x), Fin(y)) => x < y
    case (Fin(_), Inf) => true
    case (Inf, _) => false
  }

  /** Float `a <= b` in the same order. */
  predicate AtMost(a: Cost, b: Cost)
  {
    !Below(b, a)
  }

  /** Float `a + x`: infinity absorbs any integer. */
  function Plus(a: Cost, x: int): Cost
  {
    match a
    case Inf => Inf
    case Fin(v) => Fin(v + x)
  }

  /** The smaller of two costs. */
  function Least(a: Cost, b: Cost): Cost
  {
    if Below(b, a) then b else a
  }

  function Abs(x: int): nat { if x < 0 then -x else x }

  /** Python's `sum` of the demands. */
  function Total(s: seq<nat>): nat
  {
    if s == [] then 0 else Total(s[..|s| - 1]) + s[|s| - 1]
  }

  // ---------------------------------------------------------------------
  // The table, column by column
  // ---------------------------------------------------------------------

  /**
   * What `dp[month + 1, p]` holds while column `inv` is filled: the finished
   * row below for p <= inv; beyond inv that row is not filled yet (or is the
   * base row, which is infinite there), so the read sees `np.inf`.
   */
  function Read(below: seq<Cost>, inv: int, p: int): Cost
    requires 0 <= p < |below|
  {
    if p <= inv then below[p] else Inf
  }

  /**
   * The `potential_production` loop as written, over p in 0 .. k-1:
   * `min_cost` moves only when the read is below it, and then to the read
   * plus the holding cost of p.
   */
  function ScanAsWritten(below: seq<Cost>, inv: int, k: int): (cur: Cost)
    requires 0 <= k <= |below|
    ensures cur == Inf <==> forall p :: 0 <= p < k ==> Read(below, inv, p) == Inf
  {
    if k == 0 then Inf
    else
      var cur := ScanAsWritten(below, inv, k - 1);
      var v := Read(below, inv, k - 1);
      if Below(v, cur) then Plus(v, HoldingCost(k - 1)) else cur
  }

  /** The least read plus holding cost over p in 0 .. k-1: the running minimum of what the loop assigns. */
  function ScanLeast(below: seq<Cost>, inv: int, k: int): Cost
    requires 0 <= k <= |below|
  {
    if k == 0 then Inf else Least(ScanLeast(below, inv, k - 1), Plus(Read(below, inv, k - 1), HoldingCost(k - 1)))
  }

  /**
   * How many entries `range(m + 1)` scans, as far as the row is wide (beyond
   * it numpy raises, which the fill reports as an error).
   */
  function ScanLength(m: int, w: nat): nat
  {
    Min(Max(0, m + 1), w)
  }

  /**
   * Cell `dp[month, inv]` from the row below: demand met exactly by the
   * inventory and the free quantity, demand above it (the excess produced at
   * `c`), or demand below it (the scan).
   */
  function Cell(below: seq<Cost>, demand: int, m: int, inv: int): (cell: Cost)
    requires |below| >= 1
    ensures demand >= inv + m ==> cell == Plus(below[0], ProductionCost(demand - (inv + m)))
  {
    if demand == inv + m then below[0]
    else if demand > m + inv then Plus(below[0], ProductionCost(demand - (inv + m)))
    else ScanAsWritten(below, inv, ScanLength(m, |below|))
  }

  /** `production_table[month, inv]`: `d[month] - inventory` in the first two cases, else `|inventory - d[month]|`. */
  function ProductionEntry(demand: int, m: int, inv: int): (e: int)
    ensures m >= 0 ==> e == Abs(inv - demand)
  {
    if demand == inv + m || demand > m + inv then demand - inv else Abs(inv - demand)
  }

  /** Row n before the loops: `dp[n, 0] = 0`, everything else `np.inf`. */
  function BaseRow(w: nat): (row: seq<Cost>)
    ensures |row| == w
  {
    seq(w, c => if c == 0 then Fin(0) else Inf)
  }

  /** Row `month` of the filled table, `w` columns wide, for months up to the global `n`. */
  function Row(d: seq<nat>, n: nat, m: int, w: nat, month: nat): (row: seq<Cost>)
    requires month <= n <= |d| && w >= 1
    ensures |row| == w
    decreases n - month
  {
    if month == n then BaseRow(w)
    else
      var below := Row(d, n, m, w, month + 1);
      seq(w, c requires 0 <= c < w => Cell(below, d[month], m, c))
  }

  /** Rows 0 .. n of the filled table. */
  function Table(d: seq<nat>, n: nat, m: int, w: nat): (t: seq<seq<Cost>>)
    requires n <= |d| && w >= 1
    ensures |t| == n + 1
  {
    seq(n + 1, r requires 0 <= r <= n => Row(d, n, m, w, r))
  }

  /** `rows` are n + 1 rows of width w, the last the base row, each other one the cells over the next. */
  ghost predicate IsTable(rows: seq<seq<Cost>>, d: seq<nat>, n: nat, m: int, w: nat)
  {
    n <= |d| && w >= 1 && |rows| == n + 1 && (forall r :: 0 <= r <= n ==> |rows[r]| == w) &&
    rows[n] == BaseRow(w) &&
    forall r, c :: 0 <= r < n && 0 <= c < w ==> rows[r][c] == Cell(rows[r + 1], d[r], m, c)
  }

  lemma TableIsTable(d: seq<nat>, n: nat, m: int, w: nat)
    requires n <= |d| && w >= 1
    ensures IsTable(Table(d, n, m, w), d, n, m, w)
  {
    var t := Table(d, n, m, w);
    forall r, c | 0 <= r < n && 0 <= c < w
      ensures t[r][c] == Cell(t[r + 1], d[r], m, c)
    {
      assert t[r] == Row(d, n, m, w, r) && t[r + 1] == Row(d, n, m, w, r + 1);
    }
  }

  // ---------------------------------------------------------------------
  // The scan against its running minimum
  // ---------------------------------------------------------------------

  /**
   * The scan as written never ends below the least read plus holding cost,
   * is infinite exactly when that least is, and otherwise is the read plus
   * holding cost of one of the scanned p.
   */
  lemma {:induction false} ScanAsWrittenVsLeast(below: seq<Cost>, inv: int, k: int)
    requires 0 <= k <= |below|
    ensures AtMost(ScanLeast(below, inv, k), ScanAsWritten(below, inv, k))
    ensures ScanAsWritten(below, inv, k) == Inf <==> ScanLeast(below, inv, k) == Inf
    ensures ScanAsWritten(below, inv, k) != Inf ==>
      exists p :: 0 <= p < k && Read(below, inv, p) != Inf &&
        ScanAsWritten(below, inv, k) == Plus(Read(below, inv, p), HoldingCost(p))
  {
    if k > 0 {
      ScanAsWrittenVsLeast(below, inv, k - 1);
      var cur := ScanAsWritten(below, inv, k - 1);
      var v := Read(below, inv, k - 1);
      if Below(v, cur) {
        assert Read(below, inv, k - 1) != Inf;
      } else if cur != Inf {
        var p :| 0 <= p < k - 1 && Read(below, inv, p) != Inf && cur == Plus(Read(below, inv, p), HoldingCost(p));
        assert 0 <= p < k;
      }
    }
  }

  /**
   * Comparing the read without its holding cost lets the scan end above the
   * least: over reads 10 and 5 it moves to 5 + h(1) = 11, though 10 + h(0) = 10.
   */
  lemma ScanCanExceedLeast()
    ensures ScanAsWritten([Fin(10), Fin(5)], 1, 2) == Fin(11)
    ensures ScanLeast([Fin(10), Fin(5)], 1, 2) == Fin(10)
  {
    var below := [Fin(10), Fin(5)];
    assert ScanAsWritten(below, 1, 1) == Fin(10);
    assert ScanLeast(below, 1, 1) == Fin(10);
  }

  /** In column 0 only p = 0 is read: a finite entry there is what any scan returns. */
  lemma {:induction false} ScanAtColumnZero(below: seq<Cost>, k: int)
    requires 1 <= k <= |below| && below[0] != Inf
    ensures ScanAsWritten(below, 0, k) == below[0]
  {
    if k > 1 {
      ScanAtColumnZero(below, k - 1);
    } else {
      assert ScanAsWritten(below, 0, 0) == Inf;
    }
  }

  // ---------------------------------------------------------------------
  // What the table holds
  // ---------------------------------------------------------------------

  /** `c` of the demand of months `month .. n-1` beyond the free quantity. */
  function Excess(d: seq<nat>, m: int, month: nat, n: nat): int
    requires month <= n <= |d|
    decreases n - month
  {
    if month == n then 0 else ProductionCost(Max(0, d[month] - m)) + Excess(d, m, month + 1, n)
  }

  /**
   * Column 0 of each row reads only column 0 of the row below, so it is the
   * production cost of every month's demand beyond the free quantity.
   */
  lemma {:induction false} ColumnZeroIsExcess(d: seq<nat>, n: nat, m: int, w: nat, month: nat)
    requires month <= n <= |d| && w >= 1
    ensures Row(d, n, m, w, month)[0] == Fin(Excess(d, m, month, n))
    decreases n - month
  {
    if month < n {
      ColumnZeroIsExcess(d, n, m, w, month + 1);
      var below := Row(d, n, m, w, month + 1);
      assert Row(d, n, m, w, month)[0] == Cell(below, d[month], m, 0);
      if d[month] < m {
        ScanAtColumnZero(below, ScanLength(m, w));
      }
    }
  }

  /** No finite cell of the table is negative: every case adds non-negative costs to a cell below. */
  lemma {:induction false} RowNonNegative(d: seq<nat>, n: nat, m: int, w: nat, month: nat, c: int)
    requires month <= n <= |d| && w >= 1 && 0 <= c < w
    ensures Row(d, n, m, w, month)[c] != Inf ==> Row(d, n, m, w, month)[c].value >= 0
    decreases n - month, c
  {
    if month < n {
      var below := Row(d, n, m, w, month + 1);
      var cell := Row(d, n, m, w, month)[c];
      assert cell == Cell(below, d[month], m, c);
      if d[month] >= c + m {
        RowNonNegative(d, n, m, w, month + 1, 0);
      } else {
        var k := ScanLength(m, w);
        assert cell == ScanAsWritten(below, c, k);
        if cell != Inf {
          ScanAsWrittenVsLeast(below, c, k);
          var p :| 0 <= p < k && Read(below, c, p) != Inf && cell == Plus(Read(below, c, p), HoldingCost(p));
          RowNonNegative(d, n, m, w, month + 1, p);
        }
      }
    }
  }

  // ---------------------------------------------------------------------
  // fill_dp_matrix
  // ---------------------------------------------------------------------

  /**
   * The tables while column `inv` is filled and months `month .. n-1` of it
   * are done: those cells and every earlier column hold the table's rows,
   * row n holds the base row, every other cell is still `np.inf`.
   */
  ghost predicate DpState(dp: array2<Cost>, rows: seq<seq<Cost>>, n: nat, inv: int, month: int)
    requires |rows| == n + 1 && forall r :: 0 <= r <= n ==> |rows[r]| == dp.Length1
    reads dp
  {
    forall r, c :: 0 <= r < dp.Length0 && 0 <= c < dp.Length1 ==>
      dp[r, c] == if r <= n && (c < inv || r == n || (c == inv && month <= r)) then rows[r][c] else Inf
  }

  /** The production table in the same state: filled cells hold their entry, the rest 0. */
  ghost predicate ProdState(prod: array2<int>, d: seq<nat>, n: nat, m: int, inv: int, month: int)
    requires n <= |d|
    reads prod
  {
    forall r, c :: 0 <= r < prod.Length0 && 0 <= c < prod.Length1 ==>
      prod[r, c] == if r < n && (c < inv || (c == inv && month <= r)) then ProductionEntry(d[r], m, c) else 0
  }

  /** Cell (month, inv) does not fail: it is not the scan case, or the scan stays inside the row. */
  predicate CellOk(demand: int, m: int, inv: int, w: int)
  {
    demand >= inv + m || m < w
  }

  /** The body of the month loop for cell (month, inv); false where numpy raises in the scan. */
  method FillCell(dp: array2<Cost>, prod: array2<int>, d: seq<nat>, m: int, month: nat, inv: nat, ghost below: seq<Cost>)
    returns (ok: bool)
    requires month + 1 < dp.Length0 && month < |d| && inv < dp.Length1 && |below| == dp.Length1
    requires prod.Length0 == dp.Length0 && prod.Length1 == dp.Length1
    requires forall p :: 0 <= p < dp.Length1 ==> dp[month + 1, p] == Read(below, inv, p)
    modifies dp, prod
    ensures ok == CellOk(d[month], m, inv, dp.Length1)
    ensures ok ==> dp[month, inv] == Cell(below, d[month], m, inv) && prod[month, inv] == ProductionEntry(d[month], m, inv)
    ensures forall r, c :: 0 <= r < dp.Length0 && 0 <= c < dp.Length1 && (r != month || c != inv) ==>
      dp[r, c] == old(dp[r, c]) && prod[r, c] == old(prod[r, c])
  {
    var w := dp.Length1;
    var demand := d[month];
    assert dp[month + 1, 0] == Read(below, inv, 0) == below[0];
    if demand == inv + m {
      dp[month, inv] := dp[month + 1, 0];
      prod[month, inv] := demand - inv;
    } else if demand > m + inv {
      dp[month, inv] := Plus(dp[month + 1, 0], ProductionCost(demand - (inv + m)));
      prod[month, inv] := demand - inv;
    } else {
      var minCost := Inf;
      for p := 0 to Max(0, m + 1)
        invariant p <= w && minCost == ScanAsWritten(below, inv, p)
        modifies {}
      {
        if p >= w {
          return false;
        }
        var seen := dp[month + 1, p];
        if Below(seen, minCost) {
          minCost := Plus(seen, HoldingCost(p));
        }
      }
      assert ScanLength(m, w) == Max(0, m + 1);
      prod[month, inv] := Abs(inv - demand);
      dp[month, inv] := minCost;
    }
    ok := true;
  }

  /** Row `month + 1` as the scan of column `inv` reads it, once months `month + 1 .. n-1` of that column are done. */
  lemma ReadsBelow(dp: array2<Cost>, rows: seq<seq<Cost>>, d: seq<nat>, n: nat, m: int, inv: nat, next: nat)
    requires IsTable(rows, d, n, m, dp.Length1) && n < dp.Length0 && 0 < next <= n && inv < dp.Length1
    requires DpState(dp, rows, n, inv, next)
    ensures forall p :: 0 <= p < dp.Length1 ==> dp[next, p] == Read(rows[next], inv, p)
  {
    forall p | 0 <= p < dp.Length1
      ensures dp[next, p] == Read(rows[next], inv, p)
    {
      if p > inv && next == n {
        assert rows[n][p] == BaseRow(dp.Length1)[p];
      }
    }
  }

  /** The month loop for column `inv`, months n-1 down to 0; false at the first cell that fails. */
  method FillColumn(dp: array2<Cost>, prod: array2<int>, d: seq<nat>, n: nat, m: int, inv: nat, ghost rows: seq<seq<Cost>>)
    returns (ok: bool)
    requires IsTable(rows, d, n, m, dp.Length1) && n < dp.Length0 && inv < dp.Length1
    requires prod.Length0 == dp.Length0 && prod.Length1 == dp.Length1
    requires DpState(dp, rows, n, inv, n) && ProdState(prod, d, n, m, inv, n)
    modifies dp, prod
    ensures ok <==> forall k :: 0 <= k < n ==> CellOk(d[k], m, inv, dp.Length1)
    ensures ok ==> DpState(dp, rows, n, inv + 1, n) && ProdState(prod, d, n, m, inv + 1, n)
  {
    var w := dp.Length1;
    for month := n downto 0
      invariant DpState(dp, rows, n, inv, month) && ProdState(prod, d, n, m, inv, month)
      invariant forall k :: month <= k < n ==> CellOk(d[k], m, inv, w)
    {
      ReadsBelow(dp, rows, d, n, m, inv, month + 1);
      ok := FillCell(dp, prod, d, m, month, inv, rows[month + 1]);
      if !ok {
        return;
      }
    }
    ok := true;
  }

  /**
   * The two nested loops: inventory 0 .. big_d ascending outside, months
   * n-1 .. 0 descending inside. False where some cell fails.
   */
  method FillTables(dp: array2<Cost>, prod: array2<int>, d: seq<nat>, n: nat, m: int, ghost rows: seq<seq<Cost>>)
    returns (ok: bool)
    requires IsTable(rows, d, n, m, dp.Length1) && n < dp.Length0
    requires prod.Length0 == dp.Length0 && prod.Length1 == dp.Length1
    requires DpState(dp, rows, n, 0, n) && ProdState(prod, d, n, m, 0, n)
    modifies dp, prod
    ensures ok <==> forall k :: 0 <= k < n ==> CellOk(d[k], m, dp.Length1 - 1, dp.Length1)
    ensures ok ==> DpState(dp, rows, n, dp.Length1, n) && ProdState(prod, d, n, m, dp.Length1, n)
  {
    var w := dp.Length1;
    for inv := 0 to w
      invariant DpState(dp, rows, n, inv, n) && ProdState(prod, d, n, m, inv, n)
      invariant forall k :: 0 < inv && 0 <= k < n ==> CellOk(d[k], m, inv - 1, w)
    {
      ok := FillColumn(dp, prod, d, n, m, inv, rows);
      if !ok {
        return;
      }
    }
    ok := true;
  }

  /**
   * `fill_dp_matrix` fails with numpy's `IndexError` when the global `n` is
   * past the table's rows, when it is past the global demand list, or when
   * some month reaches the scan with a free quantity wider than the table.
   */
  ghost predicate Fails(numMonths: nat, m: int, demand: seq<nat>, n: nat, d: seq<nat>)
  {
    n > numMonths || n > |d| || (m > Total(demand) && exists k :: 0 <= k < n && d[k] < Total(demand) + m)
  }

  /**
   * `fill_dp_matrix(num_months, free_production_quantity, demand)` with the
   * globals `n` and `d`: tables of (num_months + 1) x (sum(demand) + 1), the
   * production table filled for the first n months, and `dp[0, 0]`, which is
   * the production cost of every month's demand beyond the free quantity.
   */
  method FillDpMatrix(numMonths: nat, freeProduction: int, demand: seq<nat>, n: nat, d: seq<nat>)
    returns (r: Result<(array2<int>, Cost), Error>)
    ensures r.Failure? <==> Fails(numMonths, freeProduction, demand, n, d)
    ensures r.Success? ==>
      var (prod, bestCost) := r.value;
      prod.Length0 == numMonths + 1 && prod.Length1 == Total(demand) + 1 &&
      (forall i, j :: 0 <= i < prod.Length0 && 0 <= j < prod.Length1 ==>
        prod[i, j] == if i < n then ProductionEntry(d[i], freeProduction, j) else 0) &&
      bestCost == Table(d, n, freeProduction, Total(demand) + 1)[0][0] &&
      bestCost == Fin(Excess(d, freeProduction, 0, n))
  {
    var bigD := Total(demand);
    var w := bigD + 1;
    var dp := new Cost[numMonths + 1, w]((i, j) => Inf);
    var prod := new int[numMonths + 1, w]((i, j) => 0);
    if n > numMonths {
      return Failure(IndexError);
    }
    dp[n, 0] := Fin(0);
    var m := freeProduction;
    if n > |d| {
      // The first `d[month]` read, at month n - 1, is past the list.
      return Failure(IndexError);
    }
    ghost var rows := Table(d, n, m, w);
    TableIsTable(d, n, m, w);
    assert DpState(dp, rows, n, 0, n) by {
      assert rows[n] == BaseRow(w);
    }
    var ok := FillTables(dp, prod, d, n, m, rows);
    if !ok {
      return Failure(IndexError);
    }
    var bestCost := dp[0, 0];
    ColumnZeroIsExcess(d, n, m, w, 0);
    r := Success((prod, bestCost));
  }
}
