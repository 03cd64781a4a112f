// Task_Scheduling/task_scheduling.py: `plan_tasks`, a shortest-remaining-time
// scheduler over unit time steps. The table of tasks keyed by start time is an
// insertion-ordered dictionary; the tasks that have arrived wait in a list
// that is stably re-sorted by remaining time every step.

module TaskScheduling {
  import opened Common

  /** `IndexError` from `process_times[index]` or `start_times[index]` running past the names. */
  datatype Error = IndexError

  /** A task's name and its remaining process time (`[task, time]`). */
  datatype Task = Task(name: string, remaining: int)

  /**
   * `task_info`: a dictionary from start time to task, whose keys iterate in
   * `order` (the order in which they were first inserted, or the order a
   * `dict(sorted(...))` rebuild gave them).
   */
  datatype TaskTable = TaskTable(order: seq<int>, tasks: map<int, Task>)

  // ---------------------------------------------------------------------
  // Sequences: sums and Python's stable sort
  // ---------------------------------------------------------------------

  /** The sum of `w` over `s`. */
  function SumOf<T>(s: seq<T>, w: T -> int): int
  {
    if s == [] then 0 else SumOf(s[..|s| - 1], w) + w(s[|s| - 1])
  }

  lemma {:induction false} SumOfAppend<T>(a: seq<T>, b: seq<T>, w: T -> int)
    ensures SumOf(a + b, w) == SumOf(a, w) + SumOf(b, w)
    decreases |b|
  {
    if b == [] {
      assert a + b == a;
    } else {
      var ab, init := a + b, b[..|b| - 1];
      assert ab[..|ab| - 1] == a + init && ab[|ab| - 1] == b[|b| - 1];
      SumOfAppend(a, init, w);
      calc {
        SumOf(ab, w);
        SumOf(a + init, w) + w(b[|b| - 1]);
        SumOf(a, w) + SumOf(init, w) + w(b[|b| - 1]);
      }
    }
  }

  lemma SumOfCons<T>(x: T, s: seq<T>, w: T -> int)
    ensures SumOf([x] + s, w) == w(x) + SumOf(s, w)
  {
    SumOfAppend([x], s, w);
    assert [x][..0] == [];
  }

  /** Inserting `x` after every element whose key is not larger. */
  function Insert<T>(x: T, s: seq<T>, key: T -> int): (r: seq<T>)
    decreases |s|
  {
    if s == [] then [x]
    else if key(x) < key(s[0]) then [x] + s
    else [s[0]] + Insert(x, s[1..], key)
  }

  /**
   * Python's `sorted(s, key=key)` and `s.sort(key=key)`: a stable sort,
   * here as insertion sort taking the elements in order.
   */
  function SortBy<T>(s: seq<T>, key: T -> int): (r: seq<T>)
    decreases |s|
  {
    if s == [] then [] else Insert(s[|s| - 1], SortBy(s[..|s| - 1], key), key)
  }

  ghost predicate SortedBy<T>(s: seq<T>, key: T -> int)
  {
    forall a, b :: 0 <= a < b < |s| ==> key(s[a]) <= key(s[b])
  }

  /** A head no larger than any later element keeps a sorted tail sorted. */
  lemma ConsSorted<T>(h: T, r: seq<T>, key: T -> int)
    requires SortedBy(r, key) && forall i :: 0 <= i < |r| ==> key(h) <= key(r[i])
    ensures SortedBy([h] + r, key)
  {
    var s := [h] + r;
    forall a, b | 0 <= a < b < |s|
      ensures key(s[a]) <= key(s[b])
    {
      assert s[b] == r[b - 1];
      if a > 0 {
        assert s[a] == r[a - 1];
      }
    }
  }

  lemma {:induction false} InsertPermutes<T>(x: T, s: seq<T>, key: T -> int)
    ensures multiset(Insert(x, s, key)) == multiset(s) + multiset{x}
    ensures s != [] ==> Insert(x, s, key)[0] == if key(x) < key(s[0]) then x else s[0]
    decreases |s|
  {
    if s != [] && key(x) >= key(s[0]) {
      InsertPermutes(x, s[1..], key);
      assert s == [s[0]] + s[1..];
    }
  }

  lemma {:induction false} InsertSorts<T>(x: T, s: seq<T>, key: T -> int)
    requires SortedBy(s, key)
    ensures SortedBy(Insert(x, s, key), key)
    decreases |s|
  {
    if s == [] {
    } else if key(x) < key(s[0]) {
      ConsSorted(x, s, key);
    } else {
      var rest := Insert(x, s[1..], key);
      InsertSorts(x, s[1..], key);
      InsertPermutes(x, s[1..], key);
      forall i | 0 <= i < |rest|
        ensures key(s[0]) <= key(rest[i])
      {
        assert rest[i] in multiset(s[1..]) + multiset{x};
        if rest[i] != x {
          var j :| 0 <= j < |s[1..]| && s[1..][j] == rest[i];
          assert s[j + 1] == rest[i];
        }
      }
      ConsSorted(s[0], rest, key);
    }
  }

  /** The sort orders by key and only permutes. */
  lemma {:induction false} SortBySorts<T>(s: seq<T>, key: T -> int)
    ensures SortedBy(SortBy(s, key), key)
    ensures multiset(SortBy(s, key)) == multiset(s)
    decreases |s|
  {
    if s != [] {
      var init := s[..|s| - 1];
      SortBySorts(init, key);
      InsertSorts(s[|s| - 1], SortBy(init, key), key);
      InsertPermutes(s[|s| - 1], SortBy(init, key), key);
      assert s == init + [s[|s| - 1]];
    }
  }

  lemma SortByMembers<T>(s: seq<T>, key: T -> int)
    ensures multiset(SortBy(s, key)) == multiset(s)
    ensures forall y :: y in SortBy(s, key) <==> y in s
  {
    SortBySorts(s, key);
    forall y
      ensures y in SortBy(s, key) <==> y in s
    {
      assert y in SortBy(s, key) <==> y in multiset(SortBy(s, key));
      assert y in s <==> y in multiset(s);
    }
  }

  lemma {:induction false} InsertSum<T>(x: T, s: seq<T>, key: T -> int, w: T -> int)
    ensures SumOf(Insert(x, s, key), w) == SumOf(s, w) + w(x)
    decreases |s|
  {
    if s == [] {
      assert [x][..0] == [];
    } else if key(x) < key(s[0]) {
      SumOfCons(x, s, w);
    } else {
      InsertSum(x, s[1..], key, w);
      SumOfCons(s[0], Insert(x, s[1..], key), w);
      SumOfCons(s[0], s[1..], w);
      assert s == [s[0]] + s[1..];
    }
  }

  /** Sorting keeps every sum over the elements. */
  lemma {:induction false} SortBySum<T>(s: seq<T>, key: T -> int, w: T -> int)
    ensures SumOf(SortBy(s, key), w) == SumOf(s, w)
    decreases |s|
  {
    if s != [] {
      var init := s[..|s| - 1];
      SortBySum(init, key, w);
      InsertSum(s[|s| - 1], SortBy(init, key), key, w);
    }
  }

  /** The position of the first element with the least key. */
  function FirstMin<T>(s: seq<T>, key: T -> int): (p: nat)
    requires |s| > 0
    ensures p < |s|
  {
    if |s| == 1 then 0
    else
      var p := FirstMin(s[..|s| - 1], key);
      if key(s[|s| - 1]) < key(s[p]) then |s| - 1 else p
  }

  /** `FirstMin` has the least key, and every element before it a strictly larger one. */
  lemma {:induction false} FirstMinIsFirstLeast<T>(s: seq<T>, key: T -> int)
    requires |s| > 0
    ensures forall i :: 0 <= i < |s| ==> key(s[FirstMin(s, key)]) <= key(s[i])
    ensures forall i :: 0 <= i < FirstMin(s, key) ==> key(s[FirstMin(s, key)]) < key(s[i])
  {
    if |s| > 1 {
      var init := s[..|s| - 1];
      FirstMinIsFirstLeast(init, key);
      assert forall i :: 0 <= i < |init| ==> s[i] == init[i];
    }
  }

  /** The head of the stable sort is the first element with the least key. */
  lemma {:induction false} SortByHead<T>(s: seq<T>, key: T -> int)
    requires |s| > 0
    ensures |SortBy(s, key)| == |s| && SortBy(s, key)[0] == s[FirstMin(s, key)]
    decreases |s|
  {
    SortBySorts(s, key);
    assert |SortBy(s, key)| == |multiset(SortBy(s, key))| == |s|;
    if |s| > 1 {
      var init := s[..|s| - 1];
      SortByHead(init, key);
      InsertPermutes(s[|s| - 1], SortBy(init, key), key);
    }
  }

  // ---------------------------------------------------------------------
  // The table of tasks keyed by start time
  // ---------------------------------------------------------------------

  ghost predicate NoDup(s: seq<int>)
  {
    forall k :: multiset(s)[k] <= 1
  }

  /** The iteration order lists every key of the dictionary exactly once. */
  ghost predicate Valid(d: TaskTable)
  {
    (forall k :: k in d.order <==> k in d.tasks) && NoDup(d.order)
  }

  /** `task_info[start] = task`: a new key goes last, an existing one keeps its place and takes the new task. */
  function Put(d: TaskTable, start: int, task: Task): (r: TaskTable)
    requires Valid(d)
    ensures Valid(r) && r.tasks == d.tasks[start := task]
  {
    TaskTable(if start in d.tasks then d.order else d.order + [start], d.tasks[start := task])
  }

  /** The table after the first n iterations of the filling loop. */
  function Populate(names: seq<string>, times: seq<int>, starts: seq<int>, n: nat): (d: TaskTable)
    requires n <= |names| && n <= |times| && n <= |starts|
    ensures Valid(d)
  {
    if n == 0 then TaskTable([], map[])
    else Put(Populate(names, times, starts, n - 1), starts[n - 1], Task(names[n - 1], times[n - 1]))
  }

  /** The last index below n whose start time is k, or -1. */
  function LastWith(starts: seq<int>, k: int, n: nat): (r: int)
    requires n <= |starts|
    ensures -1 <= r < n && (r >= 0 ==> starts[r] == k)
    ensures forall i :: r < i < n ==> starts[i] != k
  {
    if n == 0 then -1 else if starts[n - 1] == k then n - 1 else LastWith(starts, k, n - 1)
  }

  /** A start time maps to the task given last with it: later tasks overwrite earlier ones. */
  lemma {:induction false} PopulateOverwrites(names: seq<string>, times: seq<int>, starts: seq<int>, n: nat, k: int)
    requires n <= |names| && n <= |times| && n <= |starts|
    ensures k in Populate(names, times, starts, n).tasks <==> LastWith(starts, k, n) >= 0
    ensures LastWith(starts, k, n) >= 0 ==>
      Populate(names, times, starts, n).tasks[k] == Task(names[LastWith(starts, k, n)], times[LastWith(starts, k, n)])
  {
    if n > 0 {
      PopulateOverwrites(names, times, starts, n - 1, k);
    }
  }

  /** Every task in the table has one of the first n process times. */
  lemma {:induction false} PopulatePositive(names: seq<string>, times: seq<int>, starts: seq<int>, n: nat)
    requires n <= |names| && n <= |times| && n <= |starts|
    requires forall i :: 0 <= i < n ==> times[i] >= 1
    ensures forall k :: k in Populate(names, times, starts, n).tasks ==> Populate(names, times, starts, n).tasks[k].remaining >= 1
  {
    if n > 0 {
      PopulatePositive(names, times, starts, n - 1);
    }
  }

  /** The process time of the task at key k, as the sort key of the table's items. */
  function TimeKey(d: TaskTable): int -> int
  {
    (k: int) => if k in d.tasks then d.tasks[k].remaining else 0
  }

  /** `dict(sorted(task_info.items(), key=process time))`: the same dictionary, its keys reordered. */
  function SortTable(d: TaskTable): (r: TaskTable)
    requires Valid(d)
    ensures Valid(r) && r.tasks == d.tasks
  {
    SortByMembers(d.order, TimeKey(d));
    TaskTable(SortBy(d.order, TimeKey(d)), d.tasks)
  }

  /** The keys of `order` that are at most t, in order (`tasks_to_remove`). */
  function UpTo(order: seq<int>, t: int): seq<int>
  {
    if order == [] then []
    else UpTo(order[..|order| - 1], t) + (if order[|order| - 1] <= t then [order[|order| - 1]] else [])
  }

  /**
   * The tasks at those keys, in order: what step t appends to
   * `possible_tasks` (every key of a valid table has a task).
   */
  function Arrived(order: seq<int>, tasks: map<int, Task>, t: int): seq<Task>
  {
    if order == [] then []
    else
      var k := order[|order| - 1];
      Arrived(order[..|order| - 1], tasks, t) + (if k <= t && k in tasks then [tasks[k]] else [])
  }

  /** `order` without the keys in `gone`. */
  function Drop(order: seq<int>, gone: set<int>): seq<int>
  {
    if order == [] then []
    else Drop(order[..|order| - 1], gone) + (if order[|order| - 1] in gone then [] else [order[|order| - 1]])
  }

  lemma {:induction false} UpToFacts(order: seq<int>, t: int)
    ensures forall k :: k in UpTo(order, t) <==> k in order && k <= t
    ensures forall k :: multiset(UpTo(order, t))[k] <= multiset(order)[k]
  {
    if order != [] {
      var init := order[..|order| - 1];
      UpToFacts(init, t);
      assert order == init + [order[|order| - 1]];
    }
  }

  lemma {:induction false} DropFacts(order: seq<int>, gone: set<int>)
    ensures forall k :: k in Drop(order, gone) <==> k in order && k !in gone
    ensures forall k :: multiset(Drop(order, gone))[k] <= multiset(order)[k]
  {
    if order != [] {
      var init := order[..|order| - 1];
      DropFacts(init, gone);
      assert order == init + [order[|order| - 1]];
    }
  }

  /** Dropping one more key after a set of them drops their union. */
  lemma {:induction false} DropAgain(order: seq<int>, gone: set<int>, k: int)
    ensures Drop(Drop(order, gone), {k}) == Drop(order, gone + {k})
  {
    if order != [] {
      var init := order[..|order| - 1];
      DropAgain(init, gone, k);
      var last := order[|order| - 1];
      var d := Drop(order, gone);
      if last !in gone {
        assert d[..|d| - 1] == Drop(init, gone) && d[|d| - 1] == last;
      } else {
        assert d == Drop(init, gone);
        assert Drop(order, gone + {k}) == Drop(init, gone + {k});
      }
    }
  }

  /** The dictionary after step t's deletions: the keys after t, in their order. */
  function Waiting(d: TaskTable, t: int): TaskTable
  {
    TaskTable(Drop(d.order, set k | k in d.order && k <= t), map k | k in d.tasks && k > t :: d.tasks[k])
  }

  /** The deletions keep the table valid and leave exactly the keys after t. */
  lemma WaitingValid(d: TaskTable, t: int)
    requires Valid(d)
    ensures Valid(Waiting(d, t)) && forall k :: k in Waiting(d, t).tasks <==> k in d.tasks && k > t
  {
    DropFacts(d.order, set k | k in d.order && k <= t);
  }

  ghost function SetOf(s: seq<int>): set<int>
  {
    set k | k in s
  }

  lemma {:induction false} DropNothing(order: seq<int>)
    ensures Drop(order, {}) == order
  {
    if order != [] {
      DropNothing(order[..|order| - 1]);
    }
  }

  /** `del task_info[k]`; the key is present, or Python raises `KeyError`. */
  function Delete(d: TaskTable, k: int): TaskTable
    requires k in d.tasks
  {
    TaskTable(Drop(d.order, {k}), d.tasks - {k})
  }

  /** A key occurs in a duplicate-free sequence only at its own place. */
  lemma NoDupPrefix(s: seq<int>, i: int)
    requires NoDup(s) && 0 <= i < |s|
    ensures s[i] !in s[..i]
  {
    var pre, k := s[..i], s[i];
    assert multiset(s)[k] <= 1;
    assert s == pre + [s[i]] + s[i + 1..];
    assert multiset(s) == multiset(pre) + multiset{s[i]} + multiset(s[i + 1..]);
    assert multiset(pre)[s[i]] == 0;
  }

  // ---------------------------------------------------------------------
  // The schedule, step by step
  // ---------------------------------------------------------------------

  /** The scheduler's state before a step: the table, `possible_tasks` and `task_log`. */
  datatype Plan = Plan(table: TaskTable, queue: seq<Task>, log: seq<string>)

  function RemainingOf(task: Task): int
  {
    task.remaining
  }

  /** `possible_tasks` once step t's arrivals are appended, before the sort. */
  function Pool(p: Plan, t: int): seq<Task>
  {
    p.queue + Arrived(p.table.order, p.table.tasks, t)
  }

  /** What a step logs: "idle" for an empty pool, else the first task with the least remaining time. */
  function Served(pool: seq<Task>): string
  {
    if pool == [] then "idle" else pool[FirstMin(pool, RemainingOf)].name
  }

  /** The sorted pool after its head runs for one unit, and is popped if that finishes it. */
  function Serve(q: seq<Task>): seq<Task>
  {
    if q == [] then []
    else
      var current := q[0].(remaining := q[0].remaining - 1);
      if current.remaining == 0 then q[1..] else q[0 := current]
  }

  /** One pass of the time loop at time t. */
  function Step(p: Plan, t: int): Plan
  {
    var q := SortBy(Pool(p, t), RemainingOf);
    Plan(Waiting(p.table, t), Serve(q), p.log + [if q == [] then "idle" else q[0].name])
  }

  /** The state after the steps at times from .. from+n-1. */
  function Run(p: Plan, from: int, n: nat): Plan
    decreases n
  {
    if n == 0 then p else Run(Step(p, from), from + 1, n - 1)
  }

  /** Python's `sum`. */
  function Total(s: seq<int>): int
  {
    if s == [] then 0 else Total(s[..|s| - 1]) + s[|s| - 1]
  }

  /** The state before the time loop: the filled and sorted table, nothing waiting, nothing logged. */
  function Initial(names: seq<string>, times: seq<int>, starts: seq<int>): Plan
    requires |names| <= |times| && |names| <= |starts|
  {
    Plan(SortTable(Populate(names, times, starts, |names|)), [], [])
  }

  /** `plan_tasks`: the log of the steps at times 0 .. sum(times). */
  function Schedule(names: seq<string>, times: seq<int>, starts: seq<int>): (r: Result<seq<string>, Error>)
    ensures r.Failure? <==> |times| < |names| || |starts| < |names|
    ensures r.Failure? ==> r.error == IndexError
  {
    if |times| < |names| || |starts| < |names| then Failure(IndexError)
    else Success(Run(Initial(names, times, starts), 0, Max(0, Total(times) + 1)).log)
  }

  /** A step logs what `Served` says of its pool. */
  lemma StepLogs(p: Plan, t: int)
    ensures Step(p, t).log == p.log + [Served(Pool(p, t))]
  {
    var pool := Pool(p, t);
    if pool != [] {
      SortByHead(pool, RemainingOf);
    }
  }

  /** What the step at time from+t of a run from p logs. */
  function ServedAt(p: Plan, from: int, t: nat): string
  {
    Served(Pool(Run(p, from, t), from + t))
  }

  /** The step of RunLogs: one step logged in front of the rest of the run. */
  lemma RunLogsStep(p: Plan, from: int, n: nat, next: Plan, rest: Plan, nextFrom: int)
    requires nextFrom == from + 1
    requires n > 0 && next == Step(p, from) && rest == Run(next, nextFrom, n - 1)
    requires next.log == p.log + [Served(Pool(p, from))]
    requires |rest.log| == |next.log| + (n - 1) && rest.log[..|next.log|] == next.log
    requires forall t :: 0 <= t < n - 1 ==> rest.log[|next.log| + t] == ServedAt(next, nextFrom, t)
    ensures rest == Run(p, from, n)
    ensures |rest.log| == |p.log| + n && rest.log[..|p.log|] == p.log
    ensures forall t :: 0 <= t < n ==> rest.log[|p.log| + t] == ServedAt(p, from, t)
  {
    assert rest.log[..|next.log|][..|p.log|] == rest.log[..|p.log|];
    forall t | 0 <= t < n
      ensures rest.log[|p.log| + t] == ServedAt(p, from, t)
    {
      if t == 0 {
        assert rest.log[|p.log|] == rest.log[..|next.log|][|p.log|];
      } else {
        ServedAtShift(p, from, t, next, nextFrom);
        assert |p.log| + t == |next.log| + (t - 1);
      }
    }
  }

  /** The step at from+t of a run from p is the step at (from+1)+(t-1) of the run from the state after one step. */
  lemma ServedAtShift(p: Plan, from: int, t: nat, next: Plan, nextFrom: int)
    requires t > 0 && next == Step(p, from) && nextFrom == from + 1
    ensures ServedAt(p, from, t) == ServedAt(next, nextFrom, t - 1)
  {
    assert Run(p, from, t) == Run(next, nextFrom, t - 1);
  }

  lemma {:induction false} RunLogs(p: Plan, from: int, n: nat)
    ensures |Run(p, from, n).log| == |p.log| + n && Run(p, from, n).log[..|p.log|] == p.log
    ensures forall t :: 0 <= t < n ==> Run(p, from, n).log[|p.log| + t] == ServedAt(p, from, t)
    decreases n
  {
    if n > 0 {
      var next := Step(p, from);
      RunLogs(next, from + 1, n - 1);
      StepLogs(p, from);
      RunLogsStep(p, from, n, next, Run(next, from + 1, n - 1), from + 1);
    }
  }

  /**
   * The log has one entry per time 0 .. sum(times), and the entry at time t
   * is what `Served` picks from that step's pool.
   */
  lemma ScheduleLogs(names: seq<string>, times: seq<int>, starts: seq<int>)
    requires |names| <= |times| && |names| <= |starts|
    ensures Schedule(names, times, starts).Success?
    ensures |Schedule(names, times, starts).value| == Max(0, Total(times) + 1)
    ensures forall t :: 0 <= t < |Schedule(names, times, starts).value| ==>
      Schedule(names, times, starts).value[t] == ServedAt(Initial(names, times, starts), 0, t)
  {
    var p, n := Initial(names, times, starts), Max(0, Total(times) + 1);
    RunLogsFromEmpty(p, n);
    var log := Run(p, 0, n).log;
    assert Schedule(names, times, starts) == Success(log);
  }

  /** RunLogs for a run from time 0 with nothing logged yet. */
  lemma RunLogsFromEmpty(p: Plan, n: nat)
    requires p.log == []
    ensures |Run(p, 0, n).log| == n
    ensures forall t :: 0 <= t < n ==> Run(p, 0, n).log[t] == ServedAt(p, 0, t)
  {
    RunLogs(p, 0, n);
  }

  /**
   * "idle" exactly for an empty pool; otherwise the task served has the least
   * remaining time in the pool, and every task before it in the pool (those
   * waiting from earlier steps, then the new arrivals in table order) has
   * strictly more.
   */
  lemma ServedIsFirstShortest(pool: seq<Task>)
    ensures pool == [] ==> Served(pool) == "idle"
    ensures pool != [] ==>
      var p := FirstMin(pool, RemainingOf);
      Served(pool) == pool[p].name &&
      (forall i :: 0 <= i < |pool| ==> pool[p].remaining <= pool[i].remaining) &&
      (forall i :: 0 <= i < p ==> pool[p].remaining < pool[i].remaining)
  {
    if pool != [] {
      FirstMinIsFirstLeast(pool, RemainingOf);
    }
  }

  /** After the steps at from .. from+n-1 the table holds exactly the original entries not yet arrived, unchanged. */
  lemma {:induction false} RunTable(p: Plan, from: int, n: nat)
    ensures forall k :: k in Run(p, from, n).table.tasks <==> k in p.table.tasks && (n == 0 || k >= from + n)
    ensures forall k :: k in Run(p, from, n).table.tasks ==> Run(p, from, n).table.tasks[k] == p.table.tasks[k]
    decreases n
  {
    if n > 0 {
      RunTable(Step(p, from), from + 1, n - 1);
    }
  }

  /**
   * A start time's task is due (still in the table and at most the time) at
   * step max(start, 0) and at no other step, so it joins the pool once.
   */
  lemma ArrivesOnce(p: Plan, t: nat, k: int)
    ensures k in Run(p, 0, t).table.tasks && k <= t <==> k in p.table.tasks && t == Max(k, 0)
  {
    RunTable(p, 0, t);
  }

  // ---------------------------------------------------------------------
  // A name is served at most its process time
  // ---------------------------------------------------------------------

  /** The remaining time of a task named x, else 0. */
  function NameWeight(x: string): Task -> int
  {
    (task: Task) => if task.name == x then task.remaining else 0
  }

  /** The remaining time of the task at key k if it is named x, else 0. */
  function KeyWeight(tasks: map<int, Task>, x: string): int -> int
  {
    (k: int) => if k in tasks && tasks[k].name == x then tasks[k].remaining else 0
  }

  /** The time still owed to tasks named x, waiting or not yet arrived. */
  function Work(p: Plan, x: string): int
  {
    SumOf(p.queue, NameWeight(x)) + SumOf(p.table.order, KeyWeight(p.table.tasks, x))
  }

  /** The number of log entries equal to x. */
  function Count(log: seq<string>, x: string): nat
  {
    if log == [] then 0 else Count(log[..|log| - 1], x) + (if log[|log| - 1] == x then 1 else 0)
  }

  ghost predicate Positive(p: Plan)
  {
    (forall i :: 0 <= i < |p.queue| ==> p.queue[i].remaining >= 1) &&
    (forall k :: k in p.table.tasks ==> p.table.tasks[k].remaining >= 1)
  }

  lemma {:induction false} SumOfAgree<T>(s: seq<T>, w: T -> int, v: T -> int)
    requires forall i :: 0 <= i < |s| ==> w(s[i]) == v(s[i])
    ensures SumOf(s, w) == SumOf(s, v)
  {
    if s != [] {
      SumOfAgree(s[..|s| - 1], w, v);
    }
  }

  lemma {:induction false} SumOfNonNegative<T>(s: seq<T>, w: T -> int)
    requires forall i :: 0 <= i < |s| ==> w(s[i]) >= 0
    ensures SumOf(s, w) >= 0
  {
    if s != [] {
      SumOfNonNegative(s[..|s| - 1], w);
    }
  }

  lemma SumOfSnoc<T>(a: seq<T>, y: T, w: T -> int)
    ensures SumOf(a + [y], w) == SumOf(a, w) + w(y)
  {
    assert (a + [y])[..|a|] == a;
  }

  /** The step of ArrivalMovesWork: the last key either arrives or stays. */
  lemma ArrivalStep(order: seq<int>, tasks: map<int, Task>, t: int, gone: set<int>, x: string)
    requires order != [] && (order[|order| - 1] in gone <==> order[|order| - 1] <= t)
    requires var init := order[..|order| - 1];
      SumOf(Arrived(init, tasks, t), NameWeight(x)) + SumOf(Drop(init, gone), KeyWeight(tasks, x))
        == SumOf(init, KeyWeight(tasks, x))
    ensures SumOf(Arrived(order, tasks, t), NameWeight(x)) + SumOf(Drop(order, gone), KeyWeight(tasks, x))
         == SumOf(order, KeyWeight(tasks, x))
  {
    var init, last := order[..|order| - 1], order[|order| - 1];
    assert SumOf(order, KeyWeight(tasks, x)) == SumOf(init, KeyWeight(tasks, x)) + KeyWeight(tasks, x)(last);
    if last <= t {
      assert Drop(order, gone) == Drop(init, gone);
      if last in tasks {
        assert Arrived(order, tasks, t) == Arrived(init, tasks, t) + [tasks[last]];
        SumOfSnoc(Arrived(init, tasks, t), tasks[last], NameWeight(x));
      } else {
        assert Arrived(order, tasks, t) == Arrived(init, tasks, t);
      }
    } else {
      assert Drop(order, gone) == Drop(init, gone) + [last];
      assert Arrived(order, tasks, t) == Arrived(init, tasks, t);
      SumOfSnoc(Drop(init, gone), last, KeyWeight(tasks, x));
    }
  }

  /** Collecting moves the owed time of the arrived keys from the table to the pool. */
  lemma {:induction false} ArrivalMovesWork(order: seq<int>, tasks: map<int, Task>, t: int, gone: set<int>, x: string)
    requires forall k :: k in order ==> (k in gone <==> k <= t)
    ensures SumOf(Arrived(order, tasks, t), NameWeight(x)) + SumOf(Drop(order, gone), KeyWeight(tasks, x))
         == SumOf(order, KeyWeight(tasks, x))
  {
    if order != [] {
      var init := order[..|order| - 1];
      assert forall k :: k in init ==> k in order;
      ArrivalMovesWork(init, tasks, t, gone, x);
      ArrivalStep(order, tasks, t, gone, x);
    }
  }

  /** Serving the head of a positive queue owes one unit less to its name and keeps the queue positive. */
  lemma ServeWork(q: seq<Task>, x: string)
    requires forall i :: 0 <= i < |q| ==> q[i].remaining >= 1
    ensures forall i :: 0 <= i < |Serve(q)| ==> Serve(q)[i].remaining >= 1
    ensures SumOf(Serve(q), NameWeight(x)) == SumOf(q, NameWeight(x)) - (if q != [] && q[0].name == x then 1 else 0)
  {
    if q != [] {
      var current := q[0].(remaining := q[0].remaining - 1);
      assert q == [q[0]] + q[1..] && q[0 := current] == [current] + q[1..];
      SumOfCons(q[0], q[1..], NameWeight(x));
      SumOfCons(current, q[1..], NameWeight(x));
    }
  }

  /** Every task collected at a step comes from the table. */
  lemma {:induction false} ArrivedPositive(order: seq<int>, tasks: map<int, Task>, t: int)
    requires forall k :: k in tasks ==> tasks[k].remaining >= 1
    ensures forall i :: 0 <= i < |Arrived(order, tasks, t)| ==> Arrived(order, tasks, t)[i].remaining >= 1
  {
    if order != [] {
      ArrivedPositive(order[..|order| - 1], tasks, t);
    }
  }

  /** The sorted pool of a positive plan is positive, and owes what the queue and the arrivals owe. */
  lemma PoolWork(p: Plan, t: int, x: string)
    requires Positive(p)
    ensures var q := SortBy(Pool(p, t), RemainingOf);
      (forall i :: 0 <= i < |q| ==> q[i].remaining >= 1) &&
      SumOf(q, NameWeight(x)) == SumOf(p.queue, NameWeight(x)) + SumOf(Arrived(p.table.order, p.table.tasks, t), NameWeight(x))
  {
    var arrived := Arrived(p.table.order, p.table.tasks, t);
    ArrivedPositive(p.table.order, p.table.tasks, t);
    SortedPositive(p.queue, arrived);
    SumOfAppend(p.queue, arrived, NameWeight(x));
    SortBySum(p.queue + arrived, RemainingOf, NameWeight(x));
  }

  /** Sorting two positive lists joined keeps every remaining time positive. */
  lemma SortedPositive(queue: seq<Task>, arrived: seq<Task>)
    requires forall i :: 0 <= i < |queue| ==> queue[i].remaining >= 1
    requires forall i :: 0 <= i < |arrived| ==> arrived[i].remaining >= 1
    ensures var q := SortBy(queue + arrived, RemainingOf);
      forall i :: 0 <= i < |q| ==> q[i].remaining >= 1
  {
    var pool := queue + arrived;
    var q := SortBy(pool, RemainingOf);
    SortByMembers(pool, RemainingOf);
    forall i | 0 <= i < |q|
      ensures q[i].remaining >= 1
    {
      assert q[i] in pool;
      var j :| 0 <= j < |pool| && pool[j] == q[i];
      if j >= |queue| {
        assert pool[j] == arrived[j - |queue|];
      }
    }
  }

  /** The deletions leave a positive table that owes what was owed less what arrived. */
  lemma WaitingWork(d: TaskTable, t: int, x: string)
    requires forall k :: k in d.tasks ==> d.tasks[k].remaining >= 1
    ensures forall k :: k in Waiting(d, t).tasks ==> Waiting(d, t).tasks[k].remaining >= 1
    ensures SumOf(Arrived(d.order, d.tasks, t), NameWeight(x)) + SumOf(Waiting(d, t).order, KeyWeight(Waiting(d, t).tasks, x))
         == SumOf(d.order, KeyWeight(d.tasks, x))
  {
    var gone := set k | k in d.order && k <= t;
    var waiting := Waiting(d, t);
    ArrivalMovesWork(d.order, d.tasks, t, gone, x);
    DropFacts(d.order, gone);
    forall i | 0 <= i < |waiting.order|
      ensures KeyWeight(waiting.tasks, x)(waiting.order[i]) == KeyWeight(d.tasks, x)(waiting.order[i])
    {
      var k := waiting.order[i];
      assert k in waiting.order;
      assert k > t;
    }
    SumOfAgree(waiting.order, KeyWeight(waiting.tasks, x), KeyWeight(d.tasks, x));
  }

  lemma CountSnoc(log: seq<string>, y: string, x: string)
    ensures Count(log + [y], x) == Count(log, x) + (if y == x then 1 else 0)
  {
    assert (log + [y])[..|log|] == log;
  }

  /** A step keeps every remaining time positive and moves owed time to the log one unit at a time. */
  lemma StepWork(p: Plan, t: int, x: string)
    requires Positive(p) && x != "idle"
    ensures Positive(Step(p, t))
    ensures Count(Step(p, t).log, x) + Work(Step(p, t), x) == Count(p.log, x) + Work(p, x)
  {
    var q := SortBy(Pool(p, t), RemainingOf);
    var y := if q == [] then "idle" else q[0].name;
    assert Step(p, t) == Plan(Waiting(p.table, t), Serve(q), p.log + [y]);
    PoolWork(p, t, x);
    ServeWork(q, x);
    WaitingWork(p.table, t, x);
    CountSnoc(p.log, y, x);
  }

  /** A step keeps every remaining time in the dictionary and the pool positive. */
  lemma StepPositive(p: Plan, t: int)
    requires Positive(p)
    ensures Positive(Step(p, t))
  {
    StepWork(p, t, "");  // any name other than "idle" gives the positivity half
  }

  /** Every remaining time stays positive over any number of steps. */
  lemma {:induction false} RunPositive(p: Plan, from: int, n: nat)
    requires Positive(p)
    ensures Positive(Run(p, from, n))
    decreases n
  {
    if n > 0 {
      var next := Step(p, from);
      StepPositive(p, from);
      RunPositive(next, from + 1, n - 1);
      RunRest(p, from, n, next);
    }
  }

  lemma {:induction false} RunWork(p: Plan, from: int, n: nat, x: string)
    requires Positive(p) && x != "idle"
    ensures Count(Run(p, from, n).log, x) + Work(Run(p, from, n), x) == Count(p.log, x) + Work(p, x)
    decreases n
  {
    if n > 0 {
      var next := Step(p, from);
      StepWork(p, from, x);
      RunWork(next, from + 1, n - 1, x);
      RunRest(p, from, n, next);
      OwedChain(p, next, Run(p, from, n), x);
    }
  }

  lemma OwedChain(p: Plan, next: Plan, last: Plan, x: string)
    requires Count(next.log, x) + Work(next, x) == Count(p.log, x) + Work(p, x)
    requires Count(last.log, x) + Work(last, x) == Count(next.log, x) + Work(next, x)
    ensures Count(last.log, x) + Work(last, x) == Count(p.log, x) + Work(p, x)
  {
  }

  /** A positive plan owes a non-negative amount to every name. */
  lemma WorkNonNegative(p: Plan, x: string)
    requires Positive(p)
    ensures Work(p, x) >= 0
  {
    SumOfNonNegative(p.queue, NameWeight(x));
    forall i | 0 <= i < |p.table.order|
      ensures KeyWeight(p.table.tasks, x)(p.table.order[i]) >= 0
    {
      var k := p.table.order[i];
      if k in p.table.tasks {
        assert p.table.tasks[k].remaining >= 1;
      }
    }
    SumOfNonNegative(p.table.order, KeyWeight(p.table.tasks, x));
  }

  /** From a positive plan, a name is logged at most the time owed to it. */
  lemma LogBound(p: Plan, from: int, n: nat, x: string)
    requires Positive(p) && x != "idle"
    ensures Count(Run(p, from, n).log, x) <= Count(p.log, x) + Work(p, x)
  {
    RunWork(p, from, n, x);
    RunPositive(p, from, n);
    WorkNonNegative(Run(p, from, n), x);
  }

  /**
   * With positive process times, a name other than "idle" appears in the
   * log at most the total process time of the tasks with that name left in
   * the table after overwriting.
   */
  lemma NameServedAtMostItsTime(names: seq<string>, times: seq<int>, starts: seq<int>, x: string)
    requires |names| <= |times| && |names| <= |starts|
    requires forall i :: 0 <= i < |names| ==> times[i] >= 1
    requires x != "idle"
    ensures Schedule(names, times, starts).Success?
    ensures var d := Populate(names, times, starts, |names|);
      Count(Schedule(names, times, starts).value, x) <= SumOf(d.order, KeyWeight(d.tasks, x))
  {
    var d := Populate(names, times, starts, |names|);
    var p := Initial(names, times, starts);
    var n := Max(0, Total(times) + 1);
    PopulatePositive(names, times, starts, |names|);
    SortBySum(d.order, TimeKey(d), KeyWeight(d.tasks, x));
    LogBound(p, 0, n, x);
  }

  // ---------------------------------------------------------------------
  // plan_tasks
  // ---------------------------------------------------------------------

  /** The first inner loop: walk a snapshot of the keys, collecting those at most t and their tasks. */
  method Collect(table: TaskTable, t: int) returns (arrived: seq<Task>, toRemove: seq<int>)
    requires Valid(table)
    ensures arrived == Arrived(table.order, table.tasks, t) && toRemove == UpTo(table.order, t)
  {
    var keys := table.order;
    arrived, toRemove := [], [];
    for i := 0 to |keys|
      invariant arrived == Arrived(keys[..i], table.tasks, t) && toRemove == UpTo(keys[..i], t)
    {
      assert keys[..i + 1][..i] == keys[..i];
      if keys[i] <= t {
        arrived := arrived + [table.tasks[keys[i]]];
        toRemove := toRemove + [keys[i]];
      }
    }
    assert keys[..|keys|] == keys;
  }

  /** One deletion of the second inner loop: the next collected key is still present, and goes. */
  lemma DeleteStep(table: TaskTable, toRemove: seq<int>, i: int, r: TaskTable)
    requires NoDup(toRemove) && 0 <= i < |toRemove| && toRemove[i] in table.tasks
    requires r.order == Drop(table.order, SetOf(toRemove[..i])) && r.tasks == table.tasks - SetOf(toRemove[..i])
    ensures toRemove[i] in r.tasks
    ensures Delete(r, toRemove[i]).order == Drop(table.order, SetOf(toRemove[..i + 1]))
    ensures Delete(r, toRemove[i]).tasks == table.tasks - SetOf(toRemove[..i + 1])
  {
    var gone, k := SetOf(toRemove[..i]), toRemove[i];
    NoDupPrefix(toRemove, i);
    SetOfExtend(toRemove, i);
    DropAgain(table.order, gone, k);
  }

  /** The keys of one more element of a sequence. */
  lemma SetOfExtend(s: seq<int>, i: int)
    requires 0 <= i < |s|
    ensures SetOf(s[..i + 1]) == SetOf(s[..i]) + {s[i]}
  {
    assert s[..i + 1] == s[..i] + [s[i]];
  }

  /** The collected keys are keys of the table, each once. */
  lemma UpToKeys(table: TaskTable, t: int)
    requires Valid(table)
    ensures NoDup(UpTo(table.order, t))
    ensures forall j :: 0 <= j < |UpTo(table.order, t)| ==> UpTo(table.order, t)[j] in table.tasks
  {
    UpToFacts(table.order, t);
    forall j | 0 <= j < |UpTo(table.order, t)|
      ensures UpTo(table.order, t)[j] in table.tasks
    {
      var k := UpTo(table.order, t)[j];
      assert k in UpTo(table.order, t);
    }
  }

  /** Deleting every collected key leaves the table `Waiting` describes. */
  lemma DeletedAll(table: TaskTable, t: int)
    requires Valid(table)
    ensures var gone := SetOf(UpTo(table.order, t));
      TaskTable(Drop(table.order, gone), table.tasks - gone) == Waiting(table, t)
  {
    var gone := SetOf(UpTo(table.order, t));
    UpToFacts(table.order, t);
    forall k
      ensures k in gone <==> k in table.order && k <= t
    {
    }
    assert gone == set k | k in table.order && k <= t;
  }

  /** The second inner loop: `del task_info[task]` for every collected key. */
  method DeleteAll(table: TaskTable, toRemove: seq<int>, ghost t: int) returns (r: TaskTable)
    requires Valid(table) && toRemove == UpTo(table.order, t)
    ensures r == Waiting(table, t)
  {
    UpToKeys(table, t);
    DropNothing(table.order);
    assert SetOf(toRemove[..0]) == {};
    r := table;
    for i := 0 to |toRemove|
      invariant NoDup(toRemove) && forall j :: 0 <= j < |toRemove| ==> toRemove[j] in table.tasks
      invariant r.order == Drop(table.order, SetOf(toRemove[..i]))
      invariant r.tasks == table.tasks - SetOf(toRemove[..i])
    {
      DeleteStep(table, toRemove, i, r);
      r := Delete(r, toRemove[i]);
    }
    assert toRemove[..|toRemove|] == toRemove;
    DeletedAll(table, t);
  }

  /** One pass of the time loop: collect, delete, sort, then log and serve the head. */
  method Tick(table: TaskTable, queue: seq<Task>, log: seq<string>, t: int) returns (table': TaskTable, queue': seq<Task>, log': seq<string>)
    requires Valid(table)
    ensures Plan(table', queue', log') == Step(Plan(table, queue, log), t)
    ensures Valid(table')
  {
    WaitingValid(table, t);
    var arrived, toRemove := Collect(table, t);
    var possible := queue + arrived;
    table' := DeleteAll(table, toRemove, t);
    possible := SortBy(possible, RemainingOf);
    if |possible| == 0 {
      log' := log + ["idle"];
    } else {
      var current := possible[0];
      log' := log + [current.name];
      current := current.(remaining := current.remaining - 1);
      possible := possible[0 := current];
      if current.remaining == 0 {
        possible := possible[1..];
      }
    }
    queue' := possible;
  }

  /** What is left of a run after one more step. */
  lemma RunRest(cur: Plan, t: int, n: nat, next: Plan)
    requires n > 0 && next == Step(cur, t)
    ensures Run(next, t + 1, n - 1) == Run(cur, t, n)
  {
  }

  /**
   * The time loop of `plan_tasks`, from an empty `possible_tasks` and log:
   * what is still to run from the current state always ends where the whole
   * run from the start ends.
   */
  method TimeLoop(start: TaskTable, steps: nat) returns (log: seq<string>)
    requires Valid(start)
    ensures log == Run(Plan(start, [], []), 0, steps).log
  {
    var table := start;
    var queue: seq<Task> := [];
    log := [];
    for t := 0 to steps
      invariant Valid(table) && Run(Plan(table, queue, log), t, steps - t) == Run(Plan(start, [], []), 0, steps)
    {
      ghost var before := Plan(table, queue, log);
      table, queue, log := Tick(table, queue, log, t);
      RunRest(before, t, steps - t, Plan(table, queue, log));
    }
  }

  /**
   * `plan_tasks`: fill the table (a repeated start time overwrites), sort it
   * by process time, then run the time loop for t = 0 .. sum(times).
   */
  method PlanTasks(names: seq<string>, times: seq<int>, starts: seq<int>) returns (r: Result<seq<string>, Error>)
    ensures r.Failure? <==> |times| < |names| || |starts| < |names|
    ensures r.Success? ==> |r.value| == Max(0, Total(times) + 1)
    ensures r == Schedule(names, times, starts)
  {
    if |times| < |names| || |starts| < |names| {
      return Failure(IndexError);
    }
    var table := TaskTable([], map[]);
    for index := 0 to |names|
      invariant table == Populate(names, times, starts, index)
    {
      table := Put(table, starts[index], Task(names[index], times[index]));
    }
    table := SortTable(table);
    var log := TimeLoop(table, Max(0, Total(times) + 1));
    ScheduleLogs(names, times, starts);
    return Success(log);
  }

  /**
   * Serving runs the head for one unit: it is popped exactly when that was
   * its last unit, otherwise it stays in front one unit shorter, and the
   * tasks behind it are untouched.
   */
  lemma ServeShape(q: seq<Task>)
    ensures q == [] ==> Serve(q) == []
    ensures q != [] ==> |Serve(q)| == |q| - (if q[0].remaining == 1 then 1 else 0)
    ensures q != [] ==> Serve(q)[|Serve(q)| - (|q| - 1)..] == q[1..]
    ensures q != [] && q[0].remaining != 1 ==> Serve(q)[0] == Task(q[0].name, q[0].remaining - 1)
  {
  }
}
