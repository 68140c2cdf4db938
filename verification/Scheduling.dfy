/** Greedy list scheduling of weighted jobs on `m` machines, and Graham's bound for it. */
module Scheduling {
  import opened Sequences

  /** The weight `a` puts on machine `j`. */
  function Load(p: seq<nat>, a: seq<nat>, j: nat): nat
    requires |a| == |p|
  {
    if p == [] then 0
    else Load(Front(p), Front(a), j) + if Last(a) == j then Last(p) else 0
  }

  function Loads(p: seq<nat>, a: seq<nat>, m: nat): (r: seq<nat>)
    requires |a| == |p|
    ensures |r| == m
  {
    seq(m, j requires 0 <= j < m => Load(p, a, j))
  }

  /** The lowest index of a smallest entry. */
  function Least(cost: seq<nat>): (r: nat)
    requires cost != []
    ensures r < |cost|
    ensures forall j :: 0 <= j < |cost| ==> cost[r] <= cost[j]
    ensures forall j :: 0 <= j < r ==> cost[r] < cost[j]
  {
    if |cost| == 1 then 0
    else
      var r := Least(Front(cost));
      if Last(cost) < cost[r] then |cost| - 1 else r
  }

  /** The greedy assignment. */
  function Greedy(p: seq<nat>, m: nat): (a: seq<nat>)
    requires m >= 1
    ensures |a| == |p| && ValidFor(a, m)
  {
    if p == [] then []
    else
      var a := Greedy(Front(p), m);
      a + [Least(Loads(Front(p), a, m))]
  }

  ghost predicate ValidFor(a: seq<nat>, m: nat) {
    forall i :: 0 <= i < |a| ==> a[i] < m
  }

  ghost predicate NonIncreasing(p: seq<nat>) {
    forall i, j :: 0 <= i < j < |p| ==> p[i] >= p[j]
  }

  lemma GreedyFront(p: seq<nat>, m: nat)
    requires m >= 1 && p != []
    ensures Front(Greedy(p, m)) == Greedy(Front(p), m)
    ensures Last(Greedy(p, m)) == Least(Loads(Front(p), Greedy(Front(p), m), m))
  {
  }

  // ---- sums of loads ----------------------------------------------------------------

  lemma {:induction false} SumUpdate(s: seq<nat>, i: nat, x: nat)
    requires i < |s|
    ensures Sum(s[i := x]) == Sum(s) - s[i] + x
  {
    if i == |s| - 1 {
      assert Front(s[i := x]) == Front(s);
    } else {
      SumUpdate(Front(s), i, x);
      assert Front(s[i := x]) == Front(s)[i := x];
    }
  }

  lemma {:induction false} SumOfZeros(m: nat)
    ensures Sum(seq(m, _ => 0)) == 0
  {
    if m > 0 {
      SumOfZeros(m - 1);
      assert Front(seq(m, _ => 0)) == seq(m - 1, _ => 0);
    }
  }

  /** However jobs are assigned, the loads add up to the work. */
  lemma {:induction false} LoadsConserveWork(p: seq<nat>, a: seq<nat>, m: nat)
    requires |a| == |p| && ValidFor(a, m)
    ensures Sum(Loads(p, a, m)) == Sum(p)
  {
    if p == [] {
      SumOfZeros(m);
      assert Loads(p, a, m) == seq(m, _ => 0);
    } else {
      var before := Loads(Front(p), Front(a), m);
      LoadsConserveWork(Front(p), Front(a), m);
      assert Loads(p, a, m) == before[Last(a) := before[Last(a)] + Last(p)];
      SumUpdate(before, Last(a), before[Last(a)] + Last(p));
    }
  }

  lemma {:induction false} SumAtMost(s: seq<nat>, bound: nat)
    requires forall j :: 0 <= j < |s| ==> s[j] <= bound
    ensures Sum(s) <= |s| * bound
  {
    if s != [] { SumAtMost(Front(s), bound); }
  }

  lemma {:induction false} SumAtLeast(s: seq<nat>, bound: nat)
    requires forall j :: 0 <= j < |s| ==> s[j] >= bound
    ensures Sum(s) >= |s| * bound
  {
    if s != [] { SumAtLeast(Front(s), bound); }
  }

  lemma {:induction false} LoadBounds(p: seq<nat>, a: seq<nat>, i: nat)
    requires |a| == |p| && i < |p|
    ensures p[i] <= Load(p, a, a[i])
    ensures forall k :: 0 <= k < i && a[k] == a[i] ==> p[k] + p[i] <= Load(p, a, a[i])
  {
    if i == |p| - 1 {
      forall k | 0 <= k < i && a[k] == a[i] ensures p[k] + p[i] <= Load(p, a, a[i]) {
        LoadBounds(Front(p), Front(a), k);
      }
    } else {
      LoadBounds(Front(p), Front(a), i);
    }
  }

  /** A job alone on its machine is the whole load there. */
  lemma {:induction false} LoadAlone(p: seq<nat>, a: seq<nat>, i: nat)
    requires |a| == |p| && i < |p|
    requires forall k :: 0 <= k < |a| && k != i ==> a[k] != a[i]
    ensures Load(p, a, a[i]) == p[i]
  {
    if i == |p| - 1 {
      LoadEmpty(Front(p), Front(a), a[i]);
    } else {
      LoadAlone(Front(p), Front(a), i);
    }
  }

  lemma {:induction false} LoadEmpty(p: seq<nat>, a: seq<nat>, j: nat)
    requires |a| == |p| && j !in a
    ensures Load(p, a, j) == 0
  {
    if p != [] { LoadEmpty(Front(p), Front(a), j); }
  }

  /** When three of any job exceed `limit`, so do any three jobs on one machine. */
  lemma {:induction false} LargeJobsCount(p: seq<nat>, a: seq<nat>, j: nat, limit: nat)
    requires |a| == |p|
    requires forall i :: 0 <= i < |p| ==> 3 * p[i] > limit
    ensures Load(Ones(|p|), a, j) >= 1 ==> 3 * Load(p, a, j) > limit
    ensures Load(Ones(|p|), a, j) >= 2 ==> 3 * Load(p, a, j) > 2 * limit
    ensures Load(Ones(|p|), a, j) >= 3 ==> Load(p, a, j) > limit
  {
    if p != [] {
      LargeJobsCount(Front(p), Front(a), j, limit);
      assert Front(Ones(|p|)) == Ones(|p| - 1);
    }
  }

  function Ones(n: nat): seq<nat> {
    seq(n, _ => 1)
  }

  // ---- Graham's bound ---------------------------------------------------------------

  ghost predicate Within(p: seq<nat>, a: seq<nat>, m: nat, limit: nat) {
    |a| == |p| && ValidFor(a, m) && forall j :: 0 <= j < m ==> Load(p, a, j) <= limit
  }

  lemma {:induction false} WithinPrefix(p: seq<nat>, a: seq<nat>, m: nat, limit: nat)
    requires p != [] && Within(p, a, m, limit)
    ensures Within(Front(p), Front(a), m, limit)
  {
    forall j | 0 <= j < m ensures Load(Front(p), Front(a), j) <= limit {
      assert Load(p, a, j) <= limit;
    }
  }

  /** Averaging: the machine the last job lands on carried no more than the mean. */
  lemma Averaging(p: seq<nat>, m: nat, rival: seq<nat>, limit: nat)
    requires m >= 1 && p != [] && Within(p, rival, m, limit)
    ensures m * Load(Front(p), Greedy(Front(p), m), Last(Greedy(p, m))) + Last(p) <= m * limit
  {
    var front, a := Front(p), Greedy(Front(p), m);
    var before := Loads(front, a, m);
    SumAtLeast(before, before[Least(before)]);
    LoadsConserveWork(front, a, m);
    SumAtMost(Loads(p, rival, m), limit);
    LoadsConserveWork(p, rival, m);
  }

  /** Alone(a, i): no other job shares machine `a[i]`. */
  ghost predicate Alone(a: seq<nat>, i: nat)
    requires i < |a|
  {
    forall k :: 0 <= k < |a| && k != i ==> a[k] != a[i]
  }

  /** Counting tokens: two for a job alone on its machine under `a`, one for any other job,
      and one for the job that has yet to be placed. */
  ghost function Tokens(a: seq<nat>): (v: seq<nat>)
    ensures |v| == |a| + 1
  {
    seq(|a|, i requires 0 <= i < |a| => if Alone(a, i) then 2 else 1) + [1]
  }

  /** Every machine in use collects at least two tokens from the jobs already placed. */
  lemma AtLeastTwoTokens(a: seq<nat>, j: nat)
    requires j in a
    ensures Load(Front(Tokens(a)), a, j) >= 2
  {
    var v := Front(Tokens(a));
    var i :| 0 <= i < |a| && a[i] == j;
    if Alone(a, i) {
      LoadBounds(v, a, i);
    } else {
      var k :| 0 <= k < |a| && k != i && a[k] == a[i];
      LoadBounds(v, a, if k < i then i else k);
    }
  }

  lemma AtMostTwoLarge(p: seq<nat>, a: seq<nat>, j: nat, limit: nat)
    requires |a| == |p| && NonIncreasing(p) && p != [] && 3 * Last(p) > limit
    requires Load(p, a, j) <= limit
    ensures Load(Ones(|p|), a, j) <= 2
  {
    forall i | 0 <= i < |p| ensures 3 * p[i] > limit {
      assert p[i] >= Last(p);
    }
    LargeJobsCount(p, a, j, limit);
  }

  /** If no machine has room for the last job while all jobs are large, then under a rival
      within the limit no machine collects more than two tokens. */
  lemma AtMostTwoTokens(p: seq<nat>, a: seq<nat>, m: nat, rival: seq<nat>, limit: nat, j: nat)
    requires p != [] && NonIncreasing(p) && |a| == |p| - 1 && ValidFor(a, m)
    requires Within(p, rival, m, limit) && 3 * Last(p) > limit && j < m
    requires forall s :: 0 <= s < m ==> Load(Front(p), a, s) + Last(p) > limit
    ensures Load(Tokens(a), rival, j) <= 2
  {
    var v := Tokens(a);
    if exists i :: 0 <= i < |a| && rival[i] == j && Alone(a, i) {
      var i :| 0 <= i < |a| && rival[i] == j && Alone(a, i);
      LoadAlone(Front(p), a, i);
      forall k | 0 <= k < |p| && k != i ensures rival[k] != rival[i] {
        LoadBounds(p, rival, if k < i then i else k);
        assert Load(p, rival, rival[i]) <= limit;
        assert p[k] >= Last(p);
      }
      LoadAlone(v, rival, i);
    } else {
      AtMostTwoLarge(p, rival, j, limit);
      LoadSame(v, Ones(|p|), rival, j);
    }
  }

  lemma {:induction false} LoadSame(u: seq<nat>, v: seq<nat>, a: seq<nat>, j: nat)
    requires |u| == |v| == |a|
    requires forall i :: 0 <= i < |a| && a[i] == j ==> u[i] == v[i]
    ensures Load(u, a, j) == Load(v, a, j)
  {
    if a != [] { LoadSame(Front(u), Front(v), Front(a), j); }
  }

  /** When every job exceeds a third of the rival's makespan, the greedy machine has room. */
  lemma LargeJobsFit(p: seq<nat>, m: nat, rival: seq<nat>, limit: nat)
    requires m >= 1 && p != [] && NonIncreasing(p)
    requires Within(p, rival, m, limit) && 3 * Last(p) > limit
    ensures Load(Front(p), Greedy(Front(p), m), Last(Greedy(p, m))) + Last(p) <= limit
  {
    var front, a := Front(p), Greedy(Front(p), m);
    var before := Loads(front, a, m);
    if before[Least(before)] + Last(p) > limit {
      LoadBounds(p, rival, |p| - 1);
      assert Load(p, rival, Last(rival)) <= limit;
      var v := Tokens(a);
      forall j | 0 <= j < m ensures Load(Front(v), a, j) >= 2 {
        assert before[j] > 0;
        if j !in a { LoadEmpty(front, a, j); }
        AtLeastTwoTokens(a, j);
      }
      LoadsConserveWork(Front(v), a, m);
      SumAtLeast(Loads(Front(v), a, m), 2);
      forall j | 0 <= j < m ensures Load(v, rival, j) <= 2 {
        forall s | 0 <= s < m ensures Load(front, a, s) + Last(p) > limit {
          assert before[s] == Load(front, a, s);
        }
        AtMostTwoTokens(p, a, m, rival, limit, j);
      }
      LoadsConserveWork(v, rival, m);
      SumAtMost(Loads(v, rival, m), 2);
      assert false;
    }
  }

  /** The bound LPT promises: a load of `x` against a rival makespan of `limit`. */
  ghost predicate WithinFourThirds(m: nat, x: nat, limit: nat) {
    3 * m * x <= (4 * m - 1) * limit
  }

  lemma LastJobBound(p: seq<nat>, m: nat, rival: seq<nat>, limit: nat)
    requires m >= 1 && p != [] && NonIncreasing(p) && Within(p, rival, m, limit)
    ensures WithinFourThirds(m, Load(Front(p), Greedy(Front(p), m), Last(Greedy(p, m))) + Last(p), limit)
  {
    hide WithinFourThirds, Load, Greedy;
    var before, last := Load(Front(p), Greedy(Front(p), m), Last(Greedy(p, m))), Last(p);
    if 3 * last > limit {
      LargeJobsFit(p, m, rival, limit);
      Scale(m, before + last, limit);
    } else {
      Averaging(p, m, rival, limit);
      SmallLastJob(m, before, last, limit);
    }
  }

  /** Graham's theorem: LPT is within 4/3 - 1/(3m) of every rival assignment. */
  lemma {:induction false} GrahamBound(p: seq<nat>, m: nat, rival: seq<nat>, limit: nat, s: nat)
    requires m >= 1 && NonIncreasing(p) && s < m
    requires Within(p, rival, m, limit)
    ensures WithinFourThirds(m, Load(p, Greedy(p, m), s), limit)
  {
    if p == [] {
      Scale(m, 0, limit);
    } else {
      GreedyFront(p, m);
      if Last(Greedy(p, m)) != s {
        WithinPrefix(p, rival, m, limit);
        GrahamBound(Front(p), m, Front(rival), limit, s);
      } else {
        LastJobBound(p, m, rival, limit);
      }
    }
  }

  lemma Scale(m: nat, x: nat, limit: nat)
    requires m >= 1 && x <= limit
    ensures WithinFourThirds(m, x, limit)
  {
    assert (3 * m) * x <= (3 * m) * limit;
    assert (4 * m - 1) * limit == (3 * m) * limit + (m - 1) * limit;
  }

  lemma SmallLastJob(m: nat, before: nat, last: nat, limit: nat)
    requires m >= 1 && 3 * last <= limit && m * before + last <= m * limit
    ensures WithinFourThirds(m, before + last, limit)
  {
    var k := m - 1;
    assert k * (3 * last) <= k * limit;
    calc {
      3 * m * (before + last);
      3 * (m * before) + 3 * (m * last);
      { assert m * last == k * last + last; assert k * (3 * last) == 3 * (k * last); }
      3 * (m * before + last) + k * (3 * last);
    <=
      3 * (m * limit) + k * limit;
      { assert m * limit == k * limit + limit; assert (4 * k + 3) * limit == 4 * (k * limit) + 3 * limit; }
      (4 * m - 1) * limit;
    }
  }

  // ---- the bound is reached ---------------------------------------------------------

  /** Two jobs of each weight from 2m-1 down to m, and one of m more. */
  function WorstJob(m: nat, i: nat): nat
    requires i <= 2 * m
  {
    if i == 2 * m then m else 2 * m - 1 - i / 2
  }

  function WorstJobs(m: nat): seq<nat> {
    seq(2 * m + 1, i requires 0 <= i < 2 * m + 1 => WorstJob(m, i))
  }

  /** Jobs that make 3m in pairs together, and the three of m on the last machine. */
  function PairedUp(m: nat): seq<nat>
    requires m >= 1
  {
    seq(2 * m + 1, i requires 0 <= i < 2 * m + 1 =>
      if i < m - 1 then i else if i <= 2 * m - 3 then 2 * m - 3 - i else m - 1)
  }

  /** After `n` of the jobs, has greedy put a second one on machine `j`? */
  predicate Served(m: nat, n: nat, j: nat) {
    n > m && (j / 2 > m - 1 - n / 2 || (n % 2 == 1 && j == 2 * (m - 1 - n / 2)))
  }

  /** The loads after the first `n` jobs: one job each first, then two that make 3m-1. */
  function WorstLoad(m: nat, n: nat, j: nat): nat
    requires j < m && n <= 2 * m
  {
    if n <= j then 0 else if Served(m, n, j) then 3 * m - 1 else WorstJob(m, j)
  }

  /** Where greedy puts job `n`. */
  function WorstPlace(m: nat, n: nat): (j: nat)
    requires m >= 1 && n <= 2 * m
    ensures j < m
  {
    if n < m then n
    else if n == 2 * m then 0
    else if n % 2 == 0 then 2 * m - 2 - n
    else if n == m then m - 1
    else 2 * m - n
  }

  lemma LeastIs(cost: seq<nat>, t: nat)
    requires t < |cost| && (forall j :: 0 <= j < |cost| ==> cost[t] <= cost[j])
    requires forall j :: 0 <= j < t ==> cost[t] < cost[j]
    ensures Least(cost) == t
  {
    var r := Least(cost);
    assert cost[r] <= cost[t];
  }

  lemma WorstPlaceIsLeast(m: nat, n: nat)
    requires m >= 1 && n <= 2 * m
    ensures forall j :: 0 <= j < m ==> WorstLoad(m, n, WorstPlace(m, n)) <= WorstLoad(m, n, j)
    ensures forall j :: 0 <= j < WorstPlace(m, n) ==> WorstLoad(m, n, WorstPlace(m, n)) < WorstLoad(m, n, j)
  {
  }

  lemma WorstStep(m: nat, n: nat, j: nat)
    requires m >= 1 && n < 2 * m && j < m
    ensures WorstLoad(m, n + 1, j) == WorstLoad(m, n, j) + if j == WorstPlace(m, n) then WorstJob(m, n) else 0
  {
  }

  /** After `n` jobs greedy has loaded the machines so. */
  ghost predicate WorstLoaded(m: nat, n: nat)
    requires m >= 1 && n <= 2 * m
  {
    forall j :: 0 <= j < m ==>
      Load(WorstJobs(m)[..n], Greedy(WorstJobs(m)[..n], m), j) == WorstLoad(m, n, j)
  }

  lemma {:induction false} GreedyOnWorst(m: nat, n: nat)
    requires m >= 1 && n <= 2 * m
    ensures WorstLoaded(m, n)
    decreases n
  {
    if n == 0 {
      NothingLoaded(m);
    } else {
      hide WorstLoaded;
      GreedyOnWorst(m, n - 1);
      OneMoreOfWorst(m, n - 1);
    }
  }

  lemma OneMoreOfWorst(m: nat, n: nat)
    requires m >= 1 && n < 2 * m && WorstLoaded(m, n)
    ensures WorstLoaded(m, n + 1)
  {
    hide WorstLoad, WorstPlace, WorstJob, Load, Greedy;
    var p := WorstJobs(m)[..n + 1];
    assert Front(p) == WorstJobs(m)[..n] && Last(p) == WorstJob(m, n);
    WorstGoes(m, n);
    GreedyFront(p, m);
    forall j | 0 <= j < m ensures Load(p, Greedy(p, m), j) == WorstLoad(m, n + 1, j) {
      WorstStep(m, n, j);
      OneMoreLoad(p, Greedy(p, m), j);
    }
  }

  lemma NothingLoaded(m: nat)
    requires m >= 1
    ensures forall j :: 0 <= j < m ==> Load([], Greedy([], m), j) == 0 == WorstLoad(m, 0, j)
  {
  }

  lemma OneMoreLoad(p: seq<nat>, a: seq<nat>, j: nat)
    requires |a| == |p| && p != []
    ensures Load(p, a, j) == Load(Front(p), Front(a), j) + if Last(a) == j then Last(p) else 0
  {
  }

  /** Greedy puts job `n` where the loads say. */
  lemma WorstGoes(m: nat, n: nat)
    requires m >= 1 && n <= 2 * m && WorstLoaded(m, n)
    ensures Last(Greedy(WorstJobs(m)[..n + 1], m)) == WorstPlace(m, n)
  {
    hide WorstLoad, WorstPlace, WorstJob, Load, Greedy;
    var p := WorstJobs(m)[..n + 1];
    assert Front(p) == WorstJobs(m)[..n];
    GreedyFront(p, m);
    WorstPlaceIsLeast(m, n);
    LeastIs(Loads(Front(p), Greedy(Front(p), m), m), WorstPlace(m, n));
  }

  /** The load of the paired-up assignment after `n` jobs. */
  function PairedLoad(m: nat, n: nat, j: nat): nat
    requires j < m && n <= 2 * m + 1
  {
    if j == m - 1 then
      if n <= 2 * m - 2 then 0 else if n == 2 * m - 1 then m else if n == 2 * m then 2 * m else 3 * m
    else (if j < n then WorstJob(m, j) else 0) + (if 2 * m - 3 - j < n then WorstJob(m, 2 * m - 3 - j) else 0)
  }

  lemma {:induction false} PairedUpLoads(m: nat, n: nat, j: nat)
    requires m >= 1 && n <= 2 * m + 1 && j < m
    ensures Load(WorstJobs(m)[..n], PairedUp(m)[..n], j) == PairedLoad(m, n, j)
    decreases n
  {
    if n > 0 {
      PairedUpLoads(m, n - 1, j);
      assert Front(WorstJobs(m)[..n]) == WorstJobs(m)[..n - 1] && Front(PairedUp(m)[..n]) == PairedUp(m)[..n - 1];
    }
  }

  lemma GreedyReaches(m: nat)
    requires m >= 1
    ensures Load(WorstJobs(m), Greedy(WorstJobs(m), m), 0) == 4 * m - 1
  {
    hide Load, Greedy;
    var p := WorstJobs(m);
    assert p[..2 * m + 1] == p && Front(p) == p[..2 * m];
    GreedyOnWorst(m, 2 * m);
    WorstGoes(m, 2 * m);
    GreedyFront(p, m);
    OneMoreLoad(p, Greedy(p, m), 0);
  }

  /** For every number of machines the bound is reached: there greedy puts 4m-1 on a machine where
      3m is enough, and no assignment needs less. */
  lemma GrahamBoundIsReached(m: nat)
    requires m >= 1
    ensures NonIncreasing(WorstJobs(m)) && Within(WorstJobs(m), PairedUp(m), m, 3 * m)
    ensures Load(WorstJobs(m), Greedy(WorstJobs(m), m), 0) == 4 * m - 1
    ensures forall rival, limit: nat :: Within(WorstJobs(m), rival, m, limit) ==> limit >= 3 * m
  {
    hide Load, Greedy;
    var p := WorstJobs(m);
    GreedyReaches(m);
    forall j | 0 <= j < m ensures Load(p, PairedUp(m), j) <= 3 * m {
      assert p[..2 * m + 1] == p && PairedUp(m)[..2 * m + 1] == PairedUp(m);
      PairedUpLoads(m, 2 * m + 1, j);
    }
    forall rival, limit: nat | Within(p, rival, m, limit) ensures limit >= 3 * m {
      GrahamBound(p, m, rival, limit, 0);
      CancelLoad(m, limit);
    }
  }

  lemma CancelLoad(m: nat, limit: nat)
    requires m >= 1 && WithinFourThirds(m, 4 * m - 1, limit)
    ensures limit >= 3 * m
  {
    var k := 4 * m - 1;
    assert 3 * m * k == k * (3 * m);
    if limit < 3 * m { ScaleStrictly(k, limit, 3 * m); }
  }

  lemma ScaleStrictly(k: nat, x: nat, y: nat)
    requires k > 0 && x < y
    ensures k * x < k * y
  {
  }

  // ---- which machines stay empty ----------------------------------------------------

  function Positives(p: seq<nat>): nat {
    if p == [] then 0 else Positives(Front(p)) + if Last(p) > 0 then 1 else 0
  }

  /** How many machines hold a job once `p` is placed, if there are machines to spare. */
  function Touched(p: seq<nat>): nat {
    Positives(p) + if Positives(p) < |p| then 1 else 0
  }

  /** Machines fill from the left, one positive job each; zero-weight jobs all pile onto the
      first machine still at zero. */
  ghost predicate Shape(p: seq<nat>, m: nat)
    requires m >= 1
  {
    var a := Greedy(p, m);
    && (forall j :: 0 <= j < m ==> (Load(p, a, j) > 0 <==> j < Positives(p)))
    && (forall j :: 0 <= j < m ==> (j in a <==> j < Touched(p)))
  }

  lemma {:induction false} PositivesFirst(p: seq<nat>)
    requires NonIncreasing(p)
    ensures Positives(p) <= |p|
    ensures Positives(p) < |p| ==> Last(p) == 0
  {
    if p != [] {
      PositivesFirst(Front(p));
      if Positives(Front(p)) < |p| - 1 { assert p[|p| - 2] >= p[|p| - 1]; }
    }
  }

  lemma NextMachine(p: seq<nat>, m: nat, s: nat)
    requires m >= 1 && p != [] && Shape(Front(p), m)
    requires s == Least(Loads(Front(p), Greedy(Front(p), m), m))
    ensures if Positives(Front(p)) < m then s == Positives(Front(p)) else s < m
  {
    var front := Front(p);
    var before := Loads(front, Greedy(front, m), m);
    if Positives(front) < m {
      assert before[Positives(front)] == 0;
      assert forall j :: 0 <= j < Positives(front) ==> before[j] == Load(front, Greedy(front, m), j);
    }
  }

  lemma {:induction false} FillShape(p: seq<nat>, m: nat)
    requires m >= 1 && NonIncreasing(p)
    ensures Shape(p, m)
  {
    if p != [] {
      var front, a := Front(p), Greedy(Front(p), m);
      FillShape(front, m);
      GreedyFront(p, m);
      PositivesFirst(p);
      PositivesFirst(front);
      var s := Last(Greedy(p, m));
      NextMachine(p, m, s);
      assert Greedy(p, m) == a + [s];
      forall j | 0 <= j < m
        ensures Load(p, Greedy(p, m), j) > 0 <==> j < Positives(p)
        ensures j in Greedy(p, m) <==> j < Touched(p)
      {
        assert Load(front, a, j) > 0 <==> j < Positives(front);
        assert j in Greedy(p, m) <==> j in a || j == s;
      }
    }
  }

  /** With at least `m` jobs, LPT leaves no machine empty exactly when at least m - 1 of them
      weigh something. */
  lemma NoMachineEmpty(p: seq<nat>, m: nat)
    requires m >= 1 && NonIncreasing(p) && |p| >= m
    ensures (forall j :: 0 <= j < m ==> j in Greedy(p, m)) <==> Positives(p) + 1 >= m
  {
    FillShape(p, m);
    if Positives(p) + 1 < m {
      assert m - 1 !in Greedy(p, m);
    }
  }
}
