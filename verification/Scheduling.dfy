/** Greedy scheduling of jobs on `m` machines, and Graham's bounds for it. Jobs are the
    payload sizes of a directory, machines are the parallel streams. */
module Scheduling {

  import opened Basics

  ghost predicate Assigns(a: seq<nat>, n: nat, m: nat) {
    |a| == n && forall k | 0 <= k < n :: a[k] < m
  }

  /** The total size of the jobs that assignment `a` puts on machine `i`. */
  function Load(p: seq<nat>, a: seq<nat>, i: nat): nat
    requires |p| == |a|
  {
    if |p| == 0 then 0
    else
      var n := |p| - 1;
      Load(p[..n], a[..n], i) + if a[n] == i then p[n] else 0
  }

  /** The sum of the loads of machines 0 .. m - 1. */
  function TotalLoad(p: seq<nat>, a: seq<nat>, m: nat): nat
    requires |p| == |a|
  {
    if m == 0 then 0 else TotalLoad(p, a, m - 1) + Load(p, a, m - 1)
  }

  ghost predicate LoadsAtMost(p: seq<nat>, a: seq<nat>, m: nat, t: nat)
    requires |p| == |a|
  {
    forall i | 0 <= i < m :: Load(p, a, i) <= t
  }

  /** `i` is the first machine of least load. */
  ghost predicate FirstLeastLoaded(p: seq<nat>, a: seq<nat>, m: nat, i: nat)
    requires |p| == |a|
  {
    && i < m
    && (forall j | 0 <= j < m :: Load(p, a, i) <= Load(p, a, j))
    && (forall j | 0 <= j < i :: Load(p, a, i) < Load(p, a, j))
  }

  /** Every job in turn went to the first machine of least load at that moment. */
  ghost predicate IsGreedy(p: seq<nat>, a: seq<nat>, m: nat) {
    && |a| == |p|
    && forall k | 0 <= k < |a| :: FirstLeastLoaded(p[..k], a[..k], m, a[k])
  }

  ghost predicate Descending(p: seq<nat>) {
    forall i, j | 0 <= i < j < |p| :: p[i] >= p[j]
  }

  lemma {:induction false} GreedyPrefix(p: seq<nat>, a: seq<nat>, m: nat, n: nat)
    requires IsGreedy(p, a, m) && n <= |p|
    ensures IsGreedy(p[..n], a[..n], m)
    ensures Assigns(a, |p|, m)
  {
    forall k | 0 <= k < |a|
      ensures a[k] < m
    {
      assert FirstLeastLoaded(p[..k], a[..k], m, a[k]);
    }
    forall k | 0 <= k < n
      ensures FirstLeastLoaded(p[..n][..k], a[..n][..k], m, a[..n][k])
    {
      assert p[..n][..k] == p[..k] && a[..n][..k] == a[..k];
      assert FirstLeastLoaded(p[..k], a[..k], m, a[k]);
    }
  }

  /** Adding a job raises the total load by its size, whichever machine takes it. */
  lemma {:induction false} TotalLoadStep(p: seq<nat>, a: seq<nat>, m: nat)
    requires 0 < |p| == |a|
    ensures TotalLoad(p, a, m) ==
            TotalLoad(p[..|p| - 1], a[..|a| - 1], m) + if a[|a| - 1] < m then p[|p| - 1] else 0
  {
    if m > 0 {
      TotalLoadStep(p, a, m - 1);
    }
  }

  lemma {:induction false} NoJobsNoLoad(m: nat)
    ensures TotalLoad([], [], m) == 0
  {
    if m > 0 {
      NoJobsNoLoad(m - 1);
    }
  }

  /** Conservation: the loads of all machines add up to all the work. */
  lemma {:induction false} LoadsAddUp(p: seq<nat>, a: seq<nat>, m: nat)
    requires Assigns(a, |p|, m)
    ensures TotalLoad(p, a, m) == Sum(p)
  {
    if |p| == 0 {
      assert p == [] && a == [];
      NoJobsNoLoad(m);
    } else {
      var n := |p| - 1;
      LoadsAddUp(p[..n], a[..n], m);
      TotalLoadStep(p, a, m);
    }
  }

  lemma {:induction false} TotalLoadAtLeast(p: seq<nat>, a: seq<nat>, m: nat, least: nat)
    requires |p| == |a|
    requires forall i | 0 <= i < m :: Load(p, a, i) >= least
    ensures TotalLoad(p, a, m) >= m * least
  {
    if m > 0 {
      TotalLoadAtLeast(p, a, m - 1, least);
      assert m * least == (m - 1) * least + least;
    }
  }

  lemma {:induction false} TotalLoadAtMost(p: seq<nat>, a: seq<nat>, m: nat, most: nat)
    requires |p| == |a|
    requires LoadsAtMost(p, a, m, most)
    ensures TotalLoad(p, a, m) <= m * most
  {
    if m > 0 {
      TotalLoadAtMost(p, a, m - 1, most);
      assert m * most == (m - 1) * most + most;
    }
  }

  lemma {:induction false} LoadGrows(p: seq<nat>, a: seq<nat>, n: nat, i: nat)
    requires |p| == |a| && n <= |p|
    ensures Load(p[..n], a[..n], i) <= Load(p, a, i)
  {
    if n == |p| {
      assert p[..n] == p && a[..n] == a;
    } else {
      var l := |p| - 1;
      LoadGrows(p[..l], a[..l], n, i);
      assert p[..l][..n] == p[..n] && a[..l][..n] == a[..n];
    }
  }

  lemma {:induction false} LoadsAtMostPrefix(p: seq<nat>, a: seq<nat>, m: nat, t: nat, n: nat)
    requires |p| == |a| && n <= |p| && LoadsAtMost(p, a, m, t)
    ensures LoadsAtMost(p[..n], a[..n], m, t)
  {
    forall i | 0 <= i < m
      ensures Load(p[..n], a[..n], i) <= t
    {
      LoadGrows(p, a, n, i);
    }
  }

  /** A job is on some machine, so it is no larger than the bound on the loads. */
  lemma {:induction false} JobFits(p: seq<nat>, a: seq<nat>, m: nat, t: nat, k: nat)
    requires Assigns(a, |p|, m) && LoadsAtMost(p, a, m, t) && k < |p|
    ensures p[k] <= t
  {
    var n := k + 1;
    LoadGrows(p, a, n, a[k]);
    assert p[..n][..k] == p[..k] && a[..n][..k] == a[..k];
    assert Load(p[..n], a[..n], a[k]) >= p[k];
  }

  /** Every greedy load stays below the average plus one job: for any other assignment with
      loads at most `t`, placing job `k` gives a load of at most `t + (1 - 1/m) p[k]`. */
  lemma {:induction false} GreedyChoice(p: seq<nat>, a: seq<nat>, b: seq<nat>, m: nat, t: nat)
    requires |p| > 0 && IsGreedy(p, a, m)
    requires Assigns(b, |p|, m) && LoadsAtMost(p, b, m, t)
    ensures m * Load(p, a, a[|p| - 1]) <= m * t + (m - 1) * p[|p| - 1]
  {
    hide TotalLoad, LoadsAtMost;
    var k := |p| - 1;
    var before, size := Load(p[..k], a[..k], a[k]), p[k];
    assert FirstLeastLoaded(p[..k], a[..k], m, a[k]);
    GreedyPrefix(p, a, m, k);
    TotalLoadAtLeast(p[..k], a[..k], m, before);
    LoadsAddUp(p[..k], a[..k], m);
    LoadsAddUp(p, b, m);
    TotalLoadAtMost(p, b, m, t);
    ChoiceArithmetic(m, before, size, t);
  }

  lemma {:induction false} ChoiceArithmetic(m: nat, before: nat, size: nat, t: nat)
    requires m > 0 && m * before + size <= m * t
    ensures m * (before + size) <= m * t + (m - 1) * size
  {
    assert m * (before + size) == m * before + m * size;
    assert (m - 1) * size == m * size - size;
  }

  /** List scheduling, jobs in any order: at most (2 - 1/m) times the best makespan. */
  lemma {:induction false} ListSchedulingBound(p: seq<nat>, a: seq<nat>, b: seq<nat>, m: nat, t: nat, i: nat)
    requires IsGreedy(p, a, m) && i < m
    requires Assigns(b, |p|, m) && LoadsAtMost(p, b, m, t)
    ensures m * Load(p, a, i) <= (2 * m - 1) * t
  {
    if |p| > 0 {
      var k := |p| - 1;
      if a[k] == i {
        GreedyChoice(p, a, b, m, t);
        JobFits(p, b, m, t, k);
        ListArithmetic(m, t, Load(p, a, i), p[k]);
      } else {
        GreedyPrefix(p, a, m, k);
        LoadsAtMostPrefix(p, b, m, t, k);
        ListSchedulingBound(p[..k], a[..k], b[..k], m, t, i);
      }
    } else {
      ListArithmetic(m, t, 0, 0);
    }
  }

  lemma {:induction false} ListArithmetic(m: nat, t: nat, load: nat, size: nat)
    requires 0 < m && size <= t && m * load <= m * t + (m - 1) * size
    ensures m * load <= (2 * m - 1) * t
  {
    Scale(m - 1, size, t);
    assert (2 * m - 1) * t == m * t + (m - 1) * t;
  }

  lemma {:induction false} Scale(c: nat, x: int, y: int)
    requires x <= y
    ensures c * x <= c * y
  {
  }

  // ----- Large jobs: if every job exceeds a third of t, the greedy schedule meets t -----

  /** The weight of a job when job sizes are at least `size` and loads at most `t`: a heavy
      job leaves no room for another. */
  function Weight(job: nat, t: nat, size: nat): nat {
    if job + size > t then 2 else 1
  }

  function Weights(p: seq<nat>, t: nat, size: nat): (w: seq<nat>)
    ensures |w| == |p|
  {
    seq(|p|, k requires 0 <= k < |p| => Weight(p[k], t, size))
  }

  /** A machine that keeps its load within `t` carries a weight of at most two. */
  lemma {:induction false} WeightBelow(p: seq<nat>, a: seq<nat>, i: nat, t: nat, size: nat)
    requires |p| == |a|
    requires 3 * size > t && forall k | 0 <= k < |p| :: p[k] >= size
    ensures var c := Load(Weights(p, t, size), a, i);
            && (c >= 1 ==> Load(p, a, i) >= size)
            && (c >= 2 ==> Load(p, a, i) + size > t)
            && (c >= 3 ==> Load(p, a, i) > t)
  {
    if |p| > 0 {
      var n := |p| - 1;
      assert Weights(p, t, size)[..n] == Weights(p[..n], t, size);
      WeightBelow(p[..n], a[..n], i, t, size);
    }
  }

  /** A machine without room for one more job of `size` carries a weight of at least two. */
  lemma {:induction false} WeightAbove(p: seq<nat>, a: seq<nat>, i: nat, t: nat, size: nat)
    requires |p| == |a| && size <= t
    ensures var c := Load(Weights(p, t, size), a, i);
            && (c == 0 ==> Load(p, a, i) == 0)
            && (c <= 1 ==> Load(p, a, i) + size <= t)
  {
    if |p| > 0 {
      var n := |p| - 1;
      assert Weights(p, t, size)[..n] == Weights(p[..n], t, size);
      WeightAbove(p[..n], a[..n], i, t, size);
    }
  }

  /** If some assignment keeps all loads within `t` and the last job, the smallest, exceeds
      t / 3, the greedy choice for that job keeps its machine within `t`: otherwise the
      jobs before it would already weigh 2m, and all of them at most 2m. */
  lemma {:induction false} LargeJobChoice(p: seq<nat>, a: seq<nat>, b: seq<nat>, m: nat, t: nat)
    requires |p| > 0 && IsGreedy(p, a, m) && Descending(p)
    requires Assigns(b, |p|, m) && LoadsAtMost(p, b, m, t)
    requires 3 * p[|p| - 1] > t
    ensures Load(p, a, a[|p| - 1]) <= t
  {
    var k := |p| - 1;
    var size := p[k];
    var w := Weights(p, t, size);
    assert FirstLeastLoaded(p[..k], a[..k], m, a[k]);
    JobFits(p, b, m, t, k);
    if Load(p, a, a[k]) > t {
      assert w[..k] == Weights(p[..k], t, size);
      forall i | 0 <= i < m
        ensures Load(w[..k], a[..k], i) >= 2
      {
        WeightAbove(p[..k], a[..k], i, t, size);
      }
      GreedyPrefix(p, a, m, k);
      TotalLoadAtLeast(w[..k], a[..k], m, 2);
      LoadsAddUp(w[..k], a[..k], m);
      forall i | 0 <= i < m
        ensures Load(w, b, i) <= 2
      {
        WeightBelow(p, b, i, t, size);
      }
      TotalLoadAtMost(w, b, m, 2);
      LoadsAddUp(w, b, m);
    }
  }

  /** Graham 1969: longest processing time first gives a makespan of at most
      (4/3 - 1/(3m)) times that of any other assignment. */
  lemma {:induction false} LptBound(p: seq<nat>, a: seq<nat>, b: seq<nat>, m: nat, t: nat, i: nat)
    requires IsGreedy(p, a, m) && Descending(p) && i < m
    requires Assigns(b, |p|, m) && LoadsAtMost(p, b, m, t)
    ensures 3 * m * Load(p, a, i) <= (4 * m - 1) * t
  {
    if |p| == 0 {
      WithinBound(m, t, 0);
    } else {
      var k := |p| - 1;
      if a[k] != i {
        GreedyPrefix(p, a, m, k);
        LoadsAtMostPrefix(p, b, m, t, k);
        LptBound(p[..k], a[..k], b[..k], m, t, i);
      } else if 3 * p[k] > t {
        LargeJobChoice(p, a, b, m, t);
        WithinBound(m, t, Load(p, a, i));
      } else {
        GreedyChoice(p, a, b, m, t);
        SmallJobArithmetic(m, t, Load(p, a, i), p[k]);
      }
    }
  }

  lemma {:induction false} WithinBound(m: nat, t: nat, load: nat)
    requires 0 < m && load <= t
    ensures 3 * m * load <= (4 * m - 1) * t
  {
    Scale(3 * m, load, t);
    Scale(t, 3 * m, 4 * m - 1);
  }

  lemma {:induction false} SmallJobArithmetic(m: nat, t: nat, load: nat, size: nat)
    requires 0 < m && 3 * size <= t
    requires m * load <= m * t + (m - 1) * size
    ensures 3 * m * load <= (4 * m - 1) * t
  {
    Scale(m - 1, 3 * size, t);
    assert 3 * ((m - 1) * size) == (m - 1) * (3 * size);
    assert 3 * (m * t) + (m - 1) * t == (4 * m - 1) * t;
    assert 3 * (m * load) == 3 * m * load;
  }

  // ----- The bound is attained for every number of machines -----

  /** Two jobs of each size from 2m - 1 down to m, and a third of size m. */
  function TightSize(m: nat, k: nat): nat
    requires k <= 2 * m && 0 < m
  {
    if k == 2 * m then m else 2 * m - 1 - k / 2
  }

  function TightJobs(m: nat): (p: seq<nat>)
    requires 0 < m
    ensures |p| == 2 * m + 1 && forall k | 0 <= k < |p| :: p[k] == TightSize(m, k)
  {
    seq(2 * m + 1, k requires 0 <= k < 2 * m + 1 => TightSize(m, k))
  }

  /** The job that comes second on machine `i`. */
  function Second(m: nat, i: nat): (k: nat)
    requires i < m
    ensures m <= k < 2 * m
  {
    if i % 2 == 1 then 2 * m - i else if i == m - 1 then m else 2 * m - 2 - i
  }

  /** Where the greedy rule puts job `k`. */
  function GreedyPlace(m: nat, k: nat): (i: nat)
    requires k <= 2 * m && 0 < m
    ensures i < m
    ensures m <= k < 2 * m ==> Second(m, i) == k
  {
    if k < m then k
    else if k == 2 * m then 0
    else if k % 2 == 0 then 2 * m - 2 - k
    else if k == m then m - 1
    else 2 * m - k
  }

  /** The better place: large jobs in pairs, the three of size m together on the last machine. */
  function BestPlace(m: nat, k: nat): (i: nat)
    requires k <= 2 * m && 0 < m
    ensures i < m
  {
    if k < m - 1 then k else if k < 2 * m - 2 then 2 * m - 3 - k else m - 1
  }

  function Places(m: nat, place: (nat, nat) --> nat): (a: seq<nat>)
    requires 0 < m && forall k | 0 <= k <= 2 * m :: place.requires(m, k)
    ensures |a| == 2 * m + 1 && forall k | 0 <= k < |a| :: a[k] == place(m, k)
  {
    seq(2 * m + 1, k requires 0 <= k < 2 * m + 1 => place(m, k))
  }

  lemma {:induction false} OneMoreJob(p: seq<nat>, a: seq<nat>, n: nat, i: nat)
    requires |p| == |a| && n < |p|
    ensures Load(p[..n + 1], a[..n + 1], i) == Load(p[..n], a[..n], i) + if a[n] == i then p[n] else 0
  {
    assert p[..n + 1][..n] == p[..n] && a[..n + 1][..n] == a[..n];
  }

  /** What the greedy rule has put on machine `i` after `n` jobs. */
  function GreedyLoadAfter(m: nat, n: nat, i: nat): nat
    requires i < m && n <= 2 * m + 1
  {
    (if i < n then TightSize(m, i) else 0)
    + (if Second(m, i) < n then TightSize(m, Second(m, i)) else 0)
    + (if i == 0 && n == 2 * m + 1 then m else 0)
  }

  lemma {:induction false} GreedyLoads(m: nat, n: nat, i: nat)
    requires i < m && n <= 2 * m + 1
    ensures Load(TightJobs(m)[..n], Places(m, GreedyPlace)[..n], i) == GreedyLoadAfter(m, n, i)
  {
    hide Load, TightSize, GreedyPlace, Second;
    if n == 0 {
      NoLoad(i);
    } else {
      GreedyLoads(m, n - 1, i);
      OneMoreJob(TightJobs(m), Places(m, GreedyPlace), n - 1, i);
      GreedyLoadStep(m, n - 1, i);
    }
  }

  lemma {:induction false} NoLoad(i: nat)
    ensures Load([], [], i) == 0
  {
  }

  lemma {:induction false} GreedyLoadStep(m: nat, n: nat, i: nat)
    requires i < m && n <= 2 * m
    ensures GreedyLoadAfter(m, n + 1, i) ==
            GreedyLoadAfter(m, n, i) + if GreedyPlace(m, n) == i then TightSize(m, n) else 0
  {
  }

  /** The two jobs of a machine add up to 3m - 1. */
  lemma {:induction false} TightPair(m: nat, i: nat)
    requires i < m
    ensures TightSize(m, i) + TightSize(m, Second(m, i)) == 3 * m - 1
    ensures m <= TightSize(m, i) <= 2 * m - 1
  {
  }

  lemma {:induction false} GreedyStep(m: nat, k: nat)
    requires k <= 2 * m && 0 < m
    ensures FirstLeastLoaded(TightJobs(m)[..k], Places(m, GreedyPlace)[..k], m, GreedyPlace(m, k))
  {
    var p, a, i := TightJobs(m)[..k], Places(m, GreedyPlace)[..k], GreedyPlace(m, k);
    GreedyLoads(m, k, i);
    TightPair(m, i);
    forall j | 0 <= j < m
      ensures Load(p, a, i) <= Load(p, a, j)
      ensures j < i ==> Load(p, a, i) < Load(p, a, j)
    {
      GreedyLoads(m, k, j);
      TightPair(m, j);
      LoadsCompare(m, k, j);
    }
  }

  lemma {:induction false} LoadsCompare(m: nat, k: nat, j: nat)
    requires k <= 2 * m && j < m
    requires TightSize(m, j) + TightSize(m, Second(m, j)) == 3 * m - 1 && m <= TightSize(m, j)
    requires var i := GreedyPlace(m, k);
             TightSize(m, i) + TightSize(m, Second(m, i)) == 3 * m - 1 && m <= TightSize(m, i) <= 2 * m - 1
    ensures var i := GreedyPlace(m, k);
            && GreedyLoadAfter(m, k, i) <= GreedyLoadAfter(m, k, j)
            && (j < i ==> GreedyLoadAfter(m, k, i) < GreedyLoadAfter(m, k, j))
  {
  }

  /** What the better assignment has put on machine `i` after `n` jobs. */
  function BestLoadAfter(m: nat, n: nat, i: nat): nat
    requires i < m && n <= 2 * m + 1
  {
    if i == m - 1 then if n <= 2 * m - 2 then 0 else if n == 2 * m - 1 then m else if n == 2 * m then 2 * m else 3 * m
    else (if i < n then TightSize(m, i) else 0) + (if 2 * m - 3 - i < n then TightSize(m, 2 * m - 3 - i) else 0)
  }

  lemma {:induction false} BestLoads(m: nat, n: nat, i: nat)
    requires i < m && n <= 2 * m + 1
    ensures Load(TightJobs(m)[..n], Places(m, BestPlace)[..n], i) == BestLoadAfter(m, n, i)
  {
    hide Load, TightSize, BestPlace;
    if n == 0 {
      NoLoad(i);
    } else {
      BestLoads(m, n - 1, i);
      OneMoreJob(TightJobs(m), Places(m, BestPlace), n - 1, i);
      BestLoadStep(m, n - 1, i);
    }
  }

  lemma {:induction false} BestLoadStep(m: nat, n: nat, i: nat)
    requires i < m && n <= 2 * m
    ensures BestLoadAfter(m, n + 1, i) == BestLoadAfter(m, n, i) + if BestPlace(m, n) == i then TightSize(m, n) else 0
  {
  }

  lemma {:induction false} BestTotals(m: nat, i: nat)
    requires i < m
    ensures BestLoadAfter(m, 2 * m + 1, i) == 3 * m
  {
  }

  /** The bound is attained for every number of machines: on 2m + 1 jobs the greedy rule reaches
      4m - 1 on machine 0, and another assignment reaches 3m everywhere. */
  lemma {:induction false} LptBoundIsTight(m: nat)
    requires 0 < m
    ensures var p, a, b := TightJobs(m), Places(m, GreedyPlace), Places(m, BestPlace);
            && IsGreedy(p, a, m) && Descending(p)
            && Assigns(b, |p|, m) && LoadsAtMost(p, b, m, 3 * m)
            && Load(p, a, 0) == 4 * m - 1
            && 3 * m * Load(p, a, 0) == (4 * m - 1) * (3 * m)
  {
    hide Load, FirstLeastLoaded, GreedyPlace, BestPlace;
    var p, a, b := TightJobs(m), Places(m, GreedyPlace), Places(m, BestPlace);
    var n := 2 * m + 1;
    assert p[..n] == p && a[..n] == a && b[..n] == b;
    forall k | 0 <= k < |a|
      ensures FirstLeastLoaded(p[..k], a[..k], m, a[k])
    {
      GreedyStep(m, k);
    }
    forall i | 0 <= i < m
      ensures Load(p, b, i) <= 3 * m
    {
      BestLoads(m, n, i);
      BestTotals(m, i);
    }
    GreedyLoads(m, n, 0);
    GreedyTotal(m);
    Attained(m);
  }

  lemma {:induction false} GreedyTotal(m: nat)
    requires 0 < m
    ensures GreedyLoadAfter(m, 2 * m + 1, 0) == 4 * m - 1
    ensures Descending(TightJobs(m))
  {
    TightPair(m, 0);
  }

  lemma {:induction false} Attained(m: nat)
    ensures 3 * m * (4 * m - 1) == (4 * m - 1) * (3 * m)
  {
  }

  /** At every step the loads differ by at most the largest job placed so far. */
  lemma {:induction false} GreedyBalance(p: seq<nat>, a: seq<nat>, m: nat, i: nat, j: nat, largest: nat)
    requires IsGreedy(p, a, m) && i < m && j < m
    requires forall k | 0 <= k < |p| :: p[k] <= largest
    ensures Load(p, a, i) <= Load(p, a, j) + largest
  {
    if |p| > 0 {
      var k := |p| - 1;
      assert FirstLeastLoaded(p[..k], a[..k], m, a[k]);
      GreedyPrefix(p, a, m, k);
      GreedyBalance(p[..k], a[..k], m, i, j, largest);
    }
  }
}
