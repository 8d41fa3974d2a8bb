/**
Handing out jobs, heaviest first, each to the machine with the least load so far.  The heaviest
load then exceeds that of the best schedule by at most a third of it; this is the bound of
R. L. Graham, "Bounds on multiprocessing timing anomalies" (1969).  partitionModule in
src/aotcompile.cpp hands out its components this way.
 */
module ListScheduling {
  import opened Bits
  import opened ModuleInfo
  import opened Partitioner
  import opened ClassSums

  /** Job `k` weighs `p[k]` and went to machine `at[k]`. */
  ghost predicate IsSchedule(p: seq<nat>, at: seq<nat>, t: nat) {
    |at| == |p| && forall k :: 0 <= k < |at| ==> at[k] < t
  }

  /** The load of machine `q` when the first `k` jobs have been handed out. */
  ghost function Load(p: seq<nat>, at: seq<nat>, k: nat, q: nat): nat
    requires k <= |p| == |at|
  {
    ClassWeight(at[..k], p[..k], q)
  }

  /** Job `k` went to a machine with the least load at that time. */
  ghost predicate ToLightest(p: seq<nat>, at: seq<nat>, t: nat, k: nat)
    requires k < |p| == |at|
  {
    var least := Load(p, at, k, at[k]);
    forall q: nat :: q < t ==> least <= Load(p, at, k, q)
  }

  ghost predicate Greedy(p: seq<nat>, at: seq<nat>, t: nat) {
    IsSchedule(p, at, t) && forall k: nat :: k < |p| ==> ToLightest(p, at, t, k)
  }

  ghost predicate Descending(p: seq<nat>) {
    forall i, j :: 0 <= i < j < |p| ==> p[i] >= p[j]
  }

  /** The jobs handed out so far, in order, with their weights and machines. */
  datatype History = History(jobs: seq<nat>, p: seq<nat>, at: seq<nat>)

  /** Heaviest first, each to a lightest machine, and the loads are what this gives. */
  ghost predicate HistoryOk(h: History, loads: seq<nat>) {
    && |h.jobs| == |h.p| && Greedy(h.p, h.at, |loads|) && Descending(h.p)
    && (forall k :: 0 <= k < |h.p| ==> h.p[k] >= 1)
    && (forall q: nat :: q < |loads| ==> loads[q] == ClassWeight(h.at, h.p, q))
  }

  function HandOut(h: History, job: nat, c: nat, q: nat): History {
    History(h.jobs + [job], h.p + [c], h.at + [q])
  }

  /** One more job, no heavier than those before, for a lightest machine. */
  lemma HandOutKeeps(h: History, loads: seq<nat>, loads': seq<nat>, job: nat, c: nat, q: nat)
    requires HistoryOk(h, loads) && |loads'| == |loads| && q < |loads| && c >= 1
    requires forall r: nat :: r < |loads| ==> loads[q] <= loads[r]
    requires forall r: nat :: r < |loads| ==> loads'[r] == loads[r] + (if r == q then c else 0)
    requires forall k :: 0 <= k < |h.p| ==> h.p[k] >= c
    ensures HistoryOk(HandOut(h, job, c, q), loads')
  {
    hide ClassWeight;
    var h', n, t := HandOut(h, job, c, q), |h.p|, |loads|;
    forall k: nat | k < n + 1
      ensures ToLightest(h'.p, h'.at, t, k)
    {
      assert h'.p[..k] == (if k < n then h.p[..k] else h.p) && h'.at[..k] == (if k < n then h.at[..k] else h.at);
      if k < n {
        assert ToLightest(h.p, h.at, t, k);
        assert forall r: nat :: Load(h'.p, h'.at, k, r) == Load(h.p, h.at, k, r);
      } else {
        assert forall r: nat :: r < t ==> Load(h'.p, h'.at, k, r) == loads[r];
      }
    }
    forall r: nat | r < t
      ensures loads'[r] == ClassWeight(h'.at, h'.p, r)
    {
      ClassWeightAppend(h.at, h.p, q, c, r);
    }
    hide ToLightest;
  }

  // ---------------------------------------------------------------------------
  // Counting jobs.
  // ---------------------------------------------------------------------------

  ghost function Ones(n: nat): seq<nat> {
    seq(n, i => 1)
  }

  /** The number of jobs with a label. */
  ghost function Count(lab: seq<nat>, q: nat): nat {
    ClassWeight(lab, Ones(|lab|), q)
  }

  lemma {:induction false} OnesSum(n: nat)
    ensures Sum(Ones(n)) == n
  {
    if n > 0 {
      assert Ones(n)[..n - 1] == Ones(n - 1);
      OnesSum(n - 1);
    }
  }

  lemma CountLast(lab: seq<nat>, q: nat)
    requires |lab| > 0
    ensures Count(lab, q) == Count(lab[..|lab| - 1], q) + (if lab[|lab| - 1] == q then 1 else 0)
  {
    assert Ones(|lab|)[..|lab| - 1] == Ones(|lab| - 1);
  }

  /** Jobs of at least weight `c` weigh at least their number times `c`. */
  lemma {:induction false} CountWeighs(lab: seq<nat>, w: seq<nat>, q: nat, c: nat)
    requires |lab| == |w| && forall i :: 0 <= i < |w| ==> w[i] >= c
    ensures ClassWeight(lab, w, q) >= Count(lab, q) * c
  {
    if |lab| > 0 {
      var n := |lab| - 1;
      CountWeighs(lab[..n], w[..n], q, c);
      CountLast(lab, q);
      Distribute(Count(lab[..n], q), 1, c);
      hide Count;
    }
  }

  /** One of the jobs with its own weight, the others with at least `c` each. */
  lemma {:induction false} OneAndOthers(lab: seq<nat>, w: seq<nat>, i: nat, c: nat)
    requires |lab| == |w| && i < |lab| && forall k :: 0 <= k < |w| ==> w[k] >= c
    ensures Count(lab, lab[i]) >= 1
    ensures ClassWeight(lab, w, lab[i]) >= w[i] + (Count(lab, lab[i]) - 1) * c
  {
    var n, q := |lab| - 1, lab[i];
    CountLast(lab, q);
    var m := Count(lab[..n], q);
    if i == n {
      CountWeighs(lab[..n], w[..n], q, c);
    } else {
      OneAndOthers(lab[..n], w[..n], i, c);
      Distribute(m - 1, 1, c);
    }
    hide Count;
  }

  lemma {:induction false} OnlyJob(lab: seq<nat>, w: seq<nat>, i: nat)
    requires |lab| == |w| && i < |lab| && Count(lab, lab[i]) == 1
    ensures ClassWeight(lab, w, lab[i]) == w[i]
  {
    var n, q := |lab| - 1, lab[i];
    CountLast(lab, q);
    if i == n {
      NoJob(lab[..n], w[..n], q);
    } else {
      CountPositive(lab[..n], i);
      OnlyJob(lab[..n], w[..n], i);
    }
  }

  lemma {:induction false} NoJob(lab: seq<nat>, w: seq<nat>, q: nat)
    requires |lab| == |w| && Count(lab, q) == 0
    ensures ClassWeight(lab, w, q) == 0
  {
    if |lab| > 0 {
      CountLast(lab, q);
      NoJob(lab[..|lab| - 1], w[..|lab| - 1], q);
    }
  }

  lemma {:induction false} CountPositive(lab: seq<nat>, i: nat)
    requires i < |lab|
    ensures Count(lab, lab[i]) >= 1
  {
    CountLast(lab, lab[i]);
    if i < |lab| - 1 {
      CountPositive(lab[..|lab| - 1], i);
    }
  }

  // ---------------------------------------------------------------------------
  // Jobs that are alone on their machine.
  // ---------------------------------------------------------------------------

  ghost function Alone(lab: seq<nat>): (s: seq<nat>)
    ensures |s| == |lab| && forall i :: 0 <= i < |lab| ==> s[i] == if Count(lab, lab[i]) == 1 then 1 else 0
  {
    seq(|lab|, i requires 0 <= i < |lab| => if Count(lab, lab[i]) == 1 then 1 else 0)
  }

  ghost function Counts(lab: seq<nat>, t: nat): (s: seq<nat>)
    ensures |s| == t && forall q: nat :: q < t ==> s[q] == Count(lab, q)
  {
    seq(t, q requires 0 <= q < t => Count(lab, q))
  }

  ghost function Singles(lab: seq<nat>, t: nat): (s: seq<nat>)
    ensures |s| == t && forall q: nat :: q < t ==> s[q] == if Count(lab, q) == 1 then 1 else 0
  {
    seq(t, q requires 0 <= q < t => if Count(lab, q) == 1 then 1 else 0)
  }

  lemma {:induction false} SameWeights(lab: seq<nat>, w: seq<nat>, q: nat, v: nat)
    requires |lab| == |w| && forall i :: 0 <= i < |lab| && lab[i] == q ==> w[i] == v
    ensures ClassWeight(lab, w, q) == Count(lab, q) * v
  {
    if |lab| > 0 {
      var n := |lab| - 1;
      SameWeights(lab[..n], w[..n], q, v);
      CountLast(lab, q);
      Distribute(Count(lab[..n], q), 1, v);
      hide Count;
    }
  }

  lemma AllCounted(lab: seq<nat>, w: seq<nat>, t: nat)
    requires |lab| == |w| && forall i :: 0 <= i < |lab| ==> lab[i] < t
    ensures Masked(lab, w, t) == w
  {
  }

  /** Jobs and machines, and lone jobs and machines with a lone job, are equally many. */
  lemma CountsSum(lab: seq<nat>, t: nat)
    requires forall i :: 0 <= i < |lab| ==> lab[i] < t
    ensures Sum(Counts(lab, t)) == |lab| && Sum(Singles(lab, t)) == Sum(Alone(lab))
  {
    hide Sum;
    ClassesSum(lab, Ones(|lab|), Counts(lab, t));
    AllCounted(lab, Ones(|lab|), t);
    OnesSum(|lab|);
    forall q: nat | q < t
      ensures Singles(lab, t)[q] == ClassWeight(lab, Alone(lab), q)
    {
      SameWeights(lab, Alone(lab), q, if Count(lab, q) == 1 then 1 else 0);
    }
    ClassesSum(lab, Alone(lab), Singles(lab, t));
    AllCounted(lab, Alone(lab), t);
  }

  lemma {:induction false} SumsOfTwo(a: seq<nat>, b: seq<nat>)
    requires |a| == |b|
    ensures (forall i :: 0 <= i < |a| ==> a[i] + b[i] == 2) ==> Sum(a) + Sum(b) == 2 * |a|
    ensures (forall i :: 0 <= i < |a| ==> a[i] + b[i] <= 2) ==> Sum(a) + Sum(b) <= 2 * |a|
  {
    if |a| > 0 {
      var n := |a| - 1;
      SumsOfTwo(a[..n], b[..n]);
    }
  }

  // ---------------------------------------------------------------------------
  // Heavy jobs.
  // ---------------------------------------------------------------------------

  /** The loads of two schedules of the same jobs, no job lighter than `c`, three of them too heavy for `best`. */
  ghost predicate Heavy(w: seq<nat>, lab: seq<nat>, t: nat, c: nat, best: nat) {
    && IsSchedule(w, lab, t) && 3 * c > best
    && (forall i :: 0 <= i < |w| ==> w[i] >= c)
    && (forall q: nat :: q < t ==> ClassWeight(lab, w, q) <= best)
  }

  lemma AtMostTwo(w: seq<nat>, lab: seq<nat>, t: nat, c: nat, best: nat, q: nat)
    requires Heavy(w, lab, t, c, best) && q < t
    ensures Count(lab, q) <= 2
  {
    hide ClassWeight, Count;
    CountWeighs(lab, w, q, c);
    if Count(lab, q) >= 3 {
      MulMonotone(3, Count(lab, q), c);
    }
  }

  /**
  Jobs that fill every machine to more than `best - c`, and the same jobs with one more of weight
  `c` in another schedule.  A job that is alone on its machine here is alone there as well.
   */
  lemma AloneInBoth(w: seq<nat>, lab: seq<nat>, w': seq<nat>, lab': seq<nat>, t: nat, c: nat, best: nat, i: nat)
    requires Heavy(w, lab, t, c, best) && Heavy(w', lab', t, c, best) && |w'| == |w| + 1 && w'[..|w|] == w
    requires forall q: nat :: q < t ==> ClassWeight(lab, w, q) + c > best
    requires i < |lab| && Count(lab, lab[i]) == 1
    ensures Count(lab', lab'[i]) == 1
  {
    hide ClassWeight, Count;
    OnlyJob(lab, w, i);
    assert w'[i] == w[i];
    OneAndOthers(lab', w', i, c);
    var n := Count(lab', lab'[i]);
    if n >= 2 {
      MulMonotone(1, n - 1, c);
    }
  }

  /** So the other schedule has at least as many machines with one job, and not enough room. */
  lemma NoRoomForAll(w: seq<nat>, lab: seq<nat>, w': seq<nat>, lab': seq<nat>, t: nat, c: nat, best: nat)
    requires Heavy(w, lab, t, c, best) && Heavy(w', lab', t, c, best) && |w'| == |w| + 1 && w'[..|w|] == w
    requires c <= best
    ensures exists q: nat :: q < t && ClassWeight(lab, w, q) + c <= best
  {
    hide ClassWeight, Count, Sum;
    if forall q: nat :: q < t ==> ClassWeight(lab, w, q) + c > best {
      CountsSum(lab, t);
      CountsSum(lab', t);
      OneOrTwo(w, lab, t, c, best);
      AtMostTwoEach(w', lab', t, c, best);
      SumsOfTwo(Counts(lab, t), Singles(lab, t));
      SumsOfTwo(Counts(lab', t), Singles(lab', t));
      var s, s' := Alone(lab), Alone(lab');
      forall i | 0 <= i < |s|
        ensures s[i] <= s'[..|s|][i]
      {
        if s[i] == 1 {
          AloneInBoth(w, lab, w', lab', t, c, best, i);
        }
      }
      SumCompare(s, s'[..|s|]);
      assert s' == s'[..|s|] + [s'[|s|]];
      SumAppend(s'[..|s|], s'[|s|]);
    }
  }

  lemma OneOrTwo(w: seq<nat>, lab: seq<nat>, t: nat, c: nat, best: nat)
    requires Heavy(w, lab, t, c, best) && c <= best
    requires forall q: nat :: q < t ==> ClassWeight(lab, w, q) + c > best
    ensures forall i :: 0 <= i < t ==> Counts(lab, t)[i] + Singles(lab, t)[i] == 2
  {
    hide ClassWeight, Count;
    forall q: nat | q < t
      ensures Counts(lab, t)[q] + Singles(lab, t)[q] == 2
    {
      AtMostTwo(w, lab, t, c, best, q);
      if Count(lab, q) == 0 {
        NoJob(lab, w, q);
      }
    }
  }

  lemma AtMostTwoEach(w: seq<nat>, lab: seq<nat>, t: nat, c: nat, best: nat)
    requires Heavy(w, lab, t, c, best)
    ensures forall i :: 0 <= i < t ==> Counts(lab, t)[i] + Singles(lab, t)[i] <= 2
  {
    hide ClassWeight, Count;
    forall q: nat | q < t
      ensures Counts(lab, t)[q] + Singles(lab, t)[q] <= 2
    {
      AtMostTwo(w, lab, t, c, best, q);
    }
  }

  // ---------------------------------------------------------------------------
  // The bound.
  // ---------------------------------------------------------------------------

  /** Leaving jobs out makes no load heavier. */
  lemma {:induction false} PrefixLoad(lab: seq<nat>, w: seq<nat>, k: nat, q: nat)
    requires k <= |lab| == |w|
    ensures ClassWeight(lab[..k], w[..k], q) <= ClassWeight(lab, w, q)
  {
    if k == |lab| {
      assert lab[..k] == lab && w[..k] == w;
    } else {
      var n := |lab| - 1;
      PrefixLoad(lab[..n], w[..n], k, q);
      assert lab[..n][..k] == lab[..k] && w[..n][..k] == w[..k];
    }
  }

  lemma LoadStep(p: seq<nat>, at: seq<nat>, k: nat, q: nat)
    requires k < |p| == |at|
    ensures Load(p, at, k + 1, q) == Load(p, at, k, q) + (if at[k] == q then p[k] else 0)
  {
    assert at[..k + 1][..k] == at[..k] && p[..k + 1][..k] == p[..k];
  }

  /** All schedules have the same total. */
  lemma TotalLoad(p: seq<nat>, at: seq<nat>, t: nat, loads: seq<nat>)
    requires IsSchedule(p, at, t) && |loads| == t && forall q: nat :: q < t ==> loads[q] == ClassWeight(at, p, q)
    ensures Sum(loads) == Sum(p)
  {
    ClassesSum(at, p, loads);
    AllCounted(at, p, t);
  }

  /** A light job on the least loaded machine. */
  lemma LightJob(p: seq<nat>, at: seq<nat>, t: nat, other: seq<nat>, best: nat, k: nat)
    requires t >= 1 && Greedy(p, at, t) && k < |p| && IsSchedule(p, other, t)
    requires forall q: nat :: q < t ==> ClassWeight(other, p, q) <= best
    requires 3 * p[k] <= best
    ensures 3 * t * (Load(p, at, k, at[k]) + p[k]) <= (4 * t - 1) * best
  {
    hide ClassWeight, Sum;
    var c, m := p[k], Load(p, at, k, at[k]);
    var loads := seq(t, q requires 0 <= q < t => Load(p, at, k, q));
    TotalLoad(p[..k], at[..k], t, loads);
    assert ToLightest(p, at, t, k);
    SumAtLeast(loads, 0, m);
    var all := seq(t, q requires 0 <= q < t => ClassWeight(other, p, q));
    TotalLoad(p, other, t, all);
    SumAtMost(all, best);
    PrefixSum(p, k);
    LightAlgebra(t, m, c, best, Sum(p[..k]));
  }

  lemma {:induction false} PrefixSum(p: seq<nat>, k: nat)
    requires k < |p|
    ensures Sum(p[..k]) + p[k] <= Sum(p)
  {
    var n := |p| - 1;
    if k < n {
      PrefixSum(p[..n], k);
      assert p[..n][..k] == p[..k];
    }
  }

  lemma LightAlgebra(t: nat, m: nat, c: nat, best: nat, before: nat)
    requires t >= 1 && t * m <= before && before + c <= t * best && 3 * c <= best
    ensures 3 * t * (m + c) <= (4 * t - 1) * best
  {
    assert t * (m + c) == t * m + t * c;
    assert 3 * t * (m + c) == 3 * (t * m) + 3 * (t * c);
    assert 3 * (t * c) == (t - 1) * (3 * c) + 3 * c;
    MulMonotone(3 * c, best, t - 1);
    Distribute(t - 1, 0, 3 * c);
    Distribute(t - 1, 0, best);
    assert (4 * t - 1) * best == 3 * (t * best) + (t - 1) * best;
  }

  /** A heavy job on the least loaded machine: as long as jobs are heavy, greed is the best. */
  lemma HeavyJob(p: seq<nat>, at: seq<nat>, t: nat, other: seq<nat>, best: nat, k: nat)
    requires Greedy(p, at, t) && Descending(p) && k < |p| && IsSchedule(p, other, t)
    requires forall q: nat :: q < t ==> ClassWeight(other, p, q) <= best
    requires 3 * p[k] > best && forall q: nat :: q < t ==> Load(p, at, k, q) <= best
    ensures Load(p, at, k, at[k]) + p[k] <= best
  {
    hide ClassWeight, Count;
    var c := p[k];
    var w, lab, w', lab' := p[..k], at[..k], p[..k + 1], other[..k + 1];
    forall q: nat | q < t
      ensures ClassWeight(lab, w, q) <= best && ClassWeight(lab', w', q) <= best
    {
      assert Load(p, at, k, q) <= best;
      PrefixLoad(other, p, k + 1, q);
    }
    assert Heavy(w, lab, t, c, best) && Heavy(w', lab', t, c, best);
    assert c <= best by {
      OneAndOthers(lab', w', k, 0);
    }
    assert w'[..k] == w;
    NoRoomForAll(w, lab, w', lab', t, c, best);
    var q: nat :| q < t && ClassWeight(lab, w, q) + c <= best;
    assert ToLightest(p, at, t, k);
    assert Load(p, at, k, at[k]) <= Load(p, at, k, q);
  }

  /** After each job: all loads within the bound, and within `best` while the jobs are heavy. */
  lemma {:induction false} LoadsBounded(p: seq<nat>, at: seq<nat>, t: nat, other: seq<nat>, best: nat, k: nat)
    requires t >= 1 && Greedy(p, at, t) && Descending(p) && k <= |p| && IsSchedule(p, other, t)
    requires forall q: nat :: q < t ==> ClassWeight(other, p, q) <= best
    ensures forall q: nat :: q < t ==> 3 * t * Load(p, at, k, q) <= (4 * t - 1) * best
    ensures (k == 0 || 3 * p[k - 1] > best) ==> forall q: nat :: q < t ==> Load(p, at, k, q) <= best
  {
    if k == 0 {
      assert forall q: nat :: Load(p, at, 0, q) == 0;
      assert (4 * t - 1) * best >= 0 by { MulMonotone(0, 4 * t - 1, best); }
    } else {
      LoadsBounded(p, at, t, other, best, k - 1);
      hide ClassWeight, Load;
      var c := p[k - 1];
      assert k >= 2 ==> p[k - 2] >= c;
      if 3 * c <= best {
        LightJob(p, at, t, other, best, k - 1);
      } else {
        HeavyJob(p, at, t, other, best, k - 1);
      }
      forall q: nat | q < t
        ensures 3 * t * Load(p, at, k, q) <= (4 * t - 1) * best
        ensures 3 * c > best ==> Load(p, at, k, q) <= best
      {
        LoadStep(p, at, k - 1, q);
        if 3 * c > best {
          BestIsWithin(t, Load(p, at, k, q), best);
        }
      }
    }
  }

  lemma BestIsWithin(t: nat, x: nat, best: nat)
    requires t >= 1 && x <= best
    ensures 3 * t * x <= (4 * t - 1) * best
  {
    MulMonotone(x, best, 3 * t);
    Distribute(x, 0, 3 * t);
    Distribute(best, 0, 3 * t);
    MulMonotone(3 * t, 4 * t - 1, best);
  }

  /** The heaviest load is at most 4/3 - 1/(3t) times the heaviest load of any schedule of the jobs. */
  lemma FourThirds(p: seq<nat>, at: seq<nat>, t: nat, other: seq<nat>, best: nat, q: nat)
    requires t >= 1 && Greedy(p, at, t) && Descending(p) && IsSchedule(p, other, t) && q < t
    requires forall r: nat :: r < t ==> ClassWeight(other, p, r) <= best
    ensures 3 * t * ClassWeight(at, p, q) <= (4 * t - 1) * best
  {
    hide ClassWeight;
    LoadsBounded(p, at, t, other, best, |p|);
    assert at[..|p|] == at && p[..|p|] == p;
    assert Load(p, at, |p|, q) == ClassWeight(at, p, q);
  }
}
