/**
What a partitioning is good for (src/aotcompile.cpp): every definition in one partition,
connected globals together, no weight lost, and a heaviest partition within twice the best
that any partitioning of the same module could do.
 */
module PartitionTheorems {
  import opened ModuleInfo
  import opened Partitioner
  import opened PartitionNodes
  import opened PartitionAssign
  import opened PartitionResult
  import opened ClassSums
  import opened ListScheduling

  /** A global is in a partition exactly when it is a node or a counter variable, and then in only one. */
  lemma InExactlyOne(m: Module, threads: nat, parts: seq<Partition>, o: Outcome, g: nat)
    requires Partitioned(m, threads, parts, o, |m|)
    ensures (exists p :: 0 <= p < |parts| && g in parts[p].globals)
       <==> g < |m| && (IsNode(m[g]) || IsCounterVariable(m[g]))
    ensures forall p, q :: 0 <= p < |parts| && 0 <= q < |parts| && g in parts[p].globals && g in parts[q].globals ==>
              p == q
  {
    hide IsNode, IsCounterVariable, Joined, Respects, HomeLoads, Balanced, Table;
    assert forall p: nat :: p < |parts| ==> Contents(m, o.fvars, o.gvars, o.home, p, parts[p]);
    if g < |m| && o.home[g] < threads {
      assert g in parts[o.home[g]].globals;
    }
  }

  /** An index of either variable table is in the partition of its global and in no other. */
  lemma IndexInExactlyOne(m: Module, threads: nat, parts: seq<Partition>, o: Outcome, fvarList: seq<nat>,
                          gvarList: seq<nat>)
    requires Partitioned(m, threads, parts, o, |m|)
    requires IndexesOf(fvarList, o.fvars) && IndexesOf(gvarList, o.gvars) && AllNodes(m, fvarList)
    requires AllNodes(m, gvarList)
    ensures forall p: nat, g: nat, i: nat :: p < threads && i < |fvarList| ==>
              (g in parts[p].fvars && parts[p].fvars[g] == i <==> p == o.home[fvarList[i]] && g == fvarList[i])
    ensures forall p: nat, g: nat, i: nat :: p < threads && i < |gvarList| ==>
              (g in parts[p].gvars && parts[p].gvars[g] == i <==> p == o.home[gvarList[i]] && g == gvarList[i])
  {
    hide IsNode, IsCounterVariable, Joined, Respects, HomeLoads, Balanced, Table;
    assert forall p: nat :: p < |parts| ==> Contents(m, o.fvars, o.gvars, o.home, p, parts[p]);
    forall p: nat | p < threads
      ensures forall g: nat, i: nat :: i < |fvarList| ==>
                (g in parts[p].fvars && parts[p].fvars[g] == i <==> p == o.home[fvarList[i]] && g == fvarList[i])
      ensures forall g: nat, i: nat :: i < |gvarList| ==>
                (g in parts[p].gvars && parts[p].gvars[g] == i <==> p == o.home[gvarList[i]] && g == gvarList[i])
    {
      TableIndexes(m, o.home, p, fvarList, o.fvars, parts[p].fvars);
      TableIndexes(m, o.home, p, gvarList, o.gvars, parts[p].gvars);
    }
  }

  lemma TableIndexes(m: Module, home: seq<nat>, p: nat, list: seq<nat>, vars: map<nat, nat>, mine: map<nat, nat>)
    requires Table(m, home, p, vars, mine) && IndexesOf(list, vars) && AllNodes(m, list)
    ensures forall g: nat, i: nat :: i < |list| ==> (g in mine && mine[g] == i <==> p == home[list[i]] && g == list[i])
  {
    hide IsNode;
  }

  /** Globals connected by uses share a partition, and `comp` tells exactly which are connected. */
  lemma ConnectedTogether(m: Module, threads: nat, parts: seq<Partition>, o: Outcome, g: nat, h: nat)
    requires Partitioned(m, threads, parts, o, |m|) && g < |m| && h < |m|
    ensures o.comp[g] == o.comp[h] <==> Connected(|m|, UseEdges(m), g, h)
    ensures Connected(|m|, UseEdges(m), g, h) ==> o.home[g] == o.home[h]
  {
    hide Holds, HomeLoads, Balanced;
    SameRootIffConnected(o.comp, UseEdges(m), g, h);
  }

  // ---------------------------------------------------------------------------
  // Sums.
  // ---------------------------------------------------------------------------

  lemma LoadsSum(m: Module, home: seq<nat>, parts: seq<Partition>)
    requires HomeLoads(m, home, parts)
    ensures Sum(PartWeights(parts)) == Sum(Masked(home, DefinedWeights(m), |parts|))
  {
    hide ClassWeight;
    ClassesSum(home, DefinedWeights(m), PartWeights(parts));
  }

  /**
  The partitions together weigh what the module weighs, exactly when no definition other than
  a variable carries a counter's name.
   */
  lemma WeightConserved(m: Module, threads: nat, parts: seq<Partition>, o: Outcome)
    requires Partitioned(m, threads, parts, o, |m|)
    ensures Sum(PartWeights(parts)) <= ModuleWeight(m)
    ensures Sum(PartWeights(parts)) == ModuleWeight(m) <==> CountersAreVariables(m)
  {
    hide Holds, Balanced, Joined, Respects, Sum, IsCoverageCounter, ClassWeight;
    LoadsSum(m, o.home, parts);
    var placed, all := Masked(o.home, DefinedWeights(m), threads), DefinedWeights(m);
    SumCompare(placed, all);
    assert forall g: nat :: g < |m| ==> (placed[g] == all[g] <==> o.home[g] < threads || m[g].isDeclaration);
    hide HomeLoads;
    if CountersAreVariables(m) {
      assert forall g: nat :: g < |m| ==> placed[g] == all[g];
    }
    if forall g :: 0 <= g < |m| ==> placed[g] == all[g] {
      forall g: nat | g < |m| && !m[g].isDeclaration && IsCoverageCounter(m[g])
        ensures m[g].kind == Variable
      {
        assert placed[g] == all[g];
      }
    }
  }

  // ---------------------------------------------------------------------------
  // Balance.
  // ---------------------------------------------------------------------------

  /** The lightest and the heaviest partition differ by at most the heaviest component. */
  lemma SpreadIsAComponent(m: Module, threads: nat, parts: seq<Partition>, o: Outcome, heaviest: nat, p: nat, q: nat)
    requires Partitioned(m, threads, parts, o, |m|)
    requires forall g: nat :: g < |m| && (IsNode(m[g]) || IsCounterVariable(m[g])) ==>
               ComponentWeight(m, o.comp, g) <= heaviest
    requires p < |parts| && q < |parts|
    ensures parts[p].weight <= parts[q].weight + heaviest
  {
    hide ComponentWeight, IsNode, IsCounterVariable, Joined, Respects, HomeLoads, Holds, Housed;
  }

  // ---------------------------------------------------------------------------
  // Comparison with any other partitioning.
  // ---------------------------------------------------------------------------

  /** The other homes of the first `k` components that were handed out; `t` for everything else. */
  ghost function OtherHomes(comp: seq<nat>, other: seq<nat>, jobs: seq<nat>, t: nat): (lab: seq<nat>)
    requires |comp| == |other|
    ensures |lab| == |comp| && forall g :: 0 <= g < |comp| ==> lab[g] == if comp[g] in jobs then other[g] else t
  {
    seq(|comp|, g requires 0 <= g < |comp| => if comp[g] in jobs then other[g] else t)
  }

  /** In another partitioning the components weigh no more than the globals. */
  lemma {:induction false} JobsElsewhere(m: Module, comp: seq<nat>, other: seq<nat>, jobs: seq<nat>, p: seq<nat>,
                                         t: nat, q: nat)
    requires |comp| == |other| == |m| && |jobs| == |p| && q < t && Joined(comp, UseEdges(m))
    requires Respects(other, UseEdges(m))
    requires forall i :: 0 <= i < |jobs| ==> JobWeighs(m, comp, other, t, jobs[i], p[i])
    requires forall i, j :: 0 <= i < j < |jobs| ==> jobs[i] != jobs[j]
    ensures Within(jobs, |m|)
    ensures ClassWeight(Pick(other, jobs), p, q) == ClassWeight(OtherHomes(comp, other, jobs, t), DefinedWeights(m), q)
  {
    var lab' := OtherHomes(comp, other, jobs, t);
    if |jobs| == 0 {
      SingletonWeight(lab', DefinedWeights(m), q);
    } else {
      var n := |jobs| - 1;
      var lab := OtherHomes(comp, other, jobs[..n], t);
      JobsElsewhere(m, comp, other, jobs[..n], p[..n], t, q);
      assert jobs == jobs[..n] + [jobs[n]];
      assert JobWeighs(m, comp, other, t, jobs[n], p[n]);
      assert jobs[n] !in jobs[..n];
      forall g | 0 <= g < |comp| && comp[g] == jobs[n]
        ensures other[g] == other[jobs[n]]
      {
        SameHome(m, comp, other, g);
      }
      assert Pick(other, jobs)[..n] == Pick(other, jobs[..n]);
      ClassWeightLast(Pick(other, jobs), p, q);
      hide ClassWeight, Joined, Respects;
      MoveClass(comp, DefinedWeights(m), lab, lab', jobs[n], t, other[jobs[n]], q);
    }
  }

  ghost predicate JobWeighs(m: Module, comp: seq<nat>, other: seq<nat>, t: nat, g: nat, weight: nat) {
    && g < |m| == |comp| == |other| && comp[g] == g && other[g] < t
    && weight == ClassWeight(comp, DefinedWeights(m), g)
  }

  lemma SameHome(m: Module, comp: seq<nat>, other: seq<nat>, g: nat)
    requires |comp| == |other| == |m| && Joined(comp, UseEdges(m)) && Respects(other, UseEdges(m)) && g < |m|
    ensures comp[g] < |m| && other[g] == other[comp[g]]
  {
  }

  /** The components that were handed out are schedules of the same jobs, here and elsewhere. */
  lemma OtherSchedule(m: Module, threads: nat, parts: seq<Partition>, o: Outcome, other: seq<nat>, best: nat)
    requires Partitioned(m, threads, parts, o, |m|)
    requires Housed(m, threads, other, |m|) && Respects(other, UseEdges(m))
    requires forall q: nat :: q < threads ==> ClassWeight(other, DefinedWeights(m), q) <= best
    ensures Within(o.h.jobs, |m|) && |o.h.jobs| == |o.h.p|
    ensures IsSchedule(o.h.p, Pick(other, o.h.jobs), threads)
    ensures forall q: nat :: q < threads ==> ClassWeight(Pick(other, o.h.jobs), o.h.p, q) <= best
  {
    hide Holds, HomeLoads, Balanced, Joined, Respects, ClassWeight, IsNode, IsCounterVariable, HistoryOk;
    forall i | 0 <= i < |o.h.jobs|
      ensures JobWeighs(m, o.comp, other, threads, o.h.jobs[i], o.h.p[i])
    {
      assert JobAt(m, o.home, o.comp, |parts|, o.h.jobs[i], o.h.p[i], o.h.at[i]);
    }
    assert Within(o.h.jobs, |m|) && IsSchedule(o.h.p, Pick(other, o.h.jobs), threads);
    forall q: nat | q < threads
      ensures ClassWeight(Pick(other, o.h.jobs), o.h.p, q) <= best
    {
      JobsElsewhere(m, o.comp, other, o.h.jobs, o.h.p, threads, q);
      SubClass(OtherHomes(o.comp, other, o.h.jobs, threads), other, DefinedWeights(m), q, q);
    }
  }

  /**
  However else the same definitions are handed out with connected globals together: if none of
  the other partitions weighs more than `best`, none of these weighs more than 4/3 - 1/(3 threads)
  times `best`.
   */
  lemma FourThirdsOfTheBest(m: Module, threads: nat, parts: seq<Partition>, o: Outcome, other: seq<nat>, best: nat,
                            q: nat)
    requires Partitioned(m, threads, parts, o, |m|) && q < threads
    requires Housed(m, threads, other, |m|) && Respects(other, UseEdges(m))
    requires forall p: nat :: p < threads ==> ClassWeight(other, DefinedWeights(m), p) <= best
    ensures 3 * threads * parts[q].weight <= (4 * threads - 1) * best
  {
    OtherSchedule(m, threads, parts, o, other, best);
    assert HistoryOk(o.h, PartWeights(parts)) && |parts| == threads;
    assert Greedy(o.h.p, o.h.at, threads) && PartWeights(parts)[q] == ClassWeight(o.h.at, o.h.p, q);
    hide Partitioned, ClassWeight, Greedy;
    FourThirds(o.h.p, o.h.at, threads, Pick(other, o.h.jobs), best, q);
  }
}
