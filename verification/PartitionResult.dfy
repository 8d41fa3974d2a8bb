/**
partitionModule as a whole (src/aotcompile.cpp): the coverage counters, what the resulting
partitions promise, and the exact condition under which verify_partitioning accepts them.
 */
module PartitionResult {
  import opened Basics
  import opened ModuleInfo
  import opened Partitioner
  import opened PartitionNodes
  import opened PartitionAssign
  import opened ListScheduling
  import opened PartitionVerify

  // ---------------------------------------------------------------------------
  // Components of globals.
  // ---------------------------------------------------------------------------

  lemma {:induction false} SameClasses(lab: seq<nat>, lab': seq<nat>, w: seq<nat>, a: nat, b: nat)
    requires |lab| == |lab'| == |w| && forall i :: 0 <= i < |lab| ==> (lab[i] == a <==> lab'[i] == b)
    ensures ClassWeight(lab, w, a) == ClassWeight(lab', w, b)
  {
    if |lab| > 0 {
      var n := |lab| - 1;
      SameClasses(lab[..n], lab'[..n], w[..n], a, b);
    }
  }

  lemma {:induction false} OnlyOne(lab: seq<nat>, w: seq<nat>, a: nat, g: nat)
    requires |lab| == |w| && g < |lab| && forall i :: 0 <= i < |lab| ==> (lab[i] == a <==> i == g)
    ensures ClassWeight(lab, w, a) == w[g]
  {
    var n := |lab| - 1;
    if g == n {
      SingletonWeight(lab[..n], w[..n], a);
    } else {
      OnlyOne(lab[..n], w[..n], a, g);
    }
  }

  ghost function Identity(n: nat): seq<nat> {
    seq(n, i => i)
  }

  lemma MoveOne(lab: seq<nat>, w: seq<nat>, g: nat, q: nat, c: nat)
    requires |lab| == |w| && g < |lab| && lab[g] != q && lab[g] != c
    ensures ClassWeight(lab[g := q], w, c) == ClassWeight(lab, w, c) + (if c == q then w[g] else 0)
  {
    hide ClassWeight;
    OnlyOne(Identity(|lab|), w, g, g);
    MoveClass(Identity(|lab|), w, lab, lab[g := q], g, lab[g], q, c);
  }

  /** `nodeMap` inverts the list of nodes. */
  ghost predicate Inverts(m: Module, gs: seq<nat>, nodeMap: map<nat, nat>) {
    && Within(gs, |m|)
    && (forall i :: 0 <= i < |gs| ==> IsNode(m[gs[i]]) && gs[i] in nodeMap && nodeMap[gs[i]] == i)
    && (forall g: nat :: g in nodeMap ==> nodeMap[g] < |gs| && gs[nodeMap[g]] == g)
    && (forall g: nat :: g < |m| && IsNode(m[g]) ==> g in nodeMap)
  }

  lemma MapInverts(m: Module, nodes: seq<Node>, nodeMap: map<nat, nat>)
    requires NodesOf(m, nodes) && Mapped(nodes, nodeMap)
    ensures Inverts(m, NodeList(m), nodeMap)
  {
    NodeListMembers(m);
    hide NodeList, IsNode;
    var gs := NodeList(m);
    forall i | 0 <= i < |gs|
      ensures gs[i] in nodeMap && nodeMap[gs[i]] == i
    {
      assert nodes[i].gv == gs[i];
    }
  }

  /** Every global is labelled with its component's root; a global that takes no part is its own. */
  ghost function Components(m: Module, gs: seq<nat>, nodeMap: map<nat, nat>, root: seq<nat>): (comp: seq<nat>)
    requires Inverts(m, gs, nodeMap) && |root| == |gs| && Within(root, |root|)
    ensures |comp| == |m|
    ensures forall g: nat :: g < |m| ==> comp[g] == if g in nodeMap then gs[root[nodeMap[g]]] else g
  {
    seq(|m|, g requires 0 <= g < |m| => if g in nodeMap then gs[root[nodeMap[g]]] else g)
  }

  lemma ComponentsJoined(m: Module, gs: seq<nat>, nodeMap: map<nat, nat>, root: seq<nat>, edges: set<Edge>)
    requires Inverts(m, gs, nodeMap) && |root| == |gs| && Joined(root, edges) && MergedSoFar(m, gs, edges, |gs|, 0)
    ensures Within(root, |root|) && Joined(Components(m, gs, nodeMap, root), UseEdges(m))
  {
    var comp := Components(m, gs, nodeMap, root);
    ComponentsRespect(m, gs, nodeMap, root, edges, comp);
    forall lab: seq<nat>, g | |lab| == |m| && Respects(lab, UseEdges(m)) && 0 <= g < |m|
      ensures lab[g] == lab[comp[g]]
    {
      if g in nodeMap {
        PickRespects(m, gs, edges, lab);
        var i := nodeMap[g];
        assert Pick(lab, gs)[i] == Pick(lab, gs)[root[i]];
      }
    }
    hide Joined, MergedSoFar, Inverts;
    assert forall g: nat :: g < |m| ==> comp[g] < |m|;
  }

  /** A labelling of the globals that only distinguishes merged nodes respects all uses. */
  lemma ComponentsRespect(m: Module, gs: seq<nat>, nodeMap: map<nat, nat>, root: seq<nat>, edges: set<Edge>,
                          lab: seq<nat>)
    requires Inverts(m, gs, nodeMap) && Respects(root, edges) && MergedSoFar(m, gs, edges, |gs|, 0)
    requires |lab| == |m| && |root| == |gs|
    requires forall i, j :: 0 <= i < |gs| && 0 <= j < |gs| && root[i] == root[j] ==> lab[gs[i]] == lab[gs[j]]
    ensures Respects(lab, UseEdges(m))
  {
    forall e | e in UseEdges(m)
      ensures e.0 < |lab| && e.1 < |lab| && lab[e.0] == lab[e.1]
    {
      var (g, h) := e;
      assert IsUse(m, g, h);
      assert (nodeMap[g], nodeMap[h]) in edges;
    }
  }

  lemma PickRespects(m: Module, gs: seq<nat>, edges: set<Edge>, lab: seq<nat>)
    requires Within(gs, |m|) && |lab| == |m| && Respects(lab, UseEdges(m)) && MergedSoFar(m, gs, edges, |gs|, 0)
    requires forall i :: 0 <= i < |gs| ==> IsNode(m[gs[i]])
    ensures Respects(Pick(lab, gs), edges)
  {
    forall e | e in edges
      ensures e.0 < |gs| && e.1 < |gs| && Pick(lab, gs)[e.0] == Pick(lab, gs)[e.1]
    {
      var (a, b) := e;
      assert (a, b) in edges;
      assert IsUse(m, gs[a], gs[b]);
      assert (gs[a], gs[b]) in UseEdges(m);
    }
  }

  /** The weight of a global's component. */
  ghost function ComponentWeight(m: Module, comp: seq<nat>, g: nat): nat
    requires |comp| == |m| && g < |m|
  {
    ClassWeight(comp, DefinedWeights(m), comp[g])
  }

  lemma RootComponentWeight(m: Module, nodeMap: map<nat, nat>, root: seq<nat>, r: nat)
    requires Inverts(m, NodeList(m), nodeMap) && |root| == |NodeList(m)| && Within(root, |root|)
    requires r < |root| && root[r] == r
    ensures ComponentWeight(m, Components(m, NodeList(m), nodeMap, root), NodeList(m)[r])
         == ClassWeight(root, NodeWeights(m, NodeList(m)), r)
  {
    hide ClassWeight, NodeList, IsNode, Inverts, Components;
    var gs := NodeList(m);
    var comp := Components(m, gs, nodeMap, root);
    RootLabels(m, gs, nodeMap, root, r);
    NodeClassWeight(m, gs, comp, gs[r]);
    SameClasses(Pick(comp, gs), root, NodeWeights(m, gs), gs[r], r);
  }

  lemma RootLabels(m: Module, gs: seq<nat>, nodeMap: map<nat, nat>, root: seq<nat>, r: nat)
    requires Inverts(m, gs, nodeMap) && |root| == |gs| && Within(root, |root|) && r < |root| && root[r] == r
    ensures var comp := Components(m, gs, nodeMap, root);
      && Within(gs, |m|) && comp[gs[r]] == gs[r]
      && (forall g :: 0 <= g < |m| && !IsNode(m[g]) ==> comp[g] != gs[r])
      && (forall i :: 0 <= i < |gs| ==> (Pick(comp, gs)[i] == gs[r] <==> root[i] == r))
  {
    hide IsNode;
    var comp := Components(m, gs, nodeMap, root);
    assert IsNode(m[gs[r]]) && nodeMap[gs[r]] == r;
    forall g | 0 <= g < |m| && !IsNode(m[g])
      ensures comp[g] != gs[r]
    {
      assert g !in nodeMap;
    }
    forall i: nat | i < |gs|
      ensures comp[gs[i]] == gs[r] <==> root[i] == r
    {
      LabelOfNode(m, gs, nodeMap, root, i);
      assert nodeMap[gs[root[i]]] == root[i];
    }
  }

  lemma LabelOfNode(m: Module, gs: seq<nat>, nodeMap: map<nat, nat>, root: seq<nat>, i: nat)
    requires Inverts(m, gs, nodeMap) && |root| == |gs| && Within(root, |root|) && i < |gs|
    ensures gs[i] < |m| && Components(m, gs, nodeMap, root)[gs[i]] == gs[root[i]]
  {
  }

  lemma CounterComponentWeight(m: Module, nodeMap: map<nat, nat>, root: seq<nat>, g: nat)
    requires Inverts(m, NodeList(m), nodeMap) && |root| == |NodeList(m)| && Within(root, |root|)
    requires g < |m| && IsCounterVariable(m[g])
    ensures Components(m, NodeList(m), nodeMap, root)[g] == g
    ensures ComponentWeight(m, Components(m, NodeList(m), nodeMap, root), g) == 1
  {
    hide ClassWeight, NodeList, IsCoverageCounter;
    var comp := Components(m, NodeList(m), nodeMap, root);
    OnlyOne(comp, DefinedWeights(m), g, g);
  }

  // ---------------------------------------------------------------------------
  // The result.
  // ---------------------------------------------------------------------------

  /** Exactly the nodes, and the counter variables among the first `k` globals, have a home. */
  ghost predicate Housed(m: Module, threads: nat, home: seq<nat>, k: nat) {
    && |home| == |m|
    && forall g: nat :: g < |m| ==>
         && home[g] <= threads
         && (home[g] < threads <==> IsNode(m[g]) || (IsCounterVariable(m[g]) && g < k))
  }

  /** A partition weighs as much as its globals. */
  ghost predicate HomeLoads(m: Module, home: seq<nat>, parts: seq<Partition>) {
    && |home| == |m|
    && forall q :: 0 <= q < |parts| ==> parts[q].weight == ClassWeight(home, DefinedWeights(m), q)
  }

  /** No two partitions differ by more than the weight of some component that was handed out. */
  ghost predicate Balanced(m: Module, comp: seq<nat>, parts: seq<Partition>, bound: nat)
    requires |comp| == |m|
  {
    && Spread(parts, bound)
    && (bound == 0 || exists g: nat ::
         g < |m| && (IsNode(m[g]) || IsCounterVariable(m[g])) && bound == ComponentWeight(m, comp, g))
  }

  /** Job `g`: a whole component, at home where it was sent. */
  ghost predicate JobAt(m: Module, home: seq<nat>, comp: seq<nat>, threads: nat, g: nat, weight: nat, q: nat) {
    && g < |m| == |home| == |comp| && comp[g] == g
    && weight == ComponentWeight(m, comp, g) && q == home[g] < threads
  }

  /** The components were handed out heaviest first, each to a partition that was lightest then. */
  ghost predicate HandedOut(m: Module, home: seq<nat>, comp: seq<nat>, parts: seq<Partition>, h: History) {
    && HistoryOk(h, PartWeights(parts)) && |h.jobs| == |h.p| == |h.at|
    && (forall i :: 0 <= i < |h.jobs| ==> JobAt(m, home, comp, |parts|, h.jobs[i], h.p[i], h.at[i]))
    && (forall i, j :: 0 <= i < j < |h.jobs| ==> h.jobs[i] != h.jobs[j])
  }

  /**
  The ghost side of a partitioning: the tables, the homes of the globals, a label for each
  component of use edges, a bound on the differences, and the order in which all was handed out.
   */
  datatype Outcome = Outcome(fvars: map<nat, nat>, gvars: map<nat, nat>, home: seq<nat>, comp: seq<nat>, bound: nat,
                             h: History)

  /** The partitioning of a module, with the counters among its first `k` globals. */
  ghost predicate Partitioned(m: Module, threads: nat, parts: seq<Partition>, o: Outcome, k: nat) {
    && |parts| == threads && |o.comp| == |m|
    && Housed(m, threads, o.home, k)
    && Holds(m, o.fvars, o.gvars, o.home, parts)
    && Joined(o.comp, UseEdges(m))
    && Respects(o.home, UseEdges(m))
    && HomeLoads(m, o.home, parts)
    && Balanced(m, o.comp, parts, o.bound)
    && HandedOut(m, o.home, o.comp, parts, o.h)
  }

  lemma AssignedHomes(c: Merge, s: Progress)
    requires c.Valid() && Assigned(c, s)
    ensures |c.root| == |c.nodes| == |s.place| && Within(c.root, |s.place|)
    ensures Within(s.place, c.threads) && Pick(s.place, c.root) == s.place
  {
    hide NodeList, ClassWeight, Weighed, Holds, AtHome;
    forall i: nat | i < |c.nodes|
      ensures s.place[i] < c.threads && c.root[i] < |s.place| && s.place[c.root[i]] == s.place[i]
    {
      assert i in c.order;
      PlacedNode(c.nodes, s.nodes, c.root, s.place, c.threads, i);
    }
  }

  lemma AssignedHoused(c: Merge, s: Progress)
    requires c.Valid() && Assigned(c, s)
    ensures Housed(c.m, c.threads, s.home, 0)
  {
    AssignedHomes(c, s);
    NodeListMembers(c.m);
    assert AtHome(c.m, s.home, s.place, c.threads);
    hide NodeList, IsNode, Assigned, c.Valid;
    forall g: nat | g < |c.m|
      ensures s.home[g] <= c.threads && (s.home[g] < c.threads <==> IsNode(c.m[g]))
    {
      if IsNode(c.m[g]) {
        var i: nat :| i < |NodeList(c.m)| && NodeList(c.m)[i] == g;
        assert s.home[g] == s.place[i];
      }
    }
  }

  lemma AssignedLoads(c: Merge, s: Progress)
    requires c.Valid() && Assigned(c, s)
    ensures HomeLoads(c.m, s.home, s.parts)
  {
    AssignedHomes(c, s);
    assert Loads(s.parts, s.place, c.root, c.Weights()) && |s.parts| == c.threads;
    assert AtHome(c.m, s.home, s.place, c.threads);
    hide NodeList, IsNode, Assigned, c.Valid, ClassWeight;
    assert Pick(s.home, NodeList(c.m)) == s.place;
    forall q: nat | q < |s.parts|
      ensures s.parts[q].weight == ClassWeight(s.home, DefinedWeights(c.m), q)
    {
      NodeClassWeight(c.m, NodeList(c.m), s.home, q);
    }
  }

  lemma AssignedTogether(c: Merge, s: Progress, nodeMap: map<nat, nat>, edges: set<Edge>)
    requires c.Valid() && Assigned(c, s) && Inverts(c.m, NodeList(c.m), nodeMap)
    requires Joined(c.root, edges) && MergedSoFar(c.m, NodeList(c.m), edges, |NodeList(c.m)|, 0)
    ensures Respects(s.home, UseEdges(c.m))
  {
    AssignedHomes(c, s);
    assert AtHome(c.m, s.home, s.place, c.threads);
    assert |c.root| == |NodeList(c.m)| && Respects(c.root, edges);
    hide NodeList, IsNode, Assigned, c.Valid, MergedSoFar, Joined, Inverts, Respects;
    var gs := NodeList(c.m);
    forall i, j | 0 <= i < |gs| && 0 <= j < |gs| && c.root[i] == c.root[j]
      ensures s.home[gs[i]] == s.home[gs[j]]
    {
      assert s.place[i] == Pick(s.place, c.root)[i] && s.place[j] == Pick(s.place, c.root)[j];
    }
    ComponentsRespect(c.m, gs, nodeMap, c.root, edges, s.home);
  }

  lemma AssignedBalanced(c: Merge, s: Progress, nodeMap: map<nat, nat>)
    requires c.Valid() && Assigned(c, s) && Inverts(c.m, NodeList(c.m), nodeMap)
    ensures |c.root| == |NodeList(c.m)| && Within(c.root, |c.root|)
    ensures Balanced(c.m, Components(c.m, NodeList(c.m), nodeMap, c.root), s.parts, s.bound)
  {
    assert |c.root| == |NodeList(c.m)| && Within(c.root, |c.root|);
    assert Spread(s.parts, s.bound) && IsComponentWeight(s.bound, c.root, c.Weights());
    hide NodeList, IsNode, Assigned, c.Valid, ClassWeight;
    var gs := NodeList(c.m);
    if s.bound != 0 {
      var r :| 0 <= r < |c.root| && c.root[r] == r && s.bound == ClassWeight(c.root, c.Weights(), r);
      RootComponentWeight(c.m, nodeMap, c.root, r);
      assert gs[r] < |c.m| && IsNode(c.m[gs[r]]);
    }
  }

  // ---------------------------------------------------------------------------
  // Coverage counters.
  // ---------------------------------------------------------------------------

  lemma CounterLoads(m: Module, home: seq<nat>, parts: seq<Partition>, parts': seq<Partition>, g: nat, q: nat)
    requires HomeLoads(m, home, parts) && g < |m| && IsCounterVariable(m[g]) && home[g] == |parts|
    requires q < |parts| == |parts'|
    requires forall p :: 0 <= p < |parts| ==> parts'[p].weight == parts[p].weight + (if p == q then 1 else 0)
    ensures HomeLoads(m, home[g := q], parts')
  {
    hide ClassWeight, IsCoverageCounter;
    forall p: nat | p < |parts|
      ensures parts'[p].weight == ClassWeight(home[g := q], DefinedWeights(m), p)
    {
      MoveOne(home, DefinedWeights(m), g, q, p);
    }
  }

  lemma CounterRespects(m: Module, home: seq<nat>, g: nat, q: nat)
    requires |home| == |m| && g < |m| && !IsNode(m[g]) && Respects(home, UseEdges(m))
    ensures Respects(home[g := q], UseEdges(m))
  {
    forall e | e in UseEdges(m)
      ensures e.0 < |m| && e.1 < |m| && home[g := q][e.0] == home[g := q][e.1]
    {
      var (a, b) := e;
      assert IsUse(m, a, b);
    }
  }

  lemma CounterBalanced(m: Module, comp: seq<nat>, parts: seq<Partition>, parts': seq<Partition>, g: nat, q: nat,
                        bound: nat)
    requires |comp| == |m| && Balanced(m, comp, parts, bound) && IsLightest(parts, q) && |parts'| == |parts|
    requires g < |m| && IsCounterVariable(m[g]) && ComponentWeight(m, comp, g) == 1
    requires forall p :: 0 <= p < |parts| ==> parts'[p].weight == parts[p].weight + (if p == q then 1 else 0)
    ensures Balanced(m, comp, parts', Max(bound, 1))
  {
    hide ComponentWeight, IsCounterVariable, IsNode;
    LightestKeepsSpread(parts, parts', q, bound, 1);
  }

  /** A counter is a component of its own, of weight one. */
  ghost predicate CountersAlone(m: Module, comp: seq<nat>)
    requires |comp| == |m|
  {
    forall g: nat :: g < |m| && IsCounterVariable(m[g]) ==> comp[g] == g && ComponentWeight(m, comp, g) == 1
  }

  /** Hand the counter variables out one by one, each to the lightest partition. */
  method AssignCounters(m: Module, threads: nat, parts0: seq<Partition>, ghost o0: Outcome)
    returns (parts: seq<Partition>, ghost o: Outcome)
    requires threads >= 1 && Partitioned(m, threads, parts0, o0, 0) && CountersAlone(m, o0.comp)
    ensures Partitioned(m, threads, parts, o, |m|) && o == o0.(home := o.home, bound := o.bound, h := o.h)
    ensures |o0.h.jobs| <= |o.h.jobs| && o.h.jobs[..|o0.h.jobs|] == o0.h.jobs
  {
    parts, o := parts0, o0;
    for g := 0 to |m|
      invariant Partitioned(m, threads, parts, o, g) && |parts| == threads
      invariant o == o0.(home := o.home, bound := o.bound, h := o.h)
      invariant |o0.h.jobs| <= |o.h.jobs| && o.h.jobs[..|o0.h.jobs|] == o0.h.jobs
    {
      hide Partitioned, IsCoverageCounter, IsLightest, CountersAlone;
      CounterStep(m, threads, parts, o, g);
      if m[g].kind == Variable && !m[g].isDeclaration && IsCoverageCounter(m[g]) {
        var q := Lightest(parts);
        LightestBelow(parts, q);
        o := WithCounter(o, g, q);
        parts := parts[q := AddCounter(parts[q], g)];
      }
    }
  }

  function AddCounter(part: Partition, g: nat): Partition {
    part.(globals := part.globals + {g}, weight := part.weight + 1)
  }

  ghost function WithCounter(o: Outcome, g: nat, q: nat): Outcome
    requires g < |o.home|
  {
    o.(home := o.home[g := q], bound := Max(o.bound, 1), h := HandOut(o.h, g, 1, q))
  }

  lemma CounterStep(m: Module, threads: nat, parts: seq<Partition>, o: Outcome, g: nat)
    requires Partitioned(m, threads, parts, o, g) && CountersAlone(m, o.comp) && g < |m|
    ensures |o.home| == |m|
    ensures !IsCounterVariable(m[g]) ==> Partitioned(m, threads, parts, o, g + 1)
    ensures IsCounterVariable(m[g]) ==> forall q: nat :: q < |parts| && IsLightest(parts, q) ==>
              Partitioned(m, threads, parts[q := AddCounter(parts[q], g)], WithCounter(o, g, q), g + 1)
  {
    hide Holds, Joined, Respects, HomeLoads, Balanced, HandedOut, IsCoverageCounter, ComponentWeight, IsLightest;
    if IsCounterVariable(m[g]) {
      forall q: nat | q < |parts| && IsLightest(parts, q)
        ensures Partitioned(m, threads, parts[q := AddCounter(parts[q], g)], WithCounter(o, g, q), g + 1)
      {
        var parts' := parts[q := AddCounter(parts[q], g)];
        AddKeepsHolds(m, o.fvars, o.gvars, o.home, parts, parts', q, g);
        CounterLoads(m, o.home, parts, parts', g, q);
        CounterRespects(m, o.home, g, q);
        CounterBalanced(m, o.comp, parts, parts', g, q, o.bound);
        CounterHandedOut(m, o.home, o.comp, parts, parts', g, q, o.h);
      }
    }
  }

  lemma CounterHandedOut(m: Module, home: seq<nat>, comp: seq<nat>, parts: seq<Partition>, parts': seq<Partition>,
                         g: nat, q: nat,
                         h: History)
    requires HandedOut(m, home, comp, parts, h) && IsLightest(parts, q) && |parts'| == |parts|
    requires g < |m| == |home| == |comp| && home[g] == |parts| && comp[g] == g && ComponentWeight(m, comp, g) == 1
    requires forall p :: 0 <= p < |parts| ==> parts'[p].weight == parts[p].weight + (if p == q then 1 else 0)
    ensures HandedOut(m, home[g := q], comp, parts', HandOut(h, g, 1, q))
  {
    hide ComponentWeight;
    assert HistoryOk(HandOut(h, g, 1, q), PartWeights(parts')) by {
      HandOutKeeps(h, PartWeights(parts), PartWeights(parts'), g, 1, q);
    }
    hide HistoryOk;
    var h' := HandOut(h, g, 1, q);
    forall i | 0 <= i < |h'.jobs|
      ensures JobAt(m, home[g := q], comp, |parts|, h'.jobs[i], h'.p[i], h'.at[i])
    {
      if i < |h.jobs| {
        assert JobAt(m, home, comp, |parts|, h.jobs[i], h.p[i], h.at[i]);
      }
    }
    assert forall i :: 0 <= i < |h.jobs| ==> JobAt(m, home, comp, |parts|, h.jobs[i], h.p[i], h.at[i]);
  }

  lemma LightestBelow(parts: seq<Partition>, q: nat)
    requires IsLightest(parts, q)
    ensures q < |parts|
  {
  }

  // ---------------------------------------------------------------------------
  // The whole.
  // ---------------------------------------------------------------------------

  ghost predicate Distinct(list: seq<nat>) {
    forall i, j :: 0 <= i < j < |list| ==> list[i] != list[j]
  }

  ghost predicate IndexesOf(list: seq<nat>, vars: map<nat, nat>) {
    && (forall i :: 0 <= i < |list| ==> list[i] in vars && vars[list[i]] == i)
    && (forall g :: g in vars ==> vars[g] < |list| && list[vars[g]] == g)
  }

  method IndexVars(list: seq<nat>) returns (vars: map<nat, nat>)
    requires Distinct(list)
    ensures IndexesOf(list, vars) && |vars| == |list|
  {
    vars := map[];
    for i := 0 to |list|
      invariant IndexesOf(list[..i], vars) && |vars| == i
    {
      assert list[i] !in vars;
      vars := vars[list[i] := i];
    }
    assert list[..|list|] == list;
  }

  /** Every counter-named definition is a variable. */
  predicate CountersAreVariables(m: Module) {
    forall g: nat :: g < |m| && !m[g].isDeclaration && IsCoverageCounter(m[g]) ==> m[g].kind == Variable
  }

  predicate AllNodes(m: Module, list: seq<nat>) {
    forall i :: 0 <= i < |list| ==> list[i] < |m| && IsNode(m[list[i]])
  }

  method PartitionModule(m: Module, fvarList: seq<nat>, gvarList: seq<nat>, threads: nat)
    returns (parts: seq<Partition>, verified: bool, ghost o: Outcome)
    requires threads >= 1 && WellFormed(m) && Distinct(fvarList) && Distinct(gvarList)
    ensures IndexesOf(fvarList, o.fvars) && IndexesOf(gvarList, o.gvars)
    ensures Partitioned(m, threads, parts, o, |m|)
    ensures verified <==> CountersAreVariables(m) && AllNodes(m, fvarList) && AllNodes(m, gvarList)
  {
    var fvars := IndexVars(fvarList);
    var gvars := IndexVars(gvarList);
    var uf := MakeNodes(m);
    ghost var edges := MergeUses(m, uf);
    ghost var c: Merge, s: Progress;
    parts, c, s := AssignNodes(m, fvars, gvars, threads, uf, edges);
    assert Mapped(c.nodes, uf.nodeMap) && Joined(c.root, edges);
    o := FinishAssign(c, s, uf.nodeMap, edges);
    hide Partitioned, Acceptable, CountersAreVariables, AllNodes, WellFormed, IndexesOf, Assigned, c.Valid;
    parts, o := AssignCounters(m, threads, parts, o);
    AcceptableIff(m, fvarList, gvarList, threads, parts, o);
    verified := VerifyPartitioning(parts, m, |fvars|, |gvars|);
  }

  lemma FinishAssign(c: Merge, s: Progress, nodeMap: map<nat, nat>, edges: set<Edge>) returns (o: Outcome)
    requires c.Valid() && Assigned(c, s) && Mapped(c.nodes, nodeMap) && Joined(c.root, edges)
    requires MergedSoFar(c.m, NodeList(c.m), edges, |NodeList(c.m)|, 0)
    ensures o.fvars == c.fvars && o.gvars == c.gvars && |o.comp| == |c.m|
    ensures Partitioned(c.m, c.threads, s.parts, o, 0) && CountersAlone(c.m, o.comp)
  {
    hide Housed, HomeLoads, Respects, Balanced, Joined, Holds, HandedOut, Assigned, NodeList, MergedSoFar, Inverts;
    hide Mapped, ComponentWeight, IsCounterVariable, c.Valid;
    MapIsInverse(c, nodeMap);
    AssignedHoused(c, s);
    AssignedLoads(c, s);
    AssignedTogether(c, s, nodeMap, edges);
    AssignedBalanced(c, s, nodeMap);
    ComponentsJoined(c.m, NodeList(c.m), nodeMap, c.root, edges);
    AssignedContents(c, s);
    var jobs := AssignedHandedOut(c, s, nodeMap);
    var comp := Components(c.m, NodeList(c.m), nodeMap, c.root);
    forall g: nat | g < |c.m| && IsCounterVariable(c.m[g])
      ensures comp[g] == g && ComponentWeight(c.m, comp, g) == 1
    {
      CounterComponentWeight(c.m, nodeMap, c.root, g);
    }
    o := Outcome(c.fvars, c.gvars, s.home, comp, s.bound, jobs);
  }

  lemma MapIsInverse(c: Merge, nodeMap: map<nat, nat>)
    requires c.Valid() && Mapped(c.nodes, nodeMap)
    ensures Inverts(c.m, NodeList(c.m), nodeMap)
  {
    MapInverts(c.m, c.nodes, nodeMap);
  }

  lemma AssignedContents(c: Merge, s: Progress)
    requires c.Valid() && Assigned(c, s)
    ensures |s.parts| == c.threads && Holds(c.m, c.fvars, c.gvars, s.home, s.parts)
  {
  }

  /** The history of the assignment, with nodes as globals. */
  lemma AssignedHandedOut(c: Merge, s: Progress, nodeMap: map<nat, nat>) returns (h: History)
    requires c.Valid() && Assigned(c, s) && Inverts(c.m, NodeList(c.m), nodeMap)
    ensures |c.root| == |NodeList(c.m)| && Within(c.root, |c.root|)
    ensures HandedOut(c.m, s.home, Components(c.m, NodeList(c.m), nodeMap, c.root), s.parts, h)
  {
    hide c.Valid, Assigned, Picked, HistoryOk, NodeList, JobAt, Components;
    var gs := NodeList(c.m);
    AssignedPicks(c, s);
    var comp := Components(c.m, gs, nodeMap, c.root);
    h := s.h.(jobs := seq(|s.h.jobs|, i requires 0 <= i < |s.h.jobs| => gs[s.h.jobs[i]]));
    assert HistoryOk(h, PartWeights(s.parts)) by { JobsDoNotMatter(s.h, h, PartWeights(s.parts)); }
    forall i | 0 <= i < |h.jobs|
      ensures JobAt(c.m, s.home, comp, c.threads, h.jobs[i], h.p[i], h.at[i])
    {
      JobOfRoot(c, s, nodeMap, s.h.jobs[i], s.h.p[i], s.h.at[i]);
    }
    assert forall i, j :: 0 <= i < j < |h.jobs| ==> h.jobs[i] != h.jobs[j] by {
      PicksDiffer(c, s.place, s.h, gs, nodeMap);
    }
  }

  lemma AssignedPicks(c: Merge, s: Progress)
    requires c.Valid() && Assigned(c, s)
    ensures |s.parts| == c.threads && |c.root| == |NodeList(c.m)| == |c.nodes| && Within(c.root, |c.root|)
    ensures Picked(c, s.place, s.h, |c.order|) && HistoryOk(s.h, PartWeights(s.parts))
    ensures |s.h.jobs| == |s.h.p| == |s.h.at|
    ensures forall i :: 0 <= i < |s.h.jobs| ==>
              PickedAt(c, s.place, s.h.jobs[i], s.h.p[i], s.h.at[i]) && s.h.jobs[i] < |c.nodes|
  {
    hide Placed, Holds, AtHome, Loads, NodeList, HistoryOk, ClassWeight;
  }

  /** Whether a history is greedy does not depend on what the jobs are called. */
  lemma JobsDoNotMatter(h: History, h': History, loads: seq<nat>)
    requires HistoryOk(h, loads) && |h'.jobs| == |h.jobs| && h'.p == h.p && h'.at == h.at
    ensures HistoryOk(h', loads)
  {
  }

  lemma PicksDiffer(c: Merge, place: seq<nat>, h: History, gs: seq<nat>, nodeMap: map<nat, nat>)
    requires Inverts(c.m, gs, nodeMap) && |gs| == |c.nodes| && Picked(c, place, h, |c.order|)
    ensures forall i, j :: 0 <= i < j < |h.jobs| ==>
              h.jobs[i] < |gs| && h.jobs[j] < |gs| && gs[h.jobs[i]] != gs[h.jobs[j]]
  {
    forall i, j | 0 <= i < j < |h.jobs|
      ensures h.jobs[i] < |gs| && h.jobs[j] < |gs| && gs[h.jobs[i]] != gs[h.jobs[j]]
    {
      assert PickedAt(c, place, h.jobs[i], h.p[i], h.at[i]) && PickedAt(c, place, h.jobs[j], h.p[j], h.at[j]);
    }
  }

  lemma JobOfRoot(c: Merge, s: Progress, nodeMap: map<nat, nat>, r: nat, weight: nat, q: nat)
    requires c.Valid() && Assigned(c, s) && Inverts(c.m, NodeList(c.m), nodeMap) && PickedAt(c, s.place, r, weight, q)
    requires |c.root| == |NodeList(c.m)| && Within(c.root, |c.root|)
    ensures JobAt(c.m, s.home, Components(c.m, NodeList(c.m), nodeMap, c.root), c.threads, NodeList(c.m)[r], weight, q)
  {
    assert WeighedAt(c.nodes, c.root, c.Weights(), r);
    assert AtHome(c.m, s.home, s.place, c.threads);
    hide c.Valid, Assigned, NodeList, ClassWeight, IsNode;
    var gs := NodeList(c.m);
    RootComponentWeight(c.m, nodeMap, c.root, r);
    assert nodeMap[gs[r]] == r;
  }

  // ---------------------------------------------------------------------------
  // Acceptance.
  // ---------------------------------------------------------------------------

  lemma AcceptableIff(m: Module, fvarList: seq<nat>, gvarList: seq<nat>, threads: nat, parts: seq<Partition>,
                      o: Outcome)
    requires WellFormed(m) && IndexesOf(fvarList, o.fvars) && IndexesOf(gvarList, o.gvars)
    requires Partitioned(m, threads, parts, o, |m|)
    ensures Fits(Fvars(parts), |fvarList|) && Fits(Gvars(parts), |gvarList|)
    ensures Acceptable(parts, m, |fvarList|, |gvarList|)
       <==> CountersAreVariables(m) && AllNodes(m, fvarList) && AllNodes(m, gvarList)
  {
    hide Joined, HomeLoads, Balanced, IsCoverageCounter, WellFormed;
    forall q: nat | q < |parts|
      ensures Contents(m, o.fvars, o.gvars, o.home, q, parts[q])
    {
    }
    TableAccepts(m, threads, o.home, fvarList, o.fvars, Fvars(parts));
    TableAccepts(m, threads, o.home, gvarList, o.gvars, Gvars(parts));
    GlobalsAccept(m, o.fvars, o.gvars, threads, parts, o.home);
    hide Unshared, Listed, Fits, GlobalOk, CountersAreVariables, AllNodes, Partitioned, IndexesOf;
  }

  lemma TableAccepts(m: Module, threads: nat, home: seq<nat>, list: seq<nat>, vars: map<nat, nat>,
                     tables: seq<map<nat, nat>>)
    requires IndexesOf(list, vars) && Housed(m, threads, home, |m|) && |tables| == threads
    requires forall q: nat :: q < threads ==> Table(m, home, q, vars, tables[q])
    ensures Fits(tables, |list|) && Unshared(tables)
    ensures (forall i: nat :: i < |list| ==> Listed(tables, i)) <==> AllNodes(m, list)
  {
    hide IsCoverageCounter;
    forall p, q, g, h | 0 <= p < |tables| && 0 <= q < |tables| && g in tables[p] && h in tables[q] &&
           tables[p][g] == tables[q][h]
      ensures p == q && g == h
    {
      assert Table(m, home, p, vars, tables[p]) && Table(m, home, q, vars, tables[q]);
    }
    forall i: nat | i < |list|
      ensures Listed(tables, i) <==> list[i] < |m| && IsNode(m[list[i]])
    {
      ListedIffNode(m, threads, home, list, vars, tables, i);
    }
    hide Listed, IsNode, Unshared;
  }

  lemma ListedIffNode(m: Module, threads: nat, home: seq<nat>, list: seq<nat>, vars: map<nat, nat>,
                      tables: seq<map<nat, nat>>, i: nat)
    requires IndexesOf(list, vars) && Housed(m, threads, home, |m|) && |tables| == threads && i < |list|
    requires forall q: nat :: q < threads ==> Table(m, home, q, vars, tables[q])
    ensures Listed(tables, i) <==> list[i] < |m| && IsNode(m[list[i]])
  {
    hide IsCoverageCounter;
    var g := list[i];
    if Listed(tables, i) {
      var p, h :| 0 <= p < |tables| && h in tables[p] && tables[p][h] == i;
      assert Table(m, home, p, vars, tables[p]);
    }
    if g < |m| && IsNode(m[g]) {
      assert Table(m, home, home[g], vars, tables[home[g]]);
      assert g in tables[home[g]] && tables[home[g]][g] == i;
    }
  }

  lemma GlobalsAccept(m: Module, fvars: map<nat, nat>, gvars: map<nat, nat>, threads: nat, parts: seq<Partition>,
                      home: seq<nat>)
    requires WellFormed(m) && |parts| == threads && Housed(m, threads, home, |m|) && Respects(home, UseEdges(m))
    requires Holds(m, fvars, gvars, home, parts)
    ensures Disjoint(parts)
    ensures (forall g: nat :: g < |m| ==> GlobalOk(parts, m, g)) <==> CountersAreVariables(m)
  {
    hide IsCoverageCounter, UsesInside, Table;
    forall g: nat
      ensures InSome(parts, g) <==> g < |m| && home[g] < threads
    {
      HomeIffInSome(m, fvars, gvars, parts, home, g);
    }
    forall p, q, g | 0 <= p < q < |parts| && g in parts[p].globals
      ensures g !in parts[q].globals
    {
      assert Contents(m, fvars, gvars, home, p, parts[p]) && Contents(m, fvars, gvars, home, q, parts[q]);
    }
    hide Holds, InSome;
    if forall g: nat :: g < |m| ==> GlobalOk(parts, m, g) {
      forall g: nat | g < |m| && !m[g].isDeclaration && IsCoverageCounter(m[g])
        ensures m[g].kind == Variable
      {
        assert GlobalOk(parts, m, g);
      }
    }
    if CountersAreVariables(m) {
      forall g: nat | g < |m|
        ensures GlobalOk(parts, m, g)
      {
        if !m[g].isDeclaration {
          UsesAccept(m, fvars, gvars, threads, parts, home, g);
        }
      }
    }
  }

  lemma HomeIffInSome(m: Module, fvars: map<nat, nat>, gvars: map<nat, nat>, parts: seq<Partition>, home: seq<nat>,
                      g: nat)
    requires |home| == |m| && Holds(m, fvars, gvars, home, parts)
    ensures InSome(parts, g) <==> g < |m| && home[g] < |parts|
  {
    hide Table;
    if g < |m| && home[g] < |parts| {
      assert Contents(m, fvars, gvars, home, home[g], parts[home[g]]);
      assert g in parts[home[g]].globals;
    }
    if InSome(parts, g) {
      var p :| 0 <= p < |parts| && g in parts[p].globals;
      assert Contents(m, fvars, gvars, home, p, parts[p]);
    }
  }

  lemma UsesAccept(m: Module, fvars: map<nat, nat>, gvars: map<nat, nat>, threads: nat, parts: seq<Partition>,
                   home: seq<nat>, g: nat)
    requires WellFormed(m) && |parts| == threads && Housed(m, threads, home, |m|) && Respects(home, UseEdges(m))
    requires Holds(m, fvars, gvars, home, parts)
    requires CountersAreVariables(m) && g < |m| && !m[g].isDeclaration
    ensures UsesInside(parts, m, g, m[g].users)
  {
    hide IsCoverageCounter, Table;
    var users := m[g].users;
    assert UsersDefined(m, users);
    forall j | 0 <= j < |users|
      ensures InSome(parts, users[j])
      ensures forall p, q ::
        0 <= p < |parts| && 0 <= q < |parts| && users[j] in parts[p].globals && g in parts[q].globals ==>
          p == q || IsCoverageCounter(m[g]) || (users[j] < |m| && IsCoverageCounter(m[users[j]]))
    {
      var u := users[j];
      HomeIffInSome(m, fvars, gvars, parts, home, u);
      if !IsCoverageCounter(m[g]) && !IsCoverageCounter(m[u]) {
        assert IsUse(m, g, u);
        assert (g, u) in UseEdges(m);
      }
      forall p, q | 0 <= p < |parts| && 0 <= q < |parts| && u in parts[p].globals && g in parts[q].globals
        ensures p == home[u] && q == home[g]
      {
        assert Contents(m, fvars, gvars, home, p, parts[p]) && Contents(m, fvars, gvars, home, q, parts[q]);
      }
    }
  }

  /** A function with a counter's name is left without a partition, and no such result is accepted. */
  lemma CounterFunctionRejected(threads: nat, parts: seq<Partition>, o: Outcome)
    requires var m := [Global("jl_covctr_f", false, Function([1], None), [])];
      o.fvars == o.gvars == map[] && Partitioned(m, threads, parts, o, |m|)
    ensures !Acceptable(parts, [Global("jl_covctr_f", false, Function([1], None), [])], 0, 0)
  {
    var m := [Global("jl_covctr_f", false, Function([1], None), [])];
    assert IsCoverageCounter(m[0]);
    assert !CountersAreVariables(m);
    hide Partitioned, Acceptable, CountersAreVariables;
    AcceptableIff(m, [], [], threads, parts, o);
  }
}
