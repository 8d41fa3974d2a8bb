/**
partitionModule of src/aotcompile.cpp: merge every global with its users, hand the merged
components out, heaviest first, to the lightest partition, then spread the coverage counters.

`home[g]` is the partition of global `g`; a global of no partition has the home `threads`.
 */
module PartitionNodes {
  import opened ModuleInfo
  import opened Partitioner

  datatype Partition = Partition(globals: set<nat>, fvars: map<nat, nat>, gvars: map<nat, nat>, weight: nat)

  /** The globals that take part in the union-find. */
  predicate IsNode(g: Global) {
    !g.isDeclaration && !IsCoverageCounter(g)
  }

  /** The coverage counters that are handed out at the end. */
  predicate IsCounterVariable(g: Global) {
    g.kind == Variable && !g.isDeclaration && IsCoverageCounter(g)
  }

  /** A use between two globals that take part. */
  predicate IsUse(m: Module, g: nat, h: nat) {
    g < |m| && h < |m| && IsNode(m[g]) && IsNode(m[h]) && h in m[g].users
  }

  ghost function UseEdges(m: Module): (s: set<Edge>)
    ensures forall g: nat, h: nat :: (g, h) in s <==> IsUse(m, g, h)
  {
    set g, h | 0 <= g < |m| && 0 <= h < |m| && IsUse(m, g, h) :: (g, h)
  }

  // ---------------------------------------------------------------------------
  // Nodes.
  // ---------------------------------------------------------------------------

  function NodeList(m: Module): seq<nat> {
    if |m| == 0 then []
    else NodeList(m[..|m| - 1]) + (if IsNode(m[|m| - 1]) then [|m| - 1] else [])
  }

  lemma {:induction false} NodeListMembers(m: Module)
    ensures forall i :: 0 <= i < |NodeList(m)| ==> NodeList(m)[i] < |m| && IsNode(m[NodeList(m)[i]])
    ensures forall i, j :: 0 <= i < j < |NodeList(m)| ==> NodeList(m)[i] < NodeList(m)[j]
    ensures forall g: nat :: g < |m| && IsNode(m[g]) ==> g in NodeList(m)
  {
    if |m| > 0 {
      var n := |m| - 1;
      NodeListMembers(m[..n]);
      var gs0 := NodeList(m[..n]);
      assert NodeList(m) == gs0 + (if IsNode(m[n]) then [n] else []);
      hide NodeList, IsNode;
      assert forall i :: 0 <= i < |gs0| ==> m[gs0[i]] == m[..n][gs0[i]];
      forall g: nat | g < |m| && IsNode(m[g])
        ensures g in NodeList(m)
      {
        assert g < n ==> m[..n][g] == m[g];
      }
    }
  }

  ghost predicate Within(gs: seq<nat>, n: nat) {
    forall i :: 0 <= i < |gs| ==> gs[i] < n
  }

  /** The weights of the listed globals. */
  ghost function NodeWeights(m: Module, gs: seq<nat>): (w: seq<nat>)
    requires Within(gs, |m|)
    ensures |w| == |gs| && forall i :: 0 <= i < |gs| ==> w[i] == Weight(m[gs[i]])
  {
    seq(|gs|, i requires 0 <= i < |gs| => Weight(m[gs[i]]))
  }

  /** The labels of the listed globals. */
  ghost function Pick(lab: seq<nat>, gs: seq<nat>): (s: seq<nat>)
    requires Within(gs, |lab|)
    ensures |s| == |gs| && forall i :: 0 <= i < |gs| ==> s[i] == lab[gs[i]]
  {
    seq(|gs|, i requires 0 <= i < |gs| => lab[gs[i]])
  }

  /**
  A label that only nodes carry weighs the same over the nodes as over the whole module.
   */
  lemma {:induction false} NodeClassWeight(m: Module, gs: seq<nat>, lab: seq<nat>, r: nat)
    requires |lab| == |m| && gs == NodeList(m)
    requires forall g :: 0 <= g < |m| && !IsNode(m[g]) ==> lab[g] != r
    ensures Within(gs, |m|)
    ensures ClassWeight(lab, DefinedWeights(m), r) == ClassWeight(Pick(lab, gs), NodeWeights(m, gs), r)
  {
    hide IsCoverageCounter;
    if |m| > 0 {
      var n := |m| - 1;
      var gs0 := NodeList(m[..n]);
      assert gs == gs0 + (if IsNode(m[n]) then [n] else []);
      hide NodeList, ClassWeight, Weight;
      NodeClassWeight(m[..n], gs0, lab[..n], r);
      var dw := DefinedWeights(m);
      assert dw[..n] == DefinedWeights(m[..n]);
      assert dw[n] == if m[n].isDeclaration then 0 else Weight(m[n]);
      ClassWeightLast(lab, dw, r);
      PickOneMore(m, lab, gs0, r);
      if !IsNode(m[n]) {
        assert gs == gs0;
      } else {
        assert gs == gs0 + [n];
      }
    }
  }

  lemma PickOneMore(m: Module, lab: seq<nat>, gs: seq<nat>, r: nat)
    requires 0 < |m| == |lab| && Within(gs, |m| - 1)
    ensures Within(gs, |m|) && Within(gs + [|m| - 1], |m|)
    ensures var n := |m| - 1;
      && Pick(lab, gs) == Pick(lab[..n], gs) && NodeWeights(m, gs) == NodeWeights(m[..n], gs)
      && ClassWeight(Pick(lab, gs + [n]), NodeWeights(m, gs + [n]), r)
      == ClassWeight(Pick(lab[..n], gs), NodeWeights(m[..n], gs), r) + (if lab[n] == r then Weight(m[n]) else 0)
  {
    hide ClassWeight;
    var n := |m| - 1;
    assert Pick(lab, gs) == Pick(lab[..n], gs);
    assert NodeWeights(m, gs) == NodeWeights(m[..n], gs);
    assert Pick(lab, gs + [n]) == Pick(lab, gs) + [lab[n]];
    assert NodeWeights(m, gs + [n]) == NodeWeights(m, gs) + [Weight(m[n])];
    ClassWeightAppend(Pick(lab, gs), NodeWeights(m, gs), lab[n], Weight(m[n]), r);
  }

  /** Whether `uf` holds the nodes of `m`. */
  ghost predicate NodesOf(m: Module, nodes: seq<Node>) {
    |nodes| == |NodeList(m)| && forall i :: 0 <= i < |nodes| ==> nodes[i].gv == NodeList(m)[i]
  }

  /** The union-find after the first `k` globals. */
  ghost predicate Made(m: Module, k: nat, uf: UnionFind)
    reads uf
    requires k <= |m|
  {
    && uf.Valid() && NodesOf(m[..k], uf.nodes) && Within(NodeList(m[..k]), k)
    && |uf.root| == |uf.nodes| && (forall i :: 0 <= i < |uf.root| ==> uf.root[i] == i)
    && (forall g :: g in uf.nodeMap ==> g < k)
    && Weighed(uf.nodes, uf.root, NodeWeights(m, NodeList(m[..k])))
    && Sized(uf.nodes, uf.root, uf.rank)
  }

  lemma NodeListStep(m: Module, k: nat)
    requires k < |m| && Within(NodeList(m[..k]), k)
    ensures IsNode(m[k]) ==>
              && NodeList(m[..k + 1]) == NodeList(m[..k]) + [k]
              && NodeWeights(m, NodeList(m[..k + 1])) == NodeWeights(m, NodeList(m[..k])) + [Weight(m[k])]
    ensures !IsNode(m[k]) ==> NodeList(m[..k + 1]) == NodeList(m[..k])
    ensures Within(NodeList(m[..k + 1]), k + 1)
  {
    hide IsNode;
    assert m[..k + 1][..k] == m[..k];
  }

  method MakeNodes(m: Module) returns (uf: UnionFind)
    ensures fresh(uf) && Merged(m, uf, {})
  {
    uf := new UnionFind();
    assert Made(m, 0, uf);
    hide Made, Merged;
    for g := 0 to |m|
      invariant fresh(uf) && Made(m, g, uf)
    {
      MakeNode(m, g, uf);
    }
    AllMade(m, uf);
  }

  lemma AllMade(m: Module, uf: UnionFind)
    requires Made(m, |m|, uf)
    ensures Merged(m, uf, {})
  {
    hide Weighed, Sized, Forest, Mapped, NodeList;
    assert m[..|m|] == m;
  }

  /** A node for a definition, unless it is a coverage counter. */
  method MakeNode(m: Module, g: nat, uf: UnionFind)
    requires g < |m| && Made(m, g, uf)
    modifies uf
    ensures Made(m, g + 1, uf)
  {
    hide Weighed, Sized, Forest, Mapped, NodeList, IsCoverageCounter;
    NodeListStep(m, g);
    if !m[g].isDeclaration && !IsCoverageCounter(m[g]) {
      var weight: nat := 1;
      if m[g].kind.Function? {
        var info := GetFunctionWeight(m[g].kind.blocks, m[g].kind.mask);
        weight := info.weight;
      }
      var idx := uf.Make(g, weight, NodeWeights(m, NodeList(m[..g])));
    }
  }

  // ---------------------------------------------------------------------------
  // Merging.
  // ---------------------------------------------------------------------------

  /** The use edges of the first `i` nodes and of the first `j` users of node `i`, between nodes. */
  ghost predicate MergedSoFar(m: Module, gs: seq<nat>, edges: set<Edge>, i: nat, j: nat)
    requires Within(gs, |m|)
  {
    && (forall a: nat, b: nat :: (a, b) in edges ==> a < |gs| && b < |gs| && gs[b] in m[gs[a]].users)
    && (forall a, b :: 0 <= a < |gs| && 0 <= b < |gs| && a < i && gs[b] in m[gs[a]].users ==> (a, b) in edges)
    && (forall b :: 0 <= b < |gs| && i < |gs| && j <= |m[gs[i]].users| && gs[b] in m[gs[i]].users[..j] ==>
         (i, b) in edges)
  }

  lemma MergeAdvance(m: Module, gs: seq<nat>, edges: set<Edge>, i: nat, j: nat, b: nat, edges': set<Edge>)
    requires Within(gs, |m|)
    requires forall k, l :: 0 <= k < l < |gs| ==> gs[k] != gs[l]
    requires MergedSoFar(m, gs, edges, i, j)
    requires i < |gs| && j < |m[gs[i]].users| && b <= |gs|
    requires b < |gs| ==> gs[b] == m[gs[i]].users[j] && edges' == edges + {(i, b)}
    requires b == |gs| ==> m[gs[i]].users[j] !in gs && edges' == edges
    ensures MergedSoFar(m, gs, edges', i, j + 1)
  {
    var users := m[gs[i]].users;
    assert users[..j + 1] == users[..j] + [users[j]];
  }

  /** A module's nodes with their weights, merged along the given edges. */
  ghost predicate Merged(m: Module, uf: UnionFind, edges: set<Edge>)
    reads uf
  {
    && uf.Valid() && NodesOf(m, uf.nodes) && Within(NodeList(m), |m|)
    && Weighed(uf.nodes, uf.root, NodeWeights(m, NodeList(m))) && Sized(uf.nodes, uf.root, uf.rank)
    && Joined(uf.root, edges)
  }

  method MergeUses(m: Module, uf: UnionFind) returns (ghost edges: set<Edge>)
    requires WellFormed(m) && Merged(m, uf, {})
    modifies uf
    ensures Merged(m, uf, edges) && MergedSoFar(m, NodeList(m), edges, |NodeList(m)|, 0)
  {
    hide Weighed, Sized, Joined, NodeList;
    edges := {};
    for i := 0 to |uf.nodes|
      invariant |uf.nodes| == |NodeList(m)| && Merged(m, uf, edges) && MergedSoFar(m, NodeList(m), edges, i, 0)
    {
      hide MergedSoFar;
      edges := MergeUsersOf(m, uf, i, edges);
    }
  }

  method MergeUsersOf(m: Module, uf: UnionFind, i: nat, ghost edges0: set<Edge>) returns (ghost edges: set<Edge>)
    requires WellFormed(m) && Merged(m, uf, edges0)
    requires i < |uf.nodes| && MergedSoFar(m, NodeList(m), edges0, i, 0)
    modifies uf
    ensures Merged(m, uf, edges) && MergedSoFar(m, NodeList(m), edges, i + 1, 0)
  {
    NodeListMembers(m);
    hide MergedSoFar, Weighed, Sized, Forest, Joined, NodeList, IsCoverageCounter;
    edges := edges0;
    ghost var gs := NodeList(m);
    var users := m[uf.nodes[i].gv].users;
    for j := 0 to |users|
      invariant |uf.nodes| == |gs| && Merged(m, uf, edges) && MergedSoFar(m, gs, edges, i, j)
    {
      assert UsersDefined(m, users);
      var val := users[j];
      if val !in uf.nodeMap {
        assert IsCoverageCounter(m[val]) by { OnlyCountersSkipped(m, uf.nodes, uf.nodeMap, val); }
        assert val !in gs;
        MergeAdvance(m, gs, edges, i, j, |gs|, edges);
      } else {
        var k := uf.nodeMap[val];
        assert uf.nodes[k].gv == val;
        var r := uf.Merge(i, k, NodeWeights(m, gs), edges);
        MergeAdvance(m, gs, edges, i, j, k, edges + {(i, k)});
        edges := edges + {(i, k)};
      }
    }
    MergedRow(m, gs, edges, i);
  }

  /** A definition without a node is a coverage counter. */
  lemma OnlyCountersSkipped(m: Module, nodes: seq<Node>, nodeMap: map<nat, nat>, g: nat)
    requires NodesOf(m, nodes) && Mapped(nodes, nodeMap) && g < |m| && !m[g].isDeclaration && g !in nodeMap
    ensures IsCoverageCounter(m[g])
  {
    NodeListMembers(m);
  }

  lemma MergedRow(m: Module, gs: seq<nat>, edges: set<Edge>, i: nat)
    requires Within(gs, |m|)
    requires i < |gs| && MergedSoFar(m, gs, edges, i, |m[gs[i]].users|)
    ensures MergedSoFar(m, gs, edges, i + 1, 0)
  {
    assert m[gs[i]].users[..|m[gs[i]].users|] == m[gs[i]].users;
  }
}
