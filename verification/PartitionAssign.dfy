/**
The assignment phase of partitionModule (src/aotcompile.cpp): components, heaviest first, go
to the lightest partition.  `place[i]` is the partition of node `i`, or `threads` while it has
none; the union-find's `size` fields are overwritten with it while `Find` stays in use.
 */
module PartitionAssign {
  import opened Basics
  import opened ModuleInfo
  import opened Partitioner
  import opened PartitionNodes
  import opened ListScheduling

  // ---------------------------------------------------------------------------
  // Heaviest first.
  // ---------------------------------------------------------------------------

  /** `order` lists the numbers below `n`, each once. */
  ghost predicate Permutes(order: seq<nat>, n: nat) {
    && |order| == n && Within(order, n)
    && (forall k, l :: 0 <= k < l < n ==> order[k] != order[l])
    && (forall i: nat :: i < n ==> i in order)
  }

  ghost predicate Descending(nodes: seq<Node>, order: seq<nat>) {
    && Within(order, |nodes|)
    && forall k, l :: 0 <= k < l < |order| ==> nodes[order[k]].weight >= nodes[order[l]].weight
  }

  ghost predicate HeaviestFirst(nodes: seq<Node>, order: seq<nat>, n: nat) {
    Permutes(order, n) && Descending(nodes, order)
  }

  function InsertAt(order: seq<nat>, p: nat, x: nat): (s: seq<nat>)
    requires p <= |order|
    ensures |s| == |order| + 1
    ensures forall i :: 0 <= i < |s| ==> s[i] == if i < p then order[i] else if i == p then x else order[i - 1]
    ensures forall i: nat :: i in s <==> i == x || i in order
  {
    assert order == order[..p] + order[p..];
    order[..p] + [x] + order[p..]
  }

  lemma InsertKeepsPermutation(order: seq<nat>, p: nat)
    requires Permutes(order, |order|) && p <= |order|
    ensures Permutes(InsertAt(order, p, |order|), |order| + 1)
  {
  }

  lemma InsertKeepsDescending(nodes: seq<Node>, order: seq<nat>, p: nat, n: nat)
    requires n < |nodes| && Descending(nodes, order) && p <= |order|
    requires forall k :: 0 <= k < p ==> nodes[order[k]].weight >= nodes[n].weight
    requires forall k :: p <= k < |order| ==> nodes[order[k]].weight <= nodes[n].weight
    ensures Descending(nodes, InsertAt(order, p, n))
  {
  }

  method SortByWeight(nodes: seq<Node>) returns (order: seq<nat>)
    ensures HeaviestFirst(nodes, order, |nodes|)
  {
    order := [];
    for n := 0 to |nodes|
      invariant HeaviestFirst(nodes, order, n)
    {
      var p := n;
      while p > 0 && nodes[order[p - 1]].weight < nodes[n].weight
        invariant 0 <= p <= n
        invariant forall k :: p <= k < n ==> nodes[order[k]].weight <= nodes[n].weight
      {
        p := p - 1;
      }
      InsertKeepsPermutation(order, p);
      InsertKeepsDescending(nodes, order, p, n);
      order := InsertAt(order, p, n);
    }
  }

  // ---------------------------------------------------------------------------
  // Loads.
  // ---------------------------------------------------------------------------

  /** The heaviest and the lightest partition differ by at most `b`. */
  ghost predicate Spread(parts: seq<Partition>, b: nat) {
    forall p, q :: 0 <= p < |parts| && 0 <= q < |parts| ==> parts[p].weight <= parts[q].weight + b
  }

  ghost predicate IsLightest(parts: seq<Partition>, q: nat) {
    q < |parts| && forall p :: 0 <= p < |parts| ==> parts[q].weight <= parts[p].weight
  }

  method Lightest(parts: seq<Partition>) returns (q: nat)
    requires |parts| >= 1
    ensures IsLightest(parts, q)
  {
    q := 0;
    for p := 1 to |parts|
      invariant q < p && forall k :: 0 <= k < p ==> parts[q].weight <= parts[k].weight
    {
      if parts[p].weight < parts[q].weight {
        q := p;
      }
    }
  }

  lemma LightestKeepsSpread(parts: seq<Partition>, parts': seq<Partition>, q: nat, b: nat, c: nat)
    requires IsLightest(parts, q) && Spread(parts, b) && |parts'| == |parts|
    requires forall p :: 0 <= p < |parts| ==> parts'[p].weight == parts[p].weight + (if p == q then c else 0)
    ensures Spread(parts', Max(b, c))
  {
  }

  /** Moving a whole class from the label `t` to the label `q` moves its weight. */
  lemma {:induction false} MoveClass(root: seq<nat>, w: seq<nat>, lab: seq<nat>, lab': seq<nat>, r: nat, t: nat,
                                     q: nat, c: nat)
    requires |root| == |w| == |lab| == |lab'| && q != t && c != t
    requires forall j :: 0 <= j < |root| ==> lab'[j] == if root[j] == r then q else lab[j]
    requires forall j :: 0 <= j < |root| && root[j] == r ==> lab[j] == t
    ensures ClassWeight(lab', w, c) == ClassWeight(lab, w, c) + (if c == q then ClassWeight(root, w, r) else 0)
  {
    if |root| > 0 {
      var n := |root| - 1;
      MoveClass(root[..n], w[..n], lab[..n], lab'[..n], r, t, q, c);
    }
  }

  /** A partition weighs as much as the components whose root it holds. */
  ghost predicate Loads(parts: seq<Partition>, place: seq<nat>, root: seq<nat>, w: seq<nat>) {
    && |root| == |w| == |place| && Within(root, |place|)
    && forall q :: 0 <= q < |parts| ==> parts[q].weight == ClassWeight(Pick(place, root), w, q)
  }

  lemma LoadRoot(parts: seq<Partition>, parts': seq<Partition>, place: seq<nat>, root: seq<nat>, w: seq<nat>, r: nat,
                 q: nat)
    requires Loads(parts, place, root, w) && r < |root| && root[r] == r && place[r] == |parts|
    requires q < |parts| == |parts'|
    requires forall p :: 0 <= p < |parts| ==>
               parts'[p].weight == parts[p].weight + (if p == q then ClassWeight(root, w, r) else 0)
    ensures Loads(parts', place[r := q], root, w)
  {
    hide ClassWeight;
    var place' := place[r := q];
    forall c | 0 <= c < |parts|
      ensures parts'[c].weight == ClassWeight(Pick(place', root), w, c)
    {
      MoveClass(root, w, Pick(place, root), Pick(place', root), r, |parts|, q, c);
    }
  }

  lemma LoadMember(parts: seq<Partition>, parts': seq<Partition>, place: seq<nat>, root: seq<nat>, w: seq<nat>,
                   i: nat, q: nat)
    requires Loads(parts, place, root, w) && i < |root| && root[i] != i && |parts'| == |parts|
    requires forall j :: 0 <= j < |root| ==> root[root[j]] == root[j]
    requires forall p :: 0 <= p < |parts| ==> parts'[p].weight == parts[p].weight
    ensures Loads(parts', place[i := q], root, w)
  {
    hide ClassWeight;
    assert Pick(place[i := q], root) == Pick(place, root);
  }

  // ---------------------------------------------------------------------------
  // Contents.
  // ---------------------------------------------------------------------------

  function AddGlobal(part: Partition, g: nat, fvars: map<nat, nat>, gvars: map<nat, nat>): Partition {
    part.(
      globals := part.globals + {g},
      fvars := if g in fvars then part.fvars[g := fvars[g]] else part.fvars,
      gvars := if g in gvars then part.gvars[g := gvars[g]] else part.gvars)
  }

  /** A variable table of partition `q`: the nodes at home there, with their indices. */
  ghost predicate Table(m: Module, home: seq<nat>, q: nat, vars: map<nat, nat>, mine: map<nat, nat>) {
    && |home| == |m|
    && (forall g: nat :: g in mine <==> g in vars && g < |m| && home[g] == q && IsNode(m[g]))
    && (forall g: nat :: g in mine ==> mine[g] == vars[g])
  }

  ghost predicate Contents(m: Module, fvars: map<nat, nat>, gvars: map<nat, nat>, home: seq<nat>, q: nat,
                           part: Partition) {
    && |home| == |m|
    && (forall g: nat :: g in part.globals <==> g < |m| && home[g] == q)
    && Table(m, home, q, fvars, part.fvars)
    && Table(m, home, q, gvars, part.gvars)
  }

  ghost predicate Holds(m: Module, fvars: map<nat, nat>, gvars: map<nat, nat>, home: seq<nat>, parts: seq<Partition>) {
    forall q :: 0 <= q < |parts| ==> Contents(m, fvars, gvars, home, q, parts[q])
  }

  lemma TableStep(m: Module, home: seq<nat>, p: nat, vars: map<nat, nat>, mine: map<nat, nat>, g: nat, q: nat)
    requires Table(m, home, p, vars, mine) && g < |m| && home[g] != p
    ensures Table(m, home[g := q], p, vars,
                  if p == q && IsNode(m[g]) && g in vars then mine[g := vars[g]] else mine)
  {
    hide IsCoverageCounter;
  }

  /** Global `g`, at home nowhere yet, moves into partition `q`; only nodes enter the tables. */
  lemma AddKeepsHolds(m: Module, fvars: map<nat, nat>, gvars: map<nat, nat>, home: seq<nat>,
                      parts: seq<Partition>, parts': seq<Partition>, q: nat, g: nat)
    requires Holds(m, fvars, gvars, home, parts) && g < |m| == |home| && home[g] == |parts| && q < |parts| == |parts'|
    requires var part := if IsNode(m[g]) then AddGlobal(parts[q], g, fvars, gvars)
                        else parts[q].(globals := parts[q].globals + {g});
             parts' == parts[q := part.(weight := parts'[q].weight)]
    ensures Holds(m, fvars, gvars, home[g := q], parts')
  {
    hide IsNode, Table;
    forall p | 0 <= p < |parts|
      ensures Contents(m, fvars, gvars, home[g := q], p, parts'[p])
    {
      assert Contents(m, fvars, gvars, home, p, parts[p]);
      TableStep(m, home, p, fvars, parts[p].fvars, g, q);
      TableStep(m, home, p, gvars, parts[p].gvars, g, q);
    }
  }

  // ---------------------------------------------------------------------------
  // The loop.
  // ---------------------------------------------------------------------------

  /** Node `i` after some of the nodes have been placed. */
  ghost predicate PlacedAt(nodes0: seq<Node>, nodes: seq<Node>, root: seq<nat>, place: seq<nat>, threads: nat, i: nat)
    requires |nodes0| == |nodes| == |root| == |place| && i < |nodes|
  {
    && nodes[i].gv == nodes0[i].gv && root[i] < |nodes| && place[i] <= threads
    && (place[i] < threads ==> nodes[i].weight == 0 && nodes[i].size == place[i] == place[root[i]])
    && (place[i] == threads ==> nodes[i].weight == nodes0[i].weight)
  }

  ghost predicate Placed(nodes0: seq<Node>, nodes: seq<Node>, root: seq<nat>, place: seq<nat>, threads: nat) {
    && |nodes0| == |nodes| == |root| == |place|
    && forall i :: 0 <= i < |nodes| ==> PlacedAt(nodes0, nodes, root, place, threads, i)
  }

  ghost predicate PlacedUpTo(order: seq<nat>, k: nat, place: seq<nat>, threads: nat)
    requires k <= |order|
  {
    && Within(order, |place|)
    && (forall l :: 0 <= l < k ==> place[order[l]] < threads)
    && (forall l :: k <= l < |order| ==> place[order[l]] == threads)
  }

  /** A root is heavier than the rest of its class, so it comes first. */
  lemma RootComesFirst(nodes0: seq<Node>, root: seq<nat>, w: seq<nat>, order: seq<nat>, k: nat, place: seq<nat>,
                       threads: nat)
    requires Weighed(nodes0, root, w) && HeaviestFirst(nodes0, order, |nodes0|) && |place| == |nodes0|
    requires k < |order| && PlacedUpTo(order, k, place, threads)
    ensures order[k] < |root| && root[order[k]] < |place|
    ensures root[order[k]] != order[k] ==> place[root[order[k]]] < threads
    ensures nodes0[order[k]].weight >= 1 && place[order[k]] == threads
  {
    var i := order[k];
    assert WeighedAt(nodes0, root, w, i);
    if root[i] != i {
      assert root[i] in order;
      var l :| 0 <= l < |order| && order[l] == root[i];
    }
  }

  lemma ReparentKeepsPlaced(nodes0: seq<Node>, nodes: seq<Node>, nodes': seq<Node>, root: seq<nat>, place: seq<nat>,
                            threads: nat)
    requires Placed(nodes0, nodes, root, place, threads) && SameButParents(nodes, nodes')
    ensures Placed(nodes0, nodes', root, place, threads)
  {
    forall i | 0 <= i < |nodes|
      ensures PlacedAt(nodes0, nodes', root, place, threads, i)
    {
      assert PlacedAt(nodes0, nodes, root, place, threads, i);
    }
  }

  lemma PlaceKeepsPlaced(nodes0: seq<Node>, nodes: seq<Node>, root: seq<nat>, place: seq<nat>, threads: nat, i: nat,
                         q: nat)
    requires Placed(nodes0, nodes, root, place, threads) && i < |nodes| && place[i] == threads && q < threads
    requires root[i] == i || (root[i] < |nodes| && place[root[i]] == q)
    ensures Placed(nodes0, nodes[i := nodes[i].(weight := 0, size := q)], root, place[i := q], threads)
  {
    var nodes', place' := nodes[i := nodes[i].(weight := 0, size := q)], place[i := q];
    forall j | 0 <= j < |nodes|
      ensures PlacedAt(nodes0, nodes', root, place', threads, j)
    {
      assert PlacedAt(nodes0, nodes, root, place, threads, j);
    }
  }

  /** What the loop does not change: the module, the merged classes, and the order of the nodes. */
  datatype Merge = Merge(m: Module, fvars: map<nat, nat>, gvars: map<nat, nat>,
                         nodes: seq<Node>, root: seq<nat>, order: seq<nat>, threads: nat)
  {
    ghost predicate Valid() {
      && NodesOf(m, nodes) && Within(NodeList(m), |m|)
      && Weighed(nodes, root, Weights())
      && HeaviestFirst(nodes, order, |nodes|)
      && (forall i :: 0 <= i < |root| ==> root[i] < |root| && root[root[i]] == root[i])
    }

    ghost function Weights(): seq<nat>
      requires Within(NodeList(m), |m|)
    {
      NodeWeights(m, NodeList(m))
    }
  }

  datatype Progress = Progress(nodes: seq<Node>, parts: seq<Partition>, home: seq<nat>, place: seq<nat>, bound: nat,
                               h: History)

  /** The homes of the globals and the places of their nodes agree. */
  ghost predicate AtHome(m: Module, home: seq<nat>, place: seq<nat>, threads: nat) {
    && |home| == |m| && |place| == |NodeList(m)| && Within(NodeList(m), |m|)
    && (forall i :: 0 <= i < |place| ==> home[NodeList(m)[i]] == place[i])
    && (forall g :: 0 <= g < |m| && !IsNode(m[g]) ==> home[g] == threads)
  }

  lemma PlaceKeepsAtHome(m: Module, home: seq<nat>, place: seq<nat>, threads: nat, i: nat, q: nat)
    requires AtHome(m, home, place, threads) && i < |place|
    ensures AtHome(m, home[NodeList(m)[i] := q], place[i := q], threads)
    ensures IsNode(m[NodeList(m)[i]])
  {
    NodeListMembers(m);
    hide NodeList, IsNode;
    var gs := NodeList(m);
    assert forall j :: 0 <= j < |gs| && j != i ==> gs[j] != gs[i];
  }

  /** The bound is the weight of some component. */
  ghost predicate IsComponentWeight(bound: nat, root: seq<nat>, w: seq<nat>)
    requires |root| == |w|
  {
    bound == 0 || exists r :: 0 <= r < |root| && root[r] == r && bound == ClassWeight(root, w, r)
  }

  ghost predicate Working(c: Merge, s: Progress, k: nat)
    requires c.Valid() && k <= |c.order|
  {
    && |s.parts| == c.threads
    && Placed(c.nodes, s.nodes, c.root, s.place, c.threads)
    && PlacedUpTo(c.order, k, s.place, c.threads)
    && AtHome(c.m, s.home, s.place, c.threads)
    && Holds(c.m, c.fvars, c.gvars, s.home, s.parts)
    && Loads(s.parts, s.place, c.root, c.Weights())
    && Spread(s.parts, s.bound) && IsComponentWeight(s.bound, c.root, c.Weights())
    && HistoryOk(s.h, PartWeights(s.parts)) && Picked(c, s.place, s.h, k)
  }

  ghost function PartWeights(parts: seq<Partition>): (w: seq<nat>)
    ensures |w| == |parts| && forall q :: 0 <= q < |parts| ==> w[q] == parts[q].weight
  {
    seq(|parts|, q requires 0 <= q < |parts| => parts[q].weight)
  }

  /** The jobs so far are different roots with their weights, none lighter than a node still to come. */
  ghost predicate Picked(c: Merge, place: seq<nat>, h: History, k: nat) {
    && |h.jobs| == |h.p| == |h.at| && |place| == |c.nodes| == |c.root|
    && (forall i :: 0 <= i < |h.jobs| ==> PickedAt(c, place, h.jobs[i], h.p[i], h.at[i]))
    && (forall i, j :: 0 <= i < j < |h.jobs| ==> h.jobs[i] != h.jobs[j])
    && (forall i, l :: 0 <= i < |h.p| && k <= l < |c.order| && c.order[l] < |c.nodes| ==>
          h.p[i] >= c.nodes[c.order[l]].weight)
  }

  ghost predicate PickedAt(c: Merge, place: seq<nat>, r: nat, weight: nat, q: nat) {
    && r < |c.nodes| == |c.root| == |place| && c.root[r] == r
    && weight == c.nodes[r].weight && q == place[r] < c.threads
  }

  lemma PickRoot(c: Merge, place: seq<nat>, h: History, k: nat, q: nat)
    requires c.Valid() && Picked(c, place, h, k) && k < |c.order| && q < c.threads
    requires var i := c.order[k]; i < |c.nodes| && c.root[i] == i && place[i] == c.threads
    ensures var i := c.order[k];
      && Picked(c, place[i := q], HandOut(h, i, c.nodes[i].weight, q), k + 1)
      && c.nodes[i].weight >= 1
  {
    var i := c.order[k];
    var h' := HandOut(h, i, c.nodes[i].weight, q);
    assert WeighedAt(c.nodes, c.root, c.Weights(), i);
    assert HeaviestFirst(c.nodes, c.order, |c.nodes|);
    hide c.Valid, ClassWeight;
    forall j | 0 <= j < |h'.jobs|
      ensures PickedAt(c, place[i := q], h'.jobs[j], h'.p[j], h'.at[j])
    {
      if j < |h.jobs| {
        assert PickedAt(c, place, h.jobs[j], h.p[j], h.at[j]);
      }
    }
    forall j, l | 0 <= j < |h'.p| && k + 1 <= l < |c.order|
      ensures h'.p[j] >= c.nodes[c.order[l]].weight
    {
      if j < |h.p| {
        assert h'.p[j] == h.p[j];
      }
    }
  }

  lemma PickMember(c: Merge, place: seq<nat>, h: History, k: nat, q: nat)
    requires c.Valid() && Picked(c, place, h, k) && k < |c.order|
    requires var i := c.order[k]; i < |c.nodes| && c.root[i] != i
    ensures Picked(c, place[c.order[k] := q], h, k + 1)
  {
    hide c.Valid;
    var i := c.order[k];
    forall j | 0 <= j < |h.jobs|
      ensures PickedAt(c, place[i := q], h.jobs[j], h.p[j], h.at[j])
    {
      assert PickedAt(c, place, h.jobs[j], h.p[j], h.at[j]);
    }
  }

  /** The state after node `i` has been put into partition `q`. */
  ghost function Put(c: Merge, s: Progress, i: nat, q: nat, load: nat): Progress
    requires i < |s.nodes| == |s.place| && q < |s.parts| && s.nodes[i].gv < |s.home|
  {
    var g := s.nodes[i].gv;
    Progress(s.nodes[i := s.nodes[i].(weight := 0, size := q)],
             s.parts[q := AddGlobal(s.parts[q], g, c.fvars, c.gvars).(weight := s.parts[q].weight + load)],
             s.home[g := q], s.place[i := q], Max(s.bound, load),
             if load == 0 then s.h else HandOut(s.h, i, load, q))
  }

  lemma PutKeepsContents(c: Merge, s: Progress, k: nat, q: nat, load: nat)
    requires c.Valid() && k < |c.order| && Working(c, s, k) && q < c.threads
    requires var i := c.order[k]; i < |c.root| && (c.root[i] == i || s.place[c.root[i]] == q)
    ensures var i := c.order[k]; i < |s.nodes| == |s.place| && s.nodes[i].gv < |s.home|
    ensures var s' := Put(c, s, c.order[k], q, load);
      && Placed(c.nodes, s'.nodes, c.root, s'.place, c.threads)
      && PlacedUpTo(c.order, k + 1, s'.place, c.threads)
      && AtHome(c.m, s'.home, s'.place, c.threads)
      && Holds(c.m, c.fvars, c.gvars, s'.home, s'.parts)
  {
    hide Placed, Holds, AtHome, Weighed, Loads, Spread, IsComponentWeight, IsNode, NodeList;
    var i := c.order[k];
    PlacedNode(c.nodes, s.nodes, c.root, s.place, c.threads, i);
    HomesOf(c.m, s.home, s.place, c.threads, i);
    PlaceKeepsPlaced(c.nodes, s.nodes, c.root, s.place, c.threads, i, q);
    PlaceKeepsAtHome(c.m, s.home, s.place, c.threads, i, q);
    AddKeepsHolds(c.m, c.fvars, c.gvars, s.home, s.parts, Put(c, s, i, q, load).parts, q, s.nodes[i].gv);
  }

  lemma PlacedNode(nodes0: seq<Node>, nodes: seq<Node>, root: seq<nat>, place: seq<nat>, threads: nat, i: nat)
    requires Placed(nodes0, nodes, root, place, threads) && i < |nodes0|
    ensures |nodes| == |nodes0| == |place| == |root| && PlacedAt(nodes0, nodes, root, place, threads, i)
  {
  }

  lemma HomesOf(m: Module, home: seq<nat>, place: seq<nat>, threads: nat, i: nat)
    requires AtHome(m, home, place, threads) && i < |place|
    ensures |home| == |m| && |place| == |NodeList(m)| && NodeList(m)[i] < |m| && home[NodeList(m)[i]] == place[i]
  {
  }

  lemma PutRoot(c: Merge, s: Progress, k: nat, q: nat)
    requires c.Valid() && k < |c.order| && Working(c, s, k) && IsLightest(s.parts, q)
    requires var i := c.order[k]; i < |c.root| && c.root[i] == i
    ensures var i := c.order[k];
      && i < |s.nodes| == |s.place| && s.nodes[i].gv < |s.home|
      && Working(c, Put(c, s, i, q, s.nodes[i].weight), k + 1)
  {
    var i := c.order[k];
    PutKeepsContents(c, s, k, q, s.nodes[i].weight);
    PlacedNode(c.nodes, s.nodes, c.root, s.place, c.threads, i);
    assert WeighedAt(c.nodes, c.root, c.Weights(), i);
    hide Placed, Holds, AtHome, Weighed, Loads, Spread, NodeList, ClassWeight;
    var s' := Put(c, s, i, q, s.nodes[i].weight);
    LoadRoot(s.parts, s'.parts, s.place, c.root, c.Weights(), i, q);
    LightestKeepsSpread(s.parts, s'.parts, q, s.bound, s.nodes[i].weight);
    PickRoot(c, s.place, s.h, k, q);
    PickIsLightest(c, s, s', k, q);
  }

  lemma PickIsLightest(c: Merge, s: Progress, s': Progress, k: nat, q: nat)
    requires c.Valid() && k < |c.order| && IsLightest(s.parts, q)
    requires HistoryOk(s.h, PartWeights(s.parts)) && Picked(c, s.place, s.h, k)
    requires c.order[k] < |c.nodes| && c.nodes[c.order[k]].weight >= 1 && |s'.parts| == |s.parts|
    requires forall p :: 0 <= p < |s.parts| ==>
               s'.parts[p].weight == s.parts[p].weight + (if p == q then c.nodes[c.order[k]].weight else 0)
    ensures HistoryOk(HandOut(s.h, c.order[k], c.nodes[c.order[k]].weight, q), PartWeights(s'.parts))
  {
    hide c.Valid, HistoryOk;
    HandOutKeeps(s.h, PartWeights(s.parts), PartWeights(s'.parts), c.order[k], c.nodes[c.order[k]].weight, q);
  }

  lemma PutMember(c: Merge, s: Progress, k: nat, q: nat)
    requires c.Valid() && k < |c.order| && Working(c, s, k) && q < c.threads
    requires var i := c.order[k]; i < |c.root| && c.root[i] != i && s.place[c.root[i]] == q
    ensures var i := c.order[k];
      && i < |s.nodes| == |s.place| && s.nodes[i].gv < |s.home|
      && Working(c, Put(c, s, i, q, 0), k + 1)
  {
    var i := c.order[k];
    PutKeepsContents(c, s, k, q, 0);
    hide Placed, Holds, AtHome, Weighed, Loads, NodeList, ClassWeight;
    var s' := Put(c, s, i, q, 0);
    LoadMember(s.parts, s'.parts, s.place, c.root, c.Weights(), i, q);
    PickMember(c, s.place, s.h, k, q);
    assert PartWeights(s'.parts) == PartWeights(s.parts);
  }

  /** What the assignment makes of a merged module. */
  ghost predicate Assigned(c: Merge, s: Progress)
    requires c.Valid()
  {
    Working(c, s, |c.order|)
  }

  lemma StartsWorking(c: Merge)
    requires c.Valid()
    ensures Working(c, Fresh(c), 0)
  {
    hide Placed, Loads, Weighed, ClassWeight, NodeList, HeaviestFirst, AtHome, Holds, HistoryOk, Picked;
    hide c.Valid, PlacedUpTo, Spread, IsComponentWeight, Fresh;
    StartsPlaced(c);
    StartsLoaded(c);
    StartsEmpty(c);
    StartsEven(c);
    StartsWithoutHistory(c);
  }

  lemma StartsEven(c: Merge)
    requires c.Valid()
    ensures |Fresh(c).parts| == c.threads && PlacedUpTo(c.order, 0, Fresh(c).place, c.threads)
    ensures Spread(Fresh(c).parts, Fresh(c).bound) && IsComponentWeight(Fresh(c).bound, c.root, c.Weights())
  {
    assert |c.root| == |c.Weights()| by { StartsLoaded(c); }
    hide c.Valid, ClassWeight, NodeList;
  }

  lemma StartsWithoutHistory(c: Merge)
    requires c.Valid()
    ensures HistoryOk(Fresh(c).h, PartWeights(Fresh(c).parts)) && Picked(c, Fresh(c).place, Fresh(c).h, 0)
  {
    hide Weighed, NodeList, HeaviestFirst;
    assert |c.nodes| == |c.root| by { StartsPlaced(c); }
  }

  lemma StartsEmpty(c: Merge)
    requires c.Valid()
    ensures AtHome(c.m, Fresh(c).home, Fresh(c).place, c.threads)
    ensures Holds(c.m, c.fvars, c.gvars, Fresh(c).home, Fresh(c).parts)
  {
    hide Weighed, NodeList, HeaviestFirst, IsNode;
  }

  lemma StartsPlaced(c: Merge)
    requires c.Valid()
    ensures Placed(c.nodes, Fresh(c).nodes, c.root, Fresh(c).place, c.threads)
    ensures |c.order| == |c.nodes| && Within(c.order, |c.nodes|)
  {
    hide ClassWeight, NodeList;
    var s := Fresh(c);
    forall i | 0 <= i < |c.nodes|
      ensures PlacedAt(c.nodes, s.nodes, c.root, s.place, c.threads, i)
    {
      assert WeighedAt(c.nodes, c.root, c.Weights(), i);
    }
  }

  lemma StartsLoaded(c: Merge)
    requires c.Valid()
    ensures Loads(Fresh(c).parts, Fresh(c).place, c.root, c.Weights())
    ensures |c.root| == |c.Weights()|
  {
    hide ClassWeight, NodeList, HeaviestFirst;
    var s := Fresh(c);
    var w := c.Weights();
    assert |c.root| == |w| == |c.nodes|;
    hide Weighed;
    forall q | 0 <= q < c.threads
      ensures s.parts[q].weight == ClassWeight(Pick(s.place, c.root), w, q)
    {
      SingletonWeight(Pick(s.place, c.root), w, q);
    }
  }

  ghost function Fresh(c: Merge): Progress {
    Progress(c.nodes, seq(c.threads, q => Partition({}, map[], map[], 0)),
             seq(|c.m|, g => c.threads), seq(|c.nodes|, i => c.threads), 0, History([], [], []))
  }

  /** Hand out the components: heaviest first, each to the lightest partition, each root before its members. */
  method AssignNodes(m: Module, fvars: map<nat, nat>, gvars: map<nat, nat>, threads: nat, uf: UnionFind,
                     ghost edges: set<Edge>)
    returns (parts: seq<Partition>, ghost c: Merge, ghost s: Progress)
    requires threads >= 1 && Merged(m, uf, edges)
    modifies uf`nodes
    ensures c.m == m && c.fvars == fvars && c.gvars == gvars && c.threads == threads
    ensures c.nodes == old(uf.nodes) && c.root == uf.root
    ensures c.Valid() && Assigned(c, s) && parts == s.parts
  {
    var order := SortByWeight(uf.nodes);
    parts := seq(threads, q => Partition({}, map[], map[], 0));
    c := Merge(m, fvars, gvars, uf.nodes, uf.root, order, threads);
    MergeIsValid(c, uf.rank, uf.top);
    StartsWorking(c);
    s := Fresh(c);
    hide c.Valid, Working, Forest;
    for k := 0 to |order|
      invariant uf.Valid() && uf.nodes == s.nodes && |uf.nodes| == |c.nodes|
      invariant c.Valid() && Working(c, s, k) && parts == s.parts && |parts| == threads
    {
      parts, s := AssignOne(uf, order[k], parts, fvars, gvars, c, s, k);
    }
  }

  lemma MergeIsValid(c: Merge, rank: seq<nat>, top: nat)
    requires NodesOf(c.m, c.nodes) && Within(NodeList(c.m), |c.m|) && Weighed(c.nodes, c.root, c.Weights())
    requires HeaviestFirst(c.nodes, c.order, |c.nodes|) && Forest(c.nodes, c.root, rank, top)
    ensures c.Valid()
  {
    hide HeaviestFirst, Weighed, NodeList;
    forall i | 0 <= i < |c.root|
      ensures c.root[i] < |c.root| && c.root[c.root[i]] == c.root[i]
    {
      RootsAreFixed(c.nodes, c.root, rank, top, i);
    }
  }

  /** The state as `Find` leaves it: its root is the next node itself, or has been placed before. */
  lemma FindKeepsWorking(c: Merge, s0: Progress, nodes: seq<Node>, k: nat)
    requires c.Valid() && k < |c.order| && Working(c, s0, k) && SameButParents(s0.nodes, nodes)
    ensures Working(c, s0.(nodes := nodes), k) && |s0.parts| == c.threads
    ensures var i := c.order[k];
      && i < |nodes| == |c.root| == |s0.place| == |c.nodes| && c.root[i] < |nodes|
      && nodes[i].weight >= 1 && nodes[i].gv < |s0.home|
      && (c.root[i] != i ==>
            && nodes[c.root[i]].weight == 0
            && nodes[c.root[i]].size == s0.place[c.root[i]] < c.threads)
  {
    var i := c.order[k];
    RootComesFirst(c.nodes, c.root, c.Weights(), c.order, k, s0.place, c.threads);
    ReparentKeepsPlaced(c.nodes, s0.nodes, nodes, c.root, s0.place, c.threads);
    PlacedNode(c.nodes, nodes, c.root, s0.place, c.threads, i);
    PlacedNode(c.nodes, nodes, c.root, s0.place, c.threads, c.root[i]);
    HomesOf(c.m, s0.home, s0.place, c.threads, i);
    hide Placed, Holds, AtHome, Weighed, Loads, Spread, IsComponentWeight, NodeList, HeaviestFirst;
  }

  method AssignOne(uf: UnionFind, i: nat, parts0: seq<Partition>, fvars: map<nat, nat>, gvars: map<nat, nat>,
                   ghost c: Merge, ghost s0: Progress, ghost k: nat)
    returns (parts: seq<Partition>, ghost s: Progress)
    requires c.Valid() && k < |c.order| && Working(c, s0, k)
    requires uf.Valid() && uf.nodes == s0.nodes && uf.root == c.root && parts0 == s0.parts
    requires i == c.order[k] && c.fvars == fvars && c.gvars == gvars && c.threads >= 1
    modifies uf`nodes
    ensures uf.Valid() && uf.nodes == s.nodes && parts == s.parts && Working(c, s, k + 1)
  {
    hide c.Valid, Working, Forest, ClassWeight, Mapped;
    parts := parts0;
    assert Working(c, s0.(nodes := uf.nodes), k) && i < |uf.nodes| by {
      FindKeepsWorking(c, s0, uf.nodes, k);
    }
    ghost var turns;
    var root;
    root, turns := uf.Find(i);
    FindKeepsWorking(c, s0, uf.nodes, k);
    s := s0.(nodes := uf.nodes);
    assert root == i || uf.nodes[root].weight == 0;
    if uf.nodes[root].weight != 0 {
      var q := Lightest(parts);
      PutRoot(c, s, k, q);
      s := Put(c, s, i, q, uf.nodes[i].weight);
      var part := AddGlobal(parts[q], uf.nodes[root].gv, fvars, gvars);
      parts := parts[q := part.(weight := part.weight + uf.nodes[root].weight)];
      uf.Stamp(root, q);
    }
    if root != i {
      assert uf.nodes[i].weight != 0;
      var q := uf.nodes[root].size;
      PutMember(c, s, k, q);
      s := Put(c, s, i, q, 0);
      parts := parts[q := AddGlobal(parts[q], uf.nodes[i].gv, fvars, gvars)];
      uf.Stamp(i, q);
    }
  }
}
