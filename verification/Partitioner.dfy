/**
The union-find of partitionModule (src/aotcompile.cpp): weighted nodes, union by size, path
halving.  A ghost rank that grows along parent links is what makes `Find` terminate; it does
not depend on `size`, which a later phase overwrites while `Find` is still in use.  As long as
nothing is overwritten, union by size keeps the rank logarithmic.
 */
module Partitioner {
  import opened Bits

  datatype Node = Node(gv: nat, parent: nat, size: nat, weight: nat)

  // ---------------------------------------------------------------------------
  // Classes of a labelling.
  // ---------------------------------------------------------------------------

  /** The weight of the nodes with a given root. */
  function ClassWeight(root: seq<nat>, w: seq<nat>, r: nat): nat
    requires |root| == |w|
  {
    if |root| == 0 then 0
    else
      var n := |root| - 1;
      ClassWeight(root[..n], w[..n], r) + (if root[n] == r then w[n] else 0)
  }

  /** Sending the class of `y` to `x`. */
  function Relabel(root: seq<nat>, y: nat, x: nat): (r: seq<nat>)
    ensures |r| == |root| && forall i :: 0 <= i < |root| ==> r[i] == if root[i] == y then x else root[i]
  {
    seq(|root|, i requires 0 <= i < |root| => if root[i] == y then x else root[i])
  }

  lemma {:induction false} RelabelWeight(root: seq<nat>, w: seq<nat>, y: nat, x: nat, r: nat)
    requires |root| == |w| && x != y
    ensures ClassWeight(Relabel(root, y, x), w, r)
         == if r == x then ClassWeight(root, w, x) + ClassWeight(root, w, y)
            else if r == y then 0
            else ClassWeight(root, w, r)
  {
    if |root| > 0 {
      var n := |root| - 1;
      assert Relabel(root, y, x)[..n] == Relabel(root[..n], y, x);
      RelabelWeight(root[..n], w[..n], y, x, r);
    }
  }

  lemma {:induction false} SingletonWeight(root: seq<nat>, w: seq<nat>, r: nat)
    requires |root| == |w| && forall i :: 0 <= i < |root| ==> root[i] != r
    ensures ClassWeight(root, w, r) == 0
  {
    if |root| > 0 {
      SingletonWeight(root[..|root| - 1], w[..|w| - 1], r);
    }
  }

  lemma ClassWeightAppend(root: seq<nat>, w: seq<nat>, x: nat, v: nat, r: nat)
    requires |root| == |w|
    ensures ClassWeight(root + [x], w + [v], r) == ClassWeight(root, w, r) + (if x == r then v else 0)
  {
    assert (root + [x])[..|root|] == root && (w + [v])[..|w|] == w;
  }

  lemma ClassWeightLast(root: seq<nat>, w: seq<nat>, r: nat)
    requires 0 < |root| == |w|
    ensures ClassWeight(root, w, r)
         == ClassWeight(root[..|root| - 1], w[..|root| - 1], r) + (if root[|root| - 1] == r then w[|root| - 1] else 0)
  {
  }

  // ---------------------------------------------------------------------------
  // Connectedness by use edges.
  // ---------------------------------------------------------------------------

  type Edge = (nat, nat)

  /** A labelling that does not distinguish the ends of any edge. */
  ghost predicate Respects(lab: seq<nat>, edges: set<Edge>) {
    forall e :: e in edges ==> e.0 < |lab| && e.1 < |lab| && lab[e.0] == lab[e.1]
  }

  /** No labelling that respects the edges tells `i` and `j` apart: they are connected. */
  ghost predicate Connected(n: nat, edges: set<Edge>, i: nat, j: nat) {
    i < n && j < n && forall lab: seq<nat> :: |lab| == n && Respects(lab, edges) ==> lab[i] == lab[j]
  }

  /** The labelling of a union-find that has merged exactly the given edges. */
  ghost predicate Joined(root: seq<nat>, edges: set<Edge>) {
    && (forall i :: 0 <= i < |root| ==> root[i] < |root|)
    && Respects(root, edges)
    && forall lab: seq<nat>, i :: |lab| == |root| && Respects(lab, edges) && 0 <= i < |root| ==>
         lab[i] == lab[root[i]]
  }

  /** Having the same root is exactly being connected. */
  lemma SameRootIffConnected(root: seq<nat>, edges: set<Edge>, i: nat, j: nat)
    requires Joined(root, edges) && i < |root| && j < |root|
    ensures root[i] == root[j] <==> Connected(|root|, edges, i, j)
  {
    if root[i] == root[j] {
      forall lab: seq<nat> | |lab| == |root| && Respects(lab, edges)
        ensures lab[i] == lab[j]
      {
        assert lab[i] == lab[root[i]] && lab[j] == lab[root[j]];
      }
    }
  }

  lemma JoinOne(root: seq<nat>, edges: set<Edge>, a: nat, b: nat, y: nat, x: nat)
    requires Joined(root, edges) && a < |root| && b < |root|
    requires (root[a] == x && root[b] == y) || (root[a] == y && root[b] == x)
    ensures Joined(Relabel(root, y, x), edges + {(a, b)})
  {
    var root' := Relabel(root, y, x);
    forall lab: seq<nat>, i | |lab| == |root| && Respects(lab, edges + {(a, b)}) && 0 <= i < |root|
      ensures lab[i] == lab[root'[i]]
    {
      assert (a, b) in edges + {(a, b)};
      assert Respects(lab, edges);
      assert lab[a] == lab[root[a]] && lab[b] == lab[root[b]] && lab[i] == lab[root[i]];
    }
  }

  lemma JoinSame(root: seq<nat>, edges: set<Edge>, a: nat, b: nat)
    requires Joined(root, edges) && a < |root| && b < |root| && root[a] == root[b]
    ensures Joined(root, edges + {(a, b)})
  {
    forall lab: seq<nat>, i | |lab| == |root| && Respects(lab, edges + {(a, b)}) && 0 <= i < |root|
      ensures lab[i] == lab[root[i]]
    {
      assert Respects(lab, edges);
    }
  }

  // ---------------------------------------------------------------------------
  // The forest.
  // ---------------------------------------------------------------------------

  /** The parent link of `i` stays inside, climbs in rank, and leads to the root of its class. */
  ghost predicate Linked(nodes: seq<Node>, root: seq<nat>, rank: seq<nat>, top: nat, i: nat)
    requires |root| == |rank| == |nodes| && i < |nodes|
  {
    var p := nodes[i].parent;
    var r := root[i];
    && p < |nodes| && r < |nodes| && rank[i] <= top
    && (p == i <==> r == i)
    && root[r] == r && root[p] == r
    && (p != i ==> rank[i] < rank[p])
  }

  ghost predicate Forest(nodes: seq<Node>, root: seq<nat>, rank: seq<nat>, top: nat) {
    && |root| == |rank| == |nodes|
    && forall i :: 0 <= i < |nodes| ==> Linked(nodes, root, rank, top, i)
  }

  /** Node `i` weighs something and less than its root; a root weighs as much as its class. */
  ghost predicate WeighedAt(nodes: seq<Node>, root: seq<nat>, w: seq<nat>, i: nat)
    requires |root| == |w| == |nodes| && i < |nodes|
  {
    var r := root[i];
    && r < |nodes| && w[i] >= 1 && nodes[i].weight >= 1
    && (r != i ==> nodes[i].weight < nodes[r].weight)
    && (r == i ==> nodes[i].weight == ClassWeight(root, w, i))
  }

  ghost predicate Weighed(nodes: seq<Node>, root: seq<nat>, w: seq<nat>) {
    && |root| == |w| == |nodes|
    && forall i :: 0 <= i < |nodes| ==> WeighedAt(nodes, root, w, i)
  }

  ghost function Members(root: seq<nat>, r: nat): set<nat> {
    set i: nat | i < |root| && root[i] == r
  }

  /** A root's size is the number of its members, and at least 2 to its rank. */
  ghost predicate SizedAt(nodes: seq<Node>, root: seq<nat>, rank: seq<nat>, r: nat)
    requires |root| == |rank| == |nodes| && r < |nodes|
  {
    root[r] == r ==> nodes[r].size == |Members(root, r)| && Pow2(rank[r]) <= nodes[r].size
  }

  ghost predicate Sized(nodes: seq<Node>, root: seq<nat>, rank: seq<nat>) {
    && |root| == |rank| == |nodes|
    && forall r :: 0 <= r < |nodes| ==> SizedAt(nodes, root, rank, r)
  }

  // What the elementary updates keep.

  lemma MakeKeepsForest(nodes: seq<Node>, root: seq<nat>, rank: seq<nat>, top: nat, node: Node)
    requires Forest(nodes, root, rank, top) && node.parent == |nodes|
    ensures Forest(nodes + [node], root + [|nodes|], rank + [0], top)
  {
    forall i | 0 <= i <= |nodes|
      ensures Linked(nodes + [node], root + [|nodes|], rank + [0], top, i)
    {
      if i < |nodes| {
        assert Linked(nodes, root, rank, top, i);
      }
    }
  }

  lemma MakeKeepsWeights(nodes: seq<Node>, root: seq<nat>, w: seq<nat>, node: Node)
    requires Weighed(nodes, root, w) && node.weight >= 1
    ensures Weighed(nodes + [node], root + [|nodes|], w + [node.weight])
  {
    forall i | 0 <= i <= |nodes|
      ensures WeighedAt(nodes + [node], root + [|nodes|], w + [node.weight], i)
    {
      ClassWeightAppend(root, w, |nodes|, node.weight, i);
      if i < |nodes| {
        assert WeighedAt(nodes, root, w, i);
      } else {
        forall j | 0 <= j < |nodes|
          ensures root[j] != |nodes|
        {
          assert WeighedAt(nodes, root, w, j);
        }
        SingletonWeight(root, w, |nodes|);
      }
    }
  }

  lemma HalvingKeepsForest(nodes: seq<Node>, root: seq<nat>, rank: seq<nat>, top: nat, idx: nat)
    returns (p: nat, g: nat)
    requires Forest(nodes, root, rank, top) && idx < |nodes| && nodes[idx].parent != idx
    ensures p == nodes[idx].parent < |nodes| && g == nodes[p].parent < |nodes|
    ensures Forest(nodes[idx := nodes[idx].(parent := g)], root, rank, top)
    ensures root[g] == root[idx] && rank[idx] < rank[g] <= top
    ensures g != p ==> rank[idx] + 2 <= rank[g]
    ensures g == p ==> nodes[g].parent == g
  {
    assert Linked(nodes, root, rank, top, idx);
    p := nodes[idx].parent;
    assert Linked(nodes, root, rank, top, p);
    g := nodes[p].parent;
    assert Linked(nodes, root, rank, top, g);
    var nodes' := nodes[idx := nodes[idx].(parent := g)];
    forall i | 0 <= i < |nodes|
      ensures Linked(nodes', root, rank, top, i)
    {
      assert Linked(nodes, root, rank, top, i);
    }
  }

  lemma LinkKeepsForest(nodes: seq<Node>, root: seq<nat>, rank: seq<nat>, top: nat, nodes': seq<Node>, x: nat, y: nat)
    returns (rank': seq<nat>, top': nat)
    requires Forest(nodes, root, rank, top) && x < |nodes| && y < |nodes| && x != y && root[x] == x && root[y] == y
    requires |nodes'| == |nodes|
    requires forall i :: 0 <= i < |nodes| ==> nodes'[i].parent == if i == y then x else nodes[i].parent
    ensures Forest(nodes', Relabel(root, y, x), rank', top')
    ensures rank' == if rank[x] <= rank[y] then rank[x := rank[y] + 1] else rank
  {
    rank' := if rank[x] <= rank[y] then rank[x := rank[y] + 1] else rank;
    top' := if top >= rank'[x] then top else rank'[x];
    assert Linked(nodes, root, rank, top, x) && Linked(nodes, root, rank, top, y);
    forall i | 0 <= i < |nodes|
      ensures Linked(nodes', Relabel(root, y, x), rank', top', i)
    {
      assert Linked(nodes, root, rank, top, i);
    }
  }

  lemma LinkKeepsWeights(nodes: seq<Node>, root: seq<nat>, w: seq<nat>, nodes': seq<Node>, x: nat, y: nat)
    requires Weighed(nodes, root, w) && x < |nodes| && y < |nodes| && x != y && root[x] == x && root[y] == y
    requires |nodes'| == |nodes|
    requires forall i :: 0 <= i < |nodes| ==>
               nodes'[i].weight == nodes[i].weight + (if i == x then nodes[y].weight else 0)
    ensures Weighed(nodes', Relabel(root, y, x), w)
  {
    assert WeighedAt(nodes, root, w, x) && WeighedAt(nodes, root, w, y);
    forall i | 0 <= i < |nodes|
      ensures WeighedAt(nodes', Relabel(root, y, x), w, i)
    {
      assert WeighedAt(nodes, root, w, i);
      RelabelWeight(root, w, y, x, i);
    }
  }

  lemma MakeKeepsSizes(nodes: seq<Node>, root: seq<nat>, rank: seq<nat>, node: Node)
    requires Sized(nodes, root, rank) && node.size == 1 && forall i :: 0 <= i < |root| ==> root[i] < |root|
    ensures Sized(nodes + [node], root + [|nodes|], rank + [0])
  {
    var n := |nodes|;
    forall r | 0 <= r <= n
      ensures SizedAt(nodes + [node], root + [n], rank + [0], r)
    {
      if r < n {
        assert SizedAt(nodes, root, rank, r);
        assert Members(root + [n], r) == Members(root, r);
      } else {
        assert Members(root + [n], n) == {n};
      }
    }
  }

  /** The smaller class under the larger: a rank that grows has at least twice the members below it. */
  lemma LinkKeepsSizes(nodes: seq<Node>, root: seq<nat>, rank: seq<nat>, nodes': seq<Node>, x: nat, y: nat)
    requires Sized(nodes, root, rank) && x < |nodes| && y < |nodes| && x != y && root[x] == x && root[y] == y
    requires nodes[y].size <= nodes[x].size && |nodes'| == |nodes|
    requires forall i :: 0 <= i < |nodes| ==>
               nodes'[i].size == nodes[i].size + (if i == x then nodes[y].size else 0)
    ensures Sized(nodes', Relabel(root, y, x), if rank[x] <= rank[y] then rank[x := rank[y] + 1] else rank)
  {
    var root' := Relabel(root, y, x);
    var rank' := if rank[x] <= rank[y] then rank[x := rank[y] + 1] else rank;
    assert SizedAt(nodes, root, rank, x) && SizedAt(nodes, root, rank, y);
    forall r | 0 <= r < |nodes|
      ensures SizedAt(nodes', root', rank', r)
    {
      assert SizedAt(nodes, root, rank, r);
      MembersRelabel(root, y, x, r);
    }
  }

  lemma MembersRelabel(root: seq<nat>, y: nat, x: nat, r: nat)
    requires x != y
    ensures r == x ==> |Members(Relabel(root, y, x), x)| == |Members(root, x)| + |Members(root, y)|
    ensures r != x && r != y ==> Members(Relabel(root, y, x), r) == Members(root, r)
  {
    if r == x {
      assert Members(Relabel(root, y, x), x) == Members(root, x) + Members(root, y);
      assert Members(root, x) !! Members(root, y);
    }
  }

  lemma ReparentKeepsSizes(nodes: seq<Node>, nodes': seq<Node>, root: seq<nat>, rank: seq<nat>)
    requires Sized(nodes, root, rank) && SameButParents(nodes, nodes')
    ensures Sized(nodes', root, rank)
  {
    forall r | 0 <= r < |nodes|
      ensures SizedAt(nodes', root, rank, r)
    {
      assert SizedAt(nodes, root, rank, r);
    }
  }

  /** Ranks are logarithmic in the number of nodes. */
  lemma RankIsLogarithmic(nodes: seq<Node>, root: seq<nat>, rank: seq<nat>, r: nat)
    requires Sized(nodes, root, rank) && r < |nodes| && root[r] == r
    ensures Pow2(rank[r]) <= |nodes|
  {
    assert SizedAt(nodes, root, rank, r);
    MembersBound(root, r);
  }

  lemma {:induction false} MembersBound(root: seq<nat>, r: nat)
    ensures |Members(root, r)| <= |root|
  {
    if |root| > 0 {
      var n := |root| - 1;
      MembersBound(root[..n], r);
      assert Members(root, r) == Members(root[..n], r) + (if root[n] == r then {n} else {});
    }
  }

  lemma ReparentKeepsWeights(nodes: seq<Node>, nodes': seq<Node>, root: seq<nat>, w: seq<nat>)
    requires Weighed(nodes, root, w) && SameButParents(nodes, nodes')
    ensures Weighed(nodes', root, w)
  {
    forall i | 0 <= i < |nodes|
      ensures WeighedAt(nodes', root, w, i)
    {
      assert WeighedAt(nodes, root, w, i);
    }
  }

  ghost predicate SameButParents(nodes: seq<Node>, nodes': seq<Node>) {
    && |nodes'| == |nodes|
    && forall i :: 0 <= i < |nodes| ==> nodes'[i] == nodes[i].(parent := nodes'[i].parent)
  }

  lemma StampKeepsForest(nodes: seq<Node>, nodes': seq<Node>, root: seq<nat>, rank: seq<nat>, top: nat)
    requires Forest(nodes, root, rank, top) && |nodes'| == |nodes|
    requires forall i :: 0 <= i < |nodes| ==> nodes'[i].parent == nodes[i].parent
    ensures Forest(nodes', root, rank, top)
  {
    forall i | 0 <= i < |nodes|
      ensures Linked(nodes', root, rank, top, i)
    {
      assert Linked(nodes, root, rank, top, i);
    }
  }

  /** The map from globals to their nodes inverts the nodes' global fields. */
  ghost predicate Mapped(nodes: seq<Node>, nodeMap: map<nat, nat>) {
    && (forall i :: 0 <= i < |nodes| ==> nodes[i].gv in nodeMap && nodeMap[nodes[i].gv] == i)
    && (forall g :: g in nodeMap ==> nodeMap[g] < |nodes| && nodes[nodeMap[g]].gv == g)
  }

  lemma RootsAreFixed(nodes: seq<Node>, root: seq<nat>, rank: seq<nat>, top: nat, i: nat)
    requires Forest(nodes, root, rank, top) && i < |nodes|
    ensures nodes[i].parent < |nodes| && root[i] < |nodes| && root[root[i]] == root[i]
    ensures nodes[i].parent == i <==> root[i] == i
  {
    assert Linked(nodes, root, rank, top, i);
  }

  class UnionFind {
    var nodes: seq<Node>
    var nodeMap: map<nat, nat>
    ghost var root: seq<nat>
    ghost var rank: seq<nat>
    ghost var top: nat

    ghost predicate Valid()
      reads this
    {
      Forest(nodes, root, rank, top) && Mapped(nodes, nodeMap)
    }

    constructor ()
      ensures Valid() && nodes == [] && root == [] && nodeMap == map[] && Sized(nodes, root, rank)
    {
      nodeMap := map[];
      nodes, root, rank, top := [], [], [], 0;
    }

    /** A new class with one member. */
    method Make(gv: nat, weight: nat, ghost w: seq<nat>) returns (idx: nat)
      requires Valid() && gv !in nodeMap && weight >= 1 && Weighed(nodes, root, w) && Sized(nodes, root, rank)
      modifies this
      ensures Valid() && idx == old(|nodes|)
      ensures nodes == old(nodes) + [Node(gv, idx, 1, weight)] && root == old(root) + [idx]
      ensures nodeMap == old(nodeMap)[gv := idx]
      ensures Weighed(nodes, root, w + [weight]) && Sized(nodes, root, rank)
    {
      assert forall i :: 0 <= i < |root| ==> root[i] < |root| by {
        forall i | 0 <= i < |root|
          ensures root[i] < |root|
        {
          RootsAreFixed(nodes, root, rank, top, i);
        }
      }
      hide Forest, Weighed, Sized;
      idx := |nodes|;
      var node := Node(gv, idx, 1, weight);
      MakeKeepsForest(nodes, root, rank, top, node);
      MakeKeepsWeights(nodes, root, w, node);
      MakeKeepsSizes(nodes, root, rank, node);
      nodes := nodes + [node];
      nodeMap := nodeMap[gv := idx];
      root, rank := root + [idx], rank + [0];
    }

    /**
    The root of the class, halving the path on the way.  While sizes are kept, the number of
    turns is at most half the logarithm of the number of nodes, rounded up.
     */
    method Find(start: nat) returns (r: nat, ghost turns: nat)
      requires Valid() && start < |nodes|
      modifies `nodes
      ensures Valid() && r == root[start] < |nodes|
      ensures SameButParents(old(nodes), nodes)
      ensures Sized(old(nodes), root, rank) && turns > 0 ==> Pow2(2 * turns - 1) <= |nodes|
    {
      turns := 0;
      var idx: nat := start;
      assert |root| == |rank| == |nodes|;
      hide Forest;
      RootsAreFixed(nodes, root, rank, top, idx);
      while nodes[idx].parent != idx
        invariant idx < |nodes| == |root| == |rank| && start < |nodes| && Valid()
        invariant root[idx] == root[start] && nodes[idx].parent < |nodes|
        invariant SameButParents(old(nodes), nodes)
        invariant turns > 0 ==> 2 * turns - 1 <= rank[idx]
        invariant nodes[idx].parent != idx ==> 2 * turns <= rank[idx]
        decreases top - rank[idx]
      {
        ghost var p, g := HalvingKeepsForest(nodes, root, rank, top, idx);
        nodes := nodes[idx := nodes[idx].(parent := nodes[nodes[idx].parent].parent)];
        idx := nodes[idx].parent;
        turns := turns + 1;
        RootsAreFixed(nodes, root, rank, top, idx);
      }
      RootsAreFixed(nodes, root, rank, top, idx);
      r := idx;
      if Sized(old(nodes), root, rank) && turns > 0 {
        RankIsLogarithmic(old(nodes), root, rank, r);
        Pow2Monotone(2 * turns - 1, rank[r]);
      }
    }

    /** Mark a node as done by putting a partition index where its size was; `Find` does not notice. */
    method Stamp(i: nat, q: nat)
      requires Valid() && i < |nodes|
      modifies `nodes
      ensures Valid() && nodes == old(nodes)[i := old(nodes)[i].(weight := 0, size := q)]
    {
      hide Forest;
      nodes := nodes[i := nodes[i].(weight := 0, size := q)];
      StampKeepsForest(old(nodes), nodes, root, rank, top);
    }

    /** Merge two classes, the smaller under the larger. */
    method Merge(a: nat, b: nat, ghost w: seq<nat>, ghost edges: set<Edge>) returns (r: nat)
      requires Valid() && a < |nodes| && b < |nodes|
      requires Weighed(nodes, root, w) && Sized(nodes, root, rank) && Joined(root, edges)
      modifies `nodes, `root, `rank, `top
      ensures Valid() && Weighed(nodes, root, w) && Sized(nodes, root, rank) && Joined(root, edges + {(a, b)})
      ensures |nodes| == old(|nodes|) == old(|root|) && old(root[a]) < |nodes| && old(root[b]) < |nodes|
      ensures forall i :: 0 <= i < |nodes| ==> nodes[i].gv == old(nodes)[i].gv
      ensures var x, y := old(root[a]), old(root[b]);
        && r == (if old(nodes)[x].size < old(nodes)[y].size then y else x)
        && root == (if x == y then old(root) else Relabel(old(root), if r == x then y else x, r))
    {
      assert |root| == |nodes|;
      RootsAreFixed(nodes, root, rank, top, a);
      RootsAreFixed(nodes, root, rank, top, b);
      hide Forest, Weighed, Joined, Sized;
      ghost var n, k;
      var x, y;
      x, n := Find(a);
      y, k := Find(b);
      ReparentKeepsWeights(old(nodes), nodes, root, w);
      ReparentKeepsSizes(old(nodes), nodes, root, rank);
      if x == y {
        JoinSame(root, edges, a, b);
        return x;
      }
      if nodes[x].size < nodes[y].size {
        x, y := y, x;
      }
      Link(x, y, w);
      JoinOne(old(root), edges, a, b, y, x);
      r := x;
    }

    /** Hang the root `y` under the root `x` of a class that is not smaller. */
    method Link(x: nat, y: nat, ghost w: seq<nat>)
      requires Valid() && x < |nodes| && y < |nodes| && x != y && |root| == |nodes| && root[x] == x && root[y] == y
      requires Weighed(nodes, root, w) && Sized(nodes, root, rank) && nodes[y].size <= nodes[x].size
      modifies `nodes, `root, `rank, `top
      ensures Valid() && Weighed(nodes, root, w) && Sized(nodes, root, rank)
      ensures root == Relabel(old(root), y, x) && |nodes| == old(|nodes|)
      ensures forall i :: 0 <= i < |nodes| ==> nodes[i].gv == old(nodes)[i].gv
    {
      hide Forest, Weighed, Sized;
      nodes := nodes[y := nodes[y].(parent := x)];
      nodes := nodes[x := nodes[x].(size := nodes[x].size + nodes[y].size)];
      nodes := nodes[x := nodes[x].(weight := nodes[x].weight + nodes[y].weight)];
      LinkKeepsWeights(old(nodes), root, w, nodes, x, y);
      LinkKeepsSizes(old(nodes), root, rank, nodes, x, y);
      rank, top := LinkKeepsForest(old(nodes), root, rank, top, nodes, x, y);
      root := Relabel(root, y, x);
    }
  }
}
