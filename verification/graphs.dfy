/** The graph collaborator as the diffusion models see it, and the check that
    its node identifiers are the dense index range `0..N-1`. */
module Graphs {
  import opened Seqs
  import opened Exceptions

  /** A node identifier: an integer, or any other hashable value (a string here). */
  datatype NodeId = Index(i: int) | Name(name: string)

  /** A graph: its nodes in iteration (insertion) order, and for the node at
      position `k` of that order the positions of its neighbours, in the
      order the graph lists them. */
  datatype Graph = Graph(nodes: seq<NodeId>, adj: seq<seq<nat>>)

  /** What any graph object guarantees: nodes are distinct and every
      neighbour is one of the graph's nodes. */
  predicate WellFormed(g: Graph) {
    && Distinct(g.nodes)
    && |g.adj| == |g.nodes|
    && forall k, j :: 0 <= k < |g.adj| && 0 <= j < |g.adj[k]| ==> g.adj[k][j] < |g.nodes|
  }

  /** The identifiers `0, 1, ..., n - 1`. */
  function IndexIds(n: nat): set<NodeId> {
    set i | i in Range(n) :: Index(i)
  }

  predicate AllIndices(nodes: seq<NodeId>) {
    forall k :: 0 <= k < |nodes| ==> nodes[k].Index?
  }

  function Indices(nodes: seq<NodeId>): (r: seq<int>)
    requires AllIndices(nodes)
    ensures |r| == |nodes|
    ensures forall k :: 0 <= k < |nodes| ==> nodes[k] == Index(r[k])
  {
    seq(|nodes|, k requires 0 <= k < |nodes| => nodes[k].i)
  }

  /** `validate_graph`: sort the node identifiers and compare them with
      `range(N)`. Sorting a mix of integers and strings raises `TypeError`,
      and a sorted list holding any string differs from `range(N)`; both
      raise the unsupported-graph error. */
  function ValidateGraph(g: Graph): Outcome {
    if !AllIndices(g.nodes) then Fail(UnsupportedGraphError)
    else if Sort(Indices(g.nodes)) != Range(|g.nodes|) then Fail(UnsupportedGraphError)
    else Pass
  }

  /** A graph the diffusion models can run on. */
  predicate Supported(g: Graph) {
    WellFormed(g) && Elems(g.nodes) == IndexIds(|g.nodes|)
  }

  lemma InIndexIds(n: nat, x: NodeId)
    ensures x in IndexIds(n) <==> x.Index? && 0 <= x.i < n
  {
    if x.Index? && 0 <= x.i < n {
      assert Range(n)[x.i] == x.i;
    }
  }

  /** `validate_graph` accepts a graph exactly when its node set is
      `{0, ..., N-1}`, whatever the insertion order. */
  lemma ValidateGraphCorrect(g: Graph)
    requires Distinct(g.nodes)
    ensures ValidateGraph(g).Pass? <==> Elems(g.nodes) == IndexIds(|g.nodes|)
  {
    var n := |g.nodes|;
    if ValidateGraph(g).Pass? {
      var ids := Indices(g.nodes);
      assert multiset(ids) == multiset(Range(n));
      forall x | x in Elems(g.nodes)
        ensures x in IndexIds(n)
      {
        var k :| 0 <= k < n && g.nodes[k] == x;
        assert ids[k] in multiset(Range(n));
        InIndexIds(n, x);
      }
      forall x | x in IndexIds(n)
        ensures x in Elems(g.nodes)
      {
        InIndexIds(n, x);
        assert Range(n)[x.i] == x.i;
        assert x.i in multiset(ids);
        var k :| 0 <= k < n && ids[k] == x.i;
        assert g.nodes[k] == x;
      }
    }
    if Elems(g.nodes) == IndexIds(n) {
      forall k | 0 <= k < n
        ensures g.nodes[k].Index? && 0 <= g.nodes[k].i < n
      {
        assert g.nodes[k] in Elems(g.nodes);
        InIndexIds(n, g.nodes[k]);
      }
      var ids := Indices(g.nodes);
      var order: seq<nat> := seq(n, k requires 0 <= k < n => g.nodes[k].i);
      assert IsPermutation(order, n) by {
        forall i, j | 0 <= i < j < n
          ensures order[i] != order[j]
        {
          assert g.nodes[i] != g.nodes[j];
        }
      }
      PermutePreservesMultiset(Range(n), order);
      assert Permute(Range(n), order) == ids;
      SortedUnique(Sort(ids), Range(n));
    }
  }

  /** On a well-formed graph, validation accepts exactly the supported graphs. */
  lemma ValidateGraphSupported(g: Graph)
    ensures WellFormed(g) ==> (ValidateGraph(g).Pass? <==> Supported(g))
  {
    if WellFormed(g) {
      ValidateGraphCorrect(g);
    }
  }

  /** The node identifiers in iteration order, as dense indices. */
  function Order(g: Graph): (r: seq<nat>)
    requires Supported(g)
    ensures IsPermutation(r, |g.nodes|)
    ensures forall k :: 0 <= k < |r| ==> g.nodes[k] == Index(r[k])
  {
    var n := |g.nodes|;
    assert forall k :: 0 <= k < n ==> g.nodes[k].Index? && 0 <= g.nodes[k].i < n by {
      forall k | 0 <= k < n
        ensures g.nodes[k].Index? && 0 <= g.nodes[k].i < n
      {
        assert g.nodes[k] in Elems(g.nodes);
        InIndexIds(n, g.nodes[k]);
      }
    }
    var r: seq<nat> := seq(n, k requires 0 <= k < n => g.nodes[k].i);
    assert forall i, j :: 0 <= i < j < n ==> r[i] != r[j] by {
      forall i, j | 0 <= i < j < n
        ensures r[i] != r[j]
      {
        assert g.nodes[i] != g.nodes[j];
      }
    }
    r
  }

  /** For the node at each position, the identifiers of its neighbours in the
      graph's neighbour order. */
  function NeighbourIds(g: Graph): (r: seq<seq<nat>>)
    requires Supported(g)
    ensures |r| == |g.nodes|
    ensures forall k :: 0 <= k < |r| ==> |r[k]| == |g.adj[k]|
    ensures forall k, j :: 0 <= k < |r| && 0 <= j < |r[k]| ==> g.nodes[g.adj[k][j]] == Index(r[k][j])
    ensures forall k, j :: 0 <= k < |r| && 0 <= j < |r[k]| ==> r[k][j] < |g.nodes|
  {
    var order := Order(g);
    seq(|g.nodes|, k requires 0 <= k < |g.nodes| =>
      seq(|g.adj[k]|, j requires 0 <= j < |g.adj[k]| => order[g.adj[k][j]]))
  }

  /** Nodes `a` and `b` are joined by an edge listed from `a`. */
  ghost predicate Adjacent(g: Graph, a: nat, b: nat) {
    exists k, j ::
      && 0 <= k < |g.adj| && k < |g.nodes| && 0 <= j < |g.adj[k]| && g.adj[k][j] < |g.nodes|
      && g.nodes[k] == Index(a) && g.nodes[g.adj[k][j]] == Index(b)
  }

  /** The test suite's graph with identifiers 9, 7 and 15 is rejected. */
  lemma RejectsSparseIds()
    ensures ValidateGraph(Graph([Index(9), Index(7), Index(15)], [[], [], []])).Fail?
  {
    var nodes := [Index(9), Index(7), Index(15)];
    assert Index(9) in Elems(nodes);
    InIndexIds(3, Index(9));
    ValidateGraphCorrect(Graph(nodes, [[], [], []]));
  }

  /** The test suite's graph with the single node "node" is rejected. */
  lemma RejectsNamedNode()
    ensures ValidateGraph(Graph([Name("node")], [[]])).Fail?
  {
  }

  /** The test suite's graph with identifiers 2, 4, 0, 3, 1 is accepted. */
  lemma AcceptsShuffledIds()
    ensures ValidateGraph(Graph([Index(2), Index(4), Index(0), Index(3), Index(1)],
                                [[], [], [], [], []])).Pass?
  {
    var nodes := [Index(2), Index(4), Index(0), Index(3), Index(1)];
    forall x | x in IndexIds(5)
      ensures x in Elems(nodes)
    {
      InIndexIds(5, x);
      assert x == nodes[[2, 4, 0, 3, 1][x.i]];
    }
    forall x | x in Elems(nodes)
      ensures x in IndexIds(5)
    {
      InIndexIds(5, x);
    }
    ValidateGraphCorrect(Graph(nodes, [[], [], [], [], []]));
  }
}
