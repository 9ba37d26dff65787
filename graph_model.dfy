/**
 * The state of a weighted word digraph as a value, and what `add_edge`
 * does to it.
 *
 * The graph is a multigraph kept in four pieces that are updated together:
 * the node set, each source's total outgoing weight, each node's neighbour
 * list (every call to add_edge appends one entry), and the list of distinct
 * edge triples (an exact repeat is not appended again), from which the
 * reversed graph is rebuilt.
 */
module GraphModel {
  import opened SeqUtil

  /** A weighted edge `(node1, node2, weight)` as add_edge receives it. */
  datatype Edge = Edge(source: string, target: string, weight: int)

  /** One entry `(node2, weight)` of a node's neighbour list. */
  datatype Arc = Arc(target: string, weight: int)

  /** The four pieces of state of the graph. */
  datatype GraphState = GraphState(
    nodes: set<string>,
    totalOutWeight: map<string, int>,
    neighbors: map<string, seq<Arc>>,
    edges: seq<Edge>)

  /** A freshly constructed graph. */
  const Empty: GraphState := GraphState({}, map[], map[], [])

  /** The neighbour list of `u`, empty when `u` has none. */
  function NeighborsOf(g: GraphState, u: string): seq<Arc>
  {
    if u in g.neighbors then g.neighbors[u] else []
  }

  /** The sum of the weights of a neighbour list. */
  function SumWeights(arcs: seq<Arc>): int
  {
    if arcs == [] then 0 else SumWeights(arcs[..|arcs| - 1]) + arcs[|arcs| - 1].weight
  }

  /** Every node that is the source or the target of one of the edges. */
  function Endpoints(es: seq<Edge>): set<string>
  {
    if es == [] then {}
    else Endpoints(es[..|es| - 1]) + {es[|es| - 1].source, es[|es| - 1].target}
  }

  /** The arcs that the edges `es` give the source `u`, in order, repeats included. */
  function ArcsFrom(es: seq<Edge>, u: string): seq<Arc>
  {
    if es == [] then []
    else
      var e := es[|es| - 1];
      ArcsFrom(es[..|es| - 1], u) + (if e.source == u then [Arc(e.target, e.weight)] else [])
  }

  /** One call of add_edge: the new value of all four pieces. */
  function AddEdge(g: GraphState, e: Edge): GraphState
  {
    var a, b, w := e.source, e.target, e.weight;
    var total := if a !in g.totalOutWeight then w else g.totalOutWeight[a] + w;
    var edges := if e in g.edges then g.edges else g.edges + [e];
    var withSource :=
      if a !in g.neighbors then g.neighbors[a := [Arc(b, w)]]
      else g.neighbors[a := g.neighbors[a] + [Arc(b, w)]];
    var withTarget := if b !in withSource then withSource[b := []] else withSource;
    GraphState(g.nodes + {a, b}, g.totalOutWeight[a := total], withTarget, edges)
  }

  /** add_edge_from_list: add_edge for each edge, in order. */
  function AddEdges(g: GraphState, es: seq<Edge>): GraphState
  {
    if es == [] then g else AddEdge(AddEdges(g, es[..|es| - 1]), es[|es| - 1])
  }

  /** The graph that the constructor builds from an edge list. */
  function FromEdges(es: seq<Edge>): GraphState
  {
    AddEdges(Empty, es)
  }

  /** The edge with its endpoints swapped. */
  function Flip(e: Edge): Edge
  {
    Edge(e.target, e.source, e.weight)
  }

  /** reversed_edges: every triple with source and target swapped, in order. */
  function ReverseEdges(es: seq<Edge>): seq<Edge>
  {
    seq(|es|, i requires 0 <= i < |es| => Flip(es[i]))
  }

  /**
   * The invariant the four pieces keep: the neighbour lists have exactly
   * the nodes as keys and every arc leads to a node (`ShapeInv`); a node has
   * a total out-weight exactly when its neighbour list is non-empty, and that
   * total is the sum of the list's weights (`WeightInv`); the edge list has
   * no repeats, holds exactly the (source, arc) pairs of the neighbour lists,
   * and its endpoints are exactly the nodes (`EdgeInv`).
   */
  ghost predicate Inv(g: GraphState)
  {
    ShapeInv(g) && WeightInv(g) && EdgeInv(g)
  }

  ghost predicate ShapeInv(g: GraphState)
  {
    && g.neighbors.Keys == g.nodes
    && (forall u, i :: u in g.neighbors && 0 <= i < |g.neighbors[u]| ==> g.neighbors[u][i].target in g.nodes)
  }

  ghost predicate WeightInv(g: GraphState)
  {
    && g.totalOutWeight.Keys <= g.nodes
    && (forall u {:trigger NeighborsOf(g, u)} :: u in g.nodes ==> (u in g.totalOutWeight <==> |NeighborsOf(g, u)| > 0))
    && (forall u {:trigger g.totalOutWeight[u]} :: u in g.totalOutWeight ==> g.totalOutWeight[u] == SumWeights(NeighborsOf(g, u)))
  }

  ghost predicate EdgeInv(g: GraphState)
  {
    && NoDup(g.edges)
    && (forall e :: e in g.edges ==> e.source in g.neighbors && Arc(e.target, e.weight) in g.neighbors[e.source])
    && (forall u, i :: u in g.neighbors && 0 <= i < |g.neighbors[u]| ==>
          Edge(u, g.neighbors[u][i].target, g.neighbors[u][i].weight) in g.edges)
    && g.nodes == Endpoints(g.edges)
  }

  lemma {:induction false} EndpointsContain(es: seq<Edge>, e: Edge)
    requires e in es
    ensures e.source in Endpoints(es) && e.target in Endpoints(es)
  {
    var init := es[..|es| - 1];
    if e != es[|es| - 1] {
      assert e in init;
      EndpointsContain(init, e);
    }
  }

  /** add_edge does four things and nothing else. */
  lemma AddEdgeEffect(g: GraphState, e: Edge)
    ensures AddEdge(g, e).nodes == g.nodes + {e.source, e.target}
    ensures NeighborsOf(AddEdge(g, e), e.source) == NeighborsOf(g, e.source) + [Arc(e.target, e.weight)]
    ensures e.target in AddEdge(g, e).neighbors
    ensures e.target != e.source ==> NeighborsOf(AddEdge(g, e), e.target) == NeighborsOf(g, e.target)
    ensures forall v :: v != e.source && v != e.target ==>
      (v in AddEdge(g, e).neighbors <==> v in g.neighbors) && NeighborsOf(AddEdge(g, e), v) == NeighborsOf(g, v)
    ensures AddEdge(g, e).totalOutWeight.Keys == g.totalOutWeight.Keys + {e.source}
    ensures AddEdge(g, e).totalOutWeight[e.source] ==
      (if e.source in g.totalOutWeight then g.totalOutWeight[e.source] else 0) + e.weight
    ensures forall v :: v in g.totalOutWeight && v != e.source ==> AddEdge(g, e).totalOutWeight[v] == g.totalOutWeight[v]
    ensures AddEdge(g, e).edges == if e in g.edges then g.edges else g.edges + [e]
  {
  }

  /** add_edge keeps the invariant. */
  lemma AddEdgeKeepsInv(g: GraphState, e: Edge)
    requires Inv(g)
    ensures Inv(AddEdge(g, e))
  {
    AddEdgeKeepsShape(g, e);
    AddEdgeKeepsWeights(g, e);
    AddEdgeKeepsEdges(g, e);
  }

  lemma AddEdgeKeepsShape(g: GraphState, e: Edge)
    requires ShapeInv(g)
    ensures ShapeInv(AddEdge(g, e))
  {
    var r := AddEdge(g, e);
    forall u, i | u in r.neighbors && 0 <= i < |r.neighbors[u]| ensures r.neighbors[u][i].target in r.nodes {
      if u == e.source && i < |NeighborsOf(g, u)| {
        assert r.neighbors[u][i] == g.neighbors[u][i];
      }
    }
  }

  lemma AddEdgeKeepsWeights(g: GraphState, e: Edge)
    requires ShapeInv(g) && WeightInv(g)
    ensures WeightInv(AddEdge(g, e))
  {
    var r := AddEdge(g, e);
    var a := e.source;
    AddEdgeEffect(g, e);
    var arcs := NeighborsOf(g, a);
    assert (arcs + [Arc(e.target, e.weight)])[..|arcs|] == arcs;
    assert SumWeights(NeighborsOf(r, a)) == SumWeights(arcs) + e.weight;
    forall u | u in r.nodes ensures u in r.totalOutWeight <==> |NeighborsOf(r, u)| > 0 {
      if u != a && u != e.target {
        assert u in g.nodes;
      }
    }
    forall u | u in r.totalOutWeight ensures r.totalOutWeight[u] == SumWeights(NeighborsOf(r, u)) {
      if u != a {
        assert u in g.totalOutWeight;
        assert NeighborsOf(r, u) == NeighborsOf(g, u);
      }
    }
  }

  lemma AddEdgeKeepsEdges(g: GraphState, e: Edge)
    requires ShapeInv(g) && EdgeInv(g)
    ensures EdgeInv(AddEdge(g, e))
  {
    AddEdgeKeepsNoDup(g, e);
    AddEdgeEdgesHaveArcs(g, e);
    AddEdgeArcsHaveEdges(g, e);
    AddEdgeKeepsEndpoints(g, e);
  }

  lemma AddEdgeKeepsNoDup(g: GraphState, e: Edge)
    requires NoDup(g.edges)
    ensures NoDup(AddEdge(g, e).edges)
  {
    var r := AddEdge(g, e).edges;
    if e !in g.edges {
      assert r == g.edges + [e];
      forall i, j | 0 <= i < j < |r| ensures r[i] != r[j] {
        if j == |g.edges| {
          assert r[i] == g.edges[i];
        }
      }
    }
  }

  lemma AddEdgeEdgesHaveArcs(g: GraphState, e: Edge)
    requires forall x :: x in g.edges ==> x.source in g.neighbors && Arc(x.target, x.weight) in g.neighbors[x.source]
    ensures forall x :: x in AddEdge(g, e).edges ==>
      x.source in AddEdge(g, e).neighbors && Arc(x.target, x.weight) in AddEdge(g, e).neighbors[x.source]
  {
    var r := AddEdge(g, e);
    AddEdgeEffect(g, e);
    forall x | x in r.edges
      ensures x.source in r.neighbors && Arc(x.target, x.weight) in r.neighbors[x.source]
    {
      if x == e {
        assert NeighborsOf(r, e.source)[|NeighborsOf(g, e.source)|] == Arc(e.target, e.weight);
      } else {
        assert x in g.edges;
        assert Arc(x.target, x.weight) in NeighborsOf(g, x.source);
        if x.source == e.source {
          assert NeighborsOf(r, x.source)[..|NeighborsOf(g, x.source)|] == NeighborsOf(g, x.source);
        }
      }
    }
  }

  lemma AddEdgeArcsHaveEdges(g: GraphState, e: Edge)
    requires forall u, i :: u in g.neighbors && 0 <= i < |g.neighbors[u]| ==>
      Edge(u, g.neighbors[u][i].target, g.neighbors[u][i].weight) in g.edges
    ensures forall u, i :: u in AddEdge(g, e).neighbors && 0 <= i < |AddEdge(g, e).neighbors[u]| ==>
      Edge(u, AddEdge(g, e).neighbors[u][i].target, AddEdge(g, e).neighbors[u][i].weight) in AddEdge(g, e).edges
  {
    var r := AddEdge(g, e);
    AddEdgeEffect(g, e);
    forall u, i | u in r.neighbors && 0 <= i < |r.neighbors[u]|
      ensures Edge(u, r.neighbors[u][i].target, r.neighbors[u][i].weight) in r.edges
    {
      assert r.neighbors[u] == NeighborsOf(r, u);
      if u == e.source && i == |NeighborsOf(g, u)| {
        assert r.neighbors[u][i] == Arc(e.target, e.weight);
      } else if u == e.source || u != e.target {
        assert r.neighbors[u][i] == g.neighbors[u][i];
      }
    }
  }

  lemma AddEdgeKeepsEndpoints(g: GraphState, e: Edge)
    requires g.nodes == Endpoints(g.edges)
    ensures AddEdge(g, e).nodes == Endpoints(AddEdge(g, e).edges)
  {
    if e in g.edges {
      EndpointsContain(g.edges, e);
    } else {
      assert (g.edges + [e])[..|g.edges|] == g.edges;
    }
  }

  /** The graph built from any edge list satisfies the invariant. */
  lemma {:induction false} AddEdgesKeepsInv(g: GraphState, es: seq<Edge>)
    requires Inv(g)
    ensures Inv(AddEdges(g, es))
  {
    if es != [] {
      AddEdgesKeepsInv(g, es[..|es| - 1]);
      AddEdgeKeepsInv(AddEdges(g, es[..|es| - 1]), es[|es| - 1]);
    }
  }

  lemma FromEdgesInv(es: seq<Edge>)
    ensures Inv(FromEdges(es))
  {
    AddEdgesKeepsInv(Empty, es);
  }

  /**
   * What the constructor builds from an edge list: the nodes are the
   * endpoints; each node's neighbour list holds one arc per call with that
   * source, exact repeats included, in call order; the total out-weight of a
   * source is the sum of those arcs; the edge list holds the first occurrence
   * of each distinct triple, in order.
   */
  lemma {:induction false} FromEdgesSpec(es: seq<Edge>)
    ensures FromEdges(es).nodes == Endpoints(es)
    ensures forall u :: NeighborsOf(FromEdges(es), u) == ArcsFrom(es, u)
    ensures forall u :: u in FromEdges(es).totalOutWeight ==>
      FromEdges(es).totalOutWeight[u] == SumWeights(ArcsFrom(es, u))
    ensures FromEdges(es).edges == Dedup(es)
  {
    if es != [] {
      var init := es[..|es| - 1];
      FromEdgesSpec(init);
      FromEdgesInv(init);
      var g := FromEdges(init);
      var e := es[|es| - 1];
      AddEdgeEffect(g, e);
      assert FromEdges(es) == AddEdge(g, e);
      forall u ensures NeighborsOf(FromEdges(es), u) == ArcsFrom(es, u) {
        if u != e.source && u != e.target {
        } else if u == e.target && u != e.source {
          assert ArcsFrom(es, u) == ArcsFrom(init, u);
        }
      }
      FromEdgesInv(es);
      forall u | u in FromEdges(es).totalOutWeight
        ensures FromEdges(es).totalOutWeight[u] == SumWeights(ArcsFrom(es, u))
      {
      }
    }
  }

  /** Reversing twice gives back the edge list. */
  lemma ReverseTwice(es: seq<Edge>)
    ensures |ReverseEdges(es)| == |es|
    ensures ReverseEdges(ReverseEdges(es)) == es
  {
  }

  lemma {:induction false} ReverseEdgesNoDup(es: seq<Edge>)
    requires NoDup(es)
    ensures NoDup(ReverseEdges(es))
  {
    var r := ReverseEdges(es);
    forall i, j | 0 <= i < j < |r| ensures r[i] != r[j] {
      assert Flip(r[i]) == es[i] && Flip(r[j]) == es[j];
    }
  }

  lemma {:induction false} EndpointsReversed(es: seq<Edge>)
    ensures Endpoints(ReverseEdges(es)) == Endpoints(es)
  {
    if es != [] {
      var init := es[..|es| - 1];
      EndpointsReversed(init);
      assert ReverseEdges(es)[..|es| - 1] == ReverseEdges(init);
    }
  }

  /**
   * get_reversed_digraph: the graph rebuilt from the reversed triples has
   * the same node set, and its edge list is exactly the reversed list (no
   * triple is dropped as a repeat); so reversing it again gives back the
   * original edge list.
   */
  lemma ReversedGraph(g: GraphState)
    requires Inv(g)
    ensures Inv(FromEdges(ReverseEdges(g.edges)))
    ensures FromEdges(ReverseEdges(g.edges)).nodes == g.nodes
    ensures FromEdges(ReverseEdges(g.edges)).edges == ReverseEdges(g.edges)
    ensures FromEdges(ReverseEdges(FromEdges(ReverseEdges(g.edges)).edges)).edges == g.edges
  {
    var rev := ReverseEdges(g.edges);
    FromEdgesInv(rev);
    FromEdgesSpec(rev);
    EndpointsReversed(g.edges);
    ReverseEdgesNoDup(g.edges);
    DedupOfNoDup(rev);
    ReverseTwice(g.edges);
    FromEdgesSpec(g.edges);
    DedupOfNoDup(g.edges);
  }

  /**
   * The multigraph asymmetry: adding the same triple twice gives its source
   * two neighbour entries, but the reversed graph, rebuilt from the
   * de-duplicated triple list, gives the target only one.
   */
  lemma RepeatedEdgeCountsTwiceForwardOnceReversed(e: Edge)
    ensures |NeighborsOf(FromEdges([e, e]), e.source)| == 2
    ensures |NeighborsOf(FromEdges(ReverseEdges(FromEdges([e, e]).edges)), e.target)| == 1
  {
    var once := AddEdge(Empty, e);
    assert [e, e][..1] == [e];
    assert [e][..0] == [];
    assert AddEdges(Empty, [e]) == AddEdge(AddEdges(Empty, []), e);
    assert FromEdges([e]) == once;
    assert FromEdges([e, e]) == AddEdge(once, e);
    assert NeighborsOf(once, e.source) == [Arc(e.target, e.weight)];
    assert FromEdges([e, e]).edges == [e];
    var rev := ReverseEdges([e]);
    assert rev == [Flip(e)];
    assert rev[..0] == [];
    assert AddEdges(Empty, rev) == AddEdge(AddEdges(Empty, []), Flip(e));
  }

  /** Triples that differ only in weight are both kept. */
  lemma DifferentWeightsBothKept(a: string, b: string, w1: int, w2: int)
    requires w1 != w2
    ensures FromEdges([Edge(a, b, w1), Edge(a, b, w2)]).edges == [Edge(a, b, w1), Edge(a, b, w2)]
    ensures NeighborsOf(FromEdges([Edge(a, b, w1), Edge(a, b, w2)]), a) == [Arc(b, w1), Arc(b, w2)]
  {
    var es := [Edge(a, b, w1), Edge(a, b, w2)];
    assert es[..1] == [Edge(a, b, w1)];
    assert [Edge(a, b, w1)][..0] == [];
    assert AddEdges(Empty, [Edge(a, b, w1)]) == AddEdge(AddEdges(Empty, []), Edge(a, b, w1));
    var once := AddEdge(Empty, Edge(a, b, w1));
    assert FromEdges([Edge(a, b, w1)]) == once;
    assert FromEdges(es) == AddEdge(once, Edge(a, b, w2));
  }
}
