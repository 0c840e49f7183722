/**
 * The tetracyclic "alpha" polymer graph of `AlphaGraphAnalysis`: six
 * junction vertices joined by nine chains, and the combinatorial part of the
 * theoretical g-factor, `g = (3 / e^2) (Tr(L+) + loops / 3 - 1 / 6)`, with
 * the trace of the pseudo-inverse of the normalized Laplacian as an input.
 */
module AlphaGraph {
  import opened Wrappers
  import opened Graphs
  import opened Moments

  /** The junction vertices, `[1, 2, 3, 4, 5, 6]`. */
  const AlphaNodes: seq<int> := [1, 2, 3, 4, 5, 6]

  /** The nine chains the edge literal evidently intends. */
  const AlphaEdges: seq<Edge> :=
    [Edge(1, 2), Edge(1, 4), Edge(1, 5),
     Edge(3, 2), Edge(3, 4), Edge(3, 6),
     Edge(5, 2), Edge(5, 4), Edge(5, 6)]

  // ---------------------------------------------------------------------
  // The edge literal
  // ---------------------------------------------------------------------

  /**
   * One element of a Python list literal of pairs: a pair, or a pair
   * followed directly by another parenthesised pair, which Python reads as
   * calling the first tuple with the second's members as arguments.
   */
  datatype LiteralItem = Pair(edge: Edge) | Call(callee: Edge, argument: Edge)

  /**
   * The edge literal as written: the comma after `(3, 6)` is missing, so
   * `(3, 6)` and `(5, 2)` form one element, a call, and the list has eight
   * elements instead of nine.
   */
  const WrittenEdgeLiteral: seq<LiteralItem> :=
    [Pair(Edge(1, 2)), Pair(Edge(1, 4)), Pair(Edge(1, 5)),
     Pair(Edge(3, 2)), Pair(Edge(3, 4)), Call(Edge(3, 6), Edge(5, 2)),
     Pair(Edge(5, 4)), Pair(Edge(5, 6))]

  /** The edge literal with the missing comma restored. */
  const IntendedEdgeLiteral: seq<LiteralItem> :=
    [Pair(Edge(1, 2)), Pair(Edge(1, 4)), Pair(Edge(1, 5)),
     Pair(Edge(3, 2)), Pair(Edge(3, 4)), Pair(Edge(3, 6)),
     Pair(Edge(5, 2)), Pair(Edge(5, 4)), Pair(Edge(5, 6))]

  /**
   * Evaluating a list literal of pairs: a call on a tuple raises
   * `TypeError` ('tuple' object is not callable), modelled as `None`;
   * otherwise the list of the pairs in order.
   */
  function EvaluateEdgeLiteral(items: seq<LiteralItem>): (r: Option<seq<Edge>>)
    ensures r.None? <==> exists i :: 0 <= i < |items| && items[i].Call?
    ensures r.Some? ==> |r.value| == |items| && forall i :: 0 <= i < |items| ==> r.value[i] == items[i].edge
  {
    if items == [] then Some([])
    else if items[0].Call? then None
    else
      match EvaluateEdgeLiteral(items[1..])
      case None =>
        assert exists i :: 0 <= i < |items[1..]| && items[1..][i].Call?;
        var i :| 0 <= i < |items[1..]| && items[1..][i].Call?;
        assert items[i + 1].Call?;
        None
      case Some(rest) => Some([items[0].edge] + rest)
  }

  /**
   * `create_alpha_graph` on a given edge literal: an empty graph, the six
   * vertices, then the edges; `None` where evaluating the literal raises.
   */
  function CreateFromLiteral(items: seq<LiteralItem>): (r: Option<GraphValue>)
    ensures r.None? <==> EvaluateEdgeLiteral(items).None?
    ensures r.Some? ==> Simple(r.value)
    ensures r.Some? ==>
      forall y :: y in r.value.nodes <==> y in AlphaNodes || Touches(EvaluateEdgeLiteral(items).value, y)
    ensures r.Some? ==> forall f :: HasEdge(r.value.edges, f) <==> HasEdge(EvaluateEdgeLiteral(items).value, f)
  {
    match EvaluateEdgeLiteral(items)
    case None => None
    case Some(es) =>
      var withNodes := GraphValue(WithNodes([], AlphaNodes), []);
      WithNodesFacts([], AlphaNodes);
      WithEdgesFacts(withNodes, es);
      Some(WithEdges(withNodes, es))
  }

  /** As written, the literal holds a call, so `create_alpha_graph` raises `TypeError`. */
  lemma WrittenLiteralRaises()
    ensures |WrittenEdgeLiteral| == 8
    ensures EvaluateEdgeLiteral(WrittenEdgeLiteral) == None
    ensures CreateFromLiteral(WrittenEdgeLiteral) == None
  {
    assert WrittenEdgeLiteral[5].Call?;
  }

  /** The literal listing each edge of `es` as a pair of its own. */
  function Pairs(es: seq<Edge>): (r: seq<LiteralItem>)
    ensures |r| == |es| && forall i :: 0 <= i < |es| ==> r[i] == Pair(es[i])
  {
    seq(|es|, i requires 0 <= i < |es| => Pair(es[i]))
  }

  /** A literal of pairs only evaluates to its edges. */
  lemma EvaluatePairs(es: seq<Edge>)
    ensures EvaluateEdgeLiteral(Pairs(es)) == Some(es)
  {
    var r := EvaluateEdgeLiteral(Pairs(es));
    assert r.Some?;
    assert r.value == es;
  }

  /** With the comma restored the literal evaluates to the nine alpha edges. */
  lemma IntendedLiteralEvaluates()
    ensures EvaluateEdgeLiteral(IntendedEdgeLiteral) == Some(AlphaEdges)
  {
    assert IntendedEdgeLiteral == Pairs(AlphaEdges);
    EvaluatePairs(AlphaEdges);
  }

  /** With the comma restored `create_alpha_graph` builds the alpha graph. */
  lemma IntendedLiteralCreatesAlpha()
    ensures CreateFromLiteral(IntendedEdgeLiteral) == Some(AlphaGraphValue())
  {
    IntendedLiteralEvaluates();
  }

  // ---------------------------------------------------------------------
  // The graph
  // ---------------------------------------------------------------------

  /** The graph `create_alpha_graph` builds from the intended literal. */
  function AlphaGraphValue(): GraphValue
  {
    WithEdges(GraphValue(WithNodes([], AlphaNodes), []), AlphaEdges)
  }

  /** Every endpoint of an alpha edge is one of the six distinct vertices. */
  lemma AlphaEndpoints()
    ensures |AlphaNodes| == 6 && Distinct(AlphaNodes)
    ensures |AlphaEdges| == 9
    ensures forall i :: 0 <= i < |AlphaEdges| ==> AlphaEdges[i].u in AlphaNodes && AlphaEdges[i].v in AlphaNodes
  {
  }

  /** No alpha edge is a self-loop. */
  lemma AlphaNoSelfLoops()
    ensures forall i :: 0 <= i < |AlphaEdges| ==> AlphaEdges[i].u != AlphaEdges[i].v
  {
  }

  /** No unordered pair occurs twice among the alpha edges, in either orientation. */
  lemma AlphaEdgesDistinct()
    ensures DistinctEdges(AlphaEdges)
  {
    var a := AlphaEdges;
    assert a == [Edge(1, 2), Edge(1, 4), Edge(1, 5), Edge(3, 2), Edge(3, 4), Edge(3, 6), Edge(5, 2), Edge(5, 4), Edge(5, 6)];
    forall i, j | 0 <= i < j < |a|
      ensures !SameEdge(a[i], a[j])
    {
      assert a[i].u * 10 + a[i].v != a[j].u * 10 + a[j].v;
    }
  }

  /**
   * Since nothing repeats, building the graph keeps the six vertices and
   * the nine edges as listed: `number_of_nodes()` is 6 and
   * `number_of_edges()` is 9.
   */
  lemma AlphaGraphContents()
    ensures AlphaGraphValue() == GraphValue(AlphaNodes, AlphaEdges)
    ensures Simple(AlphaGraphValue())
  {
    AlphaNodesAdded();
    AlphaEdgesAdded();
    AlphaEndpoints();
    AlphaEdgesDistinct();
  }

  /** `add_nodes_from` on the empty graph keeps the six vertices in order. */
  lemma AlphaNodesAdded()
    ensures WithNodes([], AlphaNodes) == AlphaNodes
  {
    AlphaEndpoints();
    var noNodes: seq<int> := [];
    assert noNodes + AlphaNodes == AlphaNodes;
    WithNodesFresh(noNodes, AlphaNodes);
  }

  /** `add_edges_from` on the six vertices keeps the nine edges in order. */
  lemma AlphaEdgesAdded()
    ensures WithEdges(GraphValue(AlphaNodes, []), AlphaEdges) == GraphValue(AlphaNodes, AlphaEdges)
  {
    AlphaEndpoints();
    AlphaEdgesDistinct();
    var noEdges: seq<Edge> := [];
    assert noEdges + AlphaEdges == AlphaEdges;
    WithEdgesFresh(GraphValue(AlphaNodes, noEdges), AlphaEdges);
  }

  /** The ends at `x` of the nine alpha edges, one edge after the other. */
  function AlphaEndsAt(x: int): nat
  {
    Ends(Edge(1, 2), x) + Ends(Edge(1, 4), x) + Ends(Edge(1, 5), x)
      + Ends(Edge(3, 2), x) + Ends(Edge(3, 4), x) + Ends(Edge(3, 6), x)
      + Ends(Edge(5, 2), x) + Ends(Edge(5, 4), x) + Ends(Edge(5, 6), x)
  }

  /** The degree of `x` is the number of alpha edge ends at `x`. */
  lemma AlphaDegreeIsEnds(x: int)
    ensures Degree(AlphaEdges, x) == AlphaEndsAt(x)
  {
    var t: seq<Edge> := [];
    DegreeCons(Edge(5, 6), t, x); t := [Edge(5, 6)] + t;
    DegreeCons(Edge(5, 4), t, x); t := [Edge(5, 4)] + t;
    DegreeCons(Edge(5, 2), t, x); t := [Edge(5, 2)] + t;
    DegreeCons(Edge(3, 6), t, x); t := [Edge(3, 6)] + t;
    DegreeCons(Edge(3, 4), t, x); t := [Edge(3, 4)] + t;
    DegreeCons(Edge(3, 2), t, x); t := [Edge(3, 2)] + t;
    DegreeCons(Edge(1, 5), t, x); t := [Edge(1, 5)] + t;
    DegreeCons(Edge(1, 4), t, x); t := [Edge(1, 4)] + t;
    DegreeCons(Edge(1, 2), t, x); t := [Edge(1, 2)] + t;
    assert t == AlphaEdges;
  }

  /** The number of alpha edge ends at each vertex, and at any other value. */
  lemma AlphaEndsTable(x: int)
    ensures AlphaEndsAt(x) == if x == 5 then 4 else if x == 6 then 2 else if 1 <= x <= 4 then 3 else 0
  {
  }

  /**
   * The degrees are 3, 3, 3, 3, 4 and 2 for the vertices 1 to 6, and
   * no other value is an endpoint.
   */
  lemma AlphaDegrees()
    ensures forall x ::
      Degree(AlphaEdges, x) == (if x == 5 then 4 else if x == 6 then 2 else if 1 <= x <= 4 then 3 else 0)
  {
    forall x
      ensures Degree(AlphaEdges, x) == if x == 5 then 4 else if x == 6 then 2 else if 1 <= x <= 4 then 3 else 0
    {
      AlphaDegreeIsEnds(x);
      AlphaEndsTable(x);
    }
  }

  /** The degrees sum to twice the nine edges. */
  lemma AlphaHandshake()
    ensures DegreeSum(AlphaNodes, AlphaEdges) == 2 * |AlphaEdges| == 18
  {
    AlphaEndpoints();
    Handshake(AlphaNodes, AlphaEdges);
  }

  /**
   * No vertex is isolated, so every diagonal entry of the normalized
   * Laplacian is defined.
   */
  lemma AlphaNoIsolatedVertex()
    ensures forall x :: x in AlphaNodes ==> Degree(AlphaEdges, x) > 0
  {
    forall x | x in AlphaNodes
      ensures Degree(AlphaEdges, x) > 0
    {
      AlphaDegreeIsEnds(x);
      AlphaEndsTable(x);
    }
  }

  /** Five of the chains, which reach every vertex from vertex 1. */
  const SpanningTree: seq<Edge> :=
    [Edge(1, 2), Edge(1, 4), Edge(1, 5), Edge(3, 2), Edge(5, 6)]

  /** Every chain of SpanningTree is an alpha edge, and the tree has one edge fewer than vertices. */
  lemma SpanningTreeInAlpha()
    ensures |SpanningTree| == |AlphaNodes| - 1
    ensures forall i :: 0 <= i < |SpanningTree| ==> HasEdge(AlphaEdges, SpanningTree[i])
  {
    forall i | 0 <= i < |SpanningTree|
      ensures HasEdge(AlphaEdges, SpanningTree[i])
    {
      var k := [0, 1, 2, 3, 8][i];
      assert SameEdge(AlphaEdges[k], SpanningTree[i]);
    }
  }

  /** Every vertex has a walk to vertex 1 over the chains of SpanningTree. */
  lemma SpanningTreeReachesHub()
    ensures forall a :: a in AlphaNodes ==> exists p :: Walk(SpanningTree, p, a, 1)
  {
    var t := SpanningTree;
    assert Walk(t, [1], 1, 1);
    assert Walk(t, [2, 1], 2, 1) by { assert SameEdge(t[0], Edge(2, 1)); }
    assert Walk(t, [4, 1], 4, 1) by { assert SameEdge(t[1], Edge(4, 1)); }
    assert Walk(t, [5, 1], 5, 1) by { assert SameEdge(t[2], Edge(5, 1)); }
    assert Walk(t, [3, 2, 1], 3, 1) by { assert SameEdge(t[3], Edge(3, 2)) && SameEdge(t[0], Edge(2, 1)); }
    assert Walk(t, [6, 5, 1], 6, 1) by { assert SameEdge(t[4], Edge(6, 5)) && SameEdge(t[2], Edge(5, 1)); }
  }

  /**
   * The graph is connected, as the "+1" of the cycle rank assumes: the
   * five chains of SpanningTree, all of them alpha edges, already join
   * every vertex to vertex 1.
   */
  lemma AlphaConnected()
    ensures Connected(GraphValue(AlphaNodes, SpanningTree))
    ensures Connected(AlphaGraphValue())
  {
    SpanningTreeReachesHub();
    ConnectedThroughHub(GraphValue(AlphaNodes, SpanningTree), 1);
    SpanningTreeInAlpha();
    forall a | a in AlphaNodes
      ensures exists p :: Walk(AlphaEdges, p, a, 1)
    {
      var p :| Walk(SpanningTree, p, a, 1);
      WalkWiden(SpanningTree, AlphaEdges, p, a, 1);
    }
    AlphaGraphContents();
    ConnectedThroughHub(AlphaGraphValue(), 1);
  }

  // ---------------------------------------------------------------------
  // The g-factor
  // ---------------------------------------------------------------------

  /** The cycle rank ("loops") of a connected graph with `v` vertices and `e` edges. */
  function CycleRank(v: int, e: int): int
  {
    e - v + 1
  }

  /**
   * The cycle rank of the alpha graph is 4, the number of its chains
   * outside a spanning tree: the graph is tetracyclic.
   */
  lemma AlphaCycleRank()
    ensures CycleRank(|AlphaGraphValue().nodes|, |AlphaGraphValue().edges|) == 4
    ensures CycleRank(|AlphaNodes|, |AlphaEdges|) == |AlphaEdges| - |SpanningTree|
  {
    AlphaGraphContents();
  }

  /**
   * Theorem 5 of Cantarella et al. (2022) on a given trace of L+:
   * `g * e^2 = 3 (trace + loops / 3 - 1 / 6)`. With no edges, `3 / (e**2)`
   * raises `ZeroDivisionError`, modelled as `None`.
   */
  function GFactor(e: int, cycleRank: int, trace: real): (r: Option<real>)
    ensures r.None? <==> e == 0
    ensures r.Some? ==>
      r.value * ((e * e) as real) == 3.0 * (trace + (cycleRank as real) / 3.0 - 1.0 / 6.0)
  {
    if e == 0 then None
    else
      var e2 := (e * e) as real;
      NonzeroSquare(e);
      DivideThenMultiply(3.0, e2);
      Some((3.0 / e2) * (trace + (cycleRank as real) / 3.0 - 1.0 / 6.0))
  }

  /** The square of a non-zero integer is positive. */
  lemma NonzeroSquare(e: int)
    requires e != 0
    ensures e * e > 0
  {
    if e < 0 {
      assert e * e == (-e) * (-e);
    }
  }

  /** The g-factor of a graph value on a given trace, from its vertex and edge counts. */
  function TheoreticalGFactor(g: GraphValue, trace: real): (r: Option<real>)
    ensures r.None? <==> g.edges == []
    ensures r.Some? ==>
      var e := |g.edges|;
      r.value * ((e * e) as real) == 3.0 * (trace + ((e - |g.nodes| + 1) as real) / 3.0 - 1.0 / 6.0)
  {
    GFactor(|g.edges|, CycleRank(|g.nodes|, |g.edges|), trace)
  }

  /** For the alpha graph (e = 9, loops = 4) the formula reduces to `(trace + 7/6) / 27`. */
  lemma AlphaGFactorClosedForm(trace: real)
    ensures TheoreticalGFactor(AlphaGraphValue(), trace) == Some((trace + 7.0 / 6.0) / 27.0)
  {
    AlphaGraphContents();
  }

  /** For any non-zero edge count the g-factor is strictly increasing in the trace. */
  lemma GFactorIncreasing(e: int, cycleRank: int, t1: real, t2: real)
    requires e != 0 && t1 < t2
    ensures GFactor(e, cycleRank, t1).value < GFactor(e, cycleRank, t2).value
  {
    var g1, g2 := GFactor(e, cycleRank, t1).value, GFactor(e, cycleRank, t2).value;
    var e2 := (e * e) as real;
    NonzeroSquare(e);
    assert (g2 - g1) * e2 == 3.0 * (t2 - t1);
    PositiveQuotient(g2 - g1, e2, 3.0 * (t2 - t1));
  }

  /** A value whose product with a positive one is positive is itself positive. */
  lemma PositiveQuotient(x: real, n: real, p: real)
    requires n > 0.0 && p > 0.0 && x * n == p
    ensures x > 0.0
  {
  }

  // ---------------------------------------------------------------------
  // The analysis object
  // ---------------------------------------------------------------------

  /** `create_alpha_graph`: an `nx.Graph` holding the six vertices and nine edges. */
  method CreateAlphaGraph() returns (g: Graph)
    ensures fresh(g) && g.Valid()
    ensures g.Value() == AlphaGraphValue() == GraphValue(AlphaNodes, AlphaEdges)
  {
    g := new Graph();
    g.AddNodesFrom(AlphaNodes);
    g.AddEdgesFrom(AlphaEdges);
    AlphaGraphContents();
  }

  /** `AlphaGraphAnalysis`: holds the alpha graph in its field `G`. */
  class AlphaGraphAnalysis {
    var G: Graph

    /** `__init__`: stores a freshly built alpha graph. */
    constructor()
      ensures fresh(G) && G.Valid() && G.Value() == GraphValue(AlphaNodes, AlphaEdges)
    {
      var g := CreateAlphaGraph();
      G := g;
    }

    /**
     * `calculate_theoretical_g_factor` on a given trace of L+: reads
     * `v` and `e` off the stored graph, takes the cycle rank `e - v + 1`,
     * and applies the formula.
     */
    method CalculateTheoreticalGFactor(trace: real) returns (g: Option<real>)
      ensures g == TheoreticalGFactor(G.Value(), trace)
    {
      var v := G.NumberOfNodes();
      var e := G.NumberOfEdges();
      var cycleRank := e as int - v as int + 1;
      g := GFactor(e, cycleRank, trace);
    }
  }

  /** On a freshly built analysis the method returns `(trace + 7/6) / 27`. */
  method AnalyzeAlpha(trace: real) returns (g: real)
    ensures g == (trace + 7.0 / 6.0) / 27.0
  {
    var analysis := new AlphaGraphAnalysis();
    var r := analysis.CalculateTheoreticalGFactor(trace);
    AlphaGFactorClosedForm(trace);
    AlphaGraphContents();
    g := r.value;
  }
}
