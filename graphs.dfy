/**
 * The part of an undirected `networkx.Graph` that the alpha-graph analysis
 * uses: an insertion-ordered node list and a list of unordered edges, the
 * `add_nodes_from` / `add_edges_from` updates (which skip nodes and edges
 * already present and add the missing endpoints of a new edge), degrees,
 * and walks.
 */
module Graphs {

  /** An undirected edge; `Edge(u, v)` and `Edge(v, u)` denote the same edge. */
  datatype Edge = Edge(u: int, v: int)

  /** Two edges join the same pair of nodes, in either order. */
  predicate SameEdge(a: Edge, b: Edge)
  {
    (a.u == b.u && a.v == b.v) || (a.u == b.v && a.v == b.u)
  }

  /** The edge list holds `e` in one of its two orientations. */
  predicate HasEdge(es: seq<Edge>, e: Edge)
  {
    exists i :: 0 <= i < |es| && SameEdge(es[i], e)
  }

  /** Node `x` is an endpoint of an edge of `es`. */
  predicate Touches(es: seq<Edge>, x: int)
  {
    exists i :: 0 <= i < |es| && (es[i].u == x || es[i].v == x)
  }

  /** No value occurs twice. */
  predicate Distinct(s: seq<int>)
  {
    forall i, j :: 0 <= i < j < |s| ==> s[i] != s[j]
  }

  /** No unordered pair occurs twice. */
  predicate DistinctEdges(es: seq<Edge>)
  {
    forall i, j :: 0 <= i < j < |es| ==> !SameEdge(es[i], es[j])
  }

  /** The contents of a graph: its nodes in insertion order and its edges. */
  datatype GraphValue = GraphValue(nodes: seq<int>, edges: seq<Edge>)

  /**
   * What `networkx.Graph` maintains: every node once, every unordered pair
   * once, and both endpoints of every edge among the nodes. The number of
   * edges is then the number of distinct adjacent pairs.
   */
  predicate Simple(g: GraphValue)
  {
    && Distinct(g.nodes)
    && DistinctEdges(g.edges)
    && forall i :: 0 <= i < |g.edges| ==> g.edges[i].u in g.nodes && g.edges[i].v in g.nodes
  }

  /** `add_node`: appends `x` unless it is already a node. */
  function WithNode(ns: seq<int>, x: int): seq<int>
  {
    if x in ns then ns else ns + [x]
  }

  /** `add_nodes_from`: adds the values of `xs` in order, skipping nodes already present. */
  function WithNodes(ns: seq<int>, xs: seq<int>): seq<int>
  {
    if xs == [] then ns else WithNode(WithNodes(ns, xs[..|xs| - 1]), xs[|xs| - 1])
  }

  /**
   * `add_edge(u, v)`: adds the missing endpoints, `u` first, and appends the
   * edge unless the unordered pair is already present.
   */
  function WithEdge(g: GraphValue, e: Edge): GraphValue
  {
    GraphValue(WithNode(WithNode(g.nodes, e.u), e.v),
               if HasEdge(g.edges, e) then g.edges else g.edges + [e])
  }

  /** `add_edges_from`: adds the edges of `es` one after the other. */
  function WithEdges(g: GraphValue, es: seq<Edge>): GraphValue
  {
    if es == [] then g else WithEdge(WithEdges(g, es[..|es| - 1]), es[|es| - 1])
  }

  /** `add_node` adds exactly `x` to the nodes and never creates a repeat. */
  lemma WithNodeFacts(ns: seq<int>, x: int)
    ensures forall y :: y in WithNode(ns, x) <==> y in ns || y == x
    ensures Distinct(ns) ==> Distinct(WithNode(ns, x))
  {
  }

  /** `add_nodes_from` adds exactly the values of `xs` and never creates a repeat. */
  lemma {:induction false} WithNodesFacts(ns: seq<int>, xs: seq<int>)
    ensures forall y :: y in WithNodes(ns, xs) <==> y in ns || y in xs
    ensures Distinct(ns) ==> Distinct(WithNodes(ns, xs))
  {
    if xs != [] {
      var init := xs[..|xs| - 1];
      WithNodesFacts(ns, init);
      WithNodeFacts(WithNodes(ns, init), xs[|xs| - 1]);
      assert xs == init + [xs[|xs| - 1]];
    }
  }

  /**
   * `add_edge` adds exactly the endpoints of `e` and the pair `e`, and
   * keeps the graph simple.
   */
  lemma WithEdgeFacts(g: GraphValue, e: Edge)
    ensures forall y :: y in WithEdge(g, e).nodes <==> y in g.nodes || y == e.u || y == e.v
    ensures forall f :: HasEdge(WithEdge(g, e).edges, f) <==> HasEdge(g.edges, f) || SameEdge(f, e)
    ensures Simple(g) ==> Simple(WithEdge(g, e))
  {
    WithNodeFacts(g.nodes, e.u);
    WithNodeFacts(WithNode(g.nodes, e.u), e.v);
    var edges := WithEdge(g, e).edges;
    forall f
      ensures HasEdge(edges, f) <==> HasEdge(g.edges, f) || SameEdge(f, e)
    {
      if HasEdge(g.edges, e) && SameEdge(f, e) {
        var i :| 0 <= i < |g.edges| && SameEdge(g.edges[i], e);
        assert SameEdge(g.edges[i], f);
      }
      if HasEdge(edges, f) && !HasEdge(g.edges, e) {
        var i :| 0 <= i < |edges| && SameEdge(edges[i], f);
        if i < |g.edges| {
          assert HasEdge(g.edges, f);
        }
      }
      if HasEdge(g.edges, f) {
        var i :| 0 <= i < |g.edges| && SameEdge(g.edges[i], f);
        assert SameEdge(edges[i], f);
      }
      if SameEdge(f, e) && !HasEdge(g.edges, e) {
        assert SameEdge(edges[|edges| - 1], f);
      }
    }
  }

  /**
   * `add_edges_from` adds exactly the endpoints and the pairs of `es`, and
   * keeps the graph simple.
   */
  lemma {:induction false} WithEdgesFacts(g: GraphValue, es: seq<Edge>)
    ensures forall y :: y in WithEdges(g, es).nodes <==> y in g.nodes || Touches(es, y)
    ensures forall f :: HasEdge(WithEdges(g, es).edges, f) <==> HasEdge(g.edges, f) || HasEdge(es, f)
    ensures Simple(g) ==> Simple(WithEdges(g, es))
  {
    if es != [] {
      var init := es[..|es| - 1];
      WithEdgesFacts(g, init);
      WithEdgeFacts(WithEdges(g, init), es[|es| - 1]);
      TouchesSplit(es);
      HasEdgeSplit(es);
    }
  }

  /** The endpoints of a non-empty edge list are those of its front and of its last edge. */
  lemma TouchesSplit(es: seq<Edge>)
    requires es != []
    ensures forall y :: Touches(es, y) <==>
      Touches(es[..|es| - 1], y) || y == es[|es| - 1].u || y == es[|es| - 1].v
  {
    var init := es[..|es| - 1];
    forall y
      ensures Touches(es, y) <==> Touches(init, y) || y == es[|es| - 1].u || y == es[|es| - 1].v
    {
      if Touches(es, y) && !(y == es[|es| - 1].u || y == es[|es| - 1].v) {
        var i :| 0 <= i < |es| && (es[i].u == y || es[i].v == y);
        assert i < |init| && (init[i].u == y || init[i].v == y);
      }
      if Touches(init, y) {
        var i :| 0 <= i < |init| && (init[i].u == y || init[i].v == y);
        assert es[i] == init[i];
      }
    }
  }

  /** The edges of a non-empty edge list are those of its front and its last edge. */
  lemma HasEdgeSplit(es: seq<Edge>)
    requires es != []
    ensures forall f :: HasEdge(es, f) <==> HasEdge(es[..|es| - 1], f) || SameEdge(f, es[|es| - 1])
  {
    var init := es[..|es| - 1];
    forall f
      ensures HasEdge(es, f) <==> HasEdge(init, f) || SameEdge(f, es[|es| - 1])
    {
      if HasEdge(es, f) && !SameEdge(f, es[|es| - 1]) {
        var i :| 0 <= i < |es| && SameEdge(es[i], f);
        assert i < |init| && SameEdge(init[i], f);
      }
      if HasEdge(init, f) {
        var i :| 0 <= i < |init| && SameEdge(init[i], f);
        assert es[i] == init[i];
      }
      if SameEdge(f, es[|es| - 1]) {
        assert SameEdge(es[|es| - 1], f);
      }
    }
  }

  /** Adding values that are new and distinct appends them unchanged. */
  lemma {:induction false} WithNodesFresh(ns: seq<int>, xs: seq<int>)
    requires Distinct(ns + xs)
    ensures WithNodes(ns, xs) == ns + xs
  {
    if xs != [] {
      var init, last := xs[..|xs| - 1], xs[|xs| - 1];
      assert xs == init + [last];
      assert ns + xs == (ns + init) + [last];
      assert Distinct(ns + init) by {
        forall i, j | 0 <= i < j < |ns + init|
          ensures (ns + init)[i] != (ns + init)[j]
        {
          assert (ns + init)[i] == (ns + xs)[i] && (ns + init)[j] == (ns + xs)[j];
        }
      }
      WithNodesFresh(ns, init);
      assert last !in ns + init by {
        forall k | 0 <= k < |ns + init|
          ensures (ns + init)[k] != last
        {
          assert (ns + init)[k] == (ns + xs)[k] && last == (ns + xs)[|ns + xs| - 1];
        }
      }
    }
  }

  /**
   * Adding edges whose endpoints are already nodes, that repeat no pair
   * among themselves and that are not yet in the graph, appends them
   * unchanged and leaves the nodes alone.
   */
  lemma {:induction false} WithEdgesFresh(g: GraphValue, es: seq<Edge>)
    requires forall i :: 0 <= i < |es| ==> es[i].u in g.nodes && es[i].v in g.nodes
    requires DistinctEdges(g.edges + es)
    ensures WithEdges(g, es) == GraphValue(g.nodes, g.edges + es)
  {
    if es != [] {
      var init, last := es[..|es| - 1], es[|es| - 1];
      assert es == init + [last];
      assert g.edges + es == (g.edges + init) + [last];
      assert DistinctEdges(g.edges + init) by {
        forall i, j | 0 <= i < j < |g.edges + init|
          ensures !SameEdge((g.edges + init)[i], (g.edges + init)[j])
        {
          assert (g.edges + init)[i] == (g.edges + es)[i] && (g.edges + init)[j] == (g.edges + es)[j];
        }
      }
      WithEdgesFresh(g, init);
      assert !HasEdge(g.edges + init, last) by {
        forall k | 0 <= k < |g.edges + init|
          ensures !SameEdge((g.edges + init)[k], last)
        {
          assert (g.edges + init)[k] == (g.edges + es)[k] && last == (g.edges + es)[|g.edges + es| - 1];
        }
      }
      assert last.u in g.nodes && last.v in g.nodes;
    }
  }

  // ---------------------------------------------------------------------
  // Degrees
  // ---------------------------------------------------------------------

  /** How many of the two endpoints of `e` are `x` (a self-loop counts twice). */
  function Ends(e: Edge, x: int): nat
  {
    (if e.u == x then 1 else 0) + (if e.v == x then 1 else 0)
  }

  /** `G.degree(x)`: the number of edge ends at `x`. */
  function Degree(es: seq<Edge>, x: int): nat
  {
    if es == [] then 0 else Ends(es[0], x) + Degree(es[1..], x)
  }

  /** The degree over `[e] + es` adds the ends of `e`. */
  lemma DegreeCons(e: Edge, es: seq<Edge>, x: int)
    ensures Degree([e] + es, x) == Ends(e, x) + Degree(es, x)
  {
    assert ([e] + es)[1..] == es;
  }

  /** The degrees of the nodes `ns`, summed. */
  function DegreeSum(ns: seq<int>, es: seq<Edge>): nat
  {
    if ns == [] then 0 else Degree(es, ns[0]) + DegreeSum(ns[1..], es)
  }

  /** How many times `x` occurs in `ns`. */
  function Occurrences(ns: seq<int>, x: int): nat
  {
    if ns == [] then 0 else (if ns[0] == x then 1 else 0) + Occurrences(ns[1..], x)
  }

  /** A node of a list without repeats occurs in it exactly once. */
  lemma {:induction false} OccursOnce(ns: seq<int>, x: int)
    requires Distinct(ns) && x in ns
    ensures Occurrences(ns, x) == 1
  {
    if ns[0] == x {
      OccursNever(ns[1..], x);
    } else {
      OccursOnce(ns[1..], x);
    }
  }

  /** A value absent from a list occurs in it zero times. */
  lemma {:induction false} OccursNever(ns: seq<int>, x: int)
    requires x !in ns
    ensures Occurrences(ns, x) == 0
  {
    if ns != [] {
      OccursNever(ns[1..], x);
    }
  }

  /** The ends of one edge at the nodes `ns`, summed over `ns`. */
  function EndsSum(ns: seq<int>, e: Edge): nat
  {
    if ns == [] then 0 else Ends(e, ns[0]) + EndsSum(ns[1..], e)
  }

  /** Summing an edge's ends over the nodes counts each endpoint's occurrences. */
  lemma {:induction false} EndsSumIsOccurrences(ns: seq<int>, e: Edge)
    ensures EndsSum(ns, e) == Occurrences(ns, e.u) + Occurrences(ns, e.v)
  {
    if ns != [] {
      EndsSumIsOccurrences(ns[1..], e);
    }
  }

  /** Removing the first edge takes its ends out of the degree sum. */
  lemma {:induction false} DegreeSumStep(ns: seq<int>, es: seq<Edge>)
    requires es != []
    ensures DegreeSum(ns, es) == EndsSum(ns, es[0]) + DegreeSum(ns, es[1..])
  {
    if ns != [] {
      DegreeSumStep(ns[1..], es);
    }
  }

  /**
   * The handshake lemma: over a node list without repeats that holds every
   * endpoint, the degrees sum to twice the number of edges.
   */
  lemma {:induction false} Handshake(ns: seq<int>, es: seq<Edge>)
    requires Distinct(ns)
    requires forall i :: 0 <= i < |es| ==> es[i].u in ns && es[i].v in ns
    ensures DegreeSum(ns, es) == 2 * |es|
  {
    if es == [] {
      DegreeSumEmpty(ns);
    } else {
      DegreeSumStep(ns, es);
      EndsSumIsOccurrences(ns, es[0]);
      OccursOnce(ns, es[0].u);
      OccursOnce(ns, es[0].v);
      Handshake(ns, es[1..]);
    }
  }

  /** Without edges every degree is zero. */
  lemma {:induction false} DegreeSumEmpty(ns: seq<int>)
    ensures DegreeSum(ns, []) == 0
  {
    if ns != [] {
      DegreeSumEmpty(ns[1..]);
    }
  }

  // ---------------------------------------------------------------------
  // Walks and connectivity
  // ---------------------------------------------------------------------

  /** `p` visits nodes joined in turn by edges of `es`, from `a` to `b`. */
  predicate Walk(es: seq<Edge>, p: seq<int>, a: int, b: int)
  {
    && |p| >= 1 && p[0] == a && p[|p| - 1] == b
    && forall i :: 0 <= i < |p| - 1 ==> HasEdge(es, Edge(p[i], p[i + 1]))
  }

  /** Every two nodes are joined by a walk: the graph has one component. */
  ghost predicate Connected(g: GraphValue)
  {
    forall a, b :: a in g.nodes && b in g.nodes ==> exists p :: Walk(g.edges, p, a, b)
  }

  /** The nodes of `p` in the opposite order. */
  function Reverse(p: seq<int>): (r: seq<int>)
    ensures |r| == |p| && forall i :: 0 <= i < |p| ==> r[i] == p[|p| - 1 - i]
  {
    if p == [] then [] else Reverse(p[1..]) + [p[0]]
  }

  /** An undirected walk read backwards is a walk. */
  lemma WalkReverse(es: seq<Edge>, p: seq<int>, a: int, b: int)
    requires Walk(es, p, a, b)
    ensures Walk(es, Reverse(p), b, a)
  {
    var r := Reverse(p);
    forall i | 0 <= i < |r| - 1
      ensures HasEdge(es, Edge(r[i], r[i + 1]))
    {
      var j := |p| - 2 - i;
      assert r[i] == p[j + 1] && r[i + 1] == p[j];
      assert HasEdge(es, Edge(p[j], p[j + 1]));
      var k :| 0 <= k < |es| && SameEdge(es[k], Edge(p[j], p[j + 1]));
      assert SameEdge(es[k], Edge(r[i], r[i + 1]));
    }
  }

  /** A walk from `a` to `m` followed by one from `m` to `b` is a walk from `a` to `b`. */
  lemma WalkAppend(es: seq<Edge>, p: seq<int>, q: seq<int>, a: int, m: int, b: int)
    requires Walk(es, p, a, m) && Walk(es, q, m, b)
    ensures Walk(es, p + q[1..], a, b)
  {
    var w := p + q[1..];
    forall i | 0 <= i < |w| - 1
      ensures HasEdge(es, Edge(w[i], w[i + 1]))
    {
      if i < |p| - 1 {
        assert w[i] == p[i] && w[i + 1] == p[i + 1];
      } else {
        var j := i - |p| + 1;
        assert w[i] == q[j] && w[i + 1] == q[j + 1];
      }
    }
  }

  /** A walk over some of the edges of `big` is a walk of `big`. */
  lemma WalkWiden(small: seq<Edge>, big: seq<Edge>, p: seq<int>, a: int, b: int)
    requires Walk(small, p, a, b)
    requires forall i :: 0 <= i < |small| ==> HasEdge(big, small[i])
    ensures Walk(big, p, a, b)
  {
    forall i | 0 <= i < |p| - 1
      ensures HasEdge(big, Edge(p[i], p[i + 1]))
    {
      var k :| 0 <= k < |small| && SameEdge(small[k], Edge(p[i], p[i + 1]));
      var l :| 0 <= l < |big| && SameEdge(big[l], small[k]);
      assert SameEdge(big[l], Edge(p[i], p[i + 1]));
    }
  }

  /** A graph in which every node has a walk to one hub node is connected. */
  lemma ConnectedThroughHub(g: GraphValue, hub: int)
    requires forall a :: a in g.nodes ==> exists p :: Walk(g.edges, p, a, hub)
    ensures Connected(g)
  {
    forall a, b | a in g.nodes && b in g.nodes
      ensures exists p :: Walk(g.edges, p, a, b)
    {
      var pa :| Walk(g.edges, pa, a, hub);
      var pb :| Walk(g.edges, pb, b, hub);
      WalkReverse(g.edges, pb, b, hub);
      WalkAppend(g.edges, pa, Reverse(pb), a, hub, b);
    }
  }

  /** One more value of `xs` is one more `add_node`. */
  lemma WithNodesSnoc(ns: seq<int>, xs: seq<int>, i: nat)
    requires i < |xs|
    ensures WithNodes(ns, xs[..i + 1]) == WithNode(WithNodes(ns, xs[..i]), xs[i])
  {
    assert xs[..i + 1][..i] == xs[..i];
  }

  /** One more edge of `es` is one more `add_edge`. */
  lemma WithEdgesSnoc(g: GraphValue, es: seq<Edge>, i: nat)
    requires i < |es|
    ensures WithEdges(g, es[..i + 1]) == WithEdge(WithEdges(g, es[..i]), es[i])
  {
    assert es[..i + 1][..i] == es[..i];
  }

  /** Adding nodes keeps a graph simple. */
  lemma WithNodesKeepsSimple(g: GraphValue, xs: seq<int>)
    requires Simple(g)
    ensures Simple(GraphValue(WithNodes(g.nodes, xs), g.edges))
  {
    WithNodesFacts(g.nodes, xs);
  }

  // ---------------------------------------------------------------------
  // The mutable graph object
  // ---------------------------------------------------------------------

  /** A `networkx.Graph` object, updated in place. */
  class Graph {
    var nodes: seq<int>
    var edges: seq<Edge>

    /** The current contents. */
    function Value(): GraphValue
      reads this
    {
      GraphValue(nodes, edges)
    }

    /** The object invariant `networkx` maintains. */
    predicate Valid()
      reads this
    {
      Simple(Value())
    }

    /** `nx.Graph()`: an empty graph. */
    constructor()
      ensures Value() == GraphValue([], []) && Valid()
    {
      nodes := [];
      edges := [];
    }

    /** `number_of_nodes()`. */
    function NumberOfNodes(): nat
      reads this
    {
      |nodes|
    }

    /** `number_of_edges()`: one per stored unordered pair. */
    function NumberOfEdges(): nat
      reads this
    {
      |edges|
    }

    /** `add_nodes_from(xs)`. */
    method AddNodesFrom(xs: seq<int>)
      requires Valid()
      modifies this
      ensures Value() == GraphValue(WithNodes(old(nodes), xs), old(edges))
      ensures Valid()
    {
      var i := 0;
      while i < |xs|
        invariant 0 <= i <= |xs|
        invariant nodes == WithNodes(old(nodes), xs[..i]) && edges == old(edges)
      {
        WithNodesSnoc(old(nodes), xs, i);
        if xs[i] !in nodes {
          nodes := nodes + [xs[i]];
        }
        i := i + 1;
      }
      assert xs[..|xs|] == xs;
      WithNodesKeepsSimple(old(Value()), xs);
    }

    /** `add_edges_from(es)`. */
    method AddEdgesFrom(es: seq<Edge>)
      requires Valid()
      modifies this
      ensures Value() == WithEdges(old(Value()), es)
      ensures Valid()
    {
      var i := 0;
      while i < |es|
        invariant 0 <= i <= |es|
        invariant Value() == WithEdges(old(Value()), es[..i])
      {
        WithEdgesSnoc(old(Value()), es, i);
        var e := es[i];
        if e.u !in nodes {
          nodes := nodes + [e.u];
        }
        if e.v !in nodes {
          nodes := nodes + [e.v];
        }
        if !HasEdge(edges, e) {
          edges := edges + [e];
        }
        i := i + 1;
      }
      assert es[..|es|] == es;
      WithEdgesFacts(old(Value()), es);
    }
  }
}
