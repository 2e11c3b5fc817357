/** networkx's `DiGraph`, the graph the pipeline builds and queries, as a value:
    the nodes and the edges in insertion order and each edge's attribute
    dictionary. Only the parts of networkx that the pipeline calls are modelled:
    `add_edge`, successors and predecessors, degrees and `has_path` on the
    undirected view. */
module Graphs {
  import opened Seqs

  type Node = string
  type Edge = (Node, Node)
  type Attributes = map<string, string>

  datatype DiGraph = DiGraph(nodes: seq<Node>, edges: seq<Edge>, edgeAttrs: map<Edge, Attributes>) {
    /** Nodes and edges are kept once each, every edge joins two nodes of the
        graph, and exactly the edges carry an attribute dictionary. */
    ghost predicate Valid() {
      && NoDuplicates(nodes)
      && NoDuplicates(edges)
      && (forall e :: e in edges ==> e.0 in nodes && e.1 in nodes)
      && (forall e :: e in edgeAttrs <==> e in edges)
    }
  }

  /** `nx.DiGraph()` */
  function Empty(): (g: DiGraph)
    ensures g.Valid() && g.nodes == [] && g.edges == []
  {
    DiGraph([], [], map[])
  }

  /** `g.add_edge(u, v)`: adds `u` and then `v` when they are new, and the edge
      with an empty attribute dictionary when it is new; an existing edge keeps
      its attributes. */
  function AddEdge(g: DiGraph, u: Node, v: Node): (h: DiGraph)
    requires g.Valid()
    ensures h.Valid()
    ensures g.nodes <= h.nodes && g.edges <= h.edges
    ensures forall n :: n in h.nodes <==> n in g.nodes || n == u || n == v
    ensures forall e :: e in h.edges <==> e in g.edges || e == (u, v)
    ensures forall e :: e in g.edges ==> h.edgeAttrs[e] == g.edgeAttrs[e]
  {
    if (u, v) in g.edges then g
    else
      var nodes, edges := AddNew(AddNew(g.nodes, u), v), AddNew(g.edges, (u, v));
      assert forall e :: e in edges ==> e.0 in nodes && e.1 in nodes;
      DiGraph(nodes, edges, g.edgeAttrs[(u, v) := map[]])
  }

  /** Adds the edges of `es` one after the other. */
  function AddEdges(g: DiGraph, es: seq<Edge>): (h: DiGraph)
    requires g.Valid()
    ensures h.Valid()
    ensures forall e :: e in h.edges <==> e in g.edges || e in es
  {
    if es == [] then g
    else
      var es', last := es[..|es| - 1], es[|es| - 1];
      assert es == es' + [last];
      AddEdge(AddEdges(g, es'), last.0, last.1)
  }

  lemma AddEdgesAppend(g: DiGraph, es: seq<Edge>, e: Edge)
    requires g.Valid()
    ensures AddEdges(g, es + [e]) == AddEdge(AddEdges(g, es), e.0, e.1)
  {
    assert (es + [e])[..|es|] == es;
  }

  /** Adding one more edge of a list to the graph of its prefix. */
  lemma AddEdgesPrefixStep(g: DiGraph, es: seq<Edge>, i: nat)
    requires g.Valid() && i < |es|
    ensures AddEdges(g, es[..i + 1]) == AddEdge(AddEdges(g, es[..i]), es[i].0, es[i].1)
  {
    assert es[..i + 1] == es[..i] + [es[i]];
    AddEdgesAppend(g, es[..i], es[i]);
  }

  /** Adding edges adds exactly the nodes they join. */
  lemma {:induction false} AddEdgesNodes(g: DiGraph, es: seq<Edge>)
    requires g.Valid()
    ensures forall n :: n in AddEdges(g, es).nodes <==> n in g.nodes || n in Ends(es)
  {
    if es != [] {
      var es', last := es[..|es| - 1], es[|es| - 1];
      AddEdgesNodes(g, es');
      assert Ends(es) == Ends(es') + {last.0, last.1};
    }
  }

  /** The nodes that the edges of `es` join. */
  function Ends(es: seq<Edge>): (r: set<Node>)
    ensures forall e :: e in es ==> e.0 in r && e.1 in r
  {
    if es == [] then {}
    else Ends(es[..|es| - 1]) + {es[|es| - 1].0, es[|es| - 1].1}
  }

  /** Every node in `Ends(es)` is joined by some edge of `es`. */
  lemma {:induction false} EndsWitness(es: seq<Edge>, n: Node)
    requires n in Ends(es)
    ensures exists e :: e in es && (n == e.0 || n == e.1)
  {
    var es', last := es[..|es| - 1], es[|es| - 1];
    assert es == es' + [last];
    if n !in {last.0, last.1} {
      EndsWitness(es', n);
      var e :| e in es' && (n == e.0 || n == e.1);
      assert e in es;
    }
  }

  /** `g.successors(n)`: the heads of the edges leaving `n`, in insertion order. */
  function Successors(g: DiGraph, n: Node): seq<Node> {
    Map((e: Edge) => e.1, Filter(g.edges, (e: Edge) => e.0 == n))
  }

  /** `g.predecessors(n)`: the tails of the edges entering `n`, in insertion order. */
  function Predecessors(g: DiGraph, n: Node): seq<Node> {
    Map((e: Edge) => e.0, Filter(g.edges, (e: Edge) => e.1 == n))
  }

  /** `g.out_degree(n)` */
  function OutDegree(g: DiGraph, n: Node): nat {
    |Successors(g, n)|
  }

  /** `g.in_degree(n)` */
  function InDegree(g: DiGraph, n: Node): nat {
    |Predecessors(g, n)|
  }

  /** `g.degree(n)` of a directed graph: in-degree plus out-degree, so a self-loop counts twice. */
  function Degree(g: DiGraph, n: Node): nat {
    InDegree(g, n) + OutDegree(g, n)
  }

  lemma SuccessorsMembership(g: DiGraph, n: Node, t: Node)
    ensures t in Successors(g, n) <==> (n, t) in g.edges
  {
    var f := Filter(g.edges, (e: Edge) => e.0 == n);
    FilterMembership(g.edges, (e: Edge) => e.0 == n, (n, t));
    if t in Successors(g, n) {
      var i :| 0 <= i < |f| && f[i].1 == t;
      FilterMembership(g.edges, (e: Edge) => e.0 == n, f[i]);
    }
  }

  lemma PredecessorsMembership(g: DiGraph, n: Node, h: Node)
    ensures h in Predecessors(g, n) <==> (h, n) in g.edges
  {
    var f := Filter(g.edges, (e: Edge) => e.1 == n);
    FilterMembership(g.edges, (e: Edge) => e.1 == n, (h, n));
    if h in Predecessors(g, n) {
      var i :| 0 <= i < |f| && f[i].0 == h;
      FilterMembership(g.edges, (e: Edge) => e.1 == n, f[i]);
    }
  }

  /** A node has a non-zero out-degree exactly when some edge leaves it. */
  lemma OutDegreePositive(g: DiGraph, n: Node)
    ensures OutDegree(g, n) > 0 <==> exists t :: (n, t) in g.edges
  {
    if OutDegree(g, n) > 0 {
      SuccessorsMembership(g, n, Successors(g, n)[0]);
    } else {
      forall t | (n, t) in g.edges ensures false {
        SuccessorsMembership(g, n, t);
      }
    }
  }

  // ---- has_path on the undirected view -------------------------------------

  /** `a` and `b` are joined by an edge in one direction or the other. */
  ghost predicate Adjacent(g: DiGraph, a: Node, b: Node) {
    (a, b) in g.edges || (b, a) in g.edges
  }

  /** A walk in the undirected view of `g`. */
  ghost predicate IsWalk(g: DiGraph, p: seq<Node>) {
    |p| > 0 && forall i :: 0 <= i < |p| - 1 ==> Adjacent(g, p[i], p[i + 1])
  }

  /** `nx.has_path(g.to_undirected(), a, b)` */
  ghost predicate Connected(g: DiGraph, a: Node, b: Node) {
    a in g.nodes && exists p :: IsWalk(g, p) && p[0] == a && p[|p| - 1] == b
  }

  lemma ConnectedStep(g: DiGraph, a: Node, v: Node, w: Node)
    requires Connected(g, a, v) && Adjacent(g, v, w)
    ensures Connected(g, a, w)
  {
    var p :| IsWalk(g, p) && p[0] == a && p[|p| - 1] == v;
    var q := p + [w];
    assert IsWalk(g, q);
  }

  lemma {:induction false} WalkStaysInClosedSet(g: DiGraph, p: seq<Node>, S: set<Node>)
    requires IsWalk(g, p) && p[0] in S
    requires forall v, w :: v in S && Adjacent(g, v, w) ==> w in S
    ensures p[|p| - 1] in S
  {
    if |p| > 1 {
      var q := p[..|p| - 1];
      assert IsWalk(g, q);
      WalkStaysInClosedSet(g, q, S);
      assert Adjacent(g, p[|p| - 2], p[|p| - 1]);
    }
  }

  /** The neighbours of `v` in the undirected view of `g`. */
  function Neighbours(g: DiGraph, v: Node): (r: set<Node>)
    requires g.Valid()
    ensures forall w :: w in r <==> Adjacent(g, v, w)
  {
    set w | w in g.nodes && ((v, w) in g.edges || (w, v) in g.edges)
  }

  /** The state of a breadth-first search from `a`: everything visited is
      reachable from `a`, and only the frontier may still have unvisited
      neighbours. */
  ghost predicate Explored(g: DiGraph, a: Node, visited: set<Node>, frontier: set<Node>) {
    && frontier <= visited
    && a in visited
    && (forall v :: v in visited ==> Connected(g, a, v))
    && (forall v, w :: v in visited && v !in frontier && Adjacent(g, v, w) ==> w in visited)
  }

  lemma ExploreStep(g: DiGraph, a: Node, visited: set<Node>, frontier: set<Node>, v: Node)
    requires g.Valid() && Explored(g, a, visited, frontier) && v in frontier
    ensures Explored(g, a, visited + (Neighbours(g, v) - visited), (frontier - {v}) + (Neighbours(g, v) - visited))
  {
    var next := Neighbours(g, v) - visited;
    forall w | w in next ensures Connected(g, a, w) {
      ConnectedStep(g, a, v, w);
    }
    var visited', frontier' := visited + next, (frontier - {v}) + next;
    forall x, w | x in visited' && x !in frontier' && Adjacent(g, x, w) ensures w in visited' {
      if x != v {
        assert x in visited && x !in frontier;
      }
    }
  }

  /** Breadth-first search from `a` over the undirected view of `g`. */
  method HasPath(g: DiGraph, a: Node, b: Node) returns (r: bool)
    requires g.Valid() && a in g.nodes && b in g.nodes
    ensures r <==> Connected(g, a, b)
  {
    var nodeSet := set n | n in g.nodes;
    var visited := {a};
    var frontier := {a};
    assert IsWalk(g, [a]);
    while frontier != {}
      invariant visited <= nodeSet
      invariant Explored(g, a, visited, frontier)
      decreases |nodeSet - visited|, |frontier|
    {
      var v :| v in frontier;
      var next := Neighbours(g, v) - visited;
      ExploreStep(g, a, visited, frontier, v);
      if next != {} {
        var w :| w in next;
        assert nodeSet - (visited + next) < nodeSet - visited by {
          assert w in nodeSet - visited && w !in nodeSet - (visited + next);
        }
      }
      visited := visited + next;
      frontier := (frontier - {v}) + next;
    }
    r := b in visited;
    if Connected(g, a, b) {
      var p :| IsWalk(g, p) && p[0] == a && p[|p| - 1] == b;
      WalkStaysInClosedSet(g, p, visited);
    }
  }
}
