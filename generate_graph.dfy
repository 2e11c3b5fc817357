/** The GO parent mapping: every term of the ontology paired with the root
    it descends from. The ontology graph is reversed so that the roots are
    the nodes without predecessors, and the root of a term is found by
    following first predecessors. Reading the ontology and writing the
    mapping to disk are left to the caller. */
module GenerateGraph {
  import opened Wrappers
  import opened Seqs
  import opened Graphs
  import FeatureBuilder

  function Swap(e: Edge): Edge {
    (e.1, e.0)
  }

  lemma {:induction false} SwapMembership(es: seq<Edge>, e: Edge)
    ensures e in Map(Swap, es) <==> Swap(e) in es
  {
    MapMembership(Swap, es, e);
    if Swap(e) in es {
      assert e == Swap(Swap(e));
    }
  }

  /** `g.reverse()`: the same nodes, and every edge turned around with its
      attributes. */
  function Reverse(g: DiGraph): (h: DiGraph)
    requires g.Valid()
    ensures h.Valid()
    ensures h.nodes == g.nodes
    ensures forall e :: e in h.edges <==> Swap(e) in g.edges
  {
    var edges := Map(Swap, g.edges);
    forall e ensures e in edges <==> Swap(e) in g.edges {
      SwapMembership(g.edges, e);
    }
    assert NoDuplicates(edges) by {
      forall i, j | 0 <= i < j < |edges| ensures edges[i] != edges[j] {
        assert g.edges[i] != g.edges[j];
      }
    }
    DiGraph(g.nodes, edges, map e | e in edges :: g.edgeAttrs[Swap(e)])
  }

  /** Reversing a graph turns the successors of a node into its predecessors,
      in the same order. */
  lemma {:induction false} ReversePredecessors(g: DiGraph, n: Node)
    requires g.Valid()
    ensures Predecessors(Reverse(g), n) == Successors(g, n)
  {
    ReverseFilterMap(g.edges, n);
  }

  /** The tails of the reversed edges entering `n` are the heads of the
      edges leaving `n`, in the same order. */
  lemma {:induction false} ReverseFilterMap(es: seq<Edge>, n: Node)
    ensures Map((e: Edge) => e.0, Filter(Map(Swap, es), (e: Edge) => e.1 == n)) ==
            Map((e: Edge) => e.1, Filter(es, (e: Edge) => e.0 == n))
  {
    if es != [] {
      var es', x := es[..|es| - 1], es[|es| - 1];
      ReverseFilterMap(es', n);
      ReverseFilterMapStep(es', x, n);
      LastSplit(es);
    }
  }

  lemma ReverseFilterMapStep(es: seq<Edge>, x: Edge, n: Node)
    requires Map((e: Edge) => e.0, Filter(Map(Swap, es), (e: Edge) => e.1 == n)) ==
             Map((e: Edge) => e.1, Filter(es, (e: Edge) => e.0 == n))
    ensures Map((e: Edge) => e.0, Filter(Map(Swap, es + [x]), (e: Edge) => e.1 == n)) ==
            Map((e: Edge) => e.1, Filter(es + [x], (e: Edge) => e.0 == n))
  {
    MapAppend(Swap, es, x);
    FilterAppend(Map(Swap, es), Swap(x), (e: Edge) => e.1 == n);
    FilterAppend(es, x, (e: Edge) => e.0 == n);
    if x.0 == n {
      MapAppend((e: Edge) => e.0, Filter(Map(Swap, es), (e: Edge) => e.1 == n), Swap(x));
      MapAppend((e: Edge) => e.1, Filter(es, (e: Edge) => e.0 == n), x);
    }
  }

  /** `find_root(G, node)`: the node itself when it has no predecessor, and
      otherwise the root of its first predecessor. A node outside the graph
      makes networkx raise; `fuel` is the number of recursive calls Python's
      recursion limit still allows, so that a cycle ends in an error. */
  function FindRoot(g: DiGraph, node: Node, fuel: nat): (r: Result<Node>)
    requires g.Valid()
    ensures node !in g.nodes ==> r == Failure(NodeNotInGraph(node))
    ensures node in g.nodes ==> r.Success? || r == Failure(RecursionLimit)
    ensures r.Success? ==> r.value in g.nodes && Predecessors(g, r.value) == []
    decreases fuel
  {
    if node !in g.nodes then Failure(NodeNotInGraph(node))
    else
      var preds := Predecessors(g, node);
      if preds == [] then Success(node)
      else if fuel == 0 then Failure(RecursionLimit)
      else
        PredecessorsMembership(g, node, preds[0]);
        FindRoot(g, preds[0], fuel - 1)
  }

  /** A root is its own root. */
  lemma FindRootOfRoot(g: DiGraph, node: Node, fuel: nat)
    requires g.Valid() && node in g.nodes && Predecessors(g, node) == []
    ensures FindRoot(g, node, fuel) == Success(node)
  {
  }

  /** The root of a node that has a predecessor is the root of its first
      predecessor, found with one recursive call fewer. */
  lemma FindRootOfChild(g: DiGraph, node: Node, fuel: nat)
    requires g.Valid() && node in g.nodes && Predecessors(g, node) != [] && fuel > 0
    ensures Predecessors(g, node)[0] in g.nodes
    ensures FindRoot(g, node, fuel) == FindRoot(g, Predecessors(g, node)[0], fuel - 1)
  {
    PredecessorsMembership(g, node, Predecessors(g, node)[0]);
  }

  /** More recursion depth never changes a root that was found. */
  lemma {:induction false} FindRootFuelMonotone(g: DiGraph, node: Node, fuel: nat, more: nat)
    requires g.Valid() && fuel <= more && FindRoot(g, node, fuel).Success?
    ensures FindRoot(g, node, more) == FindRoot(g, node, fuel)
    decreases fuel
  {
    var preds := Predecessors(g, node);
    if preds != [] {
      FindRootOfChild(g, node, fuel);
      FindRootOfChild(g, node, more);
      FindRootFuelMonotone(g, preds[0], fuel - 1, more - 1);
    }
  }

  /** The root of a node's root is that root: finding roots is idempotent. */
  lemma FindRootIdempotent(g: DiGraph, node: Node, fuel: nat, fuel': nat)
    requires g.Valid() && FindRoot(g, node, fuel).Success?
    ensures FindRoot(g, FindRoot(g, node, fuel).value, fuel') == FindRoot(g, node, fuel)
  {
    FindRootOfRoot(g, FindRoot(g, node, fuel).value, fuel');
  }

  /** A node that is its own first predecessor sends `find_root` round a
      cycle until the recursion limit, whatever the limit. */
  lemma {:induction false} FindRootSelfLoop(g: DiGraph, node: Node, fuel: nat)
    requires g.Valid() && node in g.nodes
    requires Predecessors(g, node) != [] && Predecessors(g, node)[0] == node
    ensures FindRoot(g, node, fuel) == Failure(RecursionLimit)
    decreases fuel
  {
    if fuel > 0 {
      FindRootSelfLoop(g, node, fuel - 1);
    }
  }

  /** One (node, root) pair per node, in node order. */
  ghost predicate IsParentMapping(g: DiGraph, fuel: nat, mappings: seq<(Node, Node)>)
    requires g.Valid()
  {
    && |mappings| == |g.nodes|
    && forall i :: 0 <= i < |g.nodes| ==> FindRoot(g, g.nodes[i], fuel) == Success(mappings[i].1) && mappings[i].0 == g.nodes[i]
  }

  /** The loop of `generate_go_parent_mapping`: pairs every node of the
      reversed ontology with its root, and raises as soon as a root cannot be
      found within the recursion limit. */
  method ParentMappings(goGraph: DiGraph, fuel: nat) returns (r: Result<seq<(Node, Node)>>)
    requires goGraph.Valid()
    ensures r.Failure? ==> r.error == RecursionLimit
    ensures r.Failure? <==> exists i :: 0 <= i < |goGraph.nodes| && FindRoot(goGraph, goGraph.nodes[i], fuel).Failure?
    ensures r.Success? ==> IsParentMapping(goGraph, fuel, r.value)
  {
    var mappings: seq<(Node, Node)> := [];
    for i := 0 to |goGraph.nodes|
      invariant |mappings| == i
      invariant forall j :: 0 <= j < i ==>
        FindRoot(goGraph, goGraph.nodes[j], fuel) == Success(mappings[j].1) && mappings[j].0 == goGraph.nodes[j]
    {
      var node := goGraph.nodes[i];
      var parent := FindRoot(goGraph, node, fuel);
      if parent.Failure? {
        assert FindRoot(goGraph, goGraph.nodes[i], fuel).Failure?;
        return Failure(RecursionLimit);
      }
      mappings := mappings + [(node, parent.value)];
    }
    r := Success(mappings);
  }

  /** `nx.DiGraph(nx.to_edgelist(g))`: the graph rebuilt from its edge list.
      The edges and their attributes are kept; the nodes are those that
      `add_edge` meets along the list, in that order, so a node without any
      edge is dropped. */
  function FromEdgeList(g: DiGraph): (h: DiGraph)
    requires g.Valid()
    ensures h.Valid()
    ensures h.edges == g.edges && h.edgeAttrs == g.edgeAttrs
    ensures forall n :: n in h.nodes <==> n in Ends(g.edges)
  {
    var h := DiGraph(EdgeListNodes(g.edges), g.edges, g.edgeAttrs);
    assert forall e :: e in h.edges ==> e.0 in h.nodes && e.1 in h.nodes;
    assert h.Valid();
    h
  }

  /** The nodes of `nx.DiGraph(edgelist)`: each end of each edge, once, in the
      order `add_edge` meets them. */
  function EdgeListNodes(es: seq<Edge>): (ns: seq<Node>)
    ensures NoDuplicates(ns)
    ensures forall n :: n in ns <==> n in Ends(es)
  {
    AddEdgesNodes(Empty(), es);
    AddEdges(Empty(), es).nodes
  }

  /** A node that some edge joins is a node of the graph. */
  lemma EndsAreNodes(g: DiGraph, n: Node)
    requires g.Valid() && n in Ends(g.edges)
    ensures n in g.nodes
  {
    EndsWitness(g.edges, n);
    var e :| e in g.edges && (n == e.0 || n == e.1);
  }

  /** `generate_go_parent_mapping`: rebuilds the ontology from its edge list,
      reverses it so that the roots have no predecessor, then maps every term
      to its root, raising when some root is out of the recursion limit's
      reach. Exactly the terms with an edge are mapped, and each root in the
      mapping is a term without parents in the ontology. */
  method GenerateGoParentMapping(goGraph: DiGraph, fuel: nat) returns (r: Result<seq<(Node, Node)>>)
    requires goGraph.Valid()
    ensures r.Failure? ==> r.error == RecursionLimit
    ensures var g := FromEdgeList(goGraph);
      r.Failure? <==> exists i :: 0 <= i < |g.nodes| && FindRoot(Reverse(g), g.nodes[i], fuel).Failure?
    ensures r.Success? ==> IsParentMapping(Reverse(FromEdgeList(goGraph)), fuel, r.value)
    ensures r.Success? ==> forall i :: 0 <= i < |r.value| ==> r.value[i].0 in Ends(goGraph.edges)
    ensures r.Success? ==> forall n :: n in Ends(goGraph.edges) ==> exists i :: 0 <= i < |r.value| && r.value[i].0 == n
    ensures r.Success? ==> forall i :: 0 <= i < |r.value| ==>
      r.value[i].0 in goGraph.nodes && r.value[i].1 in goGraph.nodes && Successors(goGraph, r.value[i].1) == []
  {
    var trimmed := FromEdgeList(goGraph);
    var reversed := Reverse(trimmed);
    r := ParentMappings(reversed, fuel);
    if r.Success? {
      ParentMappingNodes(reversed, fuel, r.value);
      PairsCoverEnds(goGraph.edges, trimmed.nodes, r.value);
      EdgeListMappingRoots(goGraph, fuel, r.value);
    }
  }

  /** A parent mapping pairs the graph's nodes in order. */
  lemma ParentMappingNodes(g: DiGraph, fuel: nat, m: seq<(Node, Node)>)
    requires g.Valid() && IsParentMapping(g, fuel, m)
    ensures |m| == |g.nodes| && forall i :: 0 <= i < |m| ==> m[i].0 == g.nodes[i]
  {
  }

  /** A list that pairs, in order, nodes that are exactly the ends of some
      edges holds exactly those ends. */
  lemma PairsCoverEnds(es: seq<Edge>, nodes: seq<Node>, m: seq<(Node, Node)>)
    requires forall n :: n in nodes <==> n in Ends(es)
    requires |m| == |nodes| && forall i :: 0 <= i < |m| ==> m[i].0 == nodes[i]
    ensures forall i :: 0 <= i < |m| ==> m[i].0 in Ends(es)
    ensures forall n :: n in Ends(es) ==> exists i :: 0 <= i < |m| && m[i].0 == n
  {
    forall i | 0 <= i < |m| ensures m[i].0 in Ends(es) {
      assert nodes[i] in nodes;
    }
    forall n | n in Ends(es) ensures exists i :: 0 <= i < |m| && m[i].0 == n {
      var i :| 0 <= i < |nodes| && nodes[i] == n;
      assert m[i].0 == n;
    }
  }

  /** Every term and every root of the mapping of the rebuilt ontology is a
      term of the ontology, and every root has no parents there. */
  lemma EdgeListMappingRoots(goGraph: DiGraph, fuel: nat, m: seq<(Node, Node)>)
    requires goGraph.Valid() && IsParentMapping(Reverse(FromEdgeList(goGraph)), fuel, m)
    ensures forall i :: 0 <= i < |m| ==>
      m[i].0 in goGraph.nodes && m[i].1 in goGraph.nodes && Successors(goGraph, m[i].1) == []
  {
    var trimmed := FromEdgeList(goGraph);
    var reversed := Reverse(trimmed);
    assert reversed.nodes == trimmed.nodes;
    forall i | 0 <= i < |m|
      ensures m[i].0 in goGraph.nodes && m[i].1 in goGraph.nodes
      ensures Successors(goGraph, m[i].1) == []
    {
      assert FindRoot(reversed, reversed.nodes[i], fuel) == Success(m[i].1);
      assert m[i].0 in trimmed.nodes && m[i].1 in trimmed.nodes;
      ReversePredecessors(trimmed, m[i].1);
      EndsAreNodes(goGraph, m[i].0);
      EndsAreNodes(goGraph, m[i].1);
    }
  }

  /** The mapping as the rows of the `go_node`/`root_parent` table. */
  function AsRows(mappings: seq<(Node, Node)>): (rows: seq<FeatureBuilder.MappingRow>)
    ensures |rows| == |mappings|
    ensures forall i :: 0 <= i < |mappings| ==>
      rows[i].goNode == mappings[i].0 && rows[i].rootParent == mappings[i].1
  {
    seq(|mappings|, i requires 0 <= i < |mappings| => FeatureBuilder.MappingRow(mappings[i].0, mappings[i].1))
  }

  /** Reading the written mapping back gives every term the root that
      `find_root` found for it. */
  lemma MappingRowsGiveRoots(g: DiGraph, fuel: nat, mappings: seq<(Node, Node)>, node: Node)
    requires g.Valid() && IsParentMapping(g, fuel, mappings) && node in g.nodes
    ensures FindRoot(g, node, fuel).Success?
    ensures FeatureBuilder.FirstRoot(AsRows(mappings), node) == Some(FindRoot(g, node, fuel).value)
  {
    var rows := AsRows(mappings);
    var i :| 0 <= i < |g.nodes| && g.nodes[i] == node;
    assert rows[i].goNode == node;
    var root := FeatureBuilder.FirstRoot(rows, node);
    var k :| 0 <= k < |rows| && rows[k].goNode == node && rows[k].rootParent == root.value &&
      forall j :: 0 <= j < k ==> rows[j].goNode != node;
    assert k == i by {
      assert g.nodes[k] == node;
    }
  }
}
