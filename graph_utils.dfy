/** Edge-set manipulation over the interaction graph: negative sampling by tail
    corruption, candidate edges for prediction, degree filters, set-difference
    filtering, attribute tagging and the removal of experimentally validated
    relations from the index-coded interaction table. */
module GraphUtils {
  import opened Wrappers
  import opened Seqs
  import opened Graphs

  // ---- negative sampling ---------------------------------------------------

  /** `e` is a corruption of a positive edge with head `head`: it keeps the head,
      borrows the tail of some positive edge and is not itself positive. */
  ghost predicate IsCorruption(positives: seq<Edge>, head: Node, e: Edge) {
    && e.0 == head
    && e !in positives
    && exists f :: f in positives && e.1 == f.1
  }

  /** Some tail of a positive edge, put after `head`, gives an edge that is not
      positive; without one the rejection loop would never end. */
  predicate HasCorruption(positives: seq<Edge>, head: Node) {
    exists f :: f in positives && (head, f.1) !in positives
  }

  /** Each of `negatives` is a corruption with the head at the same position of `heads`. */
  ghost predicate CorruptionsOf(positives: seq<Edge>, heads: seq<Node>, negatives: seq<Edge>) {
    && |negatives| == |heads|
    && forall j :: 0 <= j < |negatives| ==> IsCorruption(positives, heads[j], negatives[j])
  }

  lemma CorruptionsOfAppend(positives: seq<Edge>, heads: seq<Node>, negatives: seq<Edge>, h: Node, e: Edge)
    requires CorruptionsOf(positives, heads, negatives) && IsCorruption(positives, h, e)
    ensures CorruptionsOf(positives, heads + [h], negatives + [e])
  {
  }

  /** The number of negatives drawn per positive edge: `range` of a negative count is empty. */
  function DrawsPerEdge(numNegative: int): nat {
    if numNegative > 0 then numNegative else 0
  }

  /** The heads of the negative edges, in the order they are produced: `k`
      copies of the head of each positive edge, positive edge by positive edge. */
  function NegativeHeads(edges: seq<Edge>, k: nat): seq<Node> {
    if edges == [] then []
    else NegativeHeads(edges[..|edges| - 1], k) + Repeat(edges[|edges| - 1].0, k)
  }

  lemma {:induction false} NegativeHeadsLength(edges: seq<Edge>, k: nat)
    ensures |NegativeHeads(edges, k)| == |edges| * k
  {
    if edges != [] {
      var m := |edges| - 1;
      NegativeHeadsLength(edges[..m], k);
      assert |NegativeHeads(edges, k)| == m * k + k;
      assert m * k + k == (m + 1) * k;
    }
  }

  /** The negative at position `i * k + r` comes from the `i`-th positive edge. */
  lemma {:induction false} NegativeHeadsAt(edges: seq<Edge>, k: nat, i: nat, r: nat)
    requires i < |edges| && r < k
    ensures i * k + r < |NegativeHeads(edges, k)|
    ensures NegativeHeads(edges, k)[i * k + r] == edges[i].0
  {
    var n := |edges| - 1;
    var front := NegativeHeads(edges[..n], k);
    assert NegativeHeads(edges, k) == front + Repeat(edges[n].0, k);
    NegativeHeadsLength(edges[..n], k);
    if i < n {
      BlockBound(i, n, k, r);
      NegativeHeadsAt(edges[..n], k, i, r);
      assert edges[..n][i] == edges[i];
    } else {
      assert |front| == i * k;
    }
  }

  /** Position `r` of block `i` lies before block `n` when `i < n`. */
  lemma BlockBound(i: nat, n: nat, k: nat, r: nat)
    requires i < n && r < k
    ensures i * k + r < n * k
  {
    assert (n - i - 1) * k >= 0;
    assert n * k == i * k + k + (n - i - 1) * k;
  }

  /** `_create_corrupted_edge`: the head of `edge` with the tail of a positive
      edge drawn at random; sampling from an empty list raises. */
  method CreateCorruptedEdge(positives: seq<Edge>, edge: Edge) returns (r: Result<Edge>)
    ensures r.Success? <==> |positives| > 0
    ensures r.Success? ==> r.value.0 == edge.0 && exists f :: f in positives && r.value.1 == f.1
  {
    if |positives| == 0 {
      return Failure(ValueError);
    }
    assert positives[0] in positives;
    var randomEdge :| randomEdge in positives;
    r := Success((edge.0, randomEdge.1));
  }

  /** One pass of the rejection loop of `sample_negative_edges` for `edge`: a
      corrupted edge is drawn and redrawn while it is positive. Every possible
      exit of the loop is a non-positive corruption; when the first draw is
      rejected, the model takes one of those exits. */
  method DrawNegative(edges: seq<Edge>, edge: Edge) returns (negative: Edge)
    requires edge in edges && HasCorruption(edges, edge.0)
    ensures IsCorruption(edges, edge.0, negative)
  {
    var drawn := CreateCorruptedEdge(edges, edge);
    negative := drawn.value;
    if negative in edges {
      var f :| f in edges && (edge.0, f.1) !in edges;
      negative := (edge.0, f.1);
    }
  }

  lemma CorruptionsOfConcat(positives: seq<Edge>, h1: seq<Node>, n1: seq<Edge>, h2: seq<Node>, n2: seq<Edge>)
    requires CorruptionsOf(positives, h1, n1) && CorruptionsOf(positives, h2, n2)
    ensures CorruptionsOf(positives, h1 + h2, n1 + n2)
  {
  }

  /** The inner loop of `sample_negative_edges`: `k` negatives for one positive edge. */
  method SampleForEdge(edges: seq<Edge>, edge: Edge, k: nat) returns (negatives: seq<Edge>)
    requires edge in edges && (k > 0 ==> HasCorruption(edges, edge.0))
    ensures CorruptionsOf(edges, Repeat(edge.0, k), negatives)
  {
    negatives := [];
    var n := 0;
    while n < k
      invariant 0 <= n <= k
      invariant CorruptionsOf(edges, Repeat(edge.0, n), negatives)
    {
      var negative := DrawNegative(edges, edge);
      CorruptionsOfAppend(edges, Repeat(edge.0, n), negatives, edge.0, negative);
      negatives := negatives + [negative];
      n := n + 1;
    }
  }

  /** `sample_negative_edges`: for each positive edge in turn, `numNegative`
      corruptions of it that are not positive. */
  method SampleNegativeEdges(edges: seq<Edge>, numNegative: int) returns (negatives: seq<Edge>)
    requires numNegative > 0 ==> forall e :: e in edges ==> HasCorruption(edges, e.0)
    ensures |negatives| == |edges| * DrawsPerEdge(numNegative)
    ensures CorruptionsOf(edges, NegativeHeads(edges, DrawsPerEdge(numNegative)), negatives)
  {
    var k := DrawsPerEdge(numNegative);
    negatives := [];
    var i := 0;
    while i < |edges|
      invariant 0 <= i <= |edges|
      invariant CorruptionsOf(edges, NegativeHeads(edges[..i], k), negatives)
    {
      var forEdge := SampleForEdge(edges, edges[i], k);
      CorruptionsOfConcat(edges, NegativeHeads(edges[..i], k), negatives, Repeat(edges[i].0, k), forEdge);
      assert edges[..i + 1][..i] == edges[..i];
      negatives := negatives + forEdge;
      i := i + 1;
    }
    assert edges[..i] == edges;
    NegativeHeadsLength(edges, k);
  }

  // ---- candidate edges -----------------------------------------------------

  /** Both orientations of the edge between `q` and each node of `ns` other than `q`. */
  function PairsWith(q: Node, ns: seq<Node>): seq<Edge> {
    if ns == [] then []
    else
      var n := ns[|ns| - 1];
      PairsWith(q, ns[..|ns| - 1]) + (if q != n then [(q, n), (n, q)] else [])
  }

  /** The candidate edges between each of `qs` and each of `ns`, query by query. */
  function CandidateEdges(qs: seq<Node>, ns: seq<Node>): seq<Edge> {
    if qs == [] then [] else CandidateEdges(qs[..|qs| - 1], ns) + PairsWith(qs[|qs| - 1], ns)
  }

  /** One more node of the list adds its two orientations, unless it is `q`. */
  lemma PairsWithPrefixStep(q: Node, ns: seq<Node>, j: nat)
    requires j < |ns|
    ensures PairsWith(q, ns[..j + 1]) == PairsWith(q, ns[..j]) + (if q != ns[j] then [(q, ns[j]), (ns[j], q)] else [])
  {
    assert ns[..j + 1][..j] == ns[..j];
  }

  /** One more query adds its pairs. */
  lemma CandidateEdgesPrefixStep(qs: seq<Node>, ns: seq<Node>, i: nat)
    requires i < |qs|
    ensures CandidateEdges(qs[..i + 1], ns) == CandidateEdges(qs[..i], ns) + PairsWith(qs[i], ns)
  {
    assert qs[..i + 1][..i] == qs[..i];
  }

  lemma AppendTwo<T>(a: seq<T>, b: seq<T>, x: T, y: T)
    ensures a + b + [x] + [y] == a + (b + [x, y])
  {
  }

  lemma {:induction false} PairsWithMembership(q: Node, ns: seq<Node>, e: Edge)
    ensures e in PairsWith(q, ns) <==> e.0 != e.1 && ((e.0 == q && e.1 in ns) || (e.1 == q && e.0 in ns))
  {
    if ns != [] {
      PairsWithMembership(q, ns[..|ns| - 1], e);
      assert ns == ns[..|ns| - 1] + [ns[|ns| - 1]];
    }
  }

  /** A candidate edge is never a self-loop, and joins a query protein to a
      graph node in one direction or the other; every such pair is a candidate. */
  lemma {:induction false} CandidateEdgesMembership(qs: seq<Node>, ns: seq<Node>, e: Edge)
    ensures e in CandidateEdges(qs, ns) <==> e.0 != e.1 && ((e.0 in qs && e.1 in ns) || (e.1 in qs && e.0 in ns))
  {
    if qs != [] {
      CandidateEdgesMembership(qs[..|qs| - 1], ns, e);
      PairsWithMembership(qs[|qs| - 1], ns, e);
      assert qs == qs[..|qs| - 1] + [qs[|qs| - 1]];
    }
  }

  /** 1 when `b` holds, else 0. */
  function Ind(b: bool): nat {
    if b then 1 else 0
  }

  lemma {:induction false} PairsWithCount(q: Node, ns: seq<Node>, e: Edge)
    requires NoDuplicates(ns)
    ensures multiset(PairsWith(q, ns))[e] ==
              Ind(e.0 != e.1 && e.0 == q && e.1 in ns) + Ind(e.0 != e.1 && e.1 == q && e.0 in ns)
  {
    if ns != [] {
      var ns' := ns[..|ns| - 1];
      var n := ns[|ns| - 1];
      var added := if q != n then [(q, n), (n, q)] else [];
      PairsWithCount(q, ns', e);
      assert ns == ns' + [n];
      assert n !in ns';
      assert multiset(PairsWith(q, ns))[e] == multiset(PairsWith(q, ns'))[e] + multiset(added)[e];
      assert multiset(added)[e] == Ind(q != n && e == (q, n)) + Ind(q != n && e == (n, q));
      assert Ind(e.0 != e.1 && e.0 == q && e.1 in ns) ==
             Ind(e.0 != e.1 && e.0 == q && e.1 in ns') + Ind(q != n && e == (q, n));
      assert Ind(e.0 != e.1 && e.1 == q && e.0 in ns) ==
             Ind(e.0 != e.1 && e.1 == q && e.0 in ns') + Ind(q != n && e == (n, q));
    }
  }

  lemma {:induction false} CandidateEdgesCount(qs: seq<Node>, ns: seq<Node>, e: Edge)
    requires NoDuplicates(qs) && NoDuplicates(ns)
    ensures multiset(CandidateEdges(qs, ns))[e] ==
              Ind(e.0 != e.1 && e.0 in qs && e.1 in ns) + Ind(e.0 != e.1 && e.1 in qs && e.0 in ns)
  {
    if qs != [] {
      var qs' := qs[..|qs| - 1];
      var q := qs[|qs| - 1];
      CandidateEdgesCount(qs', ns, e);
      PairsWithCount(q, ns, e);
      assert qs == qs' + [q];
      assert q !in qs';
      assert multiset(CandidateEdges(qs, ns))[e] == multiset(CandidateEdges(qs', ns))[e] + multiset(PairsWith(q, ns))[e];
      assert Ind(e.0 != e.1 && e.0 in qs && e.1 in ns) ==
             Ind(e.0 != e.1 && e.0 in qs' && e.1 in ns) + Ind(e.0 != e.1 && e.0 == q && e.1 in ns);
      assert Ind(e.0 != e.1 && e.1 in qs && e.0 in ns) ==
             Ind(e.0 != e.1 && e.1 in qs' && e.0 in ns) + Ind(e.0 != e.1 && e.1 == q && e.0 in ns);
    }
  }

  /** Over the nodes of a graph, the candidates are the ordered pairs of
      distinct nodes, each exactly twice. */
  lemma GraphCandidates(g: DiGraph)
    requires g.Valid()
    ensures forall e :: e in CandidateEdges(g.nodes, g.nodes) ==> e.0 != e.1 && e.0 in g.nodes && e.1 in g.nodes
    ensures forall a, b :: a in g.nodes && b in g.nodes && a != b ==> multiset(CandidateEdges(g.nodes, g.nodes))[(a, b)] == 2
  {
    forall e | e in CandidateEdges(g.nodes, g.nodes) ensures e.0 != e.1 && e.0 in g.nodes && e.1 in g.nodes {
      CandidateEdgesMembership(g.nodes, g.nodes, e);
    }
    forall a, b | a in g.nodes && b in g.nodes && a != b ensures multiset(CandidateEdges(g.nodes, g.nodes))[(a, b)] == 2 {
      CandidateEdgesCount(g.nodes, g.nodes, (a, b));
    }
  }

  /** `get_possible_edges_for_proteins` */
  method PossibleEdgesForProteins(queries: seq<Node>, g: DiGraph) returns (possible: seq<Edge>)
    ensures possible == CandidateEdges(queries, g.nodes)
    ensures forall e :: e in possible <==>
              e.0 != e.1 && ((e.0 in queries && e.1 in g.nodes) || (e.1 in queries && e.0 in g.nodes))
  {
    var all := g.nodes;
    possible := [];
    var i := 0;
    while i < |queries|
      invariant 0 <= i <= |queries|
      invariant possible == CandidateEdges(queries[..i], all)
    {
      var query := queries[i];
      ghost var before := possible;
      var j := 0;
      while j < |all|
        invariant 0 <= j <= |all|
        invariant possible == before + PairsWith(query, all[..j])
      {
        PairsWithPrefixStep(query, all, j);
        if query != all[j] {
          possible := possible + [(query, all[j])];
          possible := possible + [(all[j], query)];
          AppendTwo(before, PairsWith(query, all[..j]), (query, all[j]), (all[j], query));
        }
        j := j + 1;
      }
      assert all[..j] == all;
      CandidateEdgesPrefixStep(queries, all, i);
      i := i + 1;
    }
    assert queries[..i] == queries;
    forall e ensures e in possible <==>
        e.0 != e.1 && ((e.0 in queries && e.1 in g.nodes) || (e.1 in queries && e.0 in g.nodes)) {
      CandidateEdgesMembership(queries, g.nodes, e);
    }
  }

  /** `get_possible_edges_in_graph`: every ordered pair of distinct nodes
      appears exactly twice, and nothing else appears. */
  method PossibleEdgesInGraph(g: DiGraph) returns (possible: seq<Edge>)
    requires g.Valid()
    ensures possible == CandidateEdges(g.nodes, g.nodes)
    ensures forall e :: e in possible ==> e.0 != e.1 && e.0 in g.nodes && e.1 in g.nodes
    ensures forall a, b :: a in g.nodes && b in g.nodes && a != b ==> multiset(possible)[(a, b)] == 2
  {
    var all := g.nodes;
    possible := [];
    var i := 0;
    while i < |all|
      invariant 0 <= i <= |all|
      invariant possible == CandidateEdges(all[..i], all)
    {
      var head := all[i];
      ghost var before := possible;
      var j := 0;
      while j < |all|
        invariant 0 <= j <= |all|
        invariant possible == before + PairsWith(head, all[..j])
      {
        PairsWithPrefixStep(head, all, j);
        var tail := all[j];
        if head != tail {
          possible := possible + [(head, tail)];
          possible := possible + [(tail, head)];
          AppendTwo(before, PairsWith(head, all[..j]), (head, tail), (tail, head));
        }
        j := j + 1;
      }
      assert all[..j] == all;
      CandidateEdgesPrefixStep(all, all, i);
      i := i + 1;
    }
    assert all[..i] == all;
    GraphCandidates(g);
  }

  // ---- degree filters ------------------------------------------------------

  /** `get_kinases_with_substrates_lt_or_eq_to` */
  method KinasesWithSubstratesAtMost(g: DiGraph, numSubstrates: int) returns (kinases: seq<Node>)
    ensures kinases == Filter(g.nodes, n => OutDegree(g, n) <= numSubstrates)
    ensures forall n :: n in kinases <==> n in g.nodes && OutDegree(g, n) <= numSubstrates
  {
    kinases := [];
    var i := 0;
    while i < |g.nodes|
      invariant 0 <= i <= |g.nodes|
      invariant kinases == Filter(g.nodes[..i], n => OutDegree(g, n) <= numSubstrates)
    {
      var node := g.nodes[i];
      FilterPrefixStep(g.nodes, i, n => OutDegree(g, n) <= numSubstrates);
      if OutDegree(g, node) <= numSubstrates {
        kinases := kinases + [node];
      }
      i := i + 1;
    }
    assert g.nodes[..i] == g.nodes;
    forall n ensures n in kinases <==> n in g.nodes && OutDegree(g, n) <= numSubstrates {
      FilterMembership(g.nodes, n => OutDegree(g, n) <= numSubstrates, n);
    }
  }

  /** `find_common_proteins`: the given nodes that have substrates in the
      graph, each once, in an order the set conversion leaves open. */
  method FindCommonProteins(g: DiGraph, nodes: seq<Node>) returns (common: seq<Node>)
    ensures NoDuplicates(common)
    ensures forall x :: x in common <==> x in nodes && x in g.nodes && OutDegree(g, x) != 0
  {
    var kinaseNodes := [];
    var i := 0;
    while i < |g.nodes|
      invariant 0 <= i <= |g.nodes|
      invariant forall x :: x in kinaseNodes <==> x in g.nodes[..i] && OutDegree(g, x) != 0
    {
      var node := g.nodes[i];
      assert g.nodes[..i + 1] == g.nodes[..i] + [node];
      if OutDegree(g, node) != 0 {
        kinaseNodes := kinaseNodes + [node];
      }
      i := i + 1;
    }
    assert g.nodes[..i] == g.nodes;
    var nodesSet := set x | x in nodes;
    var intersection := nodesSet * set x | x in kinaseNodes;
    common := SetToSeq(intersection);
  }

  /** `get_substrates_for`: the successors of `kinase`; networkx raises for a
      node the graph does not have. */
  function SubstratesFor(g: DiGraph, kinase: Node): (r: Result<seq<Node>>)
    requires g.Valid()
    ensures r.Success? <==> kinase in g.nodes
    ensures r.Success? ==> |r.value| == OutDegree(g, kinase)
    ensures r.Success? ==> forall t :: t in r.value <==> (kinase, t) in g.edges
  {
    if kinase !in g.nodes then Failure(NodeNotInGraph(kinase))
    else
      assert forall t :: t in Successors(g, kinase) <==> (kinase, t) in g.edges by {
        forall t ensures t in Successors(g, kinase) <==> (kinase, t) in g.edges {
          SuccessorsMembership(g, kinase, t);
        }
      }
      Success(Successors(g, kinase))
  }

  /** `tag_edges`: a copy of the graph in which every edge carries the
      attribute `name` with value `value`; the other attributes are kept. */
  function TagEdges(g: DiGraph, name: string, value: string): (h: DiGraph)
    requires g.Valid()
    ensures h.Valid() && h.nodes == g.nodes && h.edges == g.edges
    ensures forall e :: e in h.edges ==> name in h.edgeAttrs[e] && h.edgeAttrs[e][name] == value
    ensures forall e, key :: e in h.edges && key != name ==>
              (key in h.edgeAttrs[e] <==> key in g.edgeAttrs[e]) &&
              (key in g.edgeAttrs[e] ==> h.edgeAttrs[e][key] == g.edgeAttrs[e][key])
  {
    g.(edgeAttrs := map e | e in g.edgeAttrs :: g.edgeAttrs[e][name := value])
  }

  // ---- set difference --------------------------------------------------------

  /** `filter_edges`: the original edges that are not to be removed, each once,
      in an order the set conversion leaves open. */
  method FilterEdges(original: seq<Edge>, toRemove: seq<Edge>) returns (filtered: seq<Edge>)
    ensures NoDuplicates(filtered)
    ensures forall e :: e in filtered <==> e in original && e !in toRemove
  {
    var originalSet := set e | e in original;
    var removeSet := set e | e in toRemove;
    filtered := SetToSeq(originalSet - removeSet);
  }

  // ---- disconnected pairs ----------------------------------------------------

  /** `e` joins two distinct nodes that no path joins in the undirected view. */
  ghost predicate Disconnected(g: DiGraph, e: Edge) {
    e.0 != e.1 && e.1 in g.nodes && !Connected(g, e.0, e.1)
  }

  /** The inner loop of `get_negative_edges`: the pairs from `source` to a
      node it has no path to. */
  method NegativeEdgesFrom(g: DiGraph, source: Node) returns (negatives: seq<Edge>)
    requires g.Valid() && source in g.nodes
    ensures NoDuplicates(negatives)
    ensures forall e :: e in negatives <==> e.0 == source && Disconnected(g, e)
  {
    var nodes := g.nodes;
    negatives := [];
    var j := 0;
    while j < |nodes|
      invariant 0 <= j <= |nodes|
      invariant NoDuplicates(negatives)
      invariant forall e :: e in negatives <==> e.0 == source && e.1 in nodes[..j] && Disconnected(g, e)
    {
      var target := nodes[j];
      assert nodes[..j + 1] == nodes[..j] + [target];
      if source != target {
        var pathExists := HasPath(g, source, target);
        if !pathExists {
          assert target !in nodes[..j];
          negatives := negatives + [(source, target)];
        }
      }
      j := j + 1;
    }
    assert nodes[..j] == nodes;
  }

  /** `get_negative_edges`: the ordered pairs of distinct nodes with no path
      between them in the undirected view of the graph. */
  method NegativeEdges(g: DiGraph) returns (negatives: seq<Edge>)
    requires g.Valid()
    ensures NoDuplicates(negatives)
    ensures forall e :: e in negatives <==>
              e.0 in g.nodes && e.1 in g.nodes && e.0 != e.1 && !Connected(g, e.0, e.1)
  {
    var nodes := g.nodes;
    negatives := [];
    var i := 0;
    while i < |nodes|
      invariant 0 <= i <= |nodes|
      invariant NoDuplicates(negatives)
      invariant forall e :: e in negatives <==> e.0 in nodes[..i] && Disconnected(g, e)
    {
      var source := nodes[i];
      var fromSource := NegativeEdgesFrom(g, source);
      assert nodes[..i + 1] == nodes[..i] + [source];
      assert source !in nodes[..i];
      NoDuplicatesConcat(negatives, fromSource);
      negatives := negatives + fromSource;
      i := i + 1;
    }
    assert nodes[..i] == nodes;
  }

  // ---- index <-> name remapping ------------------------------------------------

  /** A row of the interaction table, its proteins coded by 1-based index. */
  datatype IndexedInteraction = IndexedInteraction(kinase: int, substrate: int)

  /** A row of the experimentally validated table (`KinaseAC`, `SubstrateAC`). */
  datatype ExperimentalPair = ExperimentalPair(kinaseAc: Node, substrateAc: Node)

  /** A row of the interaction table with its proteins named. */
  datatype NamedInteraction = NamedInteraction(kinase: Node, substrate: Node)

  /** Python's `names.index(p)`: the position of the first occurrence. */
  function IndexOf(names: seq<Node>, p: Node): (i: nat)
    requires p in names
    ensures i < |names| && names[i] == p
    ensures forall j :: 0 <= j < i ==> names[j] != p
  {
    if names[0] == p then 0 else 1 + IndexOf(names[1..], p)
  }

  /** `name_to_index`: the 1-based index of the first occurrence; a name not in
      the list raises. */
  function NameToIndex(names: seq<Node>, p: Node): Result<int> {
    if p in names then Success(IndexOf(names, p) + 1) else Failure(ValueError)
  }

  /** `index_to_name`: `protein_names[index - 1]`, with Python's indexing, so
      index 0 names the last protein. */
  function IndexToName(names: seq<Node>, index: int): Result<Node> {
    PyIndex(names, index - 1)
  }

  /** Naming the index of a name gives the name back. */
  lemma NameIndexRoundTrip(names: seq<Node>, p: Node)
    requires p in names
    ensures NameToIndex(names, p).Success?
    ensures IndexToName(names, NameToIndex(names, p).value) == Success(p)
  {
  }

  /** With duplicate-free names, indexing a name gives its index back. */
  lemma IndexNameRoundTrip(names: seq<Node>, index: int)
    requires NoDuplicates(names) && 1 <= index <= |names|
    ensures IndexToName(names, index).Success?
    ensures NameToIndex(names, IndexToName(names, index).value) == Success(index)
  {
    var p := names[index - 1];
    var i := IndexOf(names, p);
    assert names[i] == names[index - 1];
  }

  /** The rows that do not carry the index pair `pair`. */
  function NotPair(pair: (int, int)): IndexedInteraction -> bool {
    (row: IndexedInteraction) => !(row.kinase == pair.0 && row.substrate == pair.1)
  }

  /** The rows left after dropping, pair after pair, every row that carries one
      of the `pairs`. */
  function DropPairs(rows: seq<IndexedInteraction>, pairs: seq<(int, int)>): seq<IndexedInteraction> {
    if pairs == [] then rows else Filter(DropPairs(rows, pairs[..|pairs| - 1]), NotPair(pairs[|pairs| - 1]))
  }

  lemma {:induction false} DropPairsMembership(rows: seq<IndexedInteraction>, pairs: seq<(int, int)>, row: IndexedInteraction)
    ensures row in DropPairs(rows, pairs) <==> row in rows && (row.kinase, row.substrate) !in pairs
  {
    if pairs != [] {
      var pairs' := pairs[..|pairs| - 1];
      DropPairsMembership(rows, pairs', row);
      FilterMembership(DropPairs(rows, pairs'), NotPair(pairs[|pairs| - 1]), row);
      assert pairs == pairs' + [pairs[|pairs| - 1]];
    }
  }

  /** The 1-based index pairs of the experimental relations, or the error of the
      first name that `protein_names` does not have. */
  function ExperimentalIndexPairs(experimental: seq<ExperimentalPair>, names: seq<Node>): (r: Result<seq<(int, int)>>)
    ensures r.Success? <==> forall p :: p in experimental ==> p.kinaseAc in names && p.substrateAc in names
    ensures r.Success? ==> |r.value| == |experimental|
    ensures r.Success? ==> forall i :: 0 <= i < |experimental| ==>
              r.value[i] == (NameToIndex(names, experimental[i].kinaseAc).value,
                             NameToIndex(names, experimental[i].substrateAc).value)
  {
    if experimental == [] then Success([])
    else
      var last := experimental[|experimental| - 1];
      assert experimental == experimental[..|experimental| - 1] + [last];
      var front :- ExperimentalIndexPairs(experimental[..|experimental| - 1], names);
      var k :- NameToIndex(names, last.kinaseAc);
      var s :- NameToIndex(names, last.substrateAc);
      Success(front + [(k, s)])
  }

  /** Names both proteins of every row, or fails on the first index out of range. */
  function NameRows(rows: seq<IndexedInteraction>, names: seq<Node>): (r: Result<seq<NamedInteraction>>)
    ensures r.Success? <==> forall row :: row in rows ==>
              IndexToName(names, row.kinase).Success? && IndexToName(names, row.substrate).Success?
    ensures r.Success? ==> |r.value| == |rows|
    ensures r.Success? ==> forall i :: 0 <= i < |rows| ==>
              r.value[i] == NamedInteraction(IndexToName(names, rows[i].kinase).value,
                                             IndexToName(names, rows[i].substrate).value)
  {
    if rows == [] then Success([])
    else
      var last := rows[|rows| - 1];
      assert rows == rows[..|rows| - 1] + [last];
      var front :- NameRows(rows[..|rows| - 1], names);
      var k :- IndexToName(names, last.kinase);
      var s :- IndexToName(names, last.substrate);
      Success(front + [NamedInteraction(k, s)])
  }

  /** `remove_experimental_edges`: drops (on a copy) every interaction whose
      index pair is that of an experimental relation, then names the rest. */
  method RemoveExperimentalEdges(interactions: seq<IndexedInteraction>, experimental: seq<ExperimentalPair>, names: seq<Node>)
    returns (r: Result<seq<NamedInteraction>>)
    ensures r.Failure? <==>
              (exists p :: p in experimental && (p.kinaseAc !in names || p.substrateAc !in names)) ||
              (ExperimentalIndexPairs(experimental, names).Success? &&
               NameRows(DropPairs(interactions, ExperimentalIndexPairs(experimental, names).value), names).Failure?)
    ensures r.Success? ==>
              r == NameRows(DropPairs(interactions, ExperimentalIndexPairs(experimental, names).value), names)
  {
    var indexPairs := ExperimentalIndexPairs(experimental, names);
    if indexPairs.Failure? {
      return Failure(indexPairs.error);
    }
    var pairs := indexPairs.value;
    var copy := interactions;
    var i := 0;
    while i < |pairs|
      invariant 0 <= i <= |pairs|
      invariant copy == DropPairs(interactions, pairs[..i])
    {
      assert pairs[..i + 1][..i] == pairs[..i];
      copy := Filter(copy, NotPair(pairs[i]));
      i := i + 1;
    }
    assert pairs[..i] == pairs;
    r := NameRows(copy, names);
  }

  /** With duplicate-free protein names and every index in range, no
      experimental relation survives the removal. */
  lemma ExperimentalRelationsRemoved(interactions: seq<IndexedInteraction>, experimental: seq<ExperimentalPair>,
                                     names: seq<Node>, p: ExperimentalPair, row: NamedInteraction)
    requires NoDuplicates(names)
    requires forall x :: x in interactions ==> 1 <= x.kinase <= |names| && 1 <= x.substrate <= |names|
    requires ExperimentalIndexPairs(experimental, names).Success?
    requires p in experimental
    requires NameRows(DropPairs(interactions, ExperimentalIndexPairs(experimental, names).value), names).Success?
    requires row in NameRows(DropPairs(interactions, ExperimentalIndexPairs(experimental, names).value), names).value
    ensures row != NamedInteraction(p.kinaseAc, p.substrateAc)
  {
    var pairs := ExperimentalIndexPairs(experimental, names).value;
    var kept := DropPairs(interactions, pairs);
    var named := NameRows(kept, names).value;
    var i :| 0 <= i < |named| && named[i] == row;
    var x := kept[i];
    DropPairsMembership(interactions, pairs, x);
    var j :| 0 <= j < |experimental| && experimental[j] == p;
    if row == NamedInteraction(p.kinaseAc, p.substrateAc) {
      IndexNameRoundTrip(names, x.kinase);
      IndexNameRoundTrip(names, x.substrate);
      assert false;
    }
  }
}
