/** The rules of the prediction report for understudied kinases: experimental
    edges without self-loops, proteins ordered by their degree in the network,
    whether an edge is predicted at a threshold, and the substrates predicted
    for each kinase. */
module PredictReport {
  import opened Wrappers
  import opened Seqs
  import opened Graphs

  // ---- self-loop removal ---------------------------------------------------------

  function NotLoop(): Edge -> bool {
    (e: Edge) => e.0 != e.1
  }

  /** The experimental edges whose two ends differ, in their original order. */
  method RemoveSelfLoops(edges: seq<Edge>) returns (withoutLoops: seq<Edge>)
    ensures withoutLoops == Filter(edges, NotLoop())
    ensures forall e :: e in withoutLoops <==> e in edges && e.0 != e.1
    ensures Subsequence(withoutLoops, edges)
  {
    withoutLoops := [];
    for i := 0 to |edges|
      invariant withoutLoops == Filter(edges[..i], NotLoop())
    {
      var edge := edges[i];
      FilterPrefixStep(edges, i, NotLoop());
      if edge.0 != edge.1 {
        withoutLoops := withoutLoops + [edge];
      }
    }
    assert edges[..|edges|] == edges;
    forall e ensures e in withoutLoops <==> e in edges && e.0 != e.1 {
      FilterMembership(edges, NotLoop(), e);
    }
    FilterIsSubsequence(edges, NotLoop());
  }

  // ---- degrees ----------------------------------------------------------------------

  /** A protein and its recorded degree. */
  type DegreeEntry = (Node, nat)

  /** `graph.degree(protein)`, with 0 for a protein the graph does not hold
      (for which networkx returns a view rather than an int). */
  function NodeDegree(g: DiGraph, protein: Node): (d: nat)
    ensures protein !in g.nodes ==> d == 0
    ensures protein in g.nodes ==> d == InDegree(g, protein) + OutDegree(g, protein)
  {
    if protein in g.nodes then Degree(g, protein) else 0
  }

  function EntryOf(g: DiGraph): Node -> DegreeEntry {
    (protein: Node) => (protein, NodeDegree(g, protein))
  }

  /** The `degrees` list before sorting: one entry per protein, in list order. */
  method DegreeList(g: DiGraph, proteins: seq<Node>) returns (degrees: seq<DegreeEntry>)
    ensures degrees == Map(EntryOf(g), proteins)
  {
    degrees := [];
    for i := 0 to |proteins|
      invariant degrees == Map(EntryOf(g), proteins[..i])
    {
      var protein := proteins[i];
      var degree := if protein in g.nodes then Degree(g, protein) else 0;
      MapAppend(EntryOf(g), proteins[..i], protein);
      assert proteins[..i + 1] == proteins[..i] + [protein];
      degrees := degrees + [(protein, degree)];
    }
    assert proteins[..|proteins|] == proteins;
  }

  // ---- degrees.sort(key=lambda x: x[1]) ----------------------------------------------

  predicate SortedByDegree(s: seq<DegreeEntry>) {
    forall i, j :: 0 <= i < j < |s| ==> s[i].1 <= s[j].1
  }

  /** `x` placed after every entry of `sorted` whose degree is not larger. */
  function Insert(x: DegreeEntry, sorted: seq<DegreeEntry>): (r: seq<DegreeEntry>)
    ensures multiset(r) == multiset(sorted) + multiset{x}
    ensures |r| == |sorted| + 1
  {
    if sorted == [] then [x]
    else if sorted[0].1 <= x.1 then
      assert sorted == [sorted[0]] + sorted[1..];
      [sorted[0]] + Insert(x, sorted[1..])
    else [x] + sorted
  }

  /** Python's stable sort by degree, as an insertion sort over the list. */
  function SortByDegree(s: seq<DegreeEntry>): seq<DegreeEntry> {
    if s == [] then [] else Insert(s[|s| - 1], SortByDegree(s[..|s| - 1]))
  }

  lemma {:induction false} InsertSorted(x: DegreeEntry, sorted: seq<DegreeEntry>)
    requires SortedByDegree(sorted)
    ensures SortedByDegree(Insert(x, sorted))
  {
    if sorted != [] && sorted[0].1 <= x.1 {
      var rest := Insert(x, sorted[1..]);
      InsertSorted(x, sorted[1..]);
      forall y | y in rest ensures sorted[0].1 <= y.1 {
        assert y in multiset(rest);
        if y != x {
          assert y in sorted[1..];
        }
      }
    }
  }

  /** The sorted list is ordered by degree. */
  lemma {:induction false} SortByDegreeSorted(s: seq<DegreeEntry>)
    ensures SortedByDegree(SortByDegree(s))
  {
    if s != [] {
      SortByDegreeSorted(s[..|s| - 1]);
      InsertSorted(s[|s| - 1], SortByDegree(s[..|s| - 1]));
    }
  }

  /** The sorted list holds the same entries, each as often. */
  lemma {:induction false} SortByDegreePermutation(s: seq<DegreeEntry>)
    ensures multiset(SortByDegree(s)) == multiset(s)
  {
    if s != [] {
      var s' := s[..|s| - 1];
      SortByDegreePermutation(s');
      assert s == s' + [s[|s| - 1]];
    }
  }

  function HasDegree(d: nat): DegreeEntry -> bool {
    (x: DegreeEntry) => x.1 == d
  }

  /** Inserting keeps the entries of each degree in order, the new one last. */
  lemma {:induction false} InsertStable(x: DegreeEntry, sorted: seq<DegreeEntry>, d: nat)
    requires SortedByDegree(sorted)
    ensures Filter(Insert(x, sorted), HasDegree(d)) == Filter(sorted, HasDegree(d)) + (if x.1 == d then [x] else [])
  {
    if sorted == [] {
      FilterAppend([], x, HasDegree(d));
      assert [] + [x] == [x];
    } else if sorted[0].1 <= x.1 {
      assert SortedByDegree(sorted[1..]);
      InsertStable(x, sorted[1..], d);
      InsertStablePast(x, sorted, d);
    } else {
      InsertStableFront(x, sorted, d);
    }
  }

  /** The step of `InsertStable` where the new entry goes past the first one. */
  lemma InsertStablePast(x: DegreeEntry, sorted: seq<DegreeEntry>, d: nat)
    requires sorted != [] && sorted[0].1 <= x.1
    requires Filter(Insert(x, sorted[1..]), HasDegree(d)) ==
      Filter(sorted[1..], HasDegree(d)) + (if x.1 == d then [x] else [])
    ensures Filter(Insert(x, sorted), HasDegree(d)) == Filter(sorted, HasDegree(d)) + (if x.1 == d then [x] else [])
  {
    var p := HasDegree(d);
    var xs: seq<DegreeEntry> := if x.1 == d then [x] else [];
    var first, rest := sorted[0], sorted[1..];
    var inserted := Insert(x, rest);
    var fs: seq<DegreeEntry> := if p(first) then [first] else [];
    assert Insert(x, sorted) == [first] + inserted;
    calc {
      Filter(Insert(x, sorted), p);
      Filter([first] + inserted, p);
      { FilterCons(first, inserted, p); }
      fs + Filter(inserted, p);
      fs + (Filter(rest, p) + xs);
      { AppendAssociative(fs, Filter(rest, p), xs); }
      (fs + Filter(rest, p)) + xs;
      { FilterFront(sorted, p); }
      Filter(sorted, p) + xs;
    }
  }

  /** The step of `InsertStable` where the new entry goes in front: every
      entry behind it has a larger degree. */
  lemma InsertStableFront(x: DegreeEntry, sorted: seq<DegreeEntry>, d: nat)
    requires SortedByDegree(sorted) && sorted != [] && sorted[0].1 > x.1
    ensures Filter(Insert(x, sorted), HasDegree(d)) == Filter(sorted, HasDegree(d)) + (if x.1 == d then [x] else [])
  {
    var p := HasDegree(d);
    var xs: seq<DegreeEntry> := if x.1 == d then [x] else [];
    assert Insert(x, sorted) == [x] + sorted;
    FilterCons(x, sorted, p);
    if x.1 != d {
      assert xs + Filter(sorted, p) == Filter(sorted, p) + xs;
    } else {
      forall y | y in sorted ensures !p(y) {
        var k :| 0 <= k < |sorted| && sorted[k] == y;
        assert sorted[0].1 <= sorted[k].1;
      }
      FilterNone(sorted, p);
      assert xs + [] == [] + xs;
    }
  }

  lemma AppendAssociative<T>(a: seq<T>, b: seq<T>, c: seq<T>)
    ensures a + (b + c) == (a + b) + c
  {
  }

  lemma {:induction false} FilterNone<T>(s: seq<T>, p: T -> bool)
    requires forall y :: y in s ==> !p(y)
    ensures Filter(s, p) == []
  {
    if s != [] {
      FilterNone(s[..|s| - 1], p);
    }
  }

  /** The sort is stable: the entries of any one degree keep their relative order. */
  lemma {:induction false} SortByDegreeStable(s: seq<DegreeEntry>, d: nat)
    ensures Filter(SortByDegree(s), HasDegree(d)) == Filter(s, HasDegree(d))
  {
    if s != [] {
      var s', x := s[..|s| - 1], s[|s| - 1];
      SortByDegreeStable(s', d);
      SortByDegreeSorted(s');
      InsertStable(x, SortByDegree(s'), d);
    }
  }

  // ---- proteins_with_least_interactions ----------------------------------------------

  function NameOf(x: DegreeEntry): Node {
    x.0
  }

  /** The proteins recorded with degree 1, in list order. */
  function LeastInteractions(degrees: seq<DegreeEntry>): seq<Node> {
    Map(NameOf, Filter(degrees, HasDegree(1)))
  }

  /** A protein is among those with the least interactions exactly when it was
      recorded with degree 1. */
  lemma LeastInteractionsMembership(degrees: seq<DegreeEntry>, p: Node)
    ensures p in LeastInteractions(degrees) <==> (p, 1) in degrees
  {
    var ones := Filter(degrees, HasDegree(1));
    MapMembership(NameOf, ones, p);
    FilterMembership(degrees, HasDegree(1), (p, 1));
    if p in Map(NameOf, ones) {
      var x :| x in ones && p == NameOf(x);
      FilterMembership(degrees, HasDegree(1), x);
    }
  }

  /** Sorting the degree list first does not change the proteins found, nor
      their order. */
  lemma LeastInteractionsIgnoreSort(degrees: seq<DegreeEntry>)
    ensures LeastInteractions(SortByDegree(degrees)) == LeastInteractions(degrees)
  {
    SortByDegreeStable(degrees, 1);
  }

  // ---- _check_if_present / get_label -------------------------------------------------

  /** A row of the prediction table. */
  datatype PredictionRow = PredictionRow(source: Node, target: Node, prediction: real)

  function RowFor(edge: Edge): PredictionRow -> bool {
    (row: PredictionRow) => row.source == edge.0 && row.target == edge.1
  }

  /** Whether the first prediction row for the edge reaches the threshold;
      an edge without a row raises. */
  function CheckIfPresent(edge: Edge, predicted: seq<PredictionRow>, threshold: real): Result<bool> {
    match FirstIndex(predicted, RowFor(edge))
    case None => Failure(NoRowFor(edge.0, edge.1))
    case Some(i) => Success(predicted[i].prediction >= threshold)
  }

  /** The check fails exactly when no row is for the edge, and otherwise
      compares the first such row's prediction with the threshold. */
  lemma CheckIfPresentMeaning(edge: Edge, predicted: seq<PredictionRow>, threshold: real)
    ensures CheckIfPresent(edge, predicted, threshold).Failure? <==>
              forall i :: 0 <= i < |predicted| ==> !RowFor(edge)(predicted[i])
    ensures CheckIfPresent(edge, predicted, threshold).Failure? ==>
              CheckIfPresent(edge, predicted, threshold).error == NoRowFor(edge.0, edge.1)
    ensures CheckIfPresent(edge, predicted, threshold).Success? ==>
      exists i :: 0 <= i < |predicted| && RowFor(edge)(predicted[i]) &&
        (forall j :: 0 <= j < i ==> !RowFor(edge)(predicted[j])) &&
        (CheckIfPresent(edge, predicted, threshold).value <==> predicted[i].prediction >= threshold)
  {
  }

  /** `get_label`: 1 for an edge present at the threshold, 0 otherwise. */
  function GetLabel(edge: Edge, predicted: seq<PredictionRow>, threshold: real): (r: Result<int>)
    ensures r.Success? <==> CheckIfPresent(edge, predicted, threshold).Success?
    ensures r.Failure? ==> r.error == NoRowFor(edge.0, edge.1)
    ensures r.Success? ==> (r.value == 1 <==> CheckIfPresent(edge, predicted, threshold).value)
    ensures r.Success? ==> (r.value == 0 <==> !CheckIfPresent(edge, predicted, threshold).value)
  {
    var isPresent :- CheckIfPresent(edge, predicted, threshold);
    if isPresent then Success(1) else Success(0)
  }

  /** A raised threshold never turns an absent edge into a present one. */
  lemma CheckIfPresentMonotone(edge: Edge, predicted: seq<PredictionRow>, low: real, high: real)
    requires low <= high
    requires CheckIfPresent(edge, predicted, high) == Success(true)
    ensures CheckIfPresent(edge, predicted, low) == Success(true)
  {
  }

  // ---- _get_predicted_substrates -----------------------------------------------------

  function SourceIs(kinase: Node): PredictionRow -> bool {
    (row: PredictionRow) => row.source == kinase
  }

  function TargetOf(row: PredictionRow): Node {
    row.target
  }

  /** The rows with a source in `kinases` and a prediction at the threshold. */
  function AmongAbove(kinases: seq<Node>, threshold: real): PredictionRow -> bool {
    (row: PredictionRow) => row.source in kinases && row.prediction >= threshold
  }

  /** The rows for one kinase with a prediction at the threshold. */
  function FromAbove(kinase: Node, threshold: real): PredictionRow -> bool {
    (row: PredictionRow) => row.source == kinase && row.prediction >= threshold
  }

  /** One row per kinase, in input order, pairing it with the targets of its
      prediction rows at the threshold, in table order. */
  method GetPredictedSubstrates(kinases: seq<Node>, predicted: seq<PredictionRow>, threshold: real)
    returns (substratesTuples: seq<(Node, seq<Node>)>)
    ensures |substratesTuples| == |kinases|
    ensures forall i :: 0 <= i < |kinases| ==> substratesTuples[i].0 == kinases[i]
    ensures forall i :: 0 <= i < |kinases| ==>
      substratesTuples[i].1 == Map(TargetOf, Filter(predicted, FromAbove(kinases[i], threshold)))
  {
    var predictedRows := Filter(predicted, AmongAbove(kinases, threshold));
    substratesTuples := [];
    for i := 0 to |kinases|
      invariant |substratesTuples| == i
      invariant forall j :: 0 <= j < i ==> substratesTuples[j].0 == kinases[j]
      invariant forall j :: 0 <= j < i ==>
        substratesTuples[j].1 == Map(TargetOf, Filter(predicted, FromAbove(kinases[j], threshold)))
    {
      var kinase := kinases[i];
      var substrates := Map(TargetOf, Filter(predictedRows, SourceIs(kinase)));
      FilterFilter(predicted, AmongAbove(kinases, threshold), SourceIs(kinase), FromAbove(kinase, threshold));
      substratesTuples := substratesTuples + [(kinase, substrates)];
    }
  }

  /** A substrate is listed for a kinase exactly when some prediction row from
      that kinase to it reaches the threshold. */
  lemma PredictedSubstrateMembership(kinase: Node, predicted: seq<PredictionRow>, threshold: real, t: Node)
    ensures t in Map(TargetOf, Filter(predicted, FromAbove(kinase, threshold))) <==>
      exists row :: row in predicted && row.source == kinase && row.prediction >= threshold && row.target == t
  {
    var rows := Filter(predicted, FromAbove(kinase, threshold));
    MapMembership(TargetOf, rows, t);
    forall row ensures row in rows <==> row in predicted && FromAbove(kinase, threshold)(row) {
      FilterMembership(predicted, FromAbove(kinase, threshold), row);
    }
  }

  // ---- _get_predicted_tuples ----------------------------------------------------------

  /** The edges present at the threshold. */
  function PresentAt(predicted: seq<PredictionRow>, threshold: real): Edge -> bool {
    (e: Edge) => CheckIfPresent(e, predicted, threshold) == Success(true)
  }

  /** Some prediction row is for the edge. */
  predicate HasRow(edge: Edge, predicted: seq<PredictionRow>) {
    FirstIndex(predicted, RowFor(edge)).Some?
  }

  /** One step of the scan: an edge whose check succeeds has a row, and the
      edges present so far grow by it exactly when it is present. */
  lemma PredictedTuplesStep(edges: seq<Edge>, i: nat, predicted: seq<PredictionRow>, threshold: real)
    requires i < |edges|
    requires CheckIfPresent(edges[i], predicted, threshold).Success?
    ensures HasRow(edges[i], predicted)
    ensures Filter(edges[..i + 1], PresentAt(predicted, threshold)) ==
      Filter(edges[..i], PresentAt(predicted, threshold)) +
      (if CheckIfPresent(edges[i], predicted, threshold).value then [edges[i]] else [])
  {
    FilterPrefixStep(edges, i, PresentAt(predicted, threshold));
  }

  /** The experimental edges predicted at the threshold, and how many there
      are; an edge without a prediction row raises. */
  method GetPredictedTuples(edges: seq<Edge>, predicted: seq<PredictionRow>, threshold: real)
    returns (r: Result<(nat, seq<Edge>)>)
    ensures r.Success? <==> forall j :: 0 <= j < |edges| ==> HasRow(edges[j], predicted)
    ensures r.Failure? ==> exists j :: 0 <= j < |edges| && r.error == NoRowFor(edges[j].0, edges[j].1)
    ensures r.Success? ==> r.value.1 == Filter(edges, PresentAt(predicted, threshold))
    ensures r.Success? ==> r.value.0 == |r.value.1|
  {
    var predictedAtThreshold := [];
    for i := 0 to |edges|
      invariant predictedAtThreshold == Filter(edges[..i], PresentAt(predicted, threshold))
      invariant forall j {:trigger HasRow(edges[j], predicted)} :: 0 <= j < i ==> HasRow(edges[j], predicted)
    {
      var edge := edges[i];
      var isPresent := CheckIfPresent(edge, predicted, threshold);
      if isPresent.Failure? {
        return Failure(NoRowFor(edge.0, edge.1));
      }
      PredictedTuplesStep(edges, i, predicted, threshold);
      if isPresent.value {
        predictedAtThreshold := predictedAtThreshold + [edge];
      }
    }
    assert edges[..|edges|] == edges;
    r := Success((|predictedAtThreshold|, predictedAtThreshold));
  }
}
