/** The knowledge graph built from the iPTMnet event table: one directed edge
    per event row, from the enzyme's proteoform to the substrate, where the
    substrate either carries the modified site (`site_merged`) or does not
    (`no_sites`). Reading the table and writing the graph to disk are left to
    the caller: the rows come in as a parameter and the graph goes out as the
    result. */
module BuildGraph {
  import opened Wrappers
  import opened Seqs
  import opened Graphs

  /** The columns of an event row that the graph builder reads. `position`
      is the text that Python's f-string makes of the `POSITION` cell. */
  datatype EventRecord = EventRecord(enzFormCode: Node, subCode: string, position: string, subFormCode: Node)

  const SiteMerged := "site_merged"
  const NoSites := "no_sites"

  /** The two graph types the builder accepts. */
  predicate KnownGraphType(graphType: string) {
    graphType == SiteMerged || graphType == NoSites
  }

  /** The substrate node of a row: the substrate code joined to the site by
      `_`, or the substrate's proteoform code; no other type reaches here. */
  function Substrate(graphType: string, row: EventRecord): (r: Node)
    ensures graphType == SiteMerged ==> r == row.subCode + "_" + row.position
    ensures graphType == NoSites ==> r == row.subFormCode
    ensures !KnownGraphType(graphType) ==> r == ""
  {
    if graphType == SiteMerged then row.subCode + "_" + row.position
    else if graphType == NoSites then row.subFormCode
    else ""
  }

  /** A merged substrate always holds the `_` that separates code and site,
      so it is never empty. */
  lemma SiteMergedSubstrateNonEmpty(row: EventRecord)
    ensures Substrate(SiteMerged, row) != ""
    ensures '_' in Substrate(SiteMerged, row)
  {
    var s := Substrate(SiteMerged, row);
    assert s[|row.subCode|] == '_';
  }

  /** The edge a row adds: from the enzyme to the substrate. */
  function RowEdge(graphType: string): EventRecord -> Edge {
    (row: EventRecord) => (row.enzFormCode, Substrate(graphType, row))
  }

  /** Some row of `rows` gives an empty substrate. */
  predicate SomeEmptySubstrate(graphType: string, rows: seq<EventRecord>) {
    exists i :: 0 <= i < |rows| && Substrate(graphType, rows[i]) == ""
  }

  /** The edges of the rows that the builder reads, in row order. */
  function RowEdges(graphType: string, rows: seq<EventRecord>, numRows: int): seq<Edge> {
    Map(RowEdge(graphType), if numRows != 0 then PyPrefix(rows, numRows) else rows)
  }

  /** The outcome of the loop of `build_graph` over `rows`, row by row:
      the first row with an empty substrate fails the assertion, and every
      row before it adds its edge. */
  ghost function LoopOutcome(graph: DiGraph, graphType: string, rows: seq<EventRecord>): (r: Result<DiGraph>)
    requires graph.Valid()
    ensures r.Success? ==> r.value.Valid()
  {
    if rows == [] then Success(graph)
    else
      var previous := LoopOutcome(graph, graphType, rows[..|rows| - 1]);
      var row := rows[|rows| - 1];
      if previous.Failure? then previous
      else if Substrate(graphType, row) == "" then Failure(AssertionError)
      else Success(AddEdge(previous.value, row.enzFormCode, Substrate(graphType, row)))
  }

  lemma LoopOutcomeStep(graph: DiGraph, graphType: string, rows: seq<EventRecord>, i: nat)
    requires graph.Valid() && i < |rows|
    ensures var previous := LoopOutcome(graph, graphType, rows[..i]);
      LoopOutcome(graph, graphType, rows[..i + 1]) ==
        if previous.Failure? then previous
        else if Substrate(graphType, rows[i]) == "" then Failure(AssertionError)
        else Success(AddEdge(previous.value, rows[i].enzFormCode, Substrate(graphType, rows[i])))
  {
    assert rows[..i + 1][..i] == rows[..i];
  }

  /** The loop fails exactly when some row has an empty substrate, and
      otherwise builds the graph of all the rows' edges. */
  lemma {:induction false} LoopOutcomeMeaning(graph: DiGraph, graphType: string, rows: seq<EventRecord>)
    requires graph.Valid()
    ensures LoopOutcome(graph, graphType, rows).Failure? <==> SomeEmptySubstrate(graphType, rows)
    ensures LoopOutcome(graph, graphType, rows).Failure? ==> LoopOutcome(graph, graphType, rows).error == AssertionError
    ensures LoopOutcome(graph, graphType, rows).Success? ==>
      LoopOutcome(graph, graphType, rows).value == AddEdges(graph, Map(RowEdge(graphType), rows))
  {
    if rows != [] {
      var rows', row := rows[..|rows| - 1], rows[|rows| - 1];
      LoopOutcomeMeaning(graph, graphType, rows');
      LastSplit(rows);
      MapAppend(RowEdge(graphType), rows', row);
      AddEdgesAppend(graph, Map(RowEdge(graphType), rows'), RowEdge(graphType)(row));
      SomeEmptySubstrateLast(graphType, rows);
    }
  }

  lemma SomeEmptySubstrateLast(graphType: string, rows: seq<EventRecord>)
    requires rows != []
    ensures SomeEmptySubstrate(graphType, rows) <==>
      SomeEmptySubstrate(graphType, rows[..|rows| - 1]) || Substrate(graphType, rows[|rows| - 1]) == ""
  {
    var rows' := rows[..|rows| - 1];
    assert forall j :: 0 <= j < |rows'| ==> rows'[j] == rows[j];
  }

  /** The loop of `build_graph`: adds the rows' edges one by one to `graph`,
      and fails its assertion at the first row whose substrate is empty. */
  method AddRowEdges(graph: DiGraph, graphType: string, rows: seq<EventRecord>) returns (r: Result<DiGraph>)
    requires graph.Valid()
    ensures r.Failure? <==> SomeEmptySubstrate(graphType, rows)
    ensures r.Failure? ==> r.error == AssertionError
    ensures r.Success? ==> r.value == AddEdges(graph, Map(RowEdge(graphType), rows))
  {
    var g := graph;
    for i := 0 to |rows|
      invariant g.Valid()
      invariant LoopOutcome(graph, graphType, rows[..i]) == Success(g)
    {
      var row := rows[i];
      var enzymeCode := row.enzFormCode;
      var substrate := "";
      if graphType == SiteMerged {
        substrate := row.subCode + "_" + row.position;
      } else if graphType == NoSites {
        substrate := row.subFormCode;
      }
      LoopOutcomeStep(graph, graphType, rows, i);
      if substrate == "" {
        LoopOutcomeFailurePersists(graph, graphType, rows, i + 1);
        LoopOutcomeMeaning(graph, graphType, rows);
        return Failure(AssertionError);
      }
      g := AddEdge(g, enzymeCode, substrate);
    }
    LoopOutcomeMeaning(graph, graphType, rows);
    assert rows[..|rows|] == rows;
    r := Success(g);
  }

  /** Once the loop has failed, later rows do not change the outcome. */
  lemma {:induction false} LoopOutcomeFailurePersists(graph: DiGraph, graphType: string, rows: seq<EventRecord>, k: nat)
    requires graph.Valid() && k <= |rows| && LoopOutcome(graph, graphType, rows[..k]).Failure?
    ensures LoopOutcome(graph, graphType, rows) == LoopOutcome(graph, graphType, rows[..k])
    decreases |rows| - k
  {
    if k < |rows| {
      LoopOutcomeStep(graph, graphType, rows, k);
      LoopOutcomeFailurePersists(graph, graphType, rows, k + 1);
    } else {
      assert rows[..k] == rows;
    }
  }

  /** `build_graph`: rejects an unknown graph type, keeps the first `numRows`
      rows when `numRows` is not zero, and builds the graph of their edges. */
  method Build(rows: seq<EventRecord>, graphType: string, numRows: int) returns (r: Result<DiGraph>)
    ensures !KnownGraphType(graphType) ==> r == Failure(AssertionError)
    ensures r.Failure? ==> r.error == AssertionError
    ensures r.Success? <==>
      KnownGraphType(graphType) && !SomeEmptySubstrate(graphType, if numRows != 0 then PyPrefix(rows, numRows) else rows)
    ensures r.Success? ==> r.value.Valid() && r.value == AddEdges(Empty(), RowEdges(graphType, rows, numRows))
  {
    if !KnownGraphType(graphType) {
      return Failure(AssertionError);
    }
    var rawData := rows;
    if numRows != 0 {
      rawData := PyPrefix(rows, numRows);
    }
    var graph := Empty();
    r := AddRowEdges(graph, graphType, rawData);
  }

  /** The built graph has exactly one edge per distinct row edge, so repeated
      rows collapse, and exactly the nodes those edges join. */
  lemma BuiltGraphShape(rows: seq<EventRecord>, graphType: string, numRows: int)
    ensures var g := AddEdges(Empty(), RowEdges(graphType, rows, numRows));
      && NoDuplicates(g.edges)
      && (forall e :: e in g.edges <==> e in RowEdges(graphType, rows, numRows))
      && (forall n :: n in g.nodes <==> n in Ends(RowEdges(graphType, rows, numRows)))
  {
    AddEdgesNodes(Empty(), RowEdges(graphType, rows, numRows));
  }

  /** In `site_merged` mode the substrate assertion never fails: a known type
      fails only in `no_sites` mode, on a row with an empty `sub_form_code`. */
  lemma SiteMergedNeverFails(rows: seq<EventRecord>)
    ensures !SomeEmptySubstrate(SiteMerged, rows)
  {
    forall i | 0 <= i < |rows| ensures Substrate(SiteMerged, rows[i]) != "" {
      SiteMergedSubstrateNonEmpty(rows[i]);
    }
  }

  /** Every edge of a `site_merged` graph ends at a node that names a site. */
  lemma SiteMergedEdgesEndAtSites(rows: seq<EventRecord>, numRows: int, e: Edge)
    requires e in AddEdges(Empty(), RowEdges(SiteMerged, rows, numRows)).edges
    ensures '_' in e.1
  {
    var kept := if numRows != 0 then PyPrefix(rows, numRows) else rows;
    BuiltGraphShape(rows, SiteMerged, numRows);
    var i :| 0 <= i < |kept| && RowEdges(SiteMerged, rows, numRows)[i] == e;
    SiteMergedSubstrateNonEmpty(kept[i]);
  }
}
