/** Reading iPTMnet event rows into a kinase -> substrate graph: which column
    names an entity, how a proteoform identifier is reduced to its accession,
    which rows the optional event filter keeps, and the experimentally validated
    edge list. */
module DataUtils {
  import opened Wrappers
  import opened Seqs
  import opened Strings
  import opened Graphs
  import Utils
  import GraphUtils

  /** The columns of an event row that the entity extraction reads. An empty
      cross-reference cell, which pandas reads as NaN, is `None`. */
  datatype EventRow = EventRow(
    eventLabel: string,
    subType: string,
    subXref: Option<string>,
    subCode: string,
    subFormCode: string,
    enzXref: Option<string>,
    enzCode: string,
    enzFormCode: string)

  // ---- clean_entity -----------------------------------------------------------

  /** `proteoform.replace("PR:", "").split("-")[0]`: the identifier without its
      PRO prefixes and without its isoform or modification suffix. */
  function CleanEntity(proteoform: string): (r: string)
    ensures '-' !in r
    ensures r <= RemoveAll(proteoform, "PR:")
    ensures r == RemoveAll(proteoform, "PR:") || RemoveAll(proteoform, "PR:")[|r|] == '-'
  {
    BeforeFirst(RemoveAll(proteoform, "PR:"), '-')
  }

  /** A leading `PR:` makes no difference to the cleaned identifier. */
  lemma CleanEntityStripsPrefix(proteoform: string)
    ensures CleanEntity("PR:" + proteoform) == CleanEntity(proteoform)
  {
    RemoveAllLeading("PR:", proteoform);
  }

  /** Everything from the first `-` on is dropped, whatever follows it. */
  lemma CleanEntityDropsSuffix(accession: string, suffix: string)
    requires '-' !in accession
    ensures CleanEntity(accession + "-" + suffix) == RemoveAll(accession, "PR:")
  {
    RemoveAllSplit(accession, '-', suffix, "PR:");
    if '-' in RemoveAll(accession, "PR:") {
      RemoveAllChars(accession, "PR:", '-');
    }
    BeforeFirstOfSplit(RemoveAll(accession, "PR:"), '-', RemoveAll(suffix, "PR:"));
  }

  /** A bare accession is left as it is. */
  lemma CleanEntityOfAccession(accession: string)
    requires '-' !in accession && !Contains(accession, "PR:")
    ensures CleanEntity(accession) == accession
  {
    BeforeFirstOfFree(accession, '-');
  }

  // ---- extract_substrate / extract_kinase ------------------------------------------

  /** The raw substrate identifier, chosen by the row's `sub_type`: the PRO
      cross-reference (or `SUB_CODE` when it is empty) for `pro_id`, `SUB_CODE`
      for `uniprot_ac` and `sub_form_code` for anything else. */
  function SubstrateField(row: EventRow): (r: string)
    ensures row.subType == "pro_id" && row.subXref.Some? ==> r == row.subXref.value
    ensures row.subType == "pro_id" && row.subXref.None? ==> r == row.subCode
    ensures row.subType == "uniprot_ac" ==> r == row.subCode
    ensures row.subType != "pro_id" && row.subType != "uniprot_ac" ==> r == row.subFormCode
  {
    if row.subType == "pro_id" then
      match row.subXref
      case Some(xref) => xref
      case None => row.subCode
    else if row.subType == "uniprot_ac" then row.subCode
    else row.subFormCode
  }

  /** The raw kinase identifier: the enzyme columns, chosen by the same
      `sub_type` test as the substrate. */
  function KinaseField(row: EventRow): string {
    if row.subType == "pro_id" then
      match row.enzXref
      case Some(xref) => xref
      case None => row.enzCode
    else if row.subType == "uniprot_ac" then row.enzCode
    else row.enzFormCode
  }

  /** The cleaned identifier, unless cleaning leaves only digits (a PRO number),
      in which case the raw identifier is kept. */
  function Normalise(raw: string): (r: string)
    ensures IsNumeric(CleanEntity(raw)) ==> r == raw
    ensures !IsNumeric(CleanEntity(raw)) ==> r == CleanEntity(raw)
    ensures r == raw || r == CleanEntity(raw)
    ensures IsNumeric(r) ==> r == raw
    ensures r != raw ==> '-' !in r && !IsNumeric(r)
  {
    var cleaned := CleanEntity(raw);
    if IsNumeric(cleaned) then raw else cleaned
  }

  function ExtractSubstrate(row: EventRow): string {
    Normalise(SubstrateField(row))
  }

  function ExtractKinase(row: EventRow): string {
    Normalise(KinaseField(row))
  }

  /** The row with its enzyme and substrate columns exchanged; the entity type
      column stays where it is. */
  function SwapSides(row: EventRow): EventRow {
    row.(subXref := row.enzXref, subCode := row.enzCode, subFormCode := row.enzFormCode,
         enzXref := row.subXref, enzCode := row.subCode, enzFormCode := row.subFormCode)
  }

  /** The kinase is read exactly as the substrate of the row with the two sides
      exchanged, including the branch on the substrate's type. */
  lemma ExtractKinaseMirrorsSubstrate(row: EventRow)
    ensures ExtractKinase(row) == ExtractSubstrate(SwapSides(row))
    ensures ExtractSubstrate(row) == ExtractKinase(SwapSides(row))
  {
  }

  /** `extract_entities`: the substrate and the kinase of a row, each read from
      the column its side's `sub_type` branch selects and then normalised; the
      kinase is read exactly as the substrate of the row with its sides swapped. */
  function ExtractEntities(row: EventRow): (r: (string, string))
    ensures r.0 == Normalise(SubstrateField(row))
    ensures r.1 == Normalise(SubstrateField(SwapSides(row)))
    ensures row.subType == "pro_id" && row.subXref.Some? && row.enzXref.Some? ==>
      r == (Normalise(row.subXref.value), Normalise(row.enzXref.value))
    ensures row.subType == "pro_id" && row.subXref.None? && row.enzXref.None? ==>
      r == (Normalise(row.subCode), Normalise(row.enzCode))
    ensures row.subType == "uniprot_ac" ==> r == (Normalise(row.subCode), Normalise(row.enzCode))
    ensures row.subType != "pro_id" && row.subType != "uniprot_ac" ==>
      r == (Normalise(row.subFormCode), Normalise(row.enzFormCode))
  {
    ExtractKinaseMirrorsSubstrate(row);
    (ExtractSubstrate(row), ExtractKinase(row))
  }

  // ---- read_data --------------------------------------------------------------

  /** The event filter: no event given, or the row's lower-cased label equals it. */
  function Keeps(event: Option<string>): EventRow -> bool {
    (row: EventRow) => event.None? || event.value == Lower(row.eventLabel)
  }

  /** The edge a row contributes: from its kinase to its substrate. */
  function EdgeOf(row: EventRow): Edge {
    (ExtractKinase(row), ExtractSubstrate(row))
  }

  /** The edges of the kept rows, in row order. */
  function KeptEdges(rows: seq<EventRow>, event: Option<string>): seq<Edge> {
    Map(EdgeOf, Filter(rows, Keeps(event)))
  }

  /** The kept edges are exactly the edges of the rows the filter keeps. */
  lemma KeptEdgesMembership(rows: seq<EventRow>, event: Option<string>, e: Edge)
    ensures e in KeptEdges(rows, event) <==> exists row :: row in rows && Keeps(event)(row) && e == EdgeOf(row)
  {
    var kept := Filter(rows, Keeps(event));
    MapMembership(EdgeOf, kept, e);
    forall row ensures row in kept <==> row in rows && Keeps(event)(row) {
      FilterMembership(rows, Keeps(event), row);
    }
  }

  /** The row loop of `read_data`: the substrate and kinase of every kept row,
      in row order, and the graph with an edge from each kept kinase to its
      substrate. */
  method CollectEntities(rows: seq<EventRow>, event: Option<string>)
    returns (substrates: seq<Node>, kinases: seq<Node>, graph: DiGraph)
    ensures substrates == Map(ExtractSubstrate, Filter(rows, Keeps(event)))
    ensures kinases == Map(ExtractKinase, Filter(rows, Keeps(event)))
    ensures graph == AddEdges(Empty(), KeptEdges(rows, event))
  {
    substrates, kinases := [], [];
    graph := Empty();
    ghost var kept: seq<EventRow> := [];
    for i := 0 to |rows|
      invariant kept == Filter(rows[..i], Keeps(event))
      invariant substrates == Map(ExtractSubstrate, kept)
      invariant kinases == Map(ExtractKinase, kept)
      invariant graph == AddEdges(Empty(), Map(EdgeOf, kept))
    {
      var row := rows[i];
      FilterPrefixStep(rows, i, Keeps(event));
      if event.None? || event.value == Lower(row.eventLabel) {
        var (substrate, kinase) := ExtractEntities(row);
        CollectStep(kept, row);
        substrates := substrates + [substrate];
        kinases := kinases + [kinase];
        graph := AddEdge(graph, kinase, substrate);
        kept := kept + [row];
      }
    }
    assert rows[..|rows|] == rows;
  }

  /** One kept row extends the two lists by its entities and the graph by its edge. */
  lemma CollectStep(kept: seq<EventRow>, row: EventRow)
    ensures Map(ExtractSubstrate, kept + [row]) == Map(ExtractSubstrate, kept) + [ExtractSubstrate(row)]
    ensures Map(ExtractKinase, kept + [row]) == Map(ExtractKinase, kept) + [ExtractKinase(row)]
    ensures AddEdges(Empty(), Map(EdgeOf, kept + [row]))
         == AddEdge(AddEdges(Empty(), Map(EdgeOf, kept)), ExtractKinase(row), ExtractSubstrate(row))
  {
    MapAppend(ExtractSubstrate, kept, row);
    MapAppend(ExtractKinase, kept, row);
    MapAppend(EdgeOf, kept, row);
    AddEdgesAppend(Empty(), Map(EdgeOf, kept), EdgeOf(row));
  }

  /** `read_data` after the table is loaded: the graph of the kept rows and the
      duplicate-free list of every protein they mention. */
  method ReadData(rows: seq<EventRow>, event: Option<string>) returns (graph: DiGraph, proteins: seq<Node>)
    ensures graph.Valid()
    ensures graph == AddEdges(Empty(), KeptEdges(rows, event))
    ensures forall e :: e in graph.edges <==> e in KeptEdges(rows, event)
    ensures forall p :: p in graph.nodes <==> p in Ends(KeptEdges(rows, event))
    ensures NoDuplicates(proteins)
    ensures forall p :: p in proteins <==> p in graph.nodes
  {
    var substrates, kinases;
    substrates, kinases, graph := CollectEntities(rows, event);
    BuiltGraph(Filter(rows, Keeps(event)));
    proteins := SetToSeq(set p | p in substrates + kinases);
  }

  /** The graph built from some rows holds exactly their edges, and its nodes
      are exactly their substrates and kinases. */
  lemma BuiltGraph(kept: seq<EventRow>)
    ensures AddEdges(Empty(), Map(EdgeOf, kept)).Valid()
    ensures forall p :: p in AddEdges(Empty(), Map(EdgeOf, kept)).nodes <==> p in Ends(Map(EdgeOf, kept))
    ensures forall p :: p in AddEdges(Empty(), Map(EdgeOf, kept)).nodes <==>
                    p in Map(ExtractSubstrate, kept) + Map(ExtractKinase, kept)
  {
    AddEdgesNodes(Empty(), Map(EdgeOf, kept));
    forall p | p in Map(ExtractSubstrate, kept) + Map(ExtractKinase, kept)
      ensures p in Ends(Map(EdgeOf, kept))
    {
      EntitiesAreEnds(kept, p);
    }
    forall p | p in Ends(Map(EdgeOf, kept))
      ensures p in Map(ExtractSubstrate, kept) + Map(ExtractKinase, kept)
    {
      EndsAreEntities(kept, p);
    }
  }

  /** Each end of an edge of some rows is the substrate or the kinase of one of them. */
  lemma EndsAreEntities(kept: seq<EventRow>, p: Node)
    requires p in Ends(Map(EdgeOf, kept))
    ensures p in Map(ExtractSubstrate, kept) || p in Map(ExtractKinase, kept)
  {
    EndsWitness(Map(EdgeOf, kept), p);
    var e :| e in Map(EdgeOf, kept) && (p == e.0 || p == e.1);
    var j :| 0 <= j < |kept| && Map(EdgeOf, kept)[j] == e;
    assert EdgeOf(kept[j]) == e;
    if p == e.0 {
      assert Map(ExtractKinase, kept)[j] == p;
    } else {
      assert Map(ExtractSubstrate, kept)[j] == p;
    }
  }

  /** The substrate and the kinase of each of some rows are ends of their edges. */
  lemma EntitiesAreEnds(kept: seq<EventRow>, p: Node)
    requires p in Map(ExtractSubstrate, kept) || p in Map(ExtractKinase, kept)
    ensures p in Ends(Map(EdgeOf, kept))
  {
    var j :| 0 <= j < |kept| && (Map(ExtractSubstrate, kept)[j] == p || Map(ExtractKinase, kept)[j] == p);
    assert Map(EdgeOf, kept)[j] in Map(EdgeOf, kept);
  }

  // ---- get_experimental_edges ------------------------------------------------------

  /** The experimentally validated (kinase, substrate) pairs with both
      accessions cut before their isoform suffix, one per table row, in order. */
  function ExperimentalEdges(table: seq<GraphUtils.ExperimentalPair>): (r: seq<Edge>)
    ensures |r| == |table|
    ensures forall i :: 0 <= i < |r| ==>
      r[i] == (Utils.CleanProteins(table[i].kinaseAc), Utils.CleanProteins(table[i].substrateAc))
    ensures forall i :: 0 <= i < |r| ==> '-' !in r[i].0 && '-' !in r[i].1
  {
    seq(|table|, i requires 0 <= i < |table| =>
      (Utils.CleanProteins(table[i].kinaseAc), Utils.CleanProteins(table[i].substrateAc)))
  }
}
