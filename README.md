# Kinase–substrate pipeline core, in Dafny

This project models the sequential logic at the centre of a pipeline that
predicts kinase–substrate relations in the iPTMnet protein network from
Gene Ontology (GO) embeddings. It does not model the machine learning around
that logic. What it models:

- **Reading event rows** (`DataUtils`). An event row is turned into a kinase → substrate edge. The entity type picks the column that names each protein, and proteoform identifiers are cleaned to accessions. An optional event filter keeps rows, and the protein list is built from the kept rows. The experimentally validated edge list is cleaned.
- **Edge-set utilities** (`GraphUtils`):
  - negative edges sampled by tail corruption with rejection;
  - candidate edges for prediction;
  - kinases with at most a given number of substrates;
  - common proteins, successors, edge tagging and set-difference filtering;
  - disconnected ("negative") pairs;
  - removal of experimentally validated relations by 1-based protein index.
- **Small helpers** (`Utils`):
  - random parameter choice and chunking;
  - `model_qualifier` and protein cleaning;
  - config-key extraction;
  - edge-embedding operator dispatch with the zero fill for a missing endpoint;
  - picking the best experiment file.
- **Feature building** (`FeatureBuilder`, with `Tables` for embedding tables):
  - "first matching row, else a zero vector" lookups;
  - filtering GO terms by the root recorded in the parent mapping;
  - term-type dispatch;
  - the zero-vector rule of the GO feature vectors;
  - one GO feature row per graph node.
- **The prediction report** (`PredictReport`):
  - self-loop removal;
  - the degree list, its stable sort and the proteins with one interaction;
  - "present at threshold", labels, and per-kinase predicted substrates;
  - the experimental edges predicted at a threshold.
- **Graph construction** from event rows (`BuildGraph`), in `site_merged` and `no_sites` mode.
- **GO root finding** and the term → root parent mapping (`GenerateGraph`).
- **Sequence lookup** with the placeholder default and batches of one (`SequenceEmbedding`).
- **The GO root → namespace label** of the t-SNE plot (`TSneAnalysis`).

Shared modules:

- `Wrappers`: `Option`, `Result` and the error kinds the source raises.
- `Seqs`: filter and map, and Python-style slicing and indexing.
- `Strings`: `str.replace` by the empty string, `split(..)[0]`, `isnumeric`, `lower`, string order.
- `Graphs`: a networkx `DiGraph` as a value.
  - Nodes are a sequence in insertion order.
  - Edges are a duplicate-free sequence in insertion order, with attribute maps.
  - The module covers `add_edge`, successors, predecessors, degrees and undirected reachability.

Reading files (CSV, GML, graphml, pickle, OBO, UniProt XML) and listing
directories are outside the model: tables, graphs and listings come in as
parameters, and results go out as return values. Random choices
(`random.sample`, `random.choice`) are nondeterministic choices (`:|`) among
the values the source could pick.

## Model

| member | source | states |
|---|---|---|
| DataUtils.CleanEntity | src/data/data_utils.py:115-119 | The result has no `-`. It is a prefix of the input with every `PR:` removed, and either all of it or the part before its first `-`. |
| DataUtils.CleanEntityStripsPrefix | src/data/data_utils.py:116 | A leading `PR:` does not change the cleaned identifier. |
| DataUtils.CleanEntityDropsSuffix | src/data/data_utils.py:117 | Everything from the first `-` on is dropped, whatever the suffix. |
| DataUtils.CleanEntityOfAccession | src/data/data_utils.py:115-119 | An accession without `-` or `PR:` is returned unchanged. |
| DataUtils.SubstrateField | src/data/data_utils.py:55-71 | `pro_id` reads `sub_xref` and falls back to `SUB_CODE` when it is missing. `uniprot_ac` reads `SUB_CODE`. Any other type reads `sub_form_code`. |
| DataUtils.Normalise | src/data/data_utils.py:73-80 | When the cleaned value (`PR:` removed, cut before the first `-`) is all digits, the raw value is kept. Otherwise the cleaned value is returned. A changed value has no `-` and is not all digits. |
| DataUtils.ExtractKinaseMirrorsSubstrate | src/data/data_utils.py:84-113 | The kinase is the substrate of the row with enzyme and substrate columns exchanged, still selected by `sub_type`, and the other way round. |
| DataUtils.ExtractEntities | src/data/data_utils.py:47-51 | Both sides are normalised. A `pro_id` row reads the cross-references when both are present and the codes when both are missing. A `uniprot_ac` row reads the codes. Any other type reads the form codes. The kinase is read exactly as the substrate of the row with its sides swapped. |
| DataUtils.KeptEdgesMembership | src/data/data_utils.py:18-30 | An edge is kept iff some row passes the event filter and yields it, with the kinase as its head and the substrate as its tail. |
| DataUtils.CollectEntities | src/data/data_utils.py:18-30 | The substrates and the kinases are those of the kept rows, in row order. The graph is the graph of their edges. |
| DataUtils.CollectStep | src/data/data_utils.py:25-30 | A kept row appends its substrate and its kinase and adds its edge. |
| DataUtils.ReadData | src/data/data_utils.py:10-42 | The graph's edges are exactly the kept rows' edges, and its nodes are exactly their ends. The protein list is duplicate-free and holds exactly the graph's nodes. |
| DataUtils.BuiltGraph | src/data/data_utils.py:30-38 | The graph of some rows is valid. Its nodes are exactly the substrates and kinases of those rows. |
| DataUtils.EndsAreEntities | src/data/data_utils.py:33-38 | Each end of a kept edge is a kept substrate or a kept kinase. |
| DataUtils.EntitiesAreEnds | src/data/data_utils.py:33-38 | Each kept substrate and each kept kinase is an end of a kept edge. |
| DataUtils.ExperimentalEdges | src/data/data_utils.py:196-202 | There is one edge per row. The i-th edge pairs the cleaned i-th `KinaseAC` with the cleaned i-th `SubstrateAC`, and neither end contains `-`. |
| GraphUtils.CreateCorruptedEdge | src/misc/graph_utils.py:53-63 | The edge keeps the head of `edge`, and its tail is the tail of some positive edge. An empty positive list raises. |
| GraphUtils.DrawNegative | src/misc/graph_utils.py:40-45 | The drawn edge keeps the head, has the tail of a positive edge, and is not itself a positive edge. |
| GraphUtils.SampleForEdge | src/misc/graph_utils.py:38-48 | Makes `k` corruptions of the one positive edge, none of them positive. |
| GraphUtils.SampleNegativeEdges | src/misc/graph_utils.py:32-50 | Returns exactly `len(edges) * num_negative` edges (none for a negative count), produced positive edge by positive edge. Each keeps its positive edge's head, takes the tail of some positive edge, and is not positive. |
| GraphUtils.NegativeHeadsLength | src/misc/graph_utils.py:36-48 | The negatives number `len(edges) * k`. |
| GraphUtils.NegativeHeadsAt | src/misc/graph_utils.py:36-48 | The negative at position `i * k + r` keeps the head of the i-th positive edge. |
| GraphUtils.CorruptionsOfAppend | src/misc/graph_utils.py:48 | Appending a valid corruption keeps every negative a corruption of its head. |
| GraphUtils.CorruptionsOfConcat | src/misc/graph_utils.py:36-48 | The negatives of successive positive edges, concatenated, stay corruptions of their heads. |
| GraphUtils.PairsWithMembership | src/misc/graph_utils.py:71-74 | The pairs of one query protein are exactly the non-loop edges joining it to a node, in either direction. |
| GraphUtils.CandidateEdgesMembership | src/misc/graph_utils.py:70-74 | A candidate edge is never a self-loop, and joins a query protein to a node in one direction or the other. |
| GraphUtils.PairsWithCount | src/misc/graph_utils.py:71-74 | Over duplicate-free nodes, each edge occurs once for each direction in which it joins the query to a node. |
| GraphUtils.CandidateEdgesCount | src/misc/graph_utils.py:65-76 | Over duplicate-free lists, the multiplicity of an edge is the number of directions in which it joins a query protein to a node. |
| GraphUtils.GraphCandidates | src/misc/graph_utils.py:78-89 | Over a graph's nodes, candidates are non-loop pairs of nodes, and every ordered pair of distinct nodes occurs exactly twice. |
| GraphUtils.PossibleEdgesForProteins | src/misc/graph_utils.py:65-76 | The loop produces the candidate edges query by query. An edge is produced iff it is not a self-loop and joins a query protein to a graph node. |
| GraphUtils.PossibleEdgesInGraph | src/misc/graph_utils.py:78-89 | No self-loops, only graph nodes, and every ordered pair of distinct nodes exactly twice. |
| GraphUtils.KinasesWithSubstratesAtMost | src/misc/graph_utils.py:92-103 | Exactly the nodes with out-degree at most `num_substrates`, in node order. |
| GraphUtils.FindCommonProteins | src/misc/graph_utils.py:105-120 | Duplicate-free. Holds exactly the given nodes that are graph nodes with non-zero out-degree. |
| GraphUtils.SubstratesFor | src/misc/graph_utils.py:122-124 | Fails iff the kinase is not in the graph. Otherwise it returns as many successors as the out-degree, each the tail of an edge from the kinase, and all of them. |
| GraphUtils.TagEdges | src/misc/graph_utils.py:126-129 | Same nodes and edges. Every edge carries the tag with the given value, and all its other attributes are unchanged. |
| GraphUtils.FilterEdges | src/misc/graph_utils.py:176-180 | Duplicate-free. Holds exactly the original edges that are not to be removed. |
| GraphUtils.NegativeEdgesFrom | src/misc/graph_utils.py:20-27 | Duplicate-free. Holds exactly the pairs from the source to a distinct node that no undirected path reaches. |
| GraphUtils.NegativeEdges | src/misc/graph_utils.py:15-29 | Duplicate-free. Holds exactly the ordered pairs of distinct nodes that no path joins in the undirected view. |
| GraphUtils.IndexOf | src/misc/graph_utils.py:135 | The position of the first occurrence of the name. |
| GraphUtils.NameIndexRoundTrip | src/misc/graph_utils.py:134-152 | `index_to_name(name_to_index(p)) == p` for every listed name. |
| GraphUtils.IndexNameRoundTrip | src/misc/graph_utils.py:134-152 | With duplicate-free names, `name_to_index(index_to_name(i)) == i` for every index from 1 to the number of names. |
| GraphUtils.DropPairsMembership | src/misc/graph_utils.py:144-147 | A row survives iff it does not carry one of the experimental index pairs. |
| GraphUtils.ExperimentalIndexPairs | src/misc/graph_utils.py:139-141 | Fails iff some experimental protein is not a listed name. Otherwise gives one pair of 1-based indices per relation. |
| GraphUtils.NameRows | src/misc/graph_utils.py:150-155 | Fails iff some index is out of Python's indexing range. Otherwise names both proteins of every row. |
| GraphUtils.RemoveExperimentalEdges | src/misc/graph_utils.py:132-157 | Fails iff an experimental name is unknown or a surviving index cannot be named. Otherwise returns the named surviving rows. |
| GraphUtils.ExperimentalRelationsRemoved | src/misc/graph_utils.py:132-157 | With duplicate-free names and indices in range, no experimental relation is left in the result. |
| Graphs.AddEdge | src/data/data_utils.py:30 | networkx `add_edge`. The new nodes are the old ones plus both ends, and the new edges the old ones plus the edge. Existing attributes are kept. |
| Graphs.AddEdges | src/preprocess/build_graph.py:46-65 | Adding a list of edges gives exactly the old edges plus the listed ones. |
| Graphs.AddEdgesNodes | src/preprocess/build_graph.py:46-65 | Adding a list of edges adds exactly the nodes they join. |
| Graphs.HasPath | src/misc/graph_utils.py:24 | `nx.has_path` on the undirected view: the search answers true iff an undirected walk joins the two nodes. |
| Utils.ChooseParams | src/misc/utils.py:20-29 | Fails with an `IndexError` iff some key has no values. Otherwise it chooses, for exactly the keys of `params`, one of each key's values. |
| Utils.GenerateRandomParams | src/misc/utils.py:13-33 | Returns `n_iter` dicts (none for a non-positive count), each an admissible choice. It fails iff it draws at least once and some key has no values. |
| Utils.Chunks | src/misc/utils.py:36-38 | Concatenating the chunks gives back the input. Every chunk but the last has length `n`, and the last has length 1 to `n`. |
| Utils.CreateChunks | src/misc/utils.py:36-38 | A zero step raises and a negative step gives no chunks. A positive step gives chunks that concatenate back to the list. Every chunk but the last has the step's size, and the last is non-empty. There are no chunks iff the list is empty. |
| Utils.ChunksOfOne | src/data/sequence_embedding.py:38-39 | Chunks of one element are the elements one by one. |
| Utils.ModelQualifier | src/misc/utils.py:40-41 | A prefix of the input, of length two or the input's length if shorter. |
| Utils.CleanProteins | src/misc/utils.py:89-91 | A prefix without `-`: the whole input, or the part before its first `-`. |
| Utils.CleanProteinsIdempotent | src/misc/utils.py:89-91 | Cleaning twice is cleaning once. |
| Utils.ExtractConfig | src/misc/utils.py:190-200 | The loop builds the configuration of the items, in dictionary order. |
| Utils.ConfigOfEntries | src/misc/utils.py:192-198 | A name is a key iff some key containing `config.` becomes that name once `config.` is removed. Its value is that of the last such key. |
| Utils.ParseOperator | src/misc/utils.py:106-117 | An operator is selected iff the name is one of l1, l2, hadamard, avg, cat. |
| Utils.OperatorNameRoundTrip | src/misc/utils.py:106-115 | Each operator is selected by its own name and by no other. |
| Utils.ZerosLike | src/misc/utils.py:101 | Zeros of the given shape. |
| Utils.FillMissing | src/misc/utils.py:99-104 | A missing source becomes zeros of the target's shape. A missing target becomes zeros of the (filled) source's shape. Present operands are kept. |
| Utils.FillMissingSameShape | src/misc/utils.py:99-104 | After the zero fill, the two operands have the same shape whenever one was missing. |
| Utils.EmbeddingVectorForEdge | src/misc/utils.py:93-119 | Raises iff the operator is unknown. Otherwise applies the named operator to the zero-filled embeddings of the two ends. |
| Utils.GreatestName | src/misc/utils.py:181-183 | The first name after a descending sort: a listed name no smaller than any other. |
| Utils.PathJoin | src/misc/utils.py:186 | The joined path ends with the file name. An absolute file name replaces the directory. Otherwise the directory is kept as a prefix. Directory and file name are separated by one `/`, which is added only when the directory does not already end with one. |
| Utils.GetBestExperiment | src/misc/utils.py:177-188 | Fails iff the directory is empty. Otherwise the directory joined with its greatest file name. |
| Utils.GreatestNameUnique | src/misc/utils.py:181-183 | The greatest name is unique. |
| Strings.RemoveAll | src/misc/utils.py:196 | `str.replace(pat, "")`: never longer than the input, and the input itself when the pattern does not occur. |
| Strings.RemoveAllLeading | src/data/data_utils.py:116 | A leading occurrence of the pattern is removed. |
| Strings.RemoveAllSplit | src/data/data_utils.py:116-117 | A character outside the pattern splits the removal in two, so removing `PR:` never touches a `-`. |
| Strings.BeforeFirstIdempotent | src/misc/utils.py:90 | Cutting at the first `c` a second time changes nothing. |
| Strings.BeforeFirst | src/misc/utils.py:90 | `split(c)[0]`: the prefix before the first `c`, without `c`. |
| Strings.Lower | src/data/data_utils.py:22 | `lower()` keeps the length and lower-cases each ASCII letter, position by position. |
| Strings.LexLeTotal | src/misc/utils.py:181 | Any two names are ordered one way or the other, so the descending sort has a first name. |
| Strings.LexLeTransitive | src/misc/utils.py:181 | The string order is transitive. |
| Strings.LexLeAntisymmetric | src/misc/utils.py:181 | Two names each at most the other are equal. |
| Tables.Matching | src/misc/utils.py:96-97 | The selected rows are never more than the table's rows. |
| Tables.MatchingRows | src/misc/utils.py:96-97 | A vector is selected iff some row with the key carries it. Nothing is selected iff no row has the key. The first selected vector is the first such row's. In a valid table every selected vector has `width` entries. |
| Tables.LookupOrZero | src/data/feature_builder.py:183-197 | `get_seq_vector`, and `_get_go_vector` (feature_builder.py:271-285), which has the same body: the value part of the first row for the key, or a zero vector of the table's width when no row matches. |
| FeatureBuilder.GetProVector | src/data/feature_builder.py:167-181 | The lookup under `PR:<name>`, first match or zeros. |
| FeatureBuilder.FirstRoot | src/data/feature_builder.py:263-265 | None iff no mapping row is for the term. Otherwise the root of the first row for it. |
| FeatureBuilder.FirstRootOfFiltered | src/data/feature_builder.py:263-265 | The filtered mapping rows are non-empty iff the term has a first root, and the first of them holds that root. |
| FeatureBuilder.FilterChildrenForParent | src/data/feature_builder.py:260-269 | An order-preserving subsequence of the terms. A term is kept iff its first mapping row names the parent, so unmapped terms are dropped. |
| FeatureBuilder.TermTypeRoot | src/data/feature_builder.py:225-234 | bp, cc and mp select GO:0008150, GO:0005575 and GO:0003674. `all` selects no filter. Any other type raises. |
| FeatureBuilder.TermsOfType | src/data/feature_builder.py:222-234 | `all` keeps every term. The others keep exactly the terms rooted at their root, as a subsequence. Unknown types raise. |
| FeatureBuilder.GoVectors | src/data/feature_builder.py:237-242 | One looked-up vector per term, in term order. |
| FeatureBuilder.LookUpGoVectors | src/data/feature_builder.py:205-210 | The filled `go_vectors` array is the vectors of the terms. |
| FeatureBuilder.UnknownTermsAreZero | src/data/feature_builder.py:212-218 | Terms without embedding rows give all-zero vectors. |
| FeatureBuilder.GoFeatureZeroRule | src/data/feature_builder.py:212-218 | No terms, or no term with an embedding row, gives the zero vector of width columns − 1. Otherwise the result is the sum of the vectors. |
| FeatureBuilder.BuildGoVector | src/data/feature_builder.py:200-218 | The GO feature: the zero rule, otherwise the sum. |
| FeatureBuilder.BuildGoVectorForTermType | src/data/feature_builder.py:220-257 | An unknown term type raises. All-zero vectors give zeros. Otherwise `cat` over two or more one-dimensional vectors raises an axis error, an unknown operator gives no value, and any other operator is folded over the vectors. |
| FeatureBuilder.GoFeaturesOf | src/data/feature_builder.py:87-93 | The filled array holds the GO feature of each protein, in order. |
| FeatureBuilder.BuildFeaturesOnlyGo | src/data/feature_builder.py:69-101 | One row per graph node, in node order, holding the node and its GO feature. |
| PredictReport.RemoveSelfLoops | src/report/go_ontology_predict_report.py:21-25 | Exactly the edges whose ends differ, in their original order. |
| PredictReport.NodeDegree | src/report/go_ontology_predict_report.py:36-39 | 0 for a protein outside the graph. Otherwise in-degree plus out-degree. |
| PredictReport.DegreeList | src/report/go_ontology_predict_report.py:35-40 | One (protein, degree) entry per protein, in list order. |
| PredictReport.Insert | src/report/go_ontology_predict_report.py:42 | Inserting adds exactly the new entry. |
| PredictReport.InsertSorted | src/report/go_ontology_predict_report.py:42 | Inserting into a sorted list keeps it sorted by degree. |
| PredictReport.SortByDegreeSorted | src/report/go_ontology_predict_report.py:42 | The sorted list is ascending by degree. |
| PredictReport.SortByDegreePermutation | src/report/go_ontology_predict_report.py:42 | The sorted list is a permutation of the input. |
| PredictReport.InsertStable | src/report/go_ontology_predict_report.py:42 | Inserting keeps each degree's entries in order, with the new one last. |
| PredictReport.SortByDegreeStable | src/report/go_ontology_predict_report.py:42 | The sort is stable: the entries of each degree keep their input order. |
| PredictReport.LeastInteractionsMembership | src/report/go_ontology_predict_report.py:46 | A protein is listed iff it was recorded with degree 1. |
| PredictReport.LeastInteractionsIgnoreSort | src/report/go_ontology_predict_report.py:42-46 | Sorting first does not change which degree-1 proteins are found, nor their order. |
| PredictReport.CheckIfPresentMeaning | src/report/go_ontology_predict_report.py:195-206 | Raises iff no row is for the edge. Otherwise true iff the first such row's prediction reaches the threshold. |
| PredictReport.GetLabel | src/report/go_ontology_predict_report.py:176-182 | 1 iff the edge is present, 0 iff it is not, and it raises when the check does. |
| PredictReport.CheckIfPresentMonotone | src/report/go_ontology_predict_report.py:195-204 | An edge present at a threshold is present at every lower one. |
| PredictReport.GetPredictedSubstrates | src/report/go_ontology_predict_report.py:185-193 | One row per kinase, in input order. Its substrates are the targets of the rows from that kinase at the threshold, in row order. |
| PredictReport.PredictedSubstrateMembership | src/report/go_ontology_predict_report.py:186-189 | A target is listed for a kinase iff some row from the kinase to it reaches the threshold. |
| PredictReport.GetPredictedTuples | src/report/go_ontology_predict_report.py:61-67 | Raises iff some edge has no row. Otherwise the edges present at the threshold, in order, with their count. |
| BuildGraph.Substrate | src/preprocess/build_graph.py:52-61 | `site_merged` gives `SUB_CODE_POSITION`, `no_sites` gives `sub_form_code`, and any other type leaves it empty. |
| BuildGraph.SiteMergedSubstrateNonEmpty | src/preprocess/build_graph.py:54-57 | A merged substrate contains `_`, so it is never empty. |
| BuildGraph.LoopOutcomeMeaning | src/preprocess/build_graph.py:50-65 | The loop fails its assertion iff some row has an empty substrate. Otherwise it gives the graph of all the rows' edges. |
| BuildGraph.LoopOutcomeFailurePersists | src/preprocess/build_graph.py:64 | Once the assertion has failed, later rows change nothing. |
| BuildGraph.AddRowEdges | src/preprocess/build_graph.py:50-65 | The loop fails with an assertion error iff some row has an empty substrate. Otherwise it adds every row's edge in row order. |
| BuildGraph.Build | src/preprocess/build_graph.py:7-73 | An unknown graph type fails the assertion. A non-zero `num_rows` keeps that prefix of the rows. The result is the graph of the kept rows' edges. |
| BuildGraph.BuiltGraphShape | src/preprocess/build_graph.py:46-65 | The graph has each distinct row edge once, so repeated rows collapse. Its nodes are exactly the ends of those edges. |
| BuildGraph.SiteMergedNeverFails | src/preprocess/build_graph.py:54-64 | In `site_merged` mode the substrate assertion never fails. |
| BuildGraph.SiteMergedEdgesEndAtSites | src/preprocess/build_graph.py:54-65 | Every edge of a `site_merged` graph ends at a node naming a site. |
| GenerateGraph.Reverse | src/exploratory/generate_graph.py:54 | Same nodes, and exactly the reversed edges. |
| GenerateGraph.ReversePredecessors | src/exploratory/generate_graph.py:54 | The predecessors of a node in the reversed graph are its successors in the original, in the same order. |
| GenerateGraph.FindRoot | src/exploratory/generate_graph.py:67-72 | A node outside the graph raises. Otherwise the result is a root found within the recursion limit, or a recursion error. A root found has no predecessors. |
| GenerateGraph.FindRootOfRoot | src/exploratory/generate_graph.py:70-71 | A node without predecessors is its own root. |
| GenerateGraph.FindRootOfChild | src/exploratory/generate_graph.py:68-69 | Otherwise the root is that of the node's first predecessor, with one call fewer. |
| GenerateGraph.FindRootFuelMonotone | src/exploratory/generate_graph.py:67-72 | A root found within a recursion limit is found, unchanged, within any larger one. |
| GenerateGraph.FindRootIdempotent | src/exploratory/generate_graph.py:67-72 | The root of a root is itself. |
| GenerateGraph.FindRootSelfLoop | src/exploratory/generate_graph.py:67-69 | A node that is its own first predecessor always ends in a recursion error. |
| GenerateGraph.ParentMappings | src/exploratory/generate_graph.py:57-61 | Raises iff some node's root cannot be found. Otherwise gives one (node, root) pair per node, in node order. |
| GenerateGraph.FromEdgeList | src/exploratory/generate_graph.py:45-50 | The rebuilt graph has the same edges and attributes, and its nodes are exactly the ends of those edges, so a term without an edge is dropped. |
| GenerateGraph.GenerateGoParentMapping | src/exploratory/generate_graph.py:40-66 | Raises a recursion error iff some term of the rebuilt ontology has no root within the limit. Otherwise it pairs each term of the rebuilt, reversed ontology with its root, in that graph's node order. The mapped terms are exactly the terms with an edge. Each root is a term without successors in the ontology as read. |
| GenerateGraph.EdgeListMappingRoots | src/exploratory/generate_graph.py:54-61 | Every term and root of the mapping is a term of the ontology, and every root has no successors in it. |
| GenerateGraph.AsRows | src/exploratory/generate_graph.py:64 | The mapping as `go_node`/`root_parent` rows, pair by pair. |
| GenerateGraph.MappingRowsGiveRoots | src/exploratory/generate_graph.py:57-65 | Looking a term up in the written mapping gives the root `find_root` found for it. |
| SequenceEmbedding.GenerateSeqTuple | src/data/sequence_embedding.py:8-14 | The first component is the protein. The second is the `SEQ` of its first row, or the eleven-`A` placeholder when no row matches. |
| SequenceEmbedding.PlaceholderOnlyWhenAbsent | src/data/sequence_embedding.py:10-14 | The placeholder is returned only for an absent protein, or one whose first row holds the placeholder itself. |
| SequenceEmbedding.BuildSeqTuples | src/data/sequence_embedding.py:32-35 | One tuple per protein, in input order. |
| SequenceEmbedding.BuildBatches | src/data/sequence_embedding.py:32-39 | Batch `i` holds exactly the tuple of protein `i`. |
| TSneAnalysis.ToGoLabel | src/exploratory/t_sne_analysis.py:59-67 | Each of the three root ids has its own label, and every other id is `unknown`. |
| TSneAnalysis.LabelledIdsAreTermTypeRoots | src/exploratory/t_sne_analysis.py:59-67 | An id gets a namespace label iff it is the root that term type bp, cc or mp selects. |

## Left out

- File and parsing I/O is not part of this model. This covers reading CSV, GML, graphml, pickle and OBO files, writing results, `read_graph`, `read_protein_names`, the UniProt XML scraping of `get_go_terms` and `get_ec_category`, and `os.listdir`. Their results are parameters, and a protein's GO terms are a function.
- Embedding and model training (node2vec, Word2Vec, torch, scikit-learn), the ELMo sequence embedder, and metrics are library calls with floating-point numerics.
- Parallel work (pathos pools, `p_map`, `p_umap`, ray) is modelled as the sequential map it computes.
- Utils.Apply: the arithmetic of `operator_l1`, `operator_l2`, `operator_hadamard`, `operator_avg`, `operator_cat` and the numpy sum are parameters. Only their dispatch and the zero fill are modelled. Shape errors these numpy calls raise on the edge vectors (rows of unequal count) belong to the parameters, so Utils.EmbeddingVectorForEdge does not raise them. The one shape error the GO fold always hits, `cat` on one-dimensional rows, is modelled in FeatureBuilder.BuildGoVectorForTermType.
- Predictions are `real`, not floating point, so rounding at the threshold is not modelled. The `str(threshold)` column of `_get_predicted_tuples` is not modelled.
- GraphUtils.SampleNegativeEdges requires, for a positive count, that every head has some non-positive corruption. Without one, the source's rejection loop never ends. A count of zero or less draws nothing and requires nothing. When the first draw is rejected, the model takes one of the loop's possible exits, and it does not model the random number stream or the seed.
- GraphUtils.FindCommonProteins, GraphUtils.FilterEdges and DataUtils.ReadData turn a Python set into a list. The order of that list is unspecified in the source and is not modelled.
- GenerateGraph.FindRoot: `fuel` stands for the depth Python's recursion limit still allows, so a cycle ends in a recursion error and not in a stack overflow.
- GenerateGraph.Reverse: the predecessor order of the reversed graph is modelled exactly. The order in which networkx lists the reversed edges is not.
- GenerateGraph.FromEdgeList: the edge list is read in the model's edge order. networkx's `to_edgelist` lists the edges grouped by tail in node order, so the node order of the rebuilt graph, and with it the row order of GenerateGraph.GenerateGoParentMapping, can differ from the source's. The set of rows does not.
- BuildGraph.EventRecord: `POSITION` is the text that the f-string makes of the cell. Numeric formatting of that cell is not modelled.
- BuildGraph.EventRecord: every cell is a string. A missing cell (pandas NaN) is not representable. In the source it passes `assert substrate != ""` and becomes a NaN node.
- GraphUtils.DropPairs: rows are identified by position, as with the unique `RangeIndex` that `read_csv` gives. With duplicate index labels, pandas `drop` would remove every row sharing a label.
- DataUtils.EventRow: only the cross-reference columns can be missing (NaN). Every other cell is a string.
- Strings.Lower and Strings.IsNumeric cover ASCII only. Unicode case mapping and Unicode digits are not modelled.
- PredictReport.SortByDegree: the in-place `list.sort` is modelled as a value, an insertion sort proved sorted, a permutation and stable.
- FeatureBuilder.BuildFeaturesOnlyGo: the pandas frame is modelled as rows of (node, vector). Writing it to disk is left out.
- `build_features`, `build_features_only_go_term_type`, `filter_features_for_proteins`, `node_index_to_protein_names` and `get_embeddings_vector` are not part of this model. They are file-bound or parallel wrappers around the modelled lookups and operators.
- The `create_chunks` of src/data/sequence_embedding.py:16-18 is the same generator as src/misc/utils.py:36-38, so both are `Utils.CreateChunks`.
- Plots, reports other than the predict report, notebooks, experiment search and CLI dispatch have no logic of their own to model.
