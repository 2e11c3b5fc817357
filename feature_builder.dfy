/** Protein feature vectors: single-row lookups in the PRO, sequence and GO
    embedding tables, the selection of a protein's GO terms by the root of the
    ontology they belong to, and the combination of their vectors into one. */
module FeatureBuilder {
  import opened Wrappers
  import opened Seqs
  import opened Graphs
  import opened Tables
  import Utils

  // ---- get_pro_vector / get_seq_vector / _get_go_vector --------------------------

  /** The PRO embedding of a protein, stored under the key `PR:<name>`. */
  function GetProVector<E>(t: Table<E>, proteinName: string, zero: E): (r: seq<E>)
    requires t.Valid()
    ensures FirstOrZero(t, "PR:" + proteinName, zero, r)
  {
    LookupOrZero(t, "PR:" + proteinName, zero)
  }

  // `get_seq_vector` and `_get_go_vector` look up the bare key, a protein name
  // or a GO term, and have the same body: both are `Tables.LookupOrZero`.

  // ---- filter_children_for_parent --------------------------------------------------

  /** A row of the GO parent mapping: a term and the root it was traced to. */
  datatype MappingRow = MappingRow(goNode: string, rootParent: string)

  function GoNodeIs(term: string): MappingRow -> bool {
    (row: MappingRow) => row.goNode == term
  }

  /** The rows selected by `mappings_df[mappings_df["go_node"] == term]` start
      with the first mapping row of `term`. */
  lemma FirstRootOfFiltered(mappings: seq<MappingRow>, term: string)
    ensures |Filter(mappings, GoNodeIs(term))| > 0 <==> FirstRoot(mappings, term).Some?
    ensures |Filter(mappings, GoNodeIs(term))| > 0 ==>
              Filter(mappings, GoNodeIs(term))[0].rootParent == FirstRoot(mappings, term).value
  {
    FilterFirst(mappings, GoNodeIs(term));
  }

  /** The root recorded for `term` by its first mapping row, if it has one. */
  function FirstRoot(mappings: seq<MappingRow>, term: string): (r: Option<string>)
    ensures r.None? <==> forall i :: 0 <= i < |mappings| ==> mappings[i].goNode != term
    ensures r.Some? ==>
      exists i :: 0 <= i < |mappings| && mappings[i].goNode == term && mappings[i].rootParent == r.value &&
        forall j :: 0 <= j < i ==> mappings[j].goNode != term
  {
    match FirstIndex(mappings, GoNodeIs(term))
    case None => None
    case Some(i) => Some(mappings[i].rootParent)
  }

  /** The terms whose first mapping row names `parent` as their root. */
  function UnderRoot(mappings: seq<MappingRow>, parent: string): string -> bool {
    (term: string) => FirstRoot(mappings, term) == Some(parent)
  }

  /** The terms of `goTerms`, in order, whose first mapping row has root `parent`;
      a term without a mapping row is dropped. */
  method FilterChildrenForParent(goTerms: seq<string>, parent: string, mappings: seq<MappingRow>)
    returns (children: seq<string>)
    ensures children == Filter(goTerms, UnderRoot(mappings, parent))
    ensures forall term :: term in children <==> term in goTerms && FirstRoot(mappings, term) == Some(parent)
    ensures Subsequence(children, goTerms)
  {
    children := [];
    for k := 0 to |goTerms|
      invariant children == Filter(goTerms[..k], UnderRoot(mappings, parent))
    {
      var term := goTerms[k];
      FilterPrefixStep(goTerms, k, UnderRoot(mappings, parent));
      var filtered := Filter(mappings, GoNodeIs(term));
      FirstRootOfFiltered(mappings, term);
      if |filtered| > 0 {
        var root := filtered[0].rootParent;
        if root == parent {
          children := children + [term];
        }
      }
    }
    assert goTerms[..|goTerms|] == goTerms;
    forall term ensures term in children <==> term in goTerms && FirstRoot(mappings, term) == Some(parent) {
      FilterMembership(goTerms, UnderRoot(mappings, parent), term);
    }
    FilterIsSubsequence(goTerms, UnderRoot(mappings, parent));
  }

  // ---- the term-type dispatch of build_go_vector_for_term_type -----------------------

  const BiologicalProcess := "GO:0008150"
  const CellularComponent := "GO:0005575"
  const MolecularFunction := "GO:0003674"

  /** The root a term type restricts the terms to: none for `all`, and an
      error for a type that is not one of the four. */
  function TermTypeRoot(termType: string): (r: Result<Option<string>>)
    ensures r.Failure? <==> termType !in {"bp", "cc", "mp", "all"}
    ensures r.Failure? ==> r.error == UnknownTermType(termType)
    ensures r == Success(None) <==> termType == "all"
    ensures termType == "bp" ==> r == Success(Some(BiologicalProcess))
    ensures termType == "cc" ==> r == Success(Some(CellularComponent))
    ensures termType == "mp" ==> r == Success(Some(MolecularFunction))
  {
    if termType == "bp" then Success(Some(BiologicalProcess))
    else if termType == "cc" then Success(Some(CellularComponent))
    else if termType == "mp" then Success(Some(MolecularFunction))
    else if termType == "all" then Success(None)
    else Failure(UnknownTermType(termType))
  }

  /** The terms a term type keeps. */
  function TermsOfType(goTerms: seq<string>, termType: string, mappings: seq<MappingRow>): (r: Result<seq<string>>)
    ensures r.Failure? <==> TermTypeRoot(termType).Failure?
    ensures termType == "all" ==> r == Success(goTerms)
    ensures r.Success? ==> Subsequence(r.value, goTerms)
    ensures r.Success? && termType != "all" ==>
      forall term :: term in r.value <==> term in goTerms && FirstRoot(mappings, term) == TermTypeRoot(termType).value
  {
    match TermTypeRoot(termType)
    case Failure(e) => Failure(e)
    case Success(None) => FilterIsSubsequence(goTerms, (term: string) => true);
      FilterKeepsAll(goTerms, (term: string) => true);
      Success(goTerms)
    case Success(Some(root)) =>
      FilterIsSubsequence(goTerms, UnderRoot(mappings, root));
      assert forall term :: term in Filter(goTerms, UnderRoot(mappings, root)) <==>
          term in goTerms && FirstRoot(mappings, term) == Some(root) by {
        forall term {
          FilterMembership(goTerms, UnderRoot(mappings, root), term);
        }
      }
      Success(Filter(goTerms, UnderRoot(mappings, root)))
  }

  // ---- the GO vectors of a protein --------------------------------------------------

  /** The looked-up vector of every term, one row per term. */
  function GoVectors<E>(t: Table<E>, goTerms: seq<string>, zero: E): (r: seq<seq<E>>)
    requires t.Valid()
    ensures |r| == |goTerms|
    ensures forall k :: 0 <= k < |goTerms| ==> FirstOrZero(t, goTerms[k], zero, r[k])
  {
    seq(|goTerms|, k requires 0 <= k < |goTerms| => LookupOrZero(t, goTerms[k], zero))
  }

  /** The `go_vectors` array: a zero row per term, then each row overwritten
      with that term's vector. */
  method LookUpGoVectors<E>(t: Table<E>, goTerms: seq<string>, zero: E) returns (vectors: seq<seq<E>>)
    requires t.Valid()
    ensures vectors == GoVectors(t, goTerms, zero)
  {
    var a := new seq<E>[|goTerms|](_ => Repeat(zero, t.width));
    for index := 0 to |goTerms|
      invariant forall k :: 0 <= k < index ==> a[k] == LookupOrZero(t, goTerms[k], zero)
    {
      a[index] := LookupOrZero(t, goTerms[index], zero);
    }
    vectors := a[..];
  }

  /** When no term of the list has a row, every looked-up vector is zero. */
  lemma UnknownTermsAreZero<E>(t: Table<E>, goTerms: seq<string>, zero: E)
    requires t.Valid()
    requires forall k, i :: 0 <= k < |goTerms| && 0 <= i < |t.rows| ==> t.rows[i].key != goTerms[k]
    ensures AllZero(GoVectors(t, goTerms, zero), zero)
  {
    var vs := GoVectors(t, goTerms, zero);
    forall k | 0 <= k < |goTerms| ensures vs[k] == Repeat(zero, t.width) {
      assert FirstOrZero(t, goTerms[k], zero, vs[k]);
    }
  }

  /** The GO feature of a protein with terms `goTerms`: the sum of the term
      vectors, or zeros of the table's width when every vector is zero. */
  function GoFeature<E(==)>(t: Table<E>, goTerms: seq<string>, zero: E, sum: seq<seq<E>> -> seq<E>): seq<E>
    requires t.Valid()
  {
    var vs := GoVectors(t, goTerms, zero);
    if AllZero(vs, zero) then Repeat(zero, t.width) else sum(vs)
  }

  /** The zero-vector rule: a protein without GO terms, or none of whose terms
      has an embedding, gets zeros of the table's width; otherwise the sum. */
  lemma GoFeatureZeroRule<E>(t: Table<E>, goTerms: seq<string>, zero: E, sum: seq<seq<E>> -> seq<E>)
    requires t.Valid()
    ensures goTerms == [] ==> GoFeature(t, goTerms, zero, sum) == Repeat(zero, t.width)
    ensures (forall k, i :: 0 <= k < |goTerms| && 0 <= i < |t.rows| ==> t.rows[i].key != goTerms[k])
              ==> GoFeature(t, goTerms, zero, sum) == Repeat(zero, t.width)
    ensures !AllZero(GoVectors(t, goTerms, zero), zero) ==>
              GoFeature(t, goTerms, zero, sum) == sum(GoVectors(t, goTerms, zero))
  {
    if forall k, i :: 0 <= k < |goTerms| && 0 <= i < |t.rows| ==> t.rows[i].key != goTerms[k] {
      UnknownTermsAreZero(t, goTerms, zero);
    }
  }

  /** `build_go_vector` for a protein whose GO terms are `goTerms`. */
  method BuildGoVector<E(==)>(t: Table<E>, goTerms: seq<string>, zero: E, sum: seq<seq<E>> -> seq<E>)
    returns (r: seq<E>)
    requires t.Valid()
    ensures r == GoFeature(t, goTerms, zero, sum)
  {
    var vectors := LookUpGoVectors(t, goTerms, zero);
    if !AllZero(vectors, zero) {
      r := sum(vectors);
    } else {
      r := Repeat(zero, t.width);
    }
  }

  /** `functools.reduce` over the rows: a left fold that starts from the first row. */
  function Reduce<M>(f: (M, M) -> M, xs: seq<M>): M
    requires |xs| > 0
  {
    if |xs| == 1 then xs[0] else f(Reduce(f, xs[..|xs| - 1]), xs[|xs| - 1])
  }

  /** `build_go_vector_for_term_type` for a protein whose GO terms are `goTerms`:
      an unknown term type raises; all-zero vectors give zeros; otherwise the
      named operator is folded over the vectors, and an unknown operator name
      falls off the end of the `if` chain and gives nothing. The rows are
      one-dimensional, so `cat` (a concatenation along axis 1) raises as soon
      as `reduce` applies it, that is whenever there are two vectors or more. */
  method BuildGoVectorForTermType<E(==)>(t: Table<E>, goTerms: seq<string>, mappings: seq<MappingRow>,
                                     termType: string, opName: string, ops: Utils.Operators<seq<E>>, zero: E)
    returns (r: Result<Option<seq<E>>>)
    requires t.Valid()
    ensures termType !in {"bp", "cc", "mp", "all"} ==> r == Failure(UnknownTermType(termType))
    ensures termType in {"bp", "cc", "mp", "all"} ==>
      var vs := GoVectors(t, TermsOfType(goTerms, termType, mappings).value, zero);
      var op := Utils.ParseOperator(opName);
      && (r.Failure? <==> !AllZero(vs, zero) && op == Some(Utils.Cat) && |vs| >= 2)
      && (r.Failure? ==> r.error == AxisError)
      && (AllZero(vs, zero) ==> r.value == Some(Repeat(zero, t.width)))
      && (!AllZero(vs, zero) && op.None? ==> r.value == None)
      && (!AllZero(vs, zero) && op.Some? && r.Success? ==>
            r.value == Some(Reduce((u, v) => Utils.Apply(ops, op.value, u, v), vs)))
  {
    var terms := goTerms;
    if termType == "bp" {
      terms := FilterChildrenForParent(goTerms, BiologicalProcess, mappings);
    } else if termType == "cc" {
      terms := FilterChildrenForParent(goTerms, CellularComponent, mappings);
    } else if termType == "mp" {
      terms := FilterChildrenForParent(goTerms, MolecularFunction, mappings);
    } else if termType == "all" {
      terms := goTerms;
    } else {
      return Failure(UnknownTermType(termType));
    }
    assert terms == TermsOfType(goTerms, termType, mappings).value;
    var vectors := LookUpGoVectors(t, terms, zero);
    if !AllZero(vectors, zero) {
      r := Success(None);
      var op := Utils.ParseOperator(opName);
      if op == Some(Utils.Cat) && |vectors| >= 2 {
        r := Failure(AxisError);
      } else if op.Some? {
        r := Success(Some(Reduce((u, v) => Utils.Apply(ops, op.value, u, v), vectors)));
      }
    } else {
      r := Success(Some(Repeat(zero, t.width)));
    }
  }

  // ---- build_features_only_go ---------------------------------------------------------

  /** The `features` array of `build_features_only_go`: the GO feature of
      every protein, in order. */
  method GoFeaturesOf<E(==)>(proteins: seq<Node>, goTermsOf: Node -> seq<string>, t: Table<E>, zero: E,
                           sum: seq<seq<E>> -> seq<E>)
    returns (vectors: seq<seq<E>>)
    requires t.Valid()
    ensures |vectors| == |proteins|
    ensures forall i :: 0 <= i < |proteins| ==> vectors[i] == GoFeature(t, goTermsOf(proteins[i]), zero, sum)
  {
    var featuresArr := new seq<E>[|proteins|](_ => []);
    for index := 0 to |proteins|
      invariant forall i {:trigger featuresArr[i]} :: 0 <= i < index ==> featuresArr[i] == GoFeature(t, goTermsOf(proteins[i]), zero, sum)
    {
      var goVector := BuildGoVector(t, goTermsOf(proteins[index]), zero, sum);
      featuresArr[index] := goVector;
    }
    vectors := featuresArr[..];
  }

  /** One feature row per graph node, in node order: the node and its GO
      feature. `goTermsOf` stands for the lookup of a protein's GO terms. */
  method BuildFeaturesOnlyGo<E(==)>(g: DiGraph, goTermsOf: Node -> seq<string>, t: Table<E>, zero: E,
                                sum: seq<seq<E>> -> seq<E>)
    returns (features: seq<Row<E>>)
    requires t.Valid()
    ensures |features| == |g.nodes|
    ensures forall i :: 0 <= i < |g.nodes| ==> features[i].key == g.nodes[i]
    ensures forall i :: 0 <= i < |g.nodes| ==> features[i].vector == GoFeature(t, goTermsOf(g.nodes[i]), zero, sum)
  {
    var proteins := g.nodes;
    var vectors := GoFeaturesOf(proteins, goTermsOf, t, zero, sum);
    features := seq(|proteins|, i requires 0 <= i < |proteins| => Row(proteins[i], vectors[i]));
  }
}
