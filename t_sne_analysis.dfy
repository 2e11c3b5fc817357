/** The labels of the t-SNE plot of the GO embedding: each GO root id is
    named after its namespace, and anything else is "unknown". */
module TSneAnalysis {
  import opened Wrappers
  import FeatureBuilder

  /** `to_go_label`: total, and each of the three root ids has its own label. */
  function ToGoLabel(goId: string): (r: string)
    ensures r == "biological_process" <==> goId == FeatureBuilder.BiologicalProcess
    ensures r == "molecular_function" <==> goId == FeatureBuilder.MolecularFunction
    ensures r == "cellular_component" <==> goId == FeatureBuilder.CellularComponent
    ensures r == "unknown" <==>
      goId !in {FeatureBuilder.BiologicalProcess, FeatureBuilder.MolecularFunction, FeatureBuilder.CellularComponent}
  {
    if goId == "GO:0008150" then "biological_process"
    else if goId == "GO:0003674" then "molecular_function"
    else if goId == "GO:0005575" then "cellular_component"
    else "unknown"
  }

  /** The ids that get a namespace label are exactly the roots that the
      feature builder's term types `bp`, `mp` and `cc` select. */
  lemma LabelledIdsAreTermTypeRoots(goId: string)
    ensures ToGoLabel(goId) != "unknown" <==>
      exists termType :: termType in {"bp", "cc", "mp"} && FeatureBuilder.TermTypeRoot(termType) == Success(Some(goId))
  {
    if ToGoLabel(goId) != "unknown" {
      var termType := if goId == FeatureBuilder.BiologicalProcess then "bp"
        else if goId == FeatureBuilder.CellularComponent then "cc" else "mp";
      assert FeatureBuilder.TermTypeRoot(termType) == Success(Some(goId));
    }
  }
}
