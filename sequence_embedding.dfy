/** The input of the protein sequence embedder: every protein of the network
    paired with its amino-acid sequence, a fixed placeholder standing in for a
    protein the sequence table does not hold, then cut into batches of one.
    Loading the tables and the ELMo embedder itself are left out. */
module SequenceEmbedding {
  import opened Wrappers
  import opened Seqs
  import Utils

  /** A row of the sequence table: the `ID` and `SEQ` columns. */
  datatype SequenceRow = SequenceRow(id: string, sequence: string)

  /** The sequence given to a protein that the table does not hold: eleven alanines. */
  const Placeholder := "AAAAAAAAAAA"

  function IdIs(proteinName: string): SequenceRow -> bool {
    (row: SequenceRow) => row.id == proteinName
  }

  /** `generate_seq_tuple`: the protein paired with the sequence of its first
      row in the table, or with the placeholder when it has no row. */
  function GenerateSeqTuple(proteinName: string, sequences: seq<SequenceRow>): (r: (string, string))
    ensures r.0 == proteinName
    ensures forall i ::
      (0 <= i < |sequences| && sequences[i].id == proteinName && forall j :: 0 <= j < i ==> sequences[j].id != proteinName)
      ==> r.1 == sequences[i].sequence
    ensures (forall i :: 0 <= i < |sequences| ==> sequences[i].id != proteinName) ==> r.1 == Placeholder
  {
    var resultDf := Filter(sequences, IdIs(proteinName));
    FilterFirst(sequences, IdIs(proteinName));
    if |resultDf| > 0 then (proteinName, resultDf[0].sequence)
    else (proteinName, Placeholder)
  }

  /** A protein with a row is never given the placeholder unless that row
      holds the placeholder itself. */
  lemma PlaceholderOnlyWhenAbsent(proteinName: string, sequences: seq<SequenceRow>)
    requires GenerateSeqTuple(proteinName, sequences).1 == Placeholder
    ensures (forall i :: 0 <= i < |sequences| ==> sequences[i].id != proteinName) ||
      exists i :: 0 <= i < |sequences| && sequences[i].id == proteinName && sequences[i].sequence == Placeholder
  {
    var first := FirstIndex(sequences, IdIs(proteinName));
    if first.Some? {
      var i := first.value;
      assert sequences[i].id == proteinName;
    }
  }

  /** The tuple-building loop of `build`: one tuple per protein, in input order. */
  method BuildSeqTuples(proteins: seq<string>, sequences: seq<SequenceRow>) returns (seqTuples: seq<(string, string)>)
    ensures |seqTuples| == |proteins|
    ensures forall i :: 0 <= i < |proteins| ==> seqTuples[i] == GenerateSeqTuple(proteins[i], sequences)
    ensures forall i :: 0 <= i < |proteins| ==> seqTuples[i].0 == proteins[i]
  {
    seqTuples := [];
    for i := 0 to |proteins|
      invariant |seqTuples| == i
      invariant forall j :: 0 <= j < i ==> seqTuples[j] == GenerateSeqTuple(proteins[j], sequences)
    {
      var seqTuple := GenerateSeqTuple(proteins[i], sequences);
      seqTuples := seqTuples + [seqTuple];
    }
  }

  /** The tuples of `build` cut into batches of one: batch `i` holds exactly
      the tuple of protein `i`. */
  method BuildBatches(proteins: seq<string>, sequences: seq<SequenceRow>)
    returns (seqTupleBatches: seq<seq<(string, string)>>)
    ensures |seqTupleBatches| == |proteins|
    ensures forall i :: 0 <= i < |proteins| ==> seqTupleBatches[i] == [GenerateSeqTuple(proteins[i], sequences)]
  {
    var seqTuples := BuildSeqTuples(proteins, sequences);
    var batchSize := 1;
    var chunks := Utils.CreateChunks(seqTuples, batchSize);
    seqTupleBatches := chunks.value;
    Utils.ChunksOfOne(seqTuples);
  }
}
