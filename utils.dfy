/** The pipeline's small helpers: random hyper-parameter selection, chunking,
    name cleaning, configuration-key extraction, the edge-embedding operator
    dispatch with its zero fill, and the choice of the newest experiment file. */
module Utils {
  import opened Wrappers
  import opened Seqs
  import opened Strings
  import opened Tables

  // ---- generate_random_params ------------------------------------------------

  /** `m` picks, for each key of `params` and no other, one of that key's values. */
  ghost predicate IsParamChoice<V>(params: map<string, seq<V>>, m: map<string, V>) {
    && m.Keys == params.Keys
    && forall k :: k in m ==> m[k] in params[k]
  }

  /** The inner loop of `generate_random_params`: `random.choice` over each
      key's values; an empty value list raises. */
  method ChooseParams<V(==)>(params: map<string, seq<V>>) returns (r: Result<map<string, V>>)
    ensures r.Failure? <==> exists k :: k in params && params[k] == []
    ensures r.Failure? ==> r.error == IndexError
    ensures r.Success? ==> IsParamChoice(params, r.value)
  {
    var chosen: map<string, V> := map[];
    var rest := params.Keys;
    while rest != {}
      invariant rest <= params.Keys
      invariant chosen.Keys == params.Keys - rest
      invariant forall k :: k in chosen ==> chosen[k] in params[k]
      invariant forall k :: k in params.Keys - rest ==> params[k] != []
      decreases |rest|
    {
      var key :| key in rest;
      var values := params[key];
      if values == [] {
        return Failure(IndexError);
      }
      assert values[0] in values;
      var value :| value in values;
      chosen := chosen[key := value];
      rest := rest - {key};
    }
    r := Success(chosen);
  }

  /** `generate_random_params`: `n_iter` independent choices, one dictionary each. */
  method GenerateRandomParams<V(==)>(params: map<string, seq<V>>, nIter: int) returns (r: Result<seq<map<string, V>>>)
    ensures r.Failure? <==> nIter > 0 && exists k :: k in params && params[k] == []
    ensures r.Success? ==> |r.value| == if nIter > 0 then nIter else 0
    ensures r.Success? ==> forall i :: 0 <= i < |r.value| ==> IsParamChoice(params, r.value[i])
  {
    var randomParams: seq<map<string, V>> := [];
    var iter := 0;
    while iter < nIter
      invariant 0 <= iter <= if nIter > 0 then nIter else 0
      invariant iter > 0 ==> forall k :: k in params ==> params[k] != []
      invariant |randomParams| == iter
      invariant forall i :: 0 <= i < |randomParams| ==> IsParamChoice(params, randomParams[i])
    {
      var randomParam := ChooseParams(params);
      if randomParam.Failure? {
        return Failure(randomParam.error);
      }
      randomParams := randomParams + [randomParam.value];
      iter := iter + 1;
    }
    r := Success(randomParams);
  }

  // ---- create_chunks -----------------------------------------------------------

  /** The slices `l[i:i + n]` for `i` in `range(0, len(l), n)`. */
  function Chunks<T>(l: seq<T>, n: nat): (r: seq<seq<T>>)
    requires n > 0
    ensures Concat(r) == l
    ensures forall i :: 0 <= i < |r| - 1 ==> |r[i]| == n
    ensures r != [] ==> 0 < |r[|r| - 1]| <= n
    ensures r == [] <==> l == []
    decreases |l|
  {
    if l == [] then []
    else if |l| <= n then
      ConcatFront(l, []);
      [l]
    else
      var rest := Chunks(l[n..], n);
      ConcatFront(l[..n], rest);
      assert l == l[..n] + l[n..];
      [l[..n]] + rest
  }

  /** `create_chunks(l, n)`: a zero step makes `range` raise, a negative one
      gives no chunks. */
  function CreateChunks<T>(l: seq<T>, n: int): (r: Result<seq<seq<T>>>)
    ensures r.Failure? <==> n == 0
    ensures n < 0 ==> r == Success([])
    ensures n > 0 ==> r.Success? && Concat(r.value) == l
    ensures n > 0 ==> r.Success? && forall i :: 0 <= i < |r.value| - 1 ==> |r.value[i]| == n
    ensures n > 0 && l != [] ==> r.Success? && r.value != [] && 0 < |r.value[|r.value| - 1]| <= n
    ensures n > 0 ==> r.Success? && (r.value == [] <==> l == [])
  {
    if n == 0 then Failure(ValueError)
    else if n < 0 then Success([])
    else Success(Chunks(l, n))
  }

  /** Chunks of one element are the elements one by one. */
  lemma {:induction false} ChunksOfOne<T>(l: seq<T>)
    ensures |Chunks(l, 1)| == |l|
    ensures forall i :: 0 <= i < |l| ==> Chunks(l, 1)[i] == [l[i]]
    decreases |l|
  {
    if |l| > 1 {
      ChunksOfOne(l[1..]);
    }
  }

  // ---- model_qualifier ----------------------------------------------------------

  /** `model_type[:2]` */
  function ModelQualifier(modelType: string): (r: string)
    ensures r <= modelType
    ensures |r| == if |modelType| < 2 then |modelType| else 2
  {
    PyPrefix(modelType, 2)
  }

  // ---- clean_proteins -------------------------------------------------------------

  /** `protein.split("-")[0]`: the accession without its isoform suffix. */
  function CleanProteins(protein: string): (r: string)
    ensures '-' !in r && r <= protein
    ensures r == protein || protein[|r|] == '-'
  {
    BeforeFirst(protein, '-')
  }

  lemma CleanProteinsIdempotent(protein: string)
    ensures CleanProteins(CleanProteins(protein)) == CleanProteins(protein)
  {
    BeforeFirstIdempotent(protein, '-');
  }

  // ---- extract_config ------------------------------------------------------------

  /** A key names a configuration entry when it contains this text. */
  const ConfigMarker: string := "config."

  /** The configuration a result dictionary's items (in dictionary order) yield:
      each key containing the marker, with the marker removed, mapped to its
      value; a later item overwrites an earlier one with the same name. */
  function ConfigOf<V>(items: seq<(string, V)>): map<string, V> {
    if items == [] then map[]
    else
      var key := items[|items| - 1].0;
      var front := ConfigOf(items[..|items| - 1]);
      if Contains(key, ConfigMarker) then front[RemoveAll(key, ConfigMarker) := items[|items| - 1].1] else front
  }

  /** `extract_config` */
  method ExtractConfig<V>(resultDict: seq<(string, V)>) returns (config: map<string, V>)
    ensures config == ConfigOf(resultDict)
  {
    config := map[];
    var i := 0;
    while i < |resultDict|
      invariant 0 <= i <= |resultDict|
      invariant config == ConfigOf(resultDict[..i])
    {
      var (key, value) := resultDict[i];
      assert resultDict[..i + 1][..i] == resultDict[..i];
      if Contains(key, ConfigMarker) {
        var keyName := RemoveAll(key, ConfigMarker);
        config := config[keyName := value];
      }
      i := i + 1;
    }
    assert resultDict[..i] == resultDict;
  }

  /** The item at `i` is a configuration entry named `name`. */
  predicate NamesConfig<V>(items: seq<(string, V)>, i: int, name: string)
    requires 0 <= i < |items|
  {
    Contains(items[i].0, ConfigMarker) && RemoveAll(items[i].0, ConfigMarker) == name
  }

  /** The configuration holds exactly the names of configuration entries, and
      each name holds the value of the last entry with that name. */
  lemma {:induction false} ConfigOfEntries<V>(items: seq<(string, V)>, name: string)
    ensures name in ConfigOf(items) <==> exists i :: 0 <= i < |items| && NamesConfig(items, i, name)
    ensures name in ConfigOf(items) ==>
              exists i :: 0 <= i < |items| && NamesConfig(items, i, name) && ConfigOf(items)[name] == items[i].1 &&
                forall j :: i < j < |items| ==> !NamesConfig(items, j, name)
  {
    if items != [] {
      var n := |items| - 1;
      var front := items[..n];
      ConfigOfEntries(front, name);
      forall i | 0 <= i < n ensures NamesConfig(front, i, name) <==> NamesConfig(items, i, name) {
        assert front[i] == items[i];
      }
      if NamesConfig(items, n, name) {
        assert ConfigOf(items)[name] == items[n].1;
      } else {
        assert name in ConfigOf(items) <==> name in ConfigOf(front);
        if name in ConfigOf(front) {
          assert ConfigOf(items)[name] == ConfigOf(front)[name];
          var i :| 0 <= i < n && NamesConfig(front, i, name) && ConfigOf(front)[name] == front[i].1 &&
                   forall j :: i < j < n ==> !NamesConfig(front, j, name);
          assert NamesConfig(items, i, name);
        }
      }
    }
  }

  // ---- edge operators ---------------------------------------------------------

  /** The binary operators an edge embedding can be built with. */
  datatype Operator = L1 | L2 | Hadamard | Avg | Cat

  /** The name each operator is selected by. */
  function OperatorName(op: Operator): string {
    match op
    case L1 => "l1"
    case L2 => "l2"
    case Hadamard => "hadamard"
    case Avg => "avg"
    case Cat => "cat"
  }

  /** The `if`/`elif` chain on the operator name; any other name selects none. */
  function ParseOperator(name: string): (r: Option<Operator>)
    ensures r.Some? <==> name in {"l1", "l2", "hadamard", "avg", "cat"}
  {
    if name == "l1" then Some(L1)
    else if name == "l2" then Some(L2)
    else if name == "hadamard" then Some(Hadamard)
    else if name == "avg" then Some(Avg)
    else if name == "cat" then Some(Cat)
    else None
  }

  /** Each operator is selected by its own name and by no other. */
  lemma OperatorNameRoundTrip(op: Operator, name: string)
    ensures ParseOperator(OperatorName(op)) == Some(op)
    ensures ParseOperator(name) == Some(op) ==> name == OperatorName(op)
  {
  }

  /** The numeric bodies of `operator_l1`, `operator_l2`, `operator_hadamard`,
      `operator_avg` and `operator_cat`, over arrays of type `M`. */
  datatype Operators<!M> = Operators(l1: (M, M) -> M, l2: (M, M) -> M, hadamard: (M, M) -> M,
                                    avg: (M, M) -> M, cat: (M, M) -> M)

  function Apply<M>(ops: Operators<M>, op: Operator, u: M, v: M): M {
    match op
    case L1 => ops.l1(u, v)
    case L2 => ops.l2(u, v)
    case Hadamard => ops.hadamard(u, v)
    case Avg => ops.avg(u, v)
    case Cat => ops.cat(u, v)
  }

  // ---- get_embedding_vector_for_edge ----------------------------------------------

  type Matrix<E> = seq<seq<E>>

  /** `m.size == 0` */
  predicate IsEmptyMatrix<E>(m: Matrix<E>) {
    forall i :: 0 <= i < |m| ==> m[i] == []
  }

  predicate SameShape<E>(a: Matrix<E>, b: Matrix<E>) {
    |a| == |b| && forall i :: 0 <= i < |a| ==> |a[i]| == |b[i]|
  }

  /** `np.zeros(m.shape)` */
  function ZerosLike<E>(m: Matrix<E>, zero: E): (r: Matrix<E>)
    ensures SameShape(r, m) && AllZero(r, zero)
  {
    seq(|m|, i requires 0 <= i < |m| => Repeat(zero, |m[i]|))
  }

  /** The operands after the zero fill: a missing source takes zeros of the
      target's shape, then a missing target takes zeros of the source's shape. */
  function FillMissing<E>(source: Matrix<E>, target: Matrix<E>, zero: E): (r: (Matrix<E>, Matrix<E>))
    ensures !IsEmptyMatrix(source) ==> r.0 == source
    ensures IsEmptyMatrix(source) ==> SameShape(r.0, target) && AllZero(r.0, zero)
    ensures !IsEmptyMatrix(target) ==> r.1 == target
    ensures IsEmptyMatrix(target) ==> SameShape(r.1, r.0) && AllZero(r.1, zero)
  {
    var s := if IsEmptyMatrix(source) then ZerosLike(target, zero) else source;
    var t := if IsEmptyMatrix(target) then ZerosLike(s, zero) else target;
    (s, t)
  }

  /** When either embedding is missing, both operands end up with one shape. */
  lemma FillMissingSameShape<E>(source: Matrix<E>, target: Matrix<E>, zero: E)
    requires IsEmptyMatrix(source) || IsEmptyMatrix(target)
    ensures SameShape(FillMissing(source, target, zero).0, FillMissing(source, target, zero).1)
  {
  }

  /** `get_embedding_vector_for_edge`: the operator applied to the two
      endpoints' embeddings after the zero fill; an unknown operator raises. */
  function EmbeddingVectorForEdge<E>(edge: (string, string), embeddings: Table<E>, opName: string,
                                     ops: Operators<Matrix<E>>, zero: E): (r: Result<Matrix<E>>)
    ensures r.Failure? <==> ParseOperator(opName).None?
    ensures r.Failure? ==> r.error == UnknownOperator(opName)
    ensures r.Success? ==>
              exists op :: opName == OperatorName(op) &&
                r.value == Apply(ops, op, FillMissing(Matching(embeddings, edge.0), Matching(embeddings, edge.1), zero).0,
                                          FillMissing(Matching(embeddings, edge.0), Matching(embeddings, edge.1), zero).1)
  {
    var operands := FillMissing(Matching(embeddings, edge.0), Matching(embeddings, edge.1), zero);
    match ParseOperator(opName)
    case None => Failure(UnknownOperator(opName))
    case Some(op) =>
      OperatorNameRoundTrip(op, opName);
      Success(Apply(ops, op, operands.0, operands.1))
  }

  // ---- get_best_experiment ---------------------------------------------------------

  /** The greatest name in `files`: the first after `files.sort(reverse=True)`. */
  function GreatestName(files: seq<string>): (r: string)
    requires files != []
    ensures r in files
    ensures forall f :: f in files ==> LexLe(f, r)
  {
    if |files| == 1 then
      LexLeReflexive(files[0]);
      files[0]
    else
      var front := GreatestName(files[..|files| - 1]);
      var last := files[|files| - 1];
      assert files == files[..|files| - 1] + [last];
      LexLeTotal(front, last);
      LexLeReflexive(last);
      forall f | f in files[..|files| - 1] && LexLe(front, last) ensures LexLe(f, last) {
        LexLeTransitive(f, front, last);
      }
      if LexLe(front, last) then last else front
  }

  /** `os.path.join(a, b)` for POSIX paths: an absolute `b` discards `a`;
      otherwise `a` is kept whole, `b` follows it, and a single `/` is added
      between them only when `a` is non-empty and does not already end with one. */
  function PathJoin(a: string, b: string): (r: string)
    ensures |b| <= |r| && r[|r| - |b|..] == b
    ensures b != [] && b[0] == '/' ==> r == b
    ensures (b == [] || b[0] != '/') ==> a <= r && |a| + |b| <= |r| <= |a| + |b| + 1
    ensures (b == [] || b[0] != '/') && a != [] ==> r[|r| - |b| - 1] == '/'
    ensures (b == [] || b[0] != '/') && (a == [] || a[|a| - 1] == '/') ==> |r| == |a| + |b|
  {
    if b != [] && b[0] == '/' then b
    else if a == [] || a[|a| - 1] == '/' then a + b
    else a + "/" + b
  }

  /** `get_best_experiment`: the directory joined with the greatest file name;
      an empty directory listing raises. */
  function GetBestExperiment(resultsDir: string, files: seq<string>): (r: Result<string>)
    ensures r.Failure? <==> files == []
    ensures r.Success? ==>
              exists f :: f in files && r.value == PathJoin(resultsDir, f) && forall g :: g in files ==> LexLe(g, f)
  {
    if files == [] then Failure(IndexError) else Success(PathJoin(resultsDir, GreatestName(files)))
  }

  /** The greatest name is unique: any name that is at least every other one is it. */
  lemma GreatestNameUnique(files: seq<string>, f: string)
    requires files != [] && f in files
    requires forall g :: g in files ==> LexLe(g, f)
    ensures f == GreatestName(files)
  {
    LexLeAntisymmetric(f, GreatestName(files));
  }
}
