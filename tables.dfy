/** The embedding tables the pipeline reads into pandas data frames: a key column
    (`protein`, or `go_node`/`ID` in other tables) followed by `width` value
    columns. Only the shape of a value and whether a row was found matter here,
    so the element type `E` of a vector is left open. */
module Tables {
  import opened Wrappers
  import opened Seqs

  /** One row: the key and the other columns, in column order. */
  datatype Row<E> = Row(key: string, vector: seq<E>)

  /** A table whose rows all have `width` value columns (`df.shape[1] - 1`). */
  datatype Table<E> = Table(width: nat, rows: seq<Row<E>>) {
    ghost predicate Valid() {
      forall i :: 0 <= i < |rows| ==> |rows[i].vector| == width
    }
  }

  /** The rows selected by `df[df["protein"] == key]`. */
  function KeyIs<E>(key: string): Row<E> -> bool {
    (row: Row<E>) => row.key == key
  }

  /** The value part of a row (`drop(columns=["protein"])`). */
  function VectorOf<E>(row: Row<E>): seq<E> {
    row.vector
  }

  /** `df[df["protein"] == key].drop(columns=["protein"]).to_numpy()`: the value
      parts of every row with that key, in table order. */
  function Matching<E>(t: Table<E>, key: string): (m: seq<seq<E>>)
    ensures |m| <= |t.rows|
  {
    Map(VectorOf, Filter(t.rows, KeyIs(key)))
  }

  /** The selection keeps exactly the rows with that key: a vector is selected
      iff some row with the key carries it, nothing is selected iff no row has
      the key, the first selected vector is that of the first such row, and in
      a valid table every selected vector has `width` entries. */
  lemma MatchingRows<E>(t: Table<E>, key: string)
    ensures forall v :: v in Matching(t, key) <==>
      exists i :: 0 <= i < |t.rows| && t.rows[i].key == key && t.rows[i].vector == v
    ensures Matching(t, key) == [] <==> forall i :: 0 <= i < |t.rows| ==> t.rows[i].key != key
    ensures Matching(t, key) != [] ==>
      && FirstIndex(t.rows, KeyIs(key)).Some?
      && Matching(t, key)[0] == t.rows[FirstIndex(t.rows, KeyIs(key)).value].vector
    ensures t.Valid() ==> forall j :: 0 <= j < |Matching(t, key)| ==> |Matching(t, key)[j]| == t.width
  {
    var kept := Filter(t.rows, KeyIs(key));
    forall v
      ensures v in Matching(t, key) <==>
        exists i :: 0 <= i < |t.rows| && t.rows[i].key == key && t.rows[i].vector == v
    {
      MapMembership(VectorOf, kept, v);
      if v in Matching(t, key) {
        var row :| row in kept && v == VectorOf(row);
        FilterMembership(t.rows, KeyIs(key), row);
        var i :| 0 <= i < |t.rows| && t.rows[i] == row;
        assert t.rows[i].key == key && t.rows[i].vector == v;
      }
      if exists i :: 0 <= i < |t.rows| && t.rows[i].key == key && t.rows[i].vector == v {
        var i :| 0 <= i < |t.rows| && t.rows[i].key == key && t.rows[i].vector == v;
        FilterMembership(t.rows, KeyIs(key), t.rows[i]);
        assert VectorOf(t.rows[i]) == v;
      }
    }
    FilterFirst(t.rows, KeyIs(key));
    forall j | 0 <= j < |kept| ensures kept[j] in t.rows {
      FilterMembership(t.rows, KeyIs(key), kept[j]);
    }
  }

  /** `r` is what a single-row lookup of `key` must give: the value part of
      the first row with that key, or `width` zeros when no row has it. */
  ghost predicate FirstOrZero<E>(t: Table<E>, key: string, zero: E, r: seq<E>) {
    && |r| == t.width
    && (forall i :: 0 <= i < |t.rows| && t.rows[i].key == key && (forall j :: 0 <= j < i ==> t.rows[j].key != key)
          ==> r == t.rows[i].vector)
    && ((forall i :: 0 <= i < |t.rows| ==> t.rows[i].key != key) ==> r == Repeat(zero, t.width))
  }

  /** The shared body of the single-row lookups. */
  function LookupOrZero<E>(t: Table<E>, key: string, zero: E): (r: seq<E>)
    requires t.Valid()
    ensures FirstOrZero(t, key, zero, r)
  {
    match FirstIndex(t.rows, KeyIs(key))
    case Some(i) => t.rows[i].vector
    case None => Repeat(zero, t.width)
  }

  /** Every element of every vector is `zero` (`np.all(m == 0)`; true of no vectors). */
  predicate AllZero<E(==)>(m: seq<seq<E>>, zero: E) {
    forall i, j :: 0 <= i < |m| && 0 <= j < |m[i]| ==> m[i][j] == zero
  }
}
