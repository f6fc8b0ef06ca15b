/**
  Concrete catalogs run through `Recommend`, each result derived from the
  general lemmas rather than by unfolding the sort.
 */
module Scenarios {
  import opened Recommender

  function Catalog(): seq<string> {
    ["A", "B", "C", "D", "E", "F"]
  }

  /** The row of "A" never increases. */
  lemma RowANonIncreasing(row: seq<real>)
    requires row == [1.0, 0.9, 0.9, 0.5, 0.1, 0.0]
    ensures forall a, b :: 0 <= a < b < |row| ==> row[a] >= row[b]
  {
  }

  /** The row of "A" never increases, so it ranks as enumerated and keeps
      columns 1 to 5, the tied columns 1 and 2 in catalog order. */
  lemma RowAKeepsColumnsOneToFive(row: seq<real>)
    requires row == [1.0, 0.9, 0.9, 0.5, 0.1, 0.0]
    ensures TopIndices(row) == [1, 2, 3, 4, 5]
  {
    RowANonIncreasing(row);
    NonIncreasingRowKeepsNextColumns(row);
  }

  /** The query "A" yields the five other names, the tied "B" and "C" in
      catalog order, and not "A" itself. */
  lemma TiedScoresKeepCatalogOrder(names: seq<string>, sim: seq<seq<real>>)
    requires names == Catalog() && WellFormed(names, sim)
    requires sim[0] == [1.0, 0.9, 0.9, 0.5, 0.1, 0.0]
    ensures Recommend(names, sim, "A") == Ok(["B", "C", "D", "E", "F"])
  {
    RowAKeepsColumnsOneToFive(sim[0]);
    RecommendNamesKeptColumns(names, sim, "A", 0);
    var out := Recommend(names, sim, "A").value;
    forall k | 0 <= k < 5 ensures out[k] == names[k + 1] {
      assert out[k] == names[TopIndices(sim[0])[k]];
    }
    assert out == ["B", "C", "D", "E", "F"];
  }

  /** A name that is not in the catalog is reported as not found. */
  lemma UnknownNameNotFound(names: seq<string>, sim: seq<seq<real>>)
    requires names == Catalog() && WellFormed(names, sim)
    ensures Recommend(names, sim, "Z") == Err(NotFound)
  {
  }

  /** A one-item catalog finds its item and recommends nothing. */
  lemma SingleItemCatalogIsEmpty(sim: seq<seq<real>>)
    requires WellFormed(["X"], sim)
    ensures Recommend(["X"], sim, "X") == Ok([])
  {
  }

  /** Two items whose similarity rows tie everywhere, as duplicate catalog
      descriptions produce: the query "Q" sits at column 1, the positional
      drop removes column 0 ("P", which ranks first on the tie), and "Q" is
      recommended for itself. */
  lemma DuplicateRowReturnsQuery(names: seq<string>, sim: seq<seq<real>>)
    requires names == ["P", "Q"] && WellFormed(names, sim)
    requires sim[1] == [1.0, 1.0]
    ensures Recommend(names, sim, "Q") == Ok(["Q"])
  {
    NonIncreasingRowKeepsNextColumns(sim[1]);
    RecommendNamesKeptColumns(names, sim, "Q", 1);
    var out := Recommend(names, sim, "Q").value;
    assert out[0] == names[TopIndices(sim[1])[0]];
    assert out == ["Q"];
  }
}
