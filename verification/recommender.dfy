/**
  The `recommend` operation of the medicine recommender: resolve a medicine
  name to its catalog position, rank that position's similarity row, drop the
  first ranked pair, keep the next five and map their indices back to names.

  The catalog is the `Drug_Name` column as a sequence of names, and the
  similarity matrix a sequence of rows; both are given and never changed.
 */
module Recommender {
  import opened Ranker

  datatype Option<T> = None | Some(value: T)

  /** The failure of looking up a name that is not in the catalog. */
  datatype Error = NotFound

  datatype Result<T> = Ok(value: T) | Err(error: Error)

  function Min(a: int, b: int): int {
    if a <= b then a else b
  }

  /** The matrix is square and its dimension is the catalog's length, so
      position `i` of the catalog is row and column `i` of the matrix. */
  predicate WellFormed(names: seq<string>, sim: seq<seq<real>>) {
    |sim| == |names| && forall k :: 0 <= k < |sim| ==> |sim[k]| == |names|
  }

  /** Position `i` holds the row's highest score, and no earlier position
      reaches that score. */
  predicate IsFirstMax(row: seq<real>, i: nat) {
    && i < |row|
    && (forall j :: 0 <= j < |row| ==> row[j] <= row[i])
    && (forall j :: 0 <= j < i ==> row[j] < row[i])
  }

  /** The row index of the first catalog entry whose name equals the query:
      `medicines[medicines['Drug_Name'] == medicine].index[0]`. */
  function FirstIndex(names: seq<string>, q: string): (r: Option<nat>)
    ensures r.None? <==> q !in names
    ensures r.Some? ==> r.value < |names| && names[r.value] == q
    ensures r.Some? ==> forall k :: 0 <= k < r.value ==> names[k] != q
  {
    if names == [] then None
    else if names[0] == q then Some(0)
    else match FirstIndex(names[1..], q)
      case None => None
      case Some(k) => Some(k + 1)
  }

  /** Python's `s[1:6]`: everything after the first element, at most five
      elements, and empty when `s` has fewer than two. */
  function DropFirstKeepFive<T>(s: seq<T>): (r: seq<T>)
    ensures |r| == if |s| == 0 then 0 else Min(5, |s| - 1)
    ensures forall k :: 0 <= k < |r| ==> r[k] == s[k + 1]
  {
    if |s| <= 1 then [] else s[1..Min(6, |s|)]
  }

  /** The column indices `recommend` keeps from a similarity row. */
  function TopIndices(row: seq<real>): (r: seq<nat>)
    ensures |r| == if |row| == 0 then 0 else Min(5, |row| - 1)
    ensures forall k :: 0 <= k < |r| ==> r[k] < |row|
  {
    RankingIsSortedPermutation(row);
    var kept := DropFirstKeepFive(Ranking(row));
    seq(|kept|, k requires 0 <= k < |kept| => kept[k].index)
  }

  /** The column the positional drop removes: the first of the ranking. */
  function Dropped(row: seq<real>): (d: nat)
    requires |row| > 0
    ensures d < |row|
  {
    RankingIsSortedPermutation(row);
    Ranking(row)[0].index
  }

  /** `recommend(medicine)`: the names of the kept columns of the query's row,
      or `NotFound` where the source's `.index[0]` raises. */
  function Recommend(names: seq<string>, sim: seq<seq<real>>, q: string): (r: Result<seq<string>>)
    requires WellFormed(names, sim)
    ensures r.Err? <==> q !in names
    ensures r.Ok? ==> |r.value| == Min(5, |names| - 1)
    ensures r.Ok? ==> forall k :: 0 <= k < |r.value| ==> r.value[k] in names
  {
    match FirstIndex(names, q)
    case None => Err(NotFound)
    case Some(i) =>
      var top := TopIndices(sim[i]);
      Ok(seq(|top|, k requires 0 <= k < |top| => names[top[k]]))
  }

  /** Kept column `k` is the ranking's pair `k + 1`. */
  lemma TopIndicesAt(row: seq<real>, k: nat)
    requires k < |TopIndices(row)|
    ensures k + 1 < |Ranking(row)| && TopIndices(row)[k] == Ranking(row)[k + 1].index
    ensures row[TopIndices(row)[k]] == Ranking(row)[k + 1].score
  {
    RankingIsSortedPermutation(row);
  }

  /** The kept columns are pairwise distinct and never the dropped column. */
  lemma TopIndicesDistinct(row: seq<real>)
    ensures forall a, b :: 0 <= a < b < |TopIndices(row)| ==> TopIndices(row)[a] != TopIndices(row)[b]
    ensures |row| > 0 ==> Dropped(row) !in TopIndices(row)
  {
    var top := TopIndices(row);
    var rk := Ranking(row);
    RankingIsSortedPermutation(row);
    forall a, b | 0 <= a < b < |top| ensures top[a] != top[b] {
      TopIndicesAt(row, a);
      TopIndicesAt(row, b);
      assert Before(rk[a + 1], rk[b + 1]);
    }
    if |row| > 0 {
      forall k | 0 <= k < |top| ensures top[k] != Dropped(row) {
        TopIndicesAt(row, k);
        assert Before(rk[0], rk[k + 1]);
      }
    }
  }

  /** The kept columns come in non-increasing order of score. */
  lemma TopIndicesNonIncreasing(row: seq<real>)
    ensures forall a, b :: 0 <= a < b < |TopIndices(row)| ==>
      row[TopIndices(row)[a]] >= row[TopIndices(row)[b]]
  {
    var top := TopIndices(row);
    var rk := Ranking(row);
    RankingIsSortedPermutation(row);
    forall a, b | 0 <= a < b < |top| ensures row[top[a]] >= row[top[b]] {
      TopIndicesAt(row, a);
      TopIndicesAt(row, b);
      assert Before(rk[a + 1], rk[b + 1]);
    }
  }

  /** The sort is stable: kept columns of equal score appear in ascending
      column order. */
  lemma TopIndicesStableTies(row: seq<real>)
    ensures forall a, b :: 0 <= a < b < |TopIndices(row)| && row[TopIndices(row)[a]] == row[TopIndices(row)[b]] ==>
      TopIndices(row)[a] < TopIndices(row)[b]
  {
    var top := TopIndices(row);
    var rk := Ranking(row);
    RankingIsSortedPermutation(row);
    forall a, b | 0 <= a < b < |top| && row[top[a]] == row[top[b]] ensures top[a] < top[b] {
      TopIndicesAt(row, a);
      TopIndicesAt(row, b);
      assert Before(rk[a + 1], rk[b + 1]);
    }
  }

  /** Top five: a column that is neither kept nor dropped scores no higher
      than the last kept column. */
  lemma TopIndicesAreTopK(row: seq<real>)
    requires |TopIndices(row)| > 0
    ensures forall j :: 0 <= j < |row| && j != Dropped(row) && j !in TopIndices(row) ==>
      row[j] <= row[TopIndices(row)[|TopIndices(row)| - 1]]
  {
    var top := TopIndices(row);
    var rk := Ranking(row);
    var last := |top| - 1;
    RankingIsSortedPermutation(row);
    TopIndicesAt(row, last);
    forall j | 0 <= j < |row| && j != Dropped(row) && j !in top ensures row[j] <= row[top[last]] {
      assert Entry(j, row[j]) in rk;
      var p :| 0 <= p < |rk| && rk[p] == Entry(j, row[j]);
      if p <= last + 1 {
        assert p != 0;
        TopIndicesAt(row, p - 1);
        assert false;
      }
      assert Before(rk[last + 1], rk[p]);
    }
  }

  /** A row whose scores never increase ranks in enumeration order, so its
      kept columns are 1, 2, ... up to 5. */
  lemma NonIncreasingRowKeepsNextColumns(row: seq<real>)
    requires forall a, b :: 0 <= a < b < |row| ==> row[a] >= row[b]
    ensures forall k :: 0 <= k < |TopIndices(row)| ==> TopIndices(row)[k] == k + 1
  {
    var e := Enumerate(row);
    assert Ranked(e) by {
      forall a, b | 0 <= a < b < |e| ensures Before(e[a], e[b]) {
        assert row[a] >= row[b];
      }
    }
    SortRanked(e);
    RankedUnique(Ranking(row), e);
    forall k | 0 <= k < |TopIndices(row)| ensures TopIndices(row)[k] == k + 1 {
      TopIndicesAt(row, k);
    }
  }

  /** The dropped column is the first column that attains the row's
      maximum: highest score, lowest index among equals. */
  lemma DroppedIsFirstMax(row: seq<real>)
    requires |row| > 0
    ensures IsFirstMax(row, Dropped(row))
  {
    var rk := Ranking(row);
    var d := Dropped(row);
    RankingIsSortedPermutation(row);
    forall j | 0 <= j < |row| ensures row[j] <= row[d] && (j < d ==> row[j] < row[d]) {
      assert Entry(j, row[j]) in rk;
      var p :| 0 <= p < |rk| && rk[p] == Entry(j, row[j]);
      if p > 0 {
        assert Before(rk[0], rk[p]);
      }
    }
  }

  /** The positional drop removes column `i` exactly when `i` is the first
      column attaining the row's maximum; in that case `i` is not kept. */
  lemma PositionalDropRemovesIff(row: seq<real>, i: nat)
    requires i < |row|
    ensures Dropped(row) == i <==> IsFirstMax(row, i)
    ensures IsFirstMax(row, i) ==> i !in TopIndices(row)
  {
    DroppedIsFirstMax(row);
    TopIndicesDistinct(row);
  }

  /** When self-similarity strictly exceeds every other score of the row,
      the query's own column is not among the kept ones. */
  lemma StrictSelfMaxExcluded(row: seq<real>, i: nat)
    requires i < |row|
    requires forall j :: 0 <= j < |row| && j != i ==> row[j] < row[i]
    ensures i !in TopIndices(row)
  {
    assert IsFirstMax(row, i);
    PositionalDropRemovesIff(row, i);
  }

  /** In a catalog of at most six items every column except the dropped one
      is kept; so a query column that is not the first maximum is returned. */
  lemma SmallRowKeepsAllButDropped(row: seq<real>, i: nat)
    requires i < |row| <= 6
    requires !IsFirstMax(row, i)
    ensures i in TopIndices(row)
  {
    var rk := Ranking(row);
    RankingIsSortedPermutation(row);
    PositionalDropRemovesIff(row, i);
    assert Entry(i, row[i]) in rk;
    var p :| 0 <= p < |rk| && rk[p] == Entry(i, row[i]);
    assert p != 0;
    TopIndicesAt(row, p - 1);
  }

  /** A found query yields the catalog names of the kept columns of its own
      row, the row of the first entry bearing that name. */
  lemma RecommendNamesKeptColumns(names: seq<string>, sim: seq<seq<real>>, q: string, i: nat)
    requires WellFormed(names, sim)
    requires i < |names| && names[i] == q
    requires forall k :: 0 <= k < i ==> names[k] != q
    ensures Recommend(names, sim, q).Ok?
    ensures |Recommend(names, sim, q).value| == |TopIndices(sim[i])|
    ensures forall k :: 0 <= k < |TopIndices(sim[i])| ==>
      Recommend(names, sim, q).value[k] == names[TopIndices(sim[i])[k]]
  {
  }

  /** With distinct catalog names and a strictly maximal self-similarity,
      the query's own name is never recommended. */
  lemma RecommendExcludesQuery(names: seq<string>, sim: seq<seq<real>>, q: string, i: nat)
    requires WellFormed(names, sim)
    requires forall a, b :: 0 <= a < b < |names| ==> names[a] != names[b]
    requires i < |names| && names[i] == q
    requires forall j :: 0 <= j < |names| && j != i ==> sim[i][j] < sim[i][i]
    ensures Recommend(names, sim, q).Ok?
    ensures q !in Recommend(names, sim, q).value
  {
    RecommendNamesKeptColumns(names, sim, q, i);
    StrictSelfMaxExcluded(sim[i], i);
    var out := Recommend(names, sim, q).value;
    var top := TopIndices(sim[i]);
    forall k | 0 <= k < |out| ensures out[k] != q {
      assert out[k] == names[top[k]];
      assert top[k] != i;
    }
  }
}
