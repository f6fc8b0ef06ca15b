# Medicine recommender: the `recommend` ranking rule

This project models the one piece of logic in the medi-buddy medicine
recommender: `recommend(medicine)`. The function takes a medicine name and
returns up to five "similar" medicine names. It works on a catalog of
`Drug_Name`s and a precomputed square similarity matrix. It does this in
four steps:

1. It resolves the name to the position of the first catalog entry with
   that name. If no entry matches, `.index[0]` raises.
2. It takes that position's row of the similarity matrix.
3. It sorts the `(column, score)` pairs of `enumerate(row)` by score,
   highest first. Python's sort is stable, so equal scores keep ascending
   column order.
4. It drops the first sorted pair, keeps the next five (`[1:6]`), and maps
   the kept columns back to catalog names.

The model has three modules:

- `Ranker` (`ranking.dfy`): the `(index, score)` pairs, the stable
  descending insertion sort (`Insert`, `SortDesc`) and `Ranking(row)`. It
  proves that the sort is a permutation. It also proves that on enumerated
  input the sort yields the strict order "higher score first, lower index
  first among equal scores" (`Ranked`), and that only one arrangement is
  ranked that way.
- `Recommender` (`recommender.dfy`): the name lookup, the `[1:6]` slice,
  the kept columns `TopIndices(row)`, the dropped column `Dropped(row)` and
  `Recommend` itself. The lemmas cover result length, distinctness,
  ordering, stable ties, the top-five property, and exactly when the
  positional drop removes the query's own column.
- `Scenarios` (`scenarios.dfy`): concrete catalogs derived from the general
  lemmas. One has a tie between "B" and "C". One looks up an unknown name.
  One is a one-item catalog. One has two items with identical rows, where
  the query is recommended for itself.

Scores are `real`. The rule only compares them.

The query's own column is excluded by position, not by an explicit
`j != i` filter. The model does the same. `PositionalDropRemovesIff` proves
that the dropped column is the query's own column exactly when that column
is the first column that reaches the row's maximum score. When another
column ties the self-similarity at a lower index, that other column is
dropped and the query can come back as its own recommendation
(`DuplicateRowReturnsQuery`).

The code has no result-count parameter: it always keeps at most five.
Where the code raises on an unknown name, the model returns
`Err(NotFound)`.

Every operation is a Dafny function of its inputs. So `Recommend` is
deterministic and changes neither the catalog nor the matrix by
construction, and no lemma is needed for either fact.

## Model

| member | source | states |
|---|---|---|
| `Recommender.FirstIndex` | app.py:143 | the result is None exactly when the name is not in the catalog; otherwise it is a position holding the name, and no earlier position holds it |
| `Ranker.Enumerate` | app.py:145 | `list(enumerate(row))` has one pair per column, with indices strictly increasing and each pair carrying its own column's score |
| `Ranker.Ranking` | app.py:144-145 | the sorted pairs of a row are a permutation of `enumerate(row)` of the same length, ranked by descending score with ties in ascending index order |
| `Recommender.Dropped` | app.py:145 | the column of the first ranked pair, the one `[1:6]` throws away, is a column of the row; `DroppedIsFirstMax` says which one |
| `Ranker.Insert` | app.py:145 | inserting one pair gives a sequence one longer, with the same pairs plus the inserted one (as a multiset) |
| `Ranker.SortDesc` | app.py:145 | the sort's output is a permutation of its input |
| `Ranker.InsertRanked` | app.py:145 | inserting a pair whose index is below every index of a ranked sequence keeps the sequence ranked (the stability step) |
| `Ranker.SortRanked` | app.py:145 | on input with increasing indices, the sort orders by descending score, and equal scores by ascending index |
| `Ranker.RankingIsSortedPermutation` | app.py:144-145 | the ranking of a row has the row's length and is a ranked permutation of `enumerate(row)`; every pair is a real column with its own score, and every column occurs |
| `Ranker.RankedUnique` | app.py:145 | two ranked arrangements of the same pairs are equal, so the sorted order is fully determined by the row |
| `Recommender.DropFirstKeepFive` | app.py:145 | Python's `[1:6]`: length `min(5, n-1)` (0 for an empty sequence), and element k is input element k+1 |
| `Recommender.TopIndices` | app.py:144-145 | the kept columns number `min(5, N-1)` for a row of N ≥ 1 (none for N = 0), and each lies in `0..N-1` |
| `Recommender.Recommend` | app.py:142-146 | the result is NotFound exactly when the name is not in the catalog; otherwise it has `min(5, N-1)` names, all from the catalog |
| `Recommender.TopIndicesAt` | app.py:145 | kept column k is the (k+1)-th pair of the ranking, with that pair's score |
| `Recommender.TopIndicesDistinct` | app.py:145-146 | the kept columns are pairwise distinct, and none is the dropped column |
| `Recommender.TopIndicesNonIncreasing` | app.py:144-145 | the kept columns come in non-increasing order of the query row's score |
| `Recommender.TopIndicesStableTies` | app.py:145 | two kept columns with equal score appear in ascending column order |
| `Recommender.TopIndicesAreTopK` | app.py:145 | every column that is neither kept nor dropped scores at most the score of the last kept column |
| `Recommender.NonIncreasingRowKeepsNextColumns` | app.py:145 | for a row whose scores never increase, the kept columns are 1, 2, … in order |
| `Recommender.DroppedIsFirstMax` | app.py:145 | the dropped column has the row's maximum score, and every earlier column scores strictly less |
| `Recommender.PositionalDropRemovesIff` | app.py:144-145 | the drop removes column i exactly when i is the first column that reaches the row maximum; in that case i is not returned |
| `Recommender.StrictSelfMaxExcluded` | app.py:144-145 | if the query's self-similarity is strictly above every other score in its row, the query's column is not returned |
| `Recommender.SmallRowKeepsAllButDropped` | app.py:145 | in a catalog of at most six items, a column that is not the first maximum is returned |
| `Recommender.RecommendNamesKeptColumns` | app.py:143-146 | for a name first found at position i, the result is the catalog names of the kept columns of row i, in order |
| `Recommender.RecommendExcludesQuery` | app.py:143-146 | with distinct catalog names and a strictly maximal self-similarity, the query's own name is never recommended |
| `Scenarios.RowAKeepsColumnsOneToFive` | app.py:145 | the row `[1.0, 0.9, 0.9, 0.5, 0.1, 0.0]` keeps columns 1 to 5 in that order |
| `Scenarios.TiedScoresKeepCatalogOrder` | app.py:142-146 | catalog A–F with row A = `[1.0, 0.9, 0.9, 0.5, 0.1, 0.0]` recommends B, C, D, E, F, with the tied B before C |
| `Scenarios.UnknownNameNotFound` | app.py:143 | a name missing from the catalog gives NotFound |
| `Scenarios.SingleItemCatalogIsEmpty` | app.py:145 | a one-item catalog finds its item and recommends nothing |
| `Scenarios.DuplicateRowReturnsQuery` | app.py:144-145 | when two items tie at the top of the query's row and the other item comes first, the query is recommended for itself |

## Left out

- The Streamlit page: CSS, title, image, selectbox, button, spinner and cards (app.py:1-134, 148-176). These are presentation only.
- Loading the catalog and matrix with `pickle.load` and building the `pd.DataFrame` (app.py:137-139). These are file I/O and library internals. Their result is taken as given: a catalog `seq<string>` and a matrix `seq<seq<real>>`. The square, size-matching shape is the precondition `WellFormed`.
- The HTML card and the PharmEasy search link built from each name (app.py:166-173). This is formatting of the result, not ranking.
- Floating-point semantics of the scores, including NaN. NaN would break the total order that Python's comparisons assume. Scores are modelled as `real`, and only their order is used.
- Pandas label versus position lookup. The catalog pickle's shape is not visible in the code, so the DataFrame built from it at app.py:138 is assumed to have the default RangeIndex, where a label equals its position. The label that `.index[0]` returns at app.py:143 is used as a row position at app.py:144, so the model uses one integer position for both. If the pickle carried its own index labels, the model would not capture the resulting label/position mismatch.
- `Recommend` reports an unknown name as `Err(NotFound)` instead of raising an exception. No caller behaviour depends on the exception type.
