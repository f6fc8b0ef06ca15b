/**
  The ranking step of the medicine recommender: a row of similarity scores is
  enumerated into (index, score) pairs, which are then sorted by score in
  descending order with a stable sort, so that equal scores keep their
  enumeration (ascending index) order.

  Scores are modelled as `real`: the ranking only ever compares them.
 */
module Ranker {

  /** One `(index, score)` pair of `enumerate(row)`. */
  datatype Entry = Entry(index: nat, score: real)

  /** The strict order a stable descending sort produces on enumerated pairs:
      higher score first, and among equal scores the lower index first. */
  predicate Before(a: Entry, b: Entry) {
    a.score > b.score || (a.score == b.score && a.index < b.index)
  }

  /** Every earlier pair comes strictly `Before` every later one. */
  predicate Ranked(s: seq<Entry>) {
    forall i, j :: 0 <= i < j < |s| ==> Before(s[i], s[j])
  }

  /** Indices strictly increase along the sequence, as they do in `enumerate`. */
  predicate IncreasingIndices(s: seq<Entry>) {
    forall i, j :: 0 <= i < j < |s| ==> s[i].index < s[j].index
  }

  /** `list(enumerate(row))`: one pair per column, in column order, each
      carrying that column's score. */
  function Enumerate(row: seq<real>): (r: seq<Entry>)
    ensures |r| == |row|
    ensures IncreasingIndices(r)
    ensures forall k :: 0 <= k < |r| ==> r[k].index < |row| && r[k].score == row[r[k].index]
  {
    seq(|row|, j requires 0 <= j < |row| => Entry(j, row[j]))
  }

  /** Inserts `x` in front of the first element whose score does not exceed
      its own, so that `x` precedes the equal-score elements already there. */
  function Insert(x: Entry, t: seq<Entry>): (r: seq<Entry>)
    ensures |r| == |t| + 1
    ensures multiset(r) == multiset(t) + multiset{x}
  {
    if t == [] then [x]
    else if x.score >= t[0].score then [x] + t
    else
      assert t == [t[0]] + t[1..];
      [t[0]] + Insert(x, t[1..])
  }

  /** `sorted(s, key=lambda e: e[1], reverse=True)`: a stable insertion sort
      by descending score. */
  function SortDesc(s: seq<Entry>): (r: seq<Entry>)
    ensures |r| == |s|
    ensures multiset(r) == multiset(s)
  {
    if s == [] then []
    else
      assert s == [s[0]] + s[1..];
      Insert(s[0], SortDesc(s[1..]))
  }

  /** The sorted enumeration of a similarity row: a ranked permutation of
      `enumerate(row)`. */
  function Ranking(row: seq<real>): (r: seq<Entry>)
    ensures |r| == |row|
    ensures multiset(r) == multiset(Enumerate(row))
    ensures Ranked(r)
  {
    SortRanked(Enumerate(row));
    SortDesc(Enumerate(row))
  }

  /** Inserting a pair whose index is below every index of a ranked sequence
      keeps it ranked: this is where stability is used. */
  lemma {:induction false} InsertRanked(x: Entry, t: seq<Entry>)
    requires Ranked(t)
    requires forall k :: 0 <= k < |t| ==> x.index < t[k].index
    ensures Ranked(Insert(x, t))
  {
    if t == [] {
    } else if x.score >= t[0].score {
      var r := [x] + t;
      forall i, j | 0 <= i < j < |r| ensures Before(r[i], r[j]) {
        if i == 0 && j > 1 {
          assert Before(t[0], t[j - 1]);
        }
      }
    } else {
      var rest := Insert(x, t[1..]);
      InsertRanked(x, t[1..]);
      forall k | 0 <= k < |rest| ensures Before(t[0], rest[k]) {
        assert rest[k] in multiset(rest);
        if rest[k] != x {
          assert rest[k] in t[1..];
          var m :| 0 <= m < |t[1..]| && t[1..][m] == rest[k];
          assert Before(t[0], t[m + 1]);
        }
      }
      var r := [t[0]] + rest;
      forall i, j | 0 <= i < j < |r| ensures Before(r[i], r[j]) {
        if i > 0 {
          assert Before(rest[i - 1], rest[j - 1]);
        }
      }
    }
  }

  /** The stable descending sort of a sequence with increasing indices is
      ranked: sorted by score, ties in ascending index order. */
  lemma {:induction false} SortRanked(s: seq<Entry>)
    requires IncreasingIndices(s)
    ensures Ranked(SortDesc(s))
  {
    if s != [] {
      var t := SortDesc(s[1..]);
      SortRanked(s[1..]);
      forall k | 0 <= k < |t| ensures s[0].index < t[k].index {
        assert t[k] in multiset(s[1..]);
        var m :| 0 <= m < |s[1..]| && s[1..][m] == t[k];
        assert s[m + 1] == t[k];
      }
      InsertRanked(s[0], t);
    }
  }

  /** The ranking of a row is a sorted permutation of its enumeration: it
      holds every `(j, row[j])` exactly once, each pair is a genuine column of
      the row, and the order is descending by score with ties by index. */
  lemma RankingIsSortedPermutation(row: seq<real>)
    ensures |Ranking(row)| == |row|
    ensures multiset(Ranking(row)) == multiset(Enumerate(row))
    ensures Ranked(Ranking(row))
    ensures forall k :: 0 <= k < |row| ==>
      Ranking(row)[k].index < |row| && Ranking(row)[k].score == row[Ranking(row)[k].index]
    ensures forall j :: 0 <= j < |row| ==> Entry(j, row[j]) in Ranking(row)
  {
    var e := Enumerate(row);
    var r := Ranking(row);
    SortRanked(e);
    forall k | 0 <= k < |r| ensures r[k].index < |row| && r[k].score == row[r[k].index] {
      assert r[k] in multiset(e);
      var m :| 0 <= m < |e| && e[m] == r[k];
    }
    forall j | 0 <= j < |row| ensures Entry(j, row[j]) in r {
      assert e[j] in multiset(r);
    }
  }

  /** A ranked arrangement of a multiset is unique, so the ranking is fully
      determined by the row: the sort's output can be computed by exhibiting
      any ranked permutation. */
  lemma {:induction false} RankedUnique(a: seq<Entry>, b: seq<Entry>)
    requires Ranked(a) && Ranked(b)
    requires multiset(a) == multiset(b)
    ensures a == b
  {
    if a == [] {
      assert |multiset(b)| == 0;
    } else {
      assert a[0] in multiset(b);
      assert b != [];
      assert b[0] in multiset(a);
      assert a[0] == b[0];
      assert a == [a[0]] + a[1..];
      assert b == [b[0]] + b[1..];
      assert multiset(a[1..]) == multiset(a) - multiset{a[0]};
      assert multiset(b[1..]) == multiset(b) - multiset{b[0]};
      RankedUnique(a[1..], b[1..]);
    }
  }
}
