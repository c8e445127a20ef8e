/** Ranking of one row of the similarity matrix: `enumerate` the row, sort it
    by score with a stable sort in descending order, keep the first entries.
    Scores are abstract reals; only their order matters. */
module Ranking {

  /** One entry of the enumerated row: a column index and its score. */
  type Scored = (nat, real)

  /** How many recommendations are shown. */
  const TopCount: nat := 20

  function Min(a: nat, b: nat): nat
  {
    if a <= b then a else b
  }

  /** `list(enumerate(row))`. */
  function Enumerate(row: seq<real>): (entries: seq<Scored>)
    ensures |entries| == |row|
    ensures forall j :: 0 <= j < |row| ==> entries[j] == (j, row[j])
  {
    seq(|row|, j requires 0 <= j < |row| => (j, row[j]))
  }

  /** Column indices strictly increase along the sequence, as they do along
      an enumerated row. */
  predicate IncreasingIndices(s: seq<Scored>)
  {
    forall p, q :: 0 <= p < q < |s| ==> s[p].0 < s[q].0
  }

  /** Scores never increase along the sequence. */
  predicate NonIncreasing(s: seq<Scored>)
  {
    forall p, q :: 0 <= p < q < |s| ==> s[p].1 >= s[q].1
  }

  /** Among equal scores, lower column indices come first. */
  predicate TiesByIndex(s: seq<Scored>)
  {
    forall p, q :: 0 <= p < q < |s| && s[p].1 == s[q].1 ==> s[p].0 < s[q].0
  }

  /** `a` is placed before `b`: a higher score, or the same score and a lower
      column index. */
  predicate RankedBefore(a: Scored, b: Scored)
  {
    a.1 > b.1 || (a.1 == b.1 && a.0 < b.0)
  }

  predicate Ranked(s: seq<Scored>)
  {
    forall p, q :: 0 <= p < q < |s| ==> RankedBefore(s[p], s[q])
  }

  lemma RankedIsOrdered(s: seq<Scored>)
    ensures Ranked(s) <==> NonIncreasing(s) && TiesByIndex(s)
  {
  }

  // ---------------------------------------------------------------------
  // The stable sort by score, descending.
  // ---------------------------------------------------------------------

  /** Inserts `x` into a sequence sorted by descending score, after every
      entry whose score is at least that of `x` (so that `x`, which came
      later in the input, stays after the entries with an equal score). */
  function Insert(sorted: seq<Scored>, x: Scored): (r: seq<Scored>)
    ensures multiset(r) == multiset(sorted) + multiset{x}
  {
    if sorted == [] then [x]
    else if sorted[0].1 >= x.1 then
      assert sorted == [sorted[0]] + sorted[1..];
      [sorted[0]] + Insert(sorted[1..], x)
    else [x] + sorted
  }

  /** `sorted(s, key=lambda x: x[1], reverse=True)`: a stable sort, by
      descending score, built by inserting the entries in input order. */
  function StableSortByScoreDesc(s: seq<Scored>): (r: seq<Scored>)
    ensures multiset(r) == multiset(s)
  {
    if s == [] then []
    else
      assert s == s[..|s| - 1] + [s[|s| - 1]];
      Insert(StableSortByScoreDesc(s[..|s| - 1]), s[|s| - 1])
  }

  lemma RankedTail(s: seq<Scored>)
    requires Ranked(s) && s != []
    ensures Ranked(s[1..])
  {
    forall p, q | 0 <= p < q < |s[1..]| ensures RankedBefore(s[1..][p], s[1..][q]) {
      assert s[1..][p] == s[p + 1] && s[1..][q] == s[q + 1];
    }
  }

  lemma RankedCons(h: Scored, s: seq<Scored>)
    requires Ranked(s)
    requires forall e :: e in s ==> RankedBefore(h, e)
    ensures Ranked([h] + s)
  {
    var t := [h] + s;
    forall p, q | 0 <= p < q < |t| ensures RankedBefore(t[p], t[q]) {
      assert t[q] == s[q - 1];
      if p > 0 {
        assert t[p] == s[p - 1];
      }
    }
  }

  /** Inserting an entry whose column index exceeds every index already
      placed keeps the sequence ranked. */
  lemma {:induction false} InsertRanked(sorted: seq<Scored>, x: Scored)
    requires Ranked(sorted)
    requires forall e :: e in sorted ==> e.0 < x.0
    ensures Ranked(Insert(sorted, x))
  {
    if sorted == [] {
    } else if sorted[0].1 >= x.1 {
      var rest := sorted[1..];
      RankedTail(sorted);
      InsertRanked(rest, x);
      var r := Insert(rest, x);
      forall e | e in r ensures RankedBefore(sorted[0], e) {
        assert e in multiset(r);
        if e != x {
          assert e in multiset(rest);
          var q :| 0 <= q < |rest| && rest[q] == e;
          assert sorted[q + 1] == e;
        }
      }
      RankedCons(sorted[0], r);
    } else {
      forall e | e in sorted ensures RankedBefore(x, e) {
        var q :| 0 <= q < |sorted| && sorted[q] == e;
        if q > 0 {
          assert RankedBefore(sorted[0], sorted[q]);
        }
      }
      RankedCons(x, sorted);
    }
  }

  /** Every entry of the sorted prefix has a smaller index than the entry
      that follows the prefix. */
  lemma PrefixIndicesBelow(s: seq<Scored>)
    requires IncreasingIndices(s) && s != []
    ensures forall e :: e in StableSortByScoreDesc(s[..|s| - 1]) ==> e.0 < s[|s| - 1].0
  {
    var init := s[..|s| - 1];
    var sortedInit := StableSortByScoreDesc(init);
    forall e | e in sortedInit ensures e.0 < s[|s| - 1].0 {
      assert e in multiset(sortedInit);
      assert e in multiset(init);
      var q :| 0 <= q < |init| && init[q] == e;
    }
  }

  /** On input whose column indices increase (an enumerated row), the stable
      sort orders by descending score and breaks ties by ascending index. */
  lemma {:induction false} SortRanked(s: seq<Scored>)
    requires IncreasingIndices(s)
    ensures Ranked(StableSortByScoreDesc(s))
  {
    if s != [] {
      var init := s[..|s| - 1];
      assert IncreasingIndices(init);
      SortRanked(init);
      PrefixIndicesBelow(s);
      InsertRanked(StableSortByScoreDesc(init), s[|s| - 1]);
      assert StableSortByScoreDesc(s) == Insert(StableSortByScoreDesc(init), s[|s| - 1]);
    }
  }

  // ---------------------------------------------------------------------
  // Ranking one row of the similarity matrix.
  // ---------------------------------------------------------------------

  /** `sorted(list(enumerate(row)), key=lambda x: x[1], reverse=True)`. */
  function Rank(row: seq<real>): (ranked: seq<Scored>)
    ensures multiset(ranked) == multiset(Enumerate(row))
    ensures NonIncreasing(ranked)
    ensures TiesByIndex(ranked)
  {
    var entries := Enumerate(row);
    SortRanked(entries);
    RankedIsOrdered(StableSortByScoreDesc(entries));
    StableSortByScoreDesc(entries)
  }

  /** The ranking is a permutation of the enumerated row: every column index
      appears exactly once, with its own, unaltered score. */
  lemma RankCoversEveryColumn(row: seq<real>)
    ensures |Rank(row)| == |row|
    ensures forall p :: 0 <= p < |Rank(row)| ==> Rank(row)[p].0 < |row| && Rank(row)[p].1 == row[Rank(row)[p].0]
    ensures forall j :: 0 <= j < |row| ==> exists p :: 0 <= p < |Rank(row)| && Rank(row)[p] == (j, row[j])
    ensures forall p, q :: 0 <= p < q < |Rank(row)| ==> Rank(row)[p].0 != Rank(row)[q].0
  {
    var r := Rank(row);
    var entries := Enumerate(row);
    assert |r| == |multiset(r)| == |multiset(entries)| == |row|;
    forall p | 0 <= p < |r| ensures r[p].0 < |row| && r[p].1 == row[r[p].0] {
      assert r[p] in multiset(entries);
      var j :| 0 <= j < |entries| && entries[j] == r[p];
    }
    forall j | 0 <= j < |row| ensures exists p :: 0 <= p < |r| && r[p] == (j, row[j]) {
      assert entries[j] in multiset(r);
      var p :| 0 <= p < |r| && r[p] == entries[j];
    }
    forall p, q | 0 <= p < q < |r| ensures r[p].0 != r[q].0 {
      if r[p].1 == r[q].1 {
        assert r[p].0 < r[q].0;
      } else {
        assert row[r[p].0] != row[r[q].0];
      }
    }
  }

  lemma FirstIsLeast(s: seq<Scored>, e: Scored)
    requires Ranked(s) && e in s
    ensures e == s[0] || RankedBefore(s[0], e)
  {
    var q :| 0 <= q < |s| && s[q] == e;
    if q > 0 {
      assert RankedBefore(s[0], s[q]);
    }
  }

  /** Two ranked sequences with the same entries are equal. */
  lemma {:induction false} RankedUnique(a: seq<Scored>, b: seq<Scored>)
    requires Ranked(a) && Ranked(b)
    requires multiset(a) == multiset(b)
    ensures a == b
  {
    assert |a| == |multiset(a)| == |multiset(b)| == |b|;
    if a != [] {
      assert a[0] in multiset(b);
      assert b[0] in multiset(a);
      FirstIsLeast(b, a[0]);
      FirstIsLeast(a, b[0]);
      assert a[0] == b[0];
      assert a == [a[0]] + a[1..];
      assert b == [b[0]] + b[1..];
      assert multiset(a[1..]) == multiset(a) - multiset{a[0]};
      assert multiset(b[1..]) == multiset(b) - multiset{b[0]};
      assert multiset(a[1..]) == multiset(b[1..]);
      RankedTail(a);
      RankedTail(b);
      RankedUnique(a[1..], b[1..]);
    }
  }

  /** The ranking is the only arrangement of the enumerated row that is
      ordered by descending score with ties by ascending index: the sort's
      result does not depend on how it is computed. */
  lemma RankIsUnique(row: seq<real>, other: seq<Scored>)
    requires multiset(other) == multiset(Enumerate(row))
    requires NonIncreasing(other) && TiesByIndex(other)
    ensures other == Rank(row)
  {
    RankedIsOrdered(other);
    RankedIsOrdered(Rank(row));
    RankedUnique(other, Rank(row));
  }

  /** A column whose score is strictly greater than every other column's is
      ranked first; for the movie's own row this is the movie itself. */
  lemma StrictMaximumRankedFirst(row: seq<real>, i: nat)
    requires i < |row|
    requires forall j :: 0 <= j < |row| && j != i ==> row[j] < row[i]
    ensures Rank(row)[0] == (i, row[i])
  {
    var r := Rank(row);
    RankCoversEveryColumn(row);
    var p :| 0 <= p < |r| && r[p] == (i, row[i]);
    assert r[0].1 >= r[p].1;
    assert r[0].1 == row[r[0].0];
  }

  /** `ranked[:k]`. */
  function TopK(ranked: seq<Scored>, k: nat): (top: seq<Scored>)
    ensures |top| == Min(k, |ranked|)
    ensures top == ranked[..|top|]
  {
    if |ranked| <= k then ranked else ranked[..k]
  }

  /** The first `k` entries of the ranking are the best `k`: a column that is
      not among them is ranked after every one of them. */
  lemma TopKHoldsTheBest(row: seq<real>, k: nat, j: nat)
    requires j < |row|
    ensures var top := TopK(Rank(row), k);
            || (exists p :: 0 <= p < |top| && top[p] == (j, row[j]))
            || (forall p :: 0 <= p < |top| ==> RankedBefore(top[p], (j, row[j])))
  {
    var r := Rank(row);
    var top := TopK(r, k);
    RankCoversEveryColumn(row);
    RankedIsOrdered(r);
    var pj :| 0 <= pj < |r| && r[pj] == (j, row[j]);
    if pj >= |top| {
      forall p | 0 <= p < |top| ensures RankedBefore(top[p], (j, row[j])) {
        assert top[p] == r[p];
      }
    } else {
      assert top[pj] == (j, row[j]);
    }
  }

  /** The first `k` entries of the ranking carry the row's own scores, in
      non-increasing order with ties by ascending column, with no column
      twice; a column left out scores no more than any entry kept. */
  lemma TopKFollowsScores(row: seq<real>, k: nat)
    ensures var top := TopK(Rank(row), k);
            && (forall p :: 0 <= p < |top| ==> top[p].0 < |row| && top[p].1 == row[top[p].0])
            && (forall p, q :: 0 <= p < q < |top| ==> top[p].1 >= top[q].1)
            && (forall p, q :: 0 <= p < q < |top| && top[p].1 == top[q].1 ==> top[p].0 < top[q].0)
            && (forall p, q :: 0 <= p < q < |top| ==> top[p].0 != top[q].0)
            && (forall j :: 0 <= j < |row| ==>
                 || (exists p :: 0 <= p < |top| && top[p].0 == j)
                 || (forall p :: 0 <= p < |top| ==> row[j] <= top[p].1))
  {
    var r := Rank(row);
    var top := TopK(r, k);
    RankCoversEveryColumn(row);
    forall p | 0 <= p < |top| ensures top[p] == r[p] {
    }
    forall j | 0 <= j < |row|
      ensures || (exists p :: 0 <= p < |top| && top[p].0 == j)
              || (forall p :: 0 <= p < |top| ==> row[j] <= top[p].1)
    {
      TopKHoldsTheBest(row, k, j);
    }
  }
}
