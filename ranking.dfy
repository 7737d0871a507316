/** Ranking of the rows of the embedding matrix by similarity score.

    The source pairs every score with its row, sorts the pairs by descending
    score with `Array.prototype.sort` and keeps positions 1 to 5 of the sorted
    list. ECMAScript (section 22.1.3.27 of ECMA-262, 10th edition) requires
    that sort to be stable, so equal scores keep their input order, which is
    ascending row order. `SortDescending` is a stable insertion sort; the
    lemmas show that its result is the one and only permutation of the pairs
    that is ordered by (descending score, ascending row), so any stable sort
    gives the same list. */
module Ranking {

  /** One element of the list being sorted: a row of the matrix and its score. */
  datatype Scored = Scored(index: nat, similarity: real)

  /** How many neighbours a query lists. */
  const TOP_COUNT: nat := 5

  function Min(a: int, b: int): int
  {
    if a <= b then a else b
  }

  /** Each score paired with its row: one pair per row, rows ascending, each with its own score. */
  function Indexed(scores: seq<real>): (r: seq<Scored>)
    ensures |r| == |scores|
    ensures AscendingRows(r)
    ensures forall k :: 0 <= k < |r| ==> r[k].index < |scores| && r[k].similarity == scores[r[k].index]
  {
    seq(|scores|, i requires 0 <= i < |scores| => Scored(i, scores[i]))
  }

  /** Insert `x` before the first element whose score is not greater than its own.
      Placing it before equal scores keeps `x`, which came earlier in the input,
      ahead of them: this is what makes the sort stable. */
  function Insert(x: Scored, s: seq<Scored>): seq<Scored>
  {
    if s == [] || x.similarity >= s[0].similarity then [x] + s
    else [s[0]] + Insert(x, s[1..])
  }

  /** A stable sort by descending score (the comparator `b.similarity - a.similarity`). */
  function SortDescending(s: seq<Scored>): seq<Scored>
  {
    if s == [] then [] else Insert(s[0], SortDescending(s[1..]))
  }

  /** The full sorted list before slicing. */
  function Ranked(scores: seq<real>): seq<Scored>
  {
    SortDescending(Indexed(scores))
  }

  /** `Array.prototype.slice(start, end)` for non-negative arguments: both ends are clamped to the length. */
  function Slice<T>(s: seq<T>, start: nat, end: nat): (r: seq<T>)
    ensures |r| == if Min(start, |s|) < Min(end, |s|) then Min(end, |s|) - Min(start, |s|) else 0
    ensures forall k :: 0 <= k < |r| ==> r[k] == s[start + k]
  {
    var from := Min(start, |s|);
    var to := Min(end, |s|);
    if from < to then s[from..to] else []
  }

  /** The neighbours as the source chooses them: positions 1 to 5 of the sorted list. */
  function TopSimilar(scores: seq<real>): seq<Scored>
  {
    Slice(Ranked(scores), 1, 1 + TOP_COUNT)
  }

  /** `a` goes strictly before `b`: a higher score, or the same score and a lower row. */
  predicate Precedes(a: Scored, b: Scored)
  {
    a.similarity > b.similarity || (a.similarity == b.similarity && a.index < b.index)
  }

  /** Every element strictly precedes every later one. */
  ghost predicate RankOrdered(s: seq<Scored>)
  {
    forall i, j :: 0 <= i < j < |s| ==> Precedes(s[i], s[j])
  }

  /** Scores never increase along `s`. */
  ghost predicate NonIncreasing(s: seq<Scored>)
  {
    forall i, j :: 0 <= i < j < |s| ==> s[i].similarity >= s[j].similarity
  }

  /** Rows strictly increase along `s`, as they do in the input to the sort. */
  ghost predicate AscendingRows(s: seq<Scored>)
  {
    forall i, j :: 0 <= i < j < |s| ==> s[i].index < s[j].index
  }

  /** Inserting adds exactly the one new pair. */
  lemma {:induction false} InsertPermutes(x: Scored, s: seq<Scored>)
    ensures multiset(Insert(x, s)) == multiset(s) + multiset{x}
  {
    if s != [] && x.similarity < s[0].similarity {
      InsertPermutes(x, s[1..]);
      assert s == [s[0]] + s[1..];
    }
  }

  /** The sort only rearranges its input. */
  lemma {:induction false} SortPermutes(s: seq<Scored>)
    ensures multiset(SortDescending(s)) == multiset(s)
    ensures |SortDescending(s)| == |s|
  {
    if s != [] {
      SortPermutes(s[1..]);
      InsertPermutes(s[0], SortDescending(s[1..]));
      assert s == [s[0]] + s[1..];
    }
    assert |multiset(SortDescending(s))| == |multiset(s)|;
  }

  /** Inserting a pair whose row precedes every row already present keeps the ranking order:
      it goes before the first pair it does not score below, as the stable comparator places it. */
  lemma {:induction false} InsertKeepsOrder(x: Scored, s: seq<Scored>)
    requires RankOrdered(s)
    requires forall y :: y in s ==> x.index < y.index
    ensures RankOrdered(Insert(x, s))
  {
    if s == [] {
    } else if x.similarity >= s[0].similarity {
      var r := [x] + s;
      forall i, j | 0 <= i < j < |r| ensures Precedes(r[i], r[j]) {
        if i == 0 {
          assert r[j] in s;
          if j > 1 {
            assert Precedes(s[0], s[j - 1]);
          }
        } else {
          assert Precedes(s[i - 1], s[j - 1]);
        }
      }
    } else {
      var t := s[1..];
      assert forall y :: y in t ==> y in s;
      InsertKeepsOrder(x, t);
      InsertPermutes(x, t);
      var it := Insert(x, t);
      var r := [s[0]] + it;
      forall i, j | 0 <= i < j < |r| ensures Precedes(r[i], r[j]) {
        if i == 0 {
          var y := r[j];
          assert y in multiset(it);
          if y != x {
            assert y in multiset(t);
            var k :| 0 <= k < |t| && t[k] == y;
            assert Precedes(s[0], s[k + 1]);
          }
        }
      }
    }
  }

  /** Sorting rows given in ascending order yields the (descending score, ascending row) order. */
  lemma {:induction false} SortOrders(s: seq<Scored>)
    requires AscendingRows(s)
    ensures RankOrdered(SortDescending(s))
  {
    if s != [] {
      var t := s[1..];
      assert AscendingRows(t);
      SortOrders(t);
      SortPermutes(t);
      forall y | y in SortDescending(t) ensures s[0].index < y.index {
        assert y in multiset(t);
        var k :| 0 <= k < |t| && t[k] == y;
        assert s[k + 1] == y;
      }
      InsertKeepsOrder(s[0], SortDescending(t));
    }
  }

  /** The sorted list is a permutation of the pairs (row, score of the row):
      every row of the matrix appears exactly once, with its own score. */
  lemma RankedIsPermutation(scores: seq<real>)
    ensures multiset(Ranked(scores)) == multiset(Indexed(scores))
    ensures |Ranked(scores)| == |scores|
    ensures forall k :: 0 <= k < |scores| ==>
      Ranked(scores)[k].index < |scores| && Ranked(scores)[k].similarity == scores[Ranked(scores)[k].index]
    ensures forall i :: 0 <= i < |scores| ==> Scored(i, scores[i]) in Ranked(scores)
    ensures forall k, l :: 0 <= k < l < |scores| ==> Ranked(scores)[k].index != Ranked(scores)[l].index
  {
    var ix := Indexed(scores);
    var r := Ranked(scores);
    SortPermutes(ix);
    SortOrders(ix);
    forall k | 0 <= k < |r|
      ensures r[k].index < |scores| && r[k].similarity == scores[r[k].index]
    {
      assert r[k] in multiset(ix);
    }
    forall i | 0 <= i < |scores| ensures Scored(i, scores[i]) in r {
      assert ix[i] in multiset(r);
    }
  }

  /** Scores never increase along the sorted list, and equal scores appear in ascending row order. */
  lemma RankedIsOrdered(scores: seq<real>)
    ensures RankOrdered(Ranked(scores))
    ensures NonIncreasing(Ranked(scores))
  {
    SortOrders(Indexed(scores));
  }

  /** Lists with equal heads and equal multisets have tails with equal multisets. */
  lemma SameTails(a: seq<Scored>, b: seq<Scored>)
    requires a != [] && b != [] && a[0] == b[0]
    requires multiset(a) == multiset(b)
    ensures multiset(a[1..]) == multiset(b[1..])
  {
    assert a == [a[0]] + a[1..] && b == [b[0]] + b[1..];
    calc {
      multiset(a[1..]);
      multiset(a) - multiset{a[0]};
      multiset(b) - multiset{b[0]};
      multiset(b[1..]);
    }
  }

  /** Two lists with the same elements, both in (descending score, ascending row) order, are equal. */
  lemma {:induction false} RankOrderIsUnique(a: seq<Scored>, b: seq<Scored>)
    requires RankOrdered(a) && RankOrdered(b)
    requires multiset(a) == multiset(b)
    ensures a == b
  {
    assert |a| == |multiset(a)| == |multiset(b)| == |b|;
    if a != [] {
      assert a[0] in multiset(b);
      assert b[0] in multiset(a);
      SameTails(a, b);
      RankOrderIsUnique(a[1..], b[1..]);
      assert a == [a[0]] + a[1..] && b == [b[0]] + b[1..];
    }
  }

  /** Any permutation of the pairs in (descending score, ascending row) order is the sorted list:
      every stable sort with the source's comparator produces `Ranked(scores)`. */
  lemma RankedIsDetermined(scores: seq<real>, r: seq<Scored>)
    requires multiset(r) == multiset(Indexed(scores))
    requires RankOrdered(r)
    ensures r == Ranked(scores)
  {
    RankedIsPermutation(scores);
    RankedIsOrdered(scores);
    RankOrderIsUnique(r, Ranked(scores));
  }

  /** The neighbours: `min(5, N - 1)` of them for N rows (none for no rows), entry `k`
      taken from sorted position `k + 1` whatever row position 0 holds, scores non-increasing. */
  lemma TopSimilarShape(scores: seq<real>)
    ensures |TopSimilar(scores)| == if |scores| == 0 then 0 else Min(TOP_COUNT, |scores| - 1)
    ensures forall k :: 0 <= k < |TopSimilar(scores)| ==> TopSimilar(scores)[k] == Ranked(scores)[k + 1]
    ensures RankOrdered(TopSimilar(scores))
    ensures NonIncreasing(TopSimilar(scores))
  {
    RankedIsPermutation(scores);
    RankedIsOrdered(scores);
    var r := Ranked(scores);
    var t := TopSimilar(scores);
    forall i, j | 0 <= i < j < |t| ensures Precedes(t[i], t[j]) {
      assert t[i] == r[i + 1] && t[j] == r[j + 1];
    }
  }

  /** The list with every entry for row `row` removed. */
  function WithoutRow(s: seq<Scored>, row: nat): (r: seq<Scored>)
    ensures forall y :: y in r ==> y in s && y.index != row
    ensures forall y :: y in s && y.index != row ==> y in r
  {
    if s == [] then []
    else if s[0].index == row then WithoutRow(s[1..], row)
    else [s[0]] + WithoutRow(s[1..], row)
  }

  /** The neighbours with the subject's own row removed before the five are taken. */
  function TopSimilarExcluding(scores: seq<real>, subject: nat): seq<Scored>
  {
    var others := WithoutRow(Ranked(scores), subject);
    others[..Min(TOP_COUNT, |others|)]
  }

  lemma {:induction false} WithoutAbsentRow(s: seq<Scored>, row: nat)
    requires forall k :: 0 <= k < |s| ==> s[k].index != row
    ensures WithoutRow(s, row) == s
  {
    if s != [] {
      WithoutAbsentRow(s[1..], row);
    }
  }

  lemma {:induction false} WithoutPresentRow(s: seq<Scored>, row: nat, k: nat)
    requires k < |s| && s[k].index == row
    requires forall i, j :: 0 <= i < j < |s| ==> s[i].index != s[j].index
    ensures |WithoutRow(s, row)| == |s| - 1
  {
    if k == 0 {
      WithoutAbsentRow(s[1..], row);
    } else {
      WithoutPresentRow(s[1..], row, k - 1);
    }
  }

  lemma {:induction false} WithoutRowKeepsOrder(s: seq<Scored>, row: nat)
    requires RankOrdered(s)
    ensures RankOrdered(WithoutRow(s, row))
  {
    if s != [] {
      var t := s[1..];
      WithoutRowKeepsOrder(t, row);
      if s[0].index != row {
        var w := WithoutRow(t, row);
        var r := [s[0]] + w;
        forall i, j | 0 <= i < j < |r| ensures Precedes(r[i], r[j]) {
          if i == 0 {
            assert r[j] in t;
            var k :| 0 <= k < |t| && t[k] == r[j];
            assert Precedes(s[0], s[k + 1]);
          } else {
            assert r[i] == w[i - 1] && r[j] == w[j - 1];
          }
        }
      }
    }
  }

  /** Removing a row that occurs once in an ordered list leaves one element fewer, still ordered. */
  lemma WithoutRowFacts(r: seq<Scored>, row: nat, k: nat)
    requires RankOrdered(r)
    requires k < |r| && r[k].index == row
    requires forall i, j :: 0 <= i < j < |r| ==> r[i].index != r[j].index
    ensures |WithoutRow(r, row)| == |r| - 1
    ensures RankOrdered(WithoutRow(r, row))
  {
    WithoutPresentRow(r, row, k);
    WithoutRowKeepsOrder(r, row);
  }

  /** In an ordered list, every element of a prefix precedes every element left out of it. */
  lemma PrefixIsBest(s: seq<Scored>, n: nat)
    requires RankOrdered(s) && n <= |s|
    ensures forall x, t :: x in s && x !in s[..n] && t in s[..n] ==> Precedes(t, x)
  {
  }

  /** The corrected choice never lists the subject's row, lists `min(5, N - 1)` rows, each
      with its own score, keeps the ranking order, and keeps the best-ranked rows: every row
      other than the subject's that is left out is preceded by every row that is kept. */
  lemma TopSimilarExcludingIsCorrect(scores: seq<real>, subject: nat)
    requires subject < |scores|
    ensures forall k :: 0 <= k < |TopSimilarExcluding(scores, subject)| ==>
      TopSimilarExcluding(scores, subject)[k].index != subject
      && TopSimilarExcluding(scores, subject)[k].index < |scores|
      && TopSimilarExcluding(scores, subject)[k].similarity == scores[TopSimilarExcluding(scores, subject)[k].index]
    ensures |TopSimilarExcluding(scores, subject)| == Min(TOP_COUNT, |scores| - 1)
    ensures RankOrdered(TopSimilarExcluding(scores, subject))
    ensures var top := TopSimilarExcluding(scores, subject);
      forall i, t :: 0 <= i < |scores| && i != subject && Scored(i, scores[i]) !in top && t in top
        ==> Precedes(t, Scored(i, scores[i]))
  {
    var r := Ranked(scores);
    RankedIsPermutation(scores);
    RankedIsOrdered(scores);
    assert Scored(subject, scores[subject]) in r;
    var k :| 0 <= k < |r| && r[k] == Scored(subject, scores[subject]);
    WithoutRowFacts(r, subject, k);
    var others := WithoutRow(r, subject);
    var top := TopSimilarExcluding(scores, subject);
    forall i | 0 <= i < |top|
      ensures top[i].index != subject && top[i].index < |scores| && top[i].similarity == scores[top[i].index]
    {
      assert top[i] in others;
      assert top[i] in r;
    }
    PrefixIsBest(others, |top|);
    forall i, t | 0 <= i < |scores| && i != subject && Scored(i, scores[i]) !in top && t in top
      ensures Precedes(t, Scored(i, scores[i]))
    {
      assert Scored(i, scores[i]) in r;
    }
  }

  /** The corrected choice and the source agree whenever the subject's row is first in the sorted list. */
  lemma TopSimilarExcludingAgrees(scores: seq<real>, subject: nat)
    requires 0 < |scores|
    requires Ranked(scores)[0].index == subject
    ensures TopSimilarExcluding(scores, subject) == TopSimilar(scores)
  {
    var r := Ranked(scores);
    RankedIsPermutation(scores);
    assert forall k :: 0 <= k < |r[1..]| ==> r[1..][k].index != subject by {
      forall k | 0 <= k < |r[1..]| ensures r[1..][k].index != subject {
        assert r[1..][k] == r[k + 1];
      }
    }
    WithoutAbsentRow(r[1..], subject);
    assert r == [r[0]] + r[1..];
    assert WithoutRow(r, subject) == r[1..];
  }

  /** Rows 0 and 1 share the top score (two equal embeddings) and row 1 is the subject:
      the source lists the subject as its own nearest neighbour and never lists row 0,
      while the corrected choice lists row 0 first. */
  lemma SubjectCanBeItsOwnNeighbour(scores: seq<real>)
    requires 2 <= |scores|
    requires scores[0] == scores[1]
    requires forall i :: 0 <= i < |scores| ==> scores[i] <= scores[1]
    ensures |Ranked(scores)| == |scores|
    ensures Ranked(scores)[0] == Scored(0, scores[0]) && Ranked(scores)[1] == Scored(1, scores[1])
    ensures TopSimilar(scores)[0] == Scored(1, scores[1])
    ensures forall k :: 0 <= k < |TopSimilar(scores)| ==> TopSimilar(scores)[k].index != 0
    ensures TopSimilarExcluding(scores, 1)[0] == Scored(0, scores[0])
  {
    RankedIsPermutation(scores);
    RankedIsOrdered(scores);
    TopSimilarShape(scores);
    var r := Ranked(scores);
    assert Scored(0, scores[0]) in r;
    var k :| 0 <= k < |r| && r[k] == Scored(0, scores[0]);
    assert !Precedes(r[0], Scored(0, scores[0])) by {
      assert r[0].similarity == scores[r[0].index];
    }
    assert k == 0;
    assert Scored(1, scores[1]) in r;
    var m :| 0 <= m < |r| && r[m] == Scored(1, scores[1]);
    assert !Precedes(r[1], Scored(1, scores[1])) by {
      assert r[1].index != r[0].index;
      assert r[1].similarity == scores[r[1].index];
    }
    assert m == 1;
    assert r == [r[0]] + r[1..];
    assert WithoutRow(r, 1) == [r[0]] + WithoutRow(r[1..], 1);
  }
}
