/** The ranking step of `searchAndSortFromRedis`: a stable sort by descending score
    (`Array.prototype.sort` with the comparator `b.score - a.score`), the first ten
    entries (`slice(0, 10)`), and only those whose score is truthy (`filter`). */
module Ranking {

  /** Number of entries kept by the truncation. */
  const MaxResults: nat := 10

  /** A scored record `{key, value, score}`. Scores are integers; a score is truthy
      when it is not zero. */
  datatype Scored<V> = Scored(key: string, value: V, score: int)

  /** Scores never increase from left to right. */
  predicate SortedDesc<V>(s: seq<Scored<V>>)
  {
    forall i, j :: 0 <= i < j < |s| ==> s[i].score >= s[j].score
  }

  /** The entries of `s` whose score is `k`, in their order in `s`. Stability of a sort
      means exactly that this subsequence is the same before and after. */
  function WithScore<V>(s: seq<Scored<V>>, k: int): seq<Scored<V>>
  {
    if s == [] then []
    else WithScore(s[..|s| - 1], k) + (if s[|s| - 1].score == k then [s[|s| - 1]] else [])
  }

  lemma {:induction false} WithScoreAppend<V>(a: seq<Scored<V>>, b: seq<Scored<V>>, k: int)
    ensures WithScore(a + b, k) == WithScore(a, k) + WithScore(b, k)
  {
    if b != [] {
      WithScoreAppend(a, b[..|b| - 1], k);
      assert (a + b)[..|a + b| - 1] == a + b[..|b| - 1];
    } else {
      assert a + b == a;
    }
  }

  /** Inserting `x`, which comes after every entry of `t` in discovery order, into the
      descending sequence `t`: it goes behind every entry whose score is at least its own. */
  function InsertDesc<V>(x: Scored<V>, t: seq<Scored<V>>): seq<Scored<V>>
  {
    if t == [] || t[|t| - 1].score >= x.score then t + [x]
    else InsertDesc(x, t[..|t| - 1]) + [t[|t| - 1]]
  }

  /** The reference stable descending sort: insertion sort, one entry at a time in
      discovery order. */
  function SortDesc<V>(s: seq<Scored<V>>): seq<Scored<V>>
  {
    if s == [] then [] else InsertDesc(s[|s| - 1], SortDesc(s[..|s| - 1]))
  }

  lemma {:induction false} InsertDescPermutes<V>(x: Scored<V>, t: seq<Scored<V>>)
    ensures multiset(InsertDesc(x, t)) == multiset(t) + multiset{x}
  {
    if !(t == [] || t[|t| - 1].score >= x.score) {
      InsertDescPermutes(x, t[..|t| - 1]);
      assert t == t[..|t| - 1] + [t[|t| - 1]];
    }
  }

  lemma {:induction false} InsertDescSorted<V>(x: Scored<V>, t: seq<Scored<V>>)
    requires SortedDesc(t)
    ensures SortedDesc(InsertDesc(x, t))
  {
    if !(t == [] || t[|t| - 1].score >= x.score) {
      var init, last := t[..|t| - 1], t[|t| - 1];
      InsertDescSorted(x, init);
      InsertDescPermutes(x, init);
      var r := InsertDesc(x, init);
      forall i | 0 <= i < |r| ensures r[i].score >= last.score {
        assert r[i] in multiset(r);
        if r[i] != x {
          assert r[i] in multiset(init);
          var j :| 0 <= j < |init| && init[j] == r[i];
          assert t[j] == r[i];
        }
      }
    }
  }

  lemma WithScoreSnoc<V>(s: seq<Scored<V>>, y: Scored<V>, k: int)
    ensures WithScore(s + [y], k) == WithScore(s, k) + (if y.score == k then [y] else [])
  {
    assert (s + [y])[..|s|] == s;
  }

  /** Insertion adds `x` at the end of its own score class and moves no other entry
      within its class. */
  lemma {:induction false} InsertDescWithScore<V>(x: Scored<V>, t: seq<Scored<V>>, k: int)
    ensures WithScore(InsertDesc(x, t), k) == WithScore(t, k) + (if x.score == k then [x] else [])
  {
    if t == [] || t[|t| - 1].score >= x.score {
      WithScoreSnoc(t, x, k);
    } else {
      var init, last := t[..|t| - 1], t[|t| - 1];
      InsertDescWithScore(x, init, k);
      WithScoreSnoc(InsertDesc(x, init), last, k);
      WithScoreSnoc(init, last, k);
      assert t == init + [last];
    }
  }

  /** SortDesc is a stable descending sort: its result is sorted by descending score, is
      a permutation of its input, and keeps discovery order among equal scores. */
  lemma {:induction false} SortDescIsStableSort<V>(s: seq<Scored<V>>)
    ensures SortedDesc(SortDesc(s))
    ensures multiset(SortDesc(s)) == multiset(s)
    ensures forall k :: WithScore(SortDesc(s), k) == WithScore(s, k)
  {
    if s != [] {
      var init, last := s[..|s| - 1], s[|s| - 1];
      SortDescIsStableSort(init);
      InsertDescSorted(last, SortDesc(init));
      InsertDescPermutes(last, SortDesc(init));
      assert s == init + [last];
      forall k ensures WithScore(SortDesc(s), k) == WithScore(s, k) {
        InsertDescWithScore(last, SortDesc(init), k);
      }
    }
  }

  /** A score class is non-empty exactly when some entry has that score. */
  lemma {:induction false} WithScoreNonEmpty<V>(s: seq<Scored<V>>, k: int)
    ensures WithScore(s, k) != [] <==> exists i :: 0 <= i < |s| && s[i].score == k
  {
    if s != [] {
      var init := s[..|s| - 1];
      WithScoreNonEmpty(init, k);
      if exists i :: 0 <= i < |s| && s[i].score == k {
        var i :| 0 <= i < |s| && s[i].score == k;
        if i < |s| - 1 {
          assert init[i].score == k;
        }
      }
      if exists i :: 0 <= i < |init| && init[i].score == k {
        var i :| 0 <= i < |init| && init[i].score == k;
        assert s[i].score == k;
      }
    }
  }

  /** The last entry of a non-empty descending sequence has the lowest score. */
  lemma LastIsLowest<V>(s: seq<Scored<V>>, k: int)
    requires SortedDesc(s) && s != [] && WithScore(s, k) != []
    ensures s[|s| - 1].score <= k
  {
    WithScoreNonEmpty(s, k);
  }

  lemma CancelSuffix<T>(p: seq<T>, q: seq<T>, t: seq<T>)
    requires p + t == q + t
    ensures p == q
  {
    assert p == (p + t)[..|p|];
    assert q == (q + t)[..|q|];
  }

  /** Both ends agree on the score of their last entry: each sequence holds an entry
      with the other's lowest score. */
  lemma LastScoresAgree<V>(r1: seq<Scored<V>>, r2: seq<Scored<V>>)
    requires SortedDesc(r1) && SortedDesc(r2) && r1 != [] && r2 != []
    requires WithScore(r1, r1[|r1| - 1].score) == WithScore(r2, r1[|r1| - 1].score)
    requires WithScore(r1, r2[|r2| - 1].score) == WithScore(r2, r2[|r2| - 1].score)
    ensures r1[|r1| - 1].score == r2[|r2| - 1].score
  {
    WithScoreNonEmpty(r1, r1[|r1| - 1].score);
    WithScoreNonEmpty(r2, r2[|r2| - 1].score);
    LastIsLowest(r2, r1[|r1| - 1].score);
    LastIsLowest(r1, r2[|r2| - 1].score);
  }

  /** Two non-empty descending sequences with the same score classes end with the same
      entry: the last entry of the lowest score class. */
  lemma LastAgree<V>(r1: seq<Scored<V>>, r2: seq<Scored<V>>)
    requires SortedDesc(r1) && SortedDesc(r2) && r1 != [] && r2 != []
    requires WithScore(r1, r1[|r1| - 1].score) == WithScore(r2, r1[|r1| - 1].score)
    requires WithScore(r1, r2[|r2| - 1].score) == WithScore(r2, r2[|r2| - 1].score)
    ensures r1[|r1| - 1] == r2[|r2| - 1]
  {
    LastScoresAgree(r1, r2);
    var k := r1[|r1| - 1].score;
    var c1 := WithScore(r1[..|r1| - 1], k) + [r1[|r1| - 1]];
    var c2 := WithScore(r2[..|r2| - 1], k) + [r2[|r2| - 1]];
    assert c1 == WithScore(r1, k) == WithScore(r2, k) == c2;
    assert c1[|c1| - 1] == r1[|r1| - 1];
    assert c2[|c2| - 1] == r2[|r2| - 1];
  }

  lemma FirstClassNonEmpty<V>(r: seq<Scored<V>>)
    requires r != []
    ensures WithScore(r, r[0].score) != []
  {
    WithScoreNonEmpty(r, r[0].score);
  }

  /** There is only one stable descending order: two descending sequences with the same
      entries in every score class are equal. So any stable sort, whatever its algorithm,
      orders the records as SortDesc does. */
  lemma {:induction false} StableSortUnique<V>(r1: seq<Scored<V>>, r2: seq<Scored<V>>)
    requires SortedDesc(r1) && SortedDesc(r2)
    requires forall k :: WithScore(r1, k) == WithScore(r2, k)
    ensures r1 == r2
  {
    if r1 == [] || r2 == [] {
      if r1 != [] {
        FirstClassNonEmpty(r1);
      } else if r2 != [] {
        FirstClassNonEmpty(r2);
      }
    } else {
      LastAgree(r1, r2);
      var a, x := r1[..|r1| - 1], r1[|r1| - 1];
      var b := r2[..|r2| - 1];
      forall k ensures WithScore(a, k) == WithScore(b, k) {
        var t := if x.score == k then [x] else [];
        assert WithScore(r1, k) == WithScore(a, k) + t;
        assert WithScore(r2, k) == WithScore(b, k) + t;
        CancelSuffix(WithScore(a, k), WithScore(b, k), t);
      }
      StableSortUnique(a, b);
      assert r1 == a + [x] && r2 == b + [x];
    }
  }

  /** Any stable descending sort of `s` gives SortDesc(s). */
  lemma StableSortIsSortDesc<V>(s: seq<Scored<V>>, r: seq<Scored<V>>)
    requires SortedDesc(r) && forall k :: WithScore(r, k) == WithScore(s, k)
    ensures r == SortDesc(s)
  {
    SortDescIsStableSort(s);
    StableSortUnique(r, SortDesc(s));
  }

  /** Input that is already in descending order is left as it is. */
  lemma {:induction false} SortDescOfSorted<V>(s: seq<Scored<V>>)
    requires SortedDesc(s)
    ensures SortDesc(s) == s
  {
    if s != [] {
      var init := s[..|s| - 1];
      SortDescOfSorted(init);
      assert s == init + [s[|s| - 1]];
    }
  }

  /** While `x` scores above the entry before the gap, the gap moves one step left. */
  lemma InsertDescShift<V>(x: Scored<V>, t: seq<Scored<V>>, j: int)
    requires 0 < j <= |t| && t[j - 1].score < x.score
    ensures InsertDesc(x, t[..j]) + t[j..] == InsertDesc(x, t[..j - 1]) + t[j - 1..]
  {
    assert t[..j][..j - 1] == t[..j - 1];
    assert t[j - 1..] == [t[j - 1]] + t[j..];
  }

  /** Once the entry before the gap scores at least as high as `x`, `x` goes in the gap. */
  lemma InsertDescStop<V>(x: Scored<V>, t: seq<Scored<V>>, j: int)
    requires 0 <= j <= |t| && (j == 0 || t[j - 1].score >= x.score)
    ensures InsertDesc(x, t[..j]) == t[..j] + [x]
  {
  }

  lemma SortDescPrefix<V>(s: seq<Scored<V>>, i: int)
    requires 0 <= i < |s|
    ensures SortDesc(s[..i + 1]) == InsertDesc(s[i], SortDesc(s[..i]))
  {
    assert s[..i + 1][..i] == s[..i];
  }

  /** Swapping the entry before the gap with `x` moves the gap one step left. */
  lemma SwapIntoGap<V>(t: seq<Scored<V>>, j: int, x: Scored<V>, rest: seq<Scored<V>>, s: seq<Scored<V>>)
    requires 0 < j <= |t| && s == t[..j] + [x] + t[j..] + rest
    ensures s[j - 1 := x][j := t[j - 1]] == t[..j - 1] + [x] + t[j - 1..] + rest
  {
    assert t[..j] == t[..j - 1] + [t[j - 1]];
    assert t[j - 1..] == [t[j - 1]] + t[j..];
  }

  /** After the insertion pass at index `i`, the sorted prefix covers one more record. */
  lemma SortStep<V>(s0: seq<Scored<V>>, i: int, before: seq<Scored<V>>, after: seq<Scored<V>>)
    requires 0 <= i < |s0| == |before| && before == SortDesc(s0[..i]) + s0[i..]
    requires after == InsertDesc(before[i], before[..i]) + before[i + 1..]
    ensures after == SortDesc(s0[..i + 1]) + s0[i + 1..]
  {
    SortDescLength(s0[..i]);
    assert before[..i] == SortDesc(s0[..i]) && before[i] == s0[i];
    assert before[i + 1..] == s0[i + 1..];
    SortDescPrefix(s0, i);
  }

  /** One pass of the insertion sort: the record at index `i` is swapped leftwards past
      the records before it that score strictly lower. */
  method InsertAt<V>(a: array<Scored<V>>, i: int)
    requires 0 <= i < a.Length
    modifies a
    ensures a[..] == InsertDesc(old(a[i]), old(a[..i])) + old(a[i + 1..])
  {
    ghost var t, x, rest := a[..i], a[i], a[i + 1..];
    var j := i;
    assert t[..j] == t && t[j..] == [];
    assert a[..] == t[..j] + [x] + t[j..] + rest by {
      assert a[..] == a[..i] + [a[i]] + a[i + 1..];
    }
    while j > 0 && a[j - 1].score < a[j].score
      invariant 0 <= j <= i
      invariant a[..] == t[..j] + [x] + t[j..] + rest
      invariant InsertDesc(x, t) == InsertDesc(x, t[..j]) + t[j..]
    {
      assert a[j] == x && a[j - 1] == t[j - 1];
      InsertDescShift(x, t, j);
      SwapIntoGap(t, j, x, rest, a[..]);
      a[j - 1], a[j] := a[j], a[j - 1];
      j := j - 1;
    }
    assert a[j] == x && (j > 0 ==> a[j - 1] == t[j - 1]);
    InsertDescStop(x, t, j);
  }

  /** The in-place sort of the source: an insertion sort on the array of scored records,
      which keeps records of equal score in their original order. */
  method SortByScoreDesc<V>(a: array<Scored<V>>)
    modifies a
    ensures a[..] == SortDesc(old(a[..]))
  {
    ghost var s0 := a[..];
    var i := 0;
    while i < a.Length
      invariant 0 <= i <= a.Length
      invariant a[..] == SortDesc(s0[..i]) + s0[i..]
    {
      ghost var before := a[..];
      InsertAt(a, i);
      SortStep(s0, i, before, a[..]);
      i := i + 1;
    }
    assert s0[..a.Length] == s0;
  }

  /** The entries of `s` whose score is truthy, in order (`filter(item => item.score)`). */
  function NonZero<V>(s: seq<Scored<V>>): seq<Scored<V>>
  {
    if s == [] then []
    else NonZero(s[..|s| - 1]) + (if s[|s| - 1].score != 0 then [s[|s| - 1]] else [])
  }

  /** The first `MaxResults` entries (`slice(0, 10)`). */
  function Top<V>(s: seq<Scored<V>>): seq<Scored<V>>
  {
    s[..if |s| < MaxResults then |s| else MaxResults]
  }

  /** The ranking the source returns: sort, truncate, then drop zero scores. */
  function Rank<V>(all: seq<Scored<V>>): seq<Scored<V>>
  {
    NonZero(Top(SortDesc(all)))
  }

  /** `filter(item => item.score)` over the sliced copy. */
  method FilterTruthy<V>(top: seq<Scored<V>>) returns (kept: seq<Scored<V>>)
    ensures kept == NonZero(top)
  {
    kept := [];
    for i := 0 to |top|
      invariant kept == NonZero(top[..i])
    {
      assert top[..i + 1][..i] == top[..i];
      if top[i].score != 0 {
        kept := kept + [top[i]];
      }
    }
    assert top[..|top|] == top;
  }

  /** `allValues.sort(...).slice(0, 10).filter(...)`: sorts the array in place and returns
      the truthy entries among the first ten. */
  method SortSliceFilter<V>(allValues: array<Scored<V>>) returns (results: seq<Scored<V>>)
    modifies allValues
    ensures allValues[..] == SortDesc(old(allValues[..]))
    ensures results == Rank(old(allValues[..]))
  {
    SortByScoreDesc(allValues);
    var n := if allValues.Length < MaxResults then allValues.Length else MaxResults;
    var top := allValues[..n];
    SortDescIsStableSort(old(allValues[..]));
    assert |allValues[..]| == |old(allValues[..])| by {
      assert |multiset(allValues[..])| == |multiset(old(allValues[..]))|;
    }
    results := FilterTruthy(top);
  }

  /** The filter keeps only truthy entries of its input, each no more often than it
      occurs there. */
  lemma {:induction false} NonZeroMembers<V>(s: seq<Scored<V>>)
    ensures forall x :: x in NonZero(s) ==> x in s && x.score != 0
    ensures multiset(NonZero(s)) <= multiset(s)
  {
    if s != [] {
      NonZeroMembers(s[..|s| - 1]);
      assert s == s[..|s| - 1] + [s[|s| - 1]];
    }
  }

  /** The filter removes exactly the entries of score zero. */
  lemma {:induction false} NonZeroCount<V>(s: seq<Scored<V>>)
    ensures |NonZero(s)| + |WithScore(s, 0)| == |s|
  {
    if s != [] {
      NonZeroCount(s[..|s| - 1]);
    }
  }

  /** The filter leaves every non-zero score class as it is and empties the zero class. */
  lemma {:induction false} NonZeroWithScore<V>(s: seq<Scored<V>>, k: int)
    ensures WithScore(NonZero(s), k) == if k == 0 then [] else WithScore(s, k)
  {
    if s != [] {
      var init, last := s[..|s| - 1], s[|s| - 1];
      NonZeroWithScore(init, k);
      assert WithScore(s, k) == WithScore(init, k) + (if last.score == k then [last] else []);
      if last.score != 0 {
        assert NonZero(s) == NonZero(init) + [last];
        WithScoreSnoc(NonZero(init), last, k);
      } else {
        assert NonZero(s) == NonZero(init);
      }
    }
  }

  /** Dropping entries keeps a descending sequence descending. */
  lemma {:induction false} NonZeroSorted<V>(s: seq<Scored<V>>)
    requires SortedDesc(s)
    ensures SortedDesc(NonZero(s))
  {
    if s != [] {
      var init, last := s[..|s| - 1], s[|s| - 1];
      NonZeroSorted(init);
      NonZeroMembers(init);
      var r := NonZero(init);
      forall i | 0 <= i < |r| ensures r[i].score >= last.score {
        assert r[i] in init;
      }
    }
  }

  /** The truncation keeps a descending prefix of at most ten entries. */
  lemma TopPrefix<V>(sorted: seq<Scored<V>>)
    ensures |Top(sorted)| <= MaxResults && Top(sorted) <= sorted
    ensures multiset(Top(sorted)) <= multiset(sorted)
    ensures SortedDesc(sorted) ==> SortedDesc(Top(sorted))
  {
    assert sorted == Top(sorted) + sorted[|Top(sorted)|..];
  }

  /** What truncating and filtering keep of any descending permutation of `all`. */
  lemma SelectBounds<V>(sorted: seq<Scored<V>>, all: seq<Scored<V>>)
    requires SortedDesc(sorted) && multiset(sorted) == multiset(all)
    ensures |NonZero(Top(sorted))| <= MaxResults
    ensures SortedDesc(NonZero(Top(sorted)))
    ensures forall x :: x in NonZero(Top(sorted)) ==> x.score != 0
    ensures multiset(NonZero(Top(sorted))) <= multiset(all)
  {
    var top := Top(sorted);
    TopPrefix(sorted);
    NonZeroMembers(top);
    NonZeroCount(top);
    NonZeroSorted(top);
  }

  /** The returned list has at most ten entries, is in descending score order, holds no
      zero score, and draws each entry from the scored records. */
  lemma RankBounds<V>(all: seq<Scored<V>>)
    ensures |Rank(all)| <= MaxResults
    ensures SortedDesc(Rank(all))
    ensures forall i :: 0 <= i < |Rank(all)| ==> Rank(all)[i].score != 0
    ensures multiset(Rank(all)) <= multiset(all)
  {
    SortDescIsStableSort(all);
    SelectBounds(SortDesc(all), all);
    var r := Rank(all);
    forall i | 0 <= i < |r| ensures r[i].score != 0 {
      assert r[i] in r;
    }
  }

  lemma SortDescLength<V>(s: seq<Scored<V>>)
    ensures |SortDesc(s)| == |s|
  {
    SortDescIsStableSort(s);
    assert |multiset(SortDesc(s))| == |multiset(s)|;
  }

  /** Truncating and filtering keep, for each non-zero score, a prefix of its entries. */
  lemma SelectStable<V>(sorted: seq<Scored<V>>, k: int)
    ensures k != 0 ==> WithScore(NonZero(Top(sorted)), k) <= WithScore(sorted, k)
    ensures WithScore(NonZero(Top(sorted)), 0) == []
  {
    var top := Top(sorted);
    NonZeroWithScore(top, k);
    NonZeroWithScore(top, 0);
    assert sorted == top + sorted[|top|..];
    WithScoreAppend(top, sorted[|top|..], k);
  }

  /** Stability of the ranking: the entries of each non-zero score in the result are the
      earliest-discovered entries of that score, in discovery order; none of score zero
      is returned. */
  lemma RankStable<V>(all: seq<Scored<V>>, k: int)
    ensures k != 0 ==> WithScore(Rank(all), k) <= WithScore(all, k)
    ensures WithScore(Rank(all), 0) == []
  {
    SortDescIsStableSort(all);
    SelectStable(SortDesc(all), k);
  }

  /** Zero scores are dropped after the truncation, so every zero among the first ten
      sorted entries costs the result a place instead of letting a lower entry move up. */
  lemma RankZeroShrinks<V>(all: seq<Scored<V>>)
    ensures |Rank(all)| + |WithScore(Top(SortDesc(all)), 0)|
         == if |all| < MaxResults then |all| else MaxResults
  {
    SortDescLength(all);
    NonZeroCount(Top(SortDesc(all)));
  }

  /** Every returned entry scores at least as high as every entry the truncation cut off. */
  lemma RankOutscoresCutOff<V>(all: seq<Scored<V>>)
    ensures forall x, j ::
              x in Rank(all) && MaxResults <= j < |SortDesc(all)| ==> x.score >= SortDesc(all)[j].score
  {
    var sorted := SortDesc(all);
    SortDescIsStableSort(all);
    var top := Top(sorted);
    NonZeroMembers(top);
    forall x, j | x in Rank(all) && MaxResults <= j < |sorted|
      ensures x.score >= sorted[j].score
    {
      assert x in top;
      var i :| 0 <= i < |top| && top[i] == x;
      assert sorted[i] == x;
    }
  }

  /** When every entry is truthy the filter keeps them all. */
  lemma {:induction false} NonZeroAllTruthy<V>(s: seq<Scored<V>>)
    requires forall i :: 0 <= i < |s| ==> s[i].score != 0
    ensures NonZero(s) == s
  {
    if s != [] {
      NonZeroAllTruthy(s[..|s| - 1]);
    }
  }

  /** Records scored 5, 5 and 3, discovered in that order, are returned in that order. */
  lemma RankEqualScoresInDiscoveryOrder<V>(a: Scored<V>, b: Scored<V>, c: Scored<V>)
    requires a.score == 5 && b.score == 5 && c.score == 3
    ensures Rank([a, b, c]) == [a, b, c]
  {
    SortDescOfSorted([a, b, c]);
    assert Top([a, b, c]) == [a, b, c];
    NonZeroAllTruthy([a, b, c]);
  }

  /** A record of equal score discovered later stays behind an earlier one even when a
      lower-scored record was discovered between them. */
  lemma RankTieAcrossLowerScore<V>(a: Scored<V>, b: Scored<V>, c: Scored<V>)
    requires a.score == 5 && b.score == 5 && c.score == 3
    ensures Rank([a, c, b]) == [a, b, c]
  {
    assert [a, c, b][..2] == [a, c] && [a, c][..1] == [a] && [a][..0] == [];
    assert SortDesc([a]) == InsertDesc(a, []) == [a];
    assert SortDesc([a, c]) == InsertDesc(c, [a]) == [a, c];
    assert [a, c][..1] == [a];
    assert InsertDesc(b, [a]) == [a, b];
    assert InsertDesc(b, [a, c]) == [a, b, c];
    assert SortDesc([a, c, b]) == [a, b, c];
    assert Top([a, b, c]) == [a, b, c];
    NonZeroAllTruthy([a, b, c]);
  }

}
