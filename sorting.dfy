/**
 * Ordering of query results. The ORM's `ORDER BY` gives some ordering that is
 * sorted by the key; ties may come back in any order. The model uses an
 * insertion sort under a total preorder `le` and proves that its result is
 * sorted and a permutation of its input.
 */
module Sorting {

  ghost predicate TotalPreorder<T(!new)>(le: (T, T) -> bool) {
    && (forall a, b :: le(a, b) || le(b, a))
    && (forall a, b, c :: le(a, b) && le(b, c) ==> le(a, c))
  }

  predicate SortedBy<T>(s: seq<T>, le: (T, T) -> bool) {
    forall i, j :: 0 <= i < j < |s| ==> le(s[i], s[j])
  }

  /** `s` with `x` inserted before the first element it does not follow. */
  function Insert<T>(x: T, s: seq<T>, le: (T, T) -> bool): (r: seq<T>)
  {
    if s == [] then [x]
    else if le(x, s[0]) then [x] + s
    else [s[0]] + Insert(x, s[1..], le)
  }

  function InsertionSort<T>(s: seq<T>, le: (T, T) -> bool): (r: seq<T>)
  {
    if s == [] then [] else Insert(s[0], InsertionSort(s[1..], le), le)
  }

  lemma {:induction false} InsertPermutes<T>(x: T, s: seq<T>, le: (T, T) -> bool)
    ensures multiset(Insert(x, s, le)) == multiset(s) + multiset{x}
    ensures |Insert(x, s, le)| == |s| + 1
  {
    if s != [] && !le(x, s[0]) {
      InsertPermutes(x, s[1..], le);
      assert s == [s[0]] + s[1..];
    }
  }

  lemma {:induction false} InsertSorted<T(!new)>(x: T, s: seq<T>, le: (T, T) -> bool)
    requires TotalPreorder(le)
    requires SortedBy(s, le)
    ensures SortedBy(Insert(x, s, le), le)
  {
    if s != [] && !le(x, s[0]) {
      var tail := s[1..];
      assert SortedBy(tail, le);
      InsertSorted(x, tail, le);
      InsertPermutes(x, tail, le);
      var r := Insert(x, s, le);
      var t := Insert(x, tail, le);
      assert r == [s[0]] + t;
      forall j | 0 < j < |r| ensures le(s[0], r[j]) {
        assert r[j] in multiset(t);
        assert r[j] in multiset(tail) + multiset{x};
        if r[j] != x {
          assert r[j] in tail;
        }
      }
    }
  }

  /** The sort returns the same elements, sorted by `le`. */
  lemma {:induction false} InsertionSortCorrect<T(!new)>(s: seq<T>, le: (T, T) -> bool)
    requires TotalPreorder(le)
    ensures SortedBy(InsertionSort(s, le), le)
    ensures multiset(InsertionSort(s, le)) == multiset(s)
  {
    if s != [] {
      InsertionSortCorrect(s[1..], le);
      InsertSorted(s[0], InsertionSort(s[1..], le), le);
      InsertPermutes(s[0], InsertionSort(s[1..], le), le);
      assert s == [s[0]] + s[1..];
    }
  }
  // ---------------------------------------------------------------------
  // Filtering

  /** `xs.filter(keep)`: the elements `keep` accepts, in order. */
  function Filter<T(!new)>(xs: seq<T>, keep: T -> bool): (r: seq<T>)
    ensures |r| <= |xs|
    ensures forall x :: x in r <==> x in xs && keep(x)
    ensures multiset(r) <= multiset(xs)
  {
    if xs == [] then []
    else
      var n := |xs| - 1;
      assert xs == xs[..n] + [xs[n]];
      Filter(xs[..n], keep) + (if keep(xs[n]) then [xs[n]] else [])
  }

  /** Filtering keeps the order of what it keeps. */
  lemma {:induction false} FilterKeepsOrder<T(!new)>(xs: seq<T>, keep: T -> bool, le: (T, T) -> bool)
    requires SortedBy(xs, le)
    ensures SortedBy(Filter(xs, keep), le)
  {
    if xs != [] {
      var n := |xs| - 1;
      var front := xs[..n];
      assert SortedBy(front, le) by {
        forall i, j | 0 <= i < j < |front| ensures le(front[i], front[j]) {
          assert front[i] == xs[i] && front[j] == xs[j];
        }
      }
      var init := Filter(front, keep);
      FilterKeepsOrder(front, keep, le);
      if keep(xs[n]) {
        var r := init + [xs[n]];
        forall i, j | 0 <= i < j < |r| ensures le(r[i], r[j]) {
          if j < |init| {
            assert r[i] == init[i] && r[j] == init[j];
          } else {
            assert r[i] == init[i] && init[i] in init && r[j] == xs[n];
            var m :| 0 <= m < |front| && front[m] == init[i];
            assert front[m] == xs[m];
          }
        }
      }
    }
  }
}
