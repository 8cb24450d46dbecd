/**
 * Python's `sorted(xs, key=...)` and `list.sort(key=...)`: a stable sort by
 * a key. A stable sort by a key is unique, so the model defines it as an
 * insertion sort and proves the three properties that characterise it:
 * the result is ordered by the key, is a permutation of the input, and keeps
 * the input order among elements with equal keys.
 */
module Sorting {
  ghost predicate SortedBy<T>(s: seq<T>, key: T -> real) {
    forall i, j :: 0 <= i < j < |s| ==> key(s[i]) <= key(s[j])
  }

  /** The elements of `s` whose key is `k`, in their order in `s`. */
  function WithKey<T>(s: seq<T>, key: T -> real, k: real): seq<T> {
    if s == [] then []
    else WithKey(s[..|s| - 1], key, k) + (if key(s[|s| - 1]) == k then [s[|s| - 1]] else [])
  }

  /** Places `x` after every element of `s` whose key is not greater than its own. */
  function Insert<T>(s: seq<T>, x: T, key: T -> real): seq<T> {
    if s == [] || key(s[|s| - 1]) <= key(x) then s + [x]
    else Insert(s[..|s| - 1], x, key) + [s[|s| - 1]]
  }

  function SortBy<T>(s: seq<T>, key: T -> real): seq<T> {
    if s == [] then [] else Insert(SortBy(s[..|s| - 1], key), s[|s| - 1], key)
  }

  lemma {:induction false} WithKeySnoc<T>(s: seq<T>, y: T, key: T -> real, k: real)
    ensures WithKey(s + [y], key, k) == WithKey(s, key, k) + (if key(y) == k then [y] else [])
  {
    assert (s + [y])[..|s + [y]| - 1] == s;
  }

  lemma {:induction false} InsertPermutes<T>(s: seq<T>, x: T, key: T -> real)
    ensures |Insert(s, x, key)| == |s| + 1
    ensures multiset(Insert(s, x, key)) == multiset(s) + multiset{x}
  {
    if !(s == [] || key(s[|s| - 1]) <= key(x)) {
      InsertPermutes(s[..|s| - 1], x, key);
      assert s == s[..|s| - 1] + [s[|s| - 1]];
    }
  }

  lemma {:induction false} InsertSorted<T>(s: seq<T>, x: T, key: T -> real)
    requires SortedBy(s, key)
    ensures SortedBy(Insert(s, x, key), key)
  {
    if !(s == [] || key(s[|s| - 1]) <= key(x)) {
      var init, last := s[..|s| - 1], s[|s| - 1];
      InsertSorted(init, x, key);
      InsertPermutes(init, x, key);
      var r := Insert(init, x, key);
      forall i | 0 <= i < |r| ensures key(r[i]) <= key(last) {
        assert r[i] in multiset(init) + multiset{x};
        if r[i] in multiset(init) {
          var j :| 0 <= j < |init| && init[j] == r[i];
          assert s[j] == r[i];
        }
      }
    }
  }

  lemma {:induction false} InsertWithKey<T>(s: seq<T>, x: T, key: T -> real, k: real)
    ensures WithKey(Insert(s, x, key), key, k) == WithKey(s, key, k) + (if key(x) == k then [x] else [])
  {
    if s == [] || key(s[|s| - 1]) <= key(x) {
      WithKeySnoc(s, x, key, k);
    } else {
      var init, last := s[..|s| - 1], s[|s| - 1];
      InsertWithKey(init, x, key, k);
      WithKeySnoc(Insert(init, x, key), last, key, k);
      WithKeySnoc(init, last, key, k);
      assert s == init + [last];
    }
  }

  /** `sorted` orders its result by the key. */
  lemma {:induction false} SortByIsSorted<T>(s: seq<T>, key: T -> real)
    ensures SortedBy(SortBy(s, key), key)
  {
    if s != [] {
      SortByIsSorted(s[..|s| - 1], key);
      InsertSorted(SortBy(s[..|s| - 1], key), s[|s| - 1], key);
    }
  }

  /** `sorted` returns a rearrangement of its input. */
  lemma {:induction false} SortByIsPermutation<T>(s: seq<T>, key: T -> real)
    ensures |SortBy(s, key)| == |s|
    ensures multiset(SortBy(s, key)) == multiset(s)
  {
    if s != [] {
      SortByIsPermutation(s[..|s| - 1], key);
      InsertPermutes(SortBy(s[..|s| - 1], key), s[|s| - 1], key);
      assert s == s[..|s| - 1] + [s[|s| - 1]];
    }
  }

  /** `sorted` is stable: among elements with equal keys the input order is kept. */
  lemma {:induction false} SortByIsStable<T>(s: seq<T>, key: T -> real, k: real)
    ensures WithKey(SortBy(s, key), key, k) == WithKey(s, key, k)
  {
    if s != [] {
      SortByIsStable(s[..|s| - 1], key, k);
      InsertWithKey(SortBy(s[..|s| - 1], key), s[|s| - 1], key, k);
      assert s == s[..|s| - 1] + [s[|s| - 1]];
    }
  }

  /** `x` occurs before `y` in `s`. */
  ghost predicate Precedes<T>(s: seq<T>, x: T, y: T) {
    exists i, j :: 0 <= i < j < |s| && s[i] == x && s[j] == y
  }

  lemma {:induction false} WithKeyMember<T>(s: seq<T>, key: T -> real, k: real, x: T)
    ensures x in WithKey(s, key, k) <==> x in s && key(x) == k
  {
    if s != [] {
      var init, last := s[..|s| - 1], s[|s| - 1];
      WithKeyMember(init, key, k, x);
      assert s == init + [last];
    }
  }

  /** Filtering by a key keeps the order of two elements with that key. */
  lemma {:induction false} WithKeyKeepsOrder<T>(s: seq<T>, key: T -> real, k: real, x: T, y: T)
    requires Precedes(s, x, y) && key(x) == k && key(y) == k
    ensures Precedes(WithKey(s, key, k), x, y)
  {
    var init, last := s[..|s| - 1], s[|s| - 1];
    var w := WithKey(init, key, k);
    var i, j :| 0 <= i < j < |s| && s[i] == x && s[j] == y;
    if j < |s| - 1 {
      assert init[i] == x && init[j] == y;
      WithKeyKeepsOrder(init, key, k, x, y);
      var i', j' :| 0 <= i' < j' < |w| && w[i'] == x && w[j'] == y;
      assert WithKey(s, key, k)[i'] == x && WithKey(s, key, k)[j'] == y;
    } else {
      assert init[i] == x;
      WithKeyMember(init, key, k, x);
      var i' :| 0 <= i' < |w| && w[i'] == x;
      assert WithKey(s, key, k) == w + [y];
      assert WithKey(s, key, k)[i'] == x && WithKey(s, key, k)[|w|] == y;
    }
  }

  /** Two elements in order among those with one key are in that order in the whole sequence. */
  lemma {:induction false} WithKeyShowsOrder<T>(s: seq<T>, key: T -> real, k: real, x: T, y: T)
    requires Precedes(WithKey(s, key, k), x, y)
    ensures Precedes(s, x, y)
  {
    var init, last := s[..|s| - 1], s[|s| - 1];
    var w := WithKey(init, key, k);
    var ws := WithKey(s, key, k);
    var i, j :| 0 <= i < j < |ws| && ws[i] == x && ws[j] == y;
    if j < |w| {
      assert w[i] == x && w[j] == y;
      WithKeyShowsOrder(init, key, k, x, y);
      var i', j' :| 0 <= i' < j' < |init| && init[i'] == x && init[j'] == y;
      assert s[i'] == x && s[j'] == y;
    } else {
      assert ws == w + [last] && y == last;
      assert w[i] == x;
      WithKeyMember(init, key, k, x);
      var i' :| 0 <= i' < |init| && init[i'] == x;
      assert s[i'] == x && s[|s| - 1] == y;
    }
  }

  /** A stable sort keeps two elements with equal keys in their input order. */
  lemma StableOrder<T>(s: seq<T>, key: T -> real, x: T, y: T)
    requires Precedes(s, x, y) && key(x) == key(y)
    ensures Precedes(SortBy(s, key), x, y)
  {
    WithKeyKeepsOrder(s, key, key(x), x, y);
    SortByIsStable(s, key, key(x));
    WithKeyShowsOrder(SortBy(s, key), key, key(x), x, y);
  }

  /** Collects the three facts above for callers. */
  lemma SortByFacts<T>(s: seq<T>, key: T -> real)
    ensures |SortBy(s, key)| == |s|
    ensures multiset(SortBy(s, key)) == multiset(s)
    ensures SortedBy(SortBy(s, key), key)
  {
    SortByIsSorted(s, key);
    SortByIsPermutation(s, key);
  }
}
