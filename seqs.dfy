/** Sequence helpers used by several modules: element-wise mapping and flattening. */
module Seqs {
  function Map<T, U>(s: seq<T>, f: T -> U): (r: seq<U>)
    ensures |r| == |s|
    ensures forall i :: 0 <= i < |s| ==> r[i] == f(s[i])
  {
    if s == [] then [] else [f(s[0])] + Map(s[1..], f)
  }

  lemma {:induction false} MapConcat<T, U>(a: seq<T>, b: seq<T>, f: T -> U)
    ensures Map(a + b, f) == Map(a, f) + Map(b, f)
  {
    if a == [] {
      assert a + b == b;
    } else {
      assert (a + b)[1..] == a[1..] + b;
      MapConcat(a[1..], b, f);
    }
  }

  /** The set of the elements of `s`. */
  function Elements<T>(s: seq<T>): set<T> {
    set x | x in s
  }

  /** Mapping a rearrangement gives a rearrangement of the mapped sequence. */
  lemma {:induction false} MapPermutation<T, U>(s: seq<T>, t: seq<T>, f: T -> U)
    requires multiset(s) == multiset(t)
    ensures multiset(Map(s, f)) == multiset(Map(t, f))
    decreases |s|
  {
    if s == [] {
      assert t == [];
    } else {
      var k := Match(s, t);
      MapPermutation(s[1..], t[..k] + t[k + 1..], f);
      MapRemove(t, k, f);
      MapRemove(s, 0, f);
      assert s[..0] + s[1..] == s[1..];
    }
  }

  /** Where the first element of `s` sits in a rearrangement `t` of it; the rest of both are rearrangements. */
  ghost function Match<T>(s: seq<T>, t: seq<T>): (k: nat)
    requires s != [] && multiset(s) == multiset(t)
    ensures k < |t| && t[k] == s[0]
    ensures multiset(s[1..]) == multiset(t[..k] + t[k + 1..])
  {
    assert s[0] in multiset(t);
    assert s[0] in t;
    var k :| 0 <= k < |t| && t[k] == s[0];
    calc {
      multiset(s[1..]) + multiset{s[0]};
      { assert s == [s[0]] + s[1..]; }
      multiset(s);
      multiset(t);
      { RemoveAt(t, k); }
      multiset(t[..k] + t[k + 1..]) + multiset{s[0]};
    }
    Cancel(multiset(s[1..]), multiset(t[..k] + t[k + 1..]), s[0]);
    k
  }

  /** One occurrence added to both sides cancels. */
  lemma Cancel<T>(a: multiset<T>, b: multiset<T>, x: T)
    requires a + multiset{x} == b + multiset{x}
    ensures a == b
  {
    forall y ensures a[y] == b[y] {
      assert (a + multiset{x})[y] == (b + multiset{x})[y];
    }
  }

  /** Taking out the element at `k` takes one occurrence of it out of the multiset. */
  lemma RemoveAt<T>(t: seq<T>, k: nat)
    requires k < |t|
    ensures multiset(t) == multiset(t[..k] + t[k + 1..]) + multiset{t[k]}
  {
    assert t == t[..k] + [t[k]] + t[k + 1..];
  }

  /** Mapping a sequence maps the element at `k` and the rest. */
  lemma MapRemove<T, U>(t: seq<T>, k: nat, f: T -> U)
    requires k < |t|
    ensures multiset(Map(t, f)) == multiset(Map(t[..k] + t[k + 1..], f)) + multiset{f(t[k])}
  {
    assert t == t[..k] + t[k..];
    assert t[k..][1..] == t[k + 1..];
    MapConcat(t[..k], t[k..], f);
    MapConcat(t[..k], t[k + 1..], f);
  }

  /** The concatenation of a sequence of sequences. */
  function Flatten<T>(ss: seq<seq<T>>): seq<T> {
    if ss == [] then [] else Flatten(ss[..|ss| - 1]) + ss[|ss| - 1]
  }

  lemma FlattenSnoc<T>(ss: seq<seq<T>>, s: seq<T>)
    ensures Flatten(ss + [s]) == Flatten(ss) + s
  {
    assert (ss + [s])[..|ss + [s]| - 1] == ss;
  }

  /** Two sequences that agree before position `y` agree before every earlier position. */
  lemma PrefixAgree<T>(s: seq<T>, t: seq<T>, x: nat, y: nat)
    requires x <= y <= |s| && y <= |t|
    requires s[..y] == t[..y]
    ensures s[..x] == t[..x]
  {
    assert forall i :: 0 <= i < x ==> s[i] == s[..y][i] && t[i] == t[..y][i];
  }

  /** Every entry of `s` is a position below `n`. */
  predicate Below(s: seq<nat>, n: nat) {
    forall i :: 0 <= i < |s| ==> s[i] < n
  }

  /** No element occurs twice. */
  predicate Distinct<T(==)>(s: seq<T>) {
    forall i, j :: 0 <= i < j < |s| ==> s[i] != s[j]
  }

  /** Dropping the last element keeps a sequence free of duplicates, and the dropped one is not in the rest. */
  lemma DistinctPrefix<T>(s: seq<T>)
    requires Distinct(s) && s != []
    ensures Distinct(s[..|s| - 1]) && s[|s| - 1] !in s[..|s| - 1]
  {
  }

  /** Appending a new element keeps a sequence free of duplicates. */
  lemma DistinctSnoc<T>(s: seq<T>, x: T)
    requires Distinct(s) && x !in s
    ensures Distinct(s + [x])
  {
  }

  /** In a sequence without duplicates, equal elements sit at equal positions. */
  lemma DistinctIndex<T>(s: seq<T>, i: int, j: int)
    requires Distinct(s) && 0 <= i < |s| && 0 <= j < |s|
    ensures s[i] == s[j] <==> i == j
  {
  }

  /** A sequence without duplicates holds each value at most once. */
  lemma {:induction false} DistinctCount<T>(s: seq<T>, x: T)
    requires Distinct(s)
    ensures multiset(s)[x] <= 1
  {
    if s != [] {
      var init := s[..|s| - 1];
      DistinctPrefix(s);
      DistinctCount(init, x);
      assert s == init + [s[|s| - 1]];
    }
  }

  /** A rearrangement of a sequence without duplicates has none either. */
  lemma DistinctPerm<T>(s: seq<T>, t: seq<T>)
    requires Distinct(s) && multiset(s) == multiset(t)
    ensures Distinct(t)
  {
    forall i, j | 0 <= i < j < |t| ensures t[i] != t[j] {
      if t[i] == t[j] {
        var x := t[i];
        assert t == t[..j] + [x] + t[j + 1..];
        assert x in t[..j];
        DistinctCount(s, x);
        assert false;
      }
    }
  }

  /** A sequence without duplicates has as many elements as its set. */
  lemma {:induction false} DistinctCard<T>(s: seq<T>)
    requires Distinct(s)
    ensures |set e | e in s| == |s|
  {
    if s != [] {
      var init := s[..|s| - 1];
      DistinctCard(init);
      assert (set e | e in s) == (set e | e in init) + {s[|s| - 1]};
    }
  }
}
