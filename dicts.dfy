/**
 * Python dictionaries as the parsers use them: entries in insertion order,
 * `d[k] = v` replacing the value of a present key where it stands and
 * appending a new key at the end, and `d.get(k)`.
 */
module Dicts {
  import opened Wrappers
  import opened Seqs

  /** The keys, in insertion order (`list(d.keys())`). */
  function Keys<K, V>(d: seq<(K, V)>): (ks: seq<K>)
    ensures |ks| == |d| && forall i :: 0 <= i < |d| ==> ks[i] == d[i].0
  {
    if d == [] then [] else [d[0].0] + Keys(d[1..])
  }

  /** `d.get(k)`: the value stored under `k`, if any. */
  function Get<K(==), V>(d: seq<(K, V)>, k: K): (r: Option<V>)
    ensures r.None? <==> k !in Keys(d)
    ensures r.Some? ==> exists i :: 0 <= i < |d| && d[i].0 == k && d[i].1 == r.value
  {
    if d == [] then None
    else if d[0].0 == k then Some(d[0].1)
    else
      var r := Get(d[1..], k);
      assert Keys(d) == [d[0].0] + Keys(d[1..]);
      assert r.Some? ==> exists i :: 0 <= i < |d| - 1 && d[1..][i].0 == k && d[1..][i].1 == r.value;
      r
  }

  /** `d[k] = v`. */
  function Put<K(==), V>(d: seq<(K, V)>, k: K, v: V): (r: seq<(K, V)>)
    ensures |r| == if k in Keys(d) then |d| else |d| + 1
  {
    if d == [] then [(k, v)]
    else if d[0].0 == k then [(k, v)] + d[1..]
    else
      assert Keys(d) == [d[0].0] + Keys(d[1..]);
      [d[0]] + Put(d[1..], k, v)
  }

  /** A present key keeps its place; a new one is added at the end. */
  lemma {:induction false} PutKeys<K, V>(d: seq<(K, V)>, k: K, v: V)
    ensures Keys(Put(d, k, v)) == if k in Keys(d) then Keys(d) else Keys(d) + [k]
  {
    if d != [] && d[0].0 != k {
      var r := Put(d, k, v);
      assert r[1..] == Put(d[1..], k, v);
      assert Keys(d) == [d[0].0] + Keys(d[1..]);
      assert Keys(r) == [d[0].0] + Keys(r[1..]);
      PutKeys(d[1..], k, v);
    }
  }

  /** What was stored under `k` is what `get` returns. */
  lemma {:induction false} PutGet<K, V>(d: seq<(K, V)>, k: K, v: V)
    ensures Get(Put(d, k, v), k) == Some(v)
  {
    if d != [] && d[0].0 != k {
      var r := Put(d, k, v);
      assert r[1..] == Put(d[1..], k, v);
      PutGet(d[1..], k, v);
    }
  }

  /** Storing under `k` leaves every other key's value alone. */
  lemma {:induction false} PutOther<K, V>(d: seq<(K, V)>, k: K, v: V, j: K)
    requires j != k
    ensures Get(Put(d, k, v), j) == Get(d, j)
  {
    if d != [] && d[0].0 != k {
      var r := Put(d, k, v);
      assert r[1..] == Put(d[1..], k, v);
      if d[0].0 != j {
        PutOther(d[1..], k, v, j);
      }
    }
  }

  /** A new key goes to the end. */
  lemma {:induction false} PutNew<K, V>(d: seq<(K, V)>, k: K, v: V)
    requires k !in Keys(d)
    ensures Put(d, k, v) == d + [(k, v)]
  {
    if d != [] {
      assert Keys(d) == [d[0].0] + Keys(d[1..]);
      PutNew(d[1..], k, v);
      assert d == [d[0]] + d[1..];
    }
  }

  /** Storing twice under the same key keeps the second value in the first one's place. */
  lemma {:induction false} PutTwice<K, V>(d: seq<(K, V)>, k: K, v: V, w: V)
    ensures Put(Put(d, k, v), k, w) == Put(d, k, w)
  {
    if d != [] && d[0].0 != k {
      assert Put(d, k, v)[1..] == Put(d[1..], k, v);
      PutTwice(d[1..], k, v, w);
    }
  }

  /** A dictionary never holds a key twice. */
  lemma PutDistinct<K, V>(d: seq<(K, V)>, k: K, v: V)
    requires Distinct(Keys(d))
    ensures Distinct(Keys(Put(d, k, v)))
  {
    PutKeys(d, k, v);
    if k !in Keys(d) {
      DistinctSnoc(Keys(d), k);
    }
  }

  /** The keys of two dictionaries laid end to end. */
  lemma KeysAppend<K, V>(a: seq<(K, V)>, b: seq<(K, V)>)
    ensures Keys(a + b) == Keys(a) + Keys(b)
  {
  }

  /** `d[k].append(x)` when `k` is present, `d[k] = [x]` when it is not. */
  function Append<K(==), V>(d: seq<(K, seq<V>)>, k: K, x: V): seq<(K, seq<V>)> {
    var g := Get(d, k);
    if g.Some? then Put(d, k, g.value + [x]) else Put(d, k, [x])
  }

  /** A list as a dictionary of lists holds it: absent while empty. */
  function Listed<V>(xs: seq<V>): Option<seq<V>> {
    if xs == [] then None else Some(xs)
  }

  /** Appending under `k` extends the list of `k` by one and leaves every other list alone. */
  lemma AppendGet<K, V>(d: seq<(K, seq<V>)>, k: K, x: V, j: K, xs: seq<V>)
    requires Get(d, j) == Listed(xs)
    ensures Get(Append(d, k, x), j) == Listed(xs + (if k == j then [x] else []))
  {
    var g := Get(d, k);
    var l := if g.Some? then g.value + [x] else [x];
    assert Append(d, k, x) == Put(d, k, l);
    if k == j {
      assert l == xs + [x] by {
        if xs == [] {
          assert [] + [x] == [x];
        }
      }
      assert Listed(xs + [x]) == Some(l);
      PutGet(d, k, l);
    } else {
      PutOther(d, k, l, j);
      assert xs + [] == xs;
    }
  }
}
