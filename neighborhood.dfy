/**
 * What the breadth-first clusterings of `neighbor` and `dbscan` share: the
 * input wrapped with its positions, the distance between wrapped elements,
 * the neighbour query answered by a vantage-point tree over the wrapped
 * input, and the pass that flags and queues the neighbours that are not in a
 * cluster yet. The `in_cluster` and `neg_checked` attributes of the wrapped
 * elements are arrays of flags indexed by input position.
 */
module Neighborhood {
  import opened Seqs
  import VpTree

  // ---------------------------------------------------------------- wrapped elements

  /** `_ElementInfo`: an element and its position in the input. */
  datatype Info<V> = Info(id: nat, element: V)

  function Id<V>(info: Info<V>): nat {
    info.id
  }

  /** `tuple(map(lambda el: _ElementInfo(el), elements))`. */
  function Infos<V>(elements: seq<V>): (r: seq<Info<V>>)
    ensures |r| == |elements|
    ensures forall i :: 0 <= i < |r| ==> r[i] == Info(i, elements[i])
  {
    seq(|elements|, i requires 0 <= i < |elements| => Info(i, elements[i]))
  }

  /** `_InfoDistance`: the distance between the wrapped elements. */
  function InfoDistance<V>(distance: (V, V) -> real): (Info<V>, Info<V>) -> real {
    (a: Info<V>, b: Info<V>) => distance(a.element, b.element)
  }

  /** Wrapping keeps a metric a metric: the distance ignores the positions. */
  lemma InfoMetric<V(!new)>(distance: (V, V) -> real)
    requires VpTree.Metric(distance)
    ensures VpTree.Metric(InfoDistance(distance))
  {
    var d := InfoDistance(distance);
    forall x: Info<V> ensures d(x, x) == 0.0 {
      assert distance(x.element, x.element) == 0.0;
    }
    forall x: Info<V>, y: Info<V> ensures d(x, y) == d(y, x) {
      assert distance(x.element, y.element) == distance(y.element, x.element);
    }
    forall x: Info<V>, y: Info<V>, z: Info<V> ensures d(x, z) <= d(x, y) + d(y, z) {
      assert distance(x.element, z.element) <= distance(x.element, y.element) + distance(y.element, z.element);
    }
  }

  /** The tree `vptree.VpTree(elements_info, _InfoDistance(distance_func))` as built. */
  ghost predicate TreeOf<V(!new)>(t: VpTree.Tree<Info<V>>, elements: seq<V>, distance: (V, V) -> real) {
    VpTree.Valid(t) && t.distance == InfoDistance(distance) && VpTree.TreeValues(t) == multiset(Infos(elements))
  }

  // ---------------------------------------------------------------- neighbourhoods

  /** Elements `x` and `y` are closer than `bandwidth`. */
  predicate Near<V>(elements: seq<V>, distance: (V, V) -> real, bandwidth: real, x: nat, y: nat) {
    x < |elements| && y < |elements| && distance(elements[x], elements[y]) < bandwidth
  }

  /** The positions below `m` of the elements closer than `bandwidth` to element `x`, in increasing order. */
  function Within<V>(elements: seq<V>, distance: (V, V) -> real, bandwidth: real, x: nat, m: nat): (r: seq<nat>)
    requires x < |elements| && m <= |elements|
    ensures forall k: nat :: k in r <==> k < m && Near(elements, distance, bandwidth, x, k)
    ensures Below(r, m) && forall i, j :: 0 <= i < j < |r| ==> r[i] < r[j]
  {
    if m == 0 then []
    else
      var prev := Within(elements, distance, bandwidth, x, m - 1);
      if distance(elements[x], elements[m - 1]) < bandwidth then prev + [m - 1] else prev
  }

  /** The wrapped elements of `s` closer than `bandwidth` to `q`, in order. */
  function CloserInfos<V>(s: seq<Info<V>>, distance: (Info<V>, Info<V>) -> real, q: Info<V>, bandwidth: real): seq<Info<V>> {
    if s == [] then []
    else
      var prev := CloserInfos(s[..|s| - 1], distance, q, bandwidth);
      if distance(q, s[|s| - 1]) < bandwidth then prev + [s[|s| - 1]] else prev
  }

  lemma {:induction false} CloserCount<V>(s: seq<Info<V>>, distance: (Info<V>, Info<V>) -> real, q: Info<V>, bandwidth: real, y: Info<V>)
    ensures multiset(CloserInfos(s, distance, q, bandwidth))[y] == if distance(q, y) < bandwidth then multiset(s)[y] else 0
  {
    if s != [] {
      CloserCount(s[..|s| - 1], distance, q, bandwidth, y);
      assert s == s[..|s| - 1] + [s[|s| - 1]];
    }
  }

  lemma {:induction false} CloserIds<V>(elements: seq<V>, distance: (V, V) -> real, bandwidth: real, x: nat, m: nat)
    requires x < |elements| && m <= |elements|
    ensures Map(CloserInfos(Infos(elements)[..m], InfoDistance(distance), Infos(elements)[x], bandwidth), Id)
         == Within(elements, distance, bandwidth, x, m)
  {
    if m > 0 {
      var infos := Infos(elements);
      assert infos[..m][..m - 1] == infos[..m - 1];
      CloserIds(elements, distance, bandwidth, x, m - 1);
      var prev := CloserInfos(infos[..m - 1], InfoDistance(distance), infos[x], bandwidth);
      MapConcat(prev, [infos[m - 1]], Id);
    }
  }

  /** The positions of the pairs `tree.neighbors(elements_info[x], bandwidth)` reports, in the tree's order. */
  function NeighborIds<V>(t: VpTree.Tree<Info<V>>, elements: seq<V>, bandwidth: real, x: nat): seq<nat>
    requires x < |elements|
  {
    Map(Map(VpTree.Neighbors(t, Infos(elements)[x], bandwidth), VpTree.Second), Id)
  }

  /**
   * The tree reports every element closer than `bandwidth` exactly once:
   * its positions are a rearrangement of `Within`, so there are as many
   * pairs as close elements.
   */
  lemma NeighborIdsCorrect<V(!new)>(t: VpTree.Tree<Info<V>>, elements: seq<V>, distance: (V, V) -> real, bandwidth: real, x: nat)
    requires VpTree.Metric(distance) && TreeOf(t, elements, distance) && x < |elements|
    ensures multiset(NeighborIds(t, elements, bandwidth, x)) == multiset(Within(elements, distance, bandwidth, x, |elements|))
    ensures |VpTree.Neighbors(t, Infos(elements)[x], bandwidth)| == |Within(elements, distance, bandwidth, x, |elements|)|
  {
    var infos := Infos(elements);
    var r := VpTree.Neighbors(t, infos[x], bandwidth);
    var closer := CloserInfos(infos, InfoDistance(distance), infos[x], bandwidth);
    NeighborInfos(t, elements, distance, bandwidth, x);
    MapPermutation(Map(r, VpTree.Second), closer, Id);
    assert infos[..|elements|] == infos;
    CloserIds(elements, distance, bandwidth, x, |elements|);
    assert |Map(Map(r, VpTree.Second), Id)| == |multiset(Map(closer, Id))|;
  }

  /** The wrapped elements the tree reports are a rearrangement of the close ones in input order. */
  lemma NeighborInfos<V(!new)>(t: VpTree.Tree<Info<V>>, elements: seq<V>, distance: (V, V) -> real, bandwidth: real, x: nat)
    requires VpTree.Metric(distance) && TreeOf(t, elements, distance) && x < |elements|
    ensures multiset(Map(VpTree.Neighbors(t, Infos(elements)[x], bandwidth), VpTree.Second))
         == multiset(CloserInfos(Infos(elements), InfoDistance(distance), Infos(elements)[x], bandwidth))
  {
    var infos := Infos(elements);
    var d := InfoDistance(distance);
    InfoMetric(distance);
    VpTree.NeighborsCorrect(t, infos[x], bandwidth);
    var r := VpTree.Neighbors(t, infos[x], bandwidth);
    var closer := CloserInfos(infos, d, infos[x], bandwidth);
    forall y ensures multiset(Map(r, VpTree.Second))[y] == multiset(closer)[y] {
      CloserCount(infos, d, infos[x], bandwidth, y);
    }
  }

  /** Membership form of `NeighborIdsCorrect`. */
  lemma NeighborIdsMembers<V(!new)>(t: VpTree.Tree<Info<V>>, elements: seq<V>, distance: (V, V) -> real, bandwidth: real, x: nat)
    requires VpTree.Metric(distance) && TreeOf(t, elements, distance) && x < |elements|
    ensures forall j :: j in NeighborIds(t, elements, bandwidth, x) <==> Near(elements, distance, bandwidth, x, j)
    ensures |NeighborIds(t, elements, bandwidth, x)| == |Within(elements, distance, bandwidth, x, |elements|)|
    ensures Below(NeighborIds(t, elements, bandwidth, x), |elements|)
  {
    NeighborIdsCorrect(t, elements, distance, bandwidth, x);
    var ids := NeighborIds(t, elements, bandwidth, x);
    var w := Within(elements, distance, bandwidth, x, |elements|);
    forall j ensures j in ids <==> j in w {
      assert j in ids <==> j in multiset(ids);
      assert j in w <==> j in multiset(w);
    }
    forall i | 0 <= i < |ids| ensures ids[i] < |elements| {
      assert ids[i] in ids;
    }
  }

  // ---------------------------------------------------------------- flagging and queueing

  /**
   * The neighbours in `ids` not flagged in `flags`, each once and in order:
   * what `map(_check_in_cluster, filter(lambda el: not el.in_cluster, ...))`
   * draws, since every element drawn is flagged before the next is examined.
   */
  function Fresh(flags: seq<bool>, ids: seq<nat>): (r: seq<nat>)
    requires Below(ids, |flags|)
    ensures forall j: nat :: j in r <==> j in ids && j < |flags| && !flags[j]
    ensures Below(r, |flags|)
    ensures Distinct(r)
  {
    if ids == [] then []
    else
      var prev := Fresh(flags, ids[..|ids| - 1]);
      var last := ids[|ids| - 1];
      if !flags[last] && last !in prev then prev + [last] else prev
  }

  /** The flags `f` with the positions in `ids` set as well. */
  function Flagged(f: seq<bool>, ids: seq<nat>): (r: seq<bool>)
    ensures |r| == |f| && forall j :: 0 <= j < |f| ==> r[j] == (f[j] || j in ids)
  {
    seq(|f|, j requires 0 <= j < |f| => f[j] || j in ids)
  }

  /**
   * `deque(neg_els)` and `targets.extend(...)`: flags the fresh neighbours
   * (`_check_in_cluster`) and appends them to the queue.
   */
  method Enqueue(flags: array<bool>, ids: seq<nat>, queue: seq<nat>) returns (queue': seq<nat>)
    requires Below(ids, flags.Length)
    modifies flags
    ensures queue' == queue + Fresh(old(flags[..]), ids)
    ensures flags[..] == Flagged(old(flags[..]), ids)
  {
    ghost var before := flags[..];
    queue' := queue;
    for k := 0 to |ids|
      invariant queue' == queue + Fresh(before, ids[..k])
      invariant flags[..] == Flagged(before, ids[..k])
    {
      assert ids[..k + 1][..k] == ids[..k];
      var j := ids[k];
      assert j in ids;
      if !flags[j] {
        flags[j] := true;
        queue' := queue' + [j];
      }
    }
    assert ids[..|ids|] == ids;
  }

  /**
   * The flags `f` are the flags `f0` with the positions of `order` set, and
   * `order` lists distinct positions none of which was flagged in `f0`.
   */
  ghost predicate Tracked(f0: seq<bool>, f: seq<bool>, order: seq<nat>) {
    |f| == |f0| && Distinct(order) && Below(order, |f|)
    && (forall i :: 0 <= i < |order| ==> !f0[order[i]])
    && forall j :: 0 <= j < |f| ==> f[j] == (f0[j] || j in order)
  }

  /** Queueing the added neighbours `ids` keeps the flags in step with the queue. */
  lemma TrackedEnqueue(f0: seq<bool>, f: seq<bool>, f': seq<bool>, order: seq<nat>, ids: seq<nat>)
    requires Tracked(f0, f, order) && Below(ids, |f|)
    requires f' == Flagged(f, ids)
    ensures Tracked(f0, f', order + Fresh(f, ids))
  {
    var added := Fresh(f, ids);
    forall x | x in order ensures x !in added {
      var i :| 0 <= i < |order| && order[i] == x;
    }
    DistinctConcat(order, added);
    forall i | 0 <= i < |order + added| ensures !f0[(order + added)[i]] {
      if i >= |order| {
        assert (order + added)[i] == added[i - |order|];
        assert added[i - |order|] in added;
      }
    }
  }

  // ---------------------------------------------------------------- cluster shapes

  /** Every neighbour of a member of `s` is in `s`. */
  ghost predicate Closed<V>(elements: seq<V>, distance: (V, V) -> real, bandwidth: real, s: seq<nat>) {
    forall x: nat, y: nat :: x in s && Near(elements, distance, bandwidth, x, y) ==> y in s
  }

  /**
   * The position of the first of `s[m]`, ..., `s[k - 1]` that is a neighbour
   * of `s[k]`, or `k` when none is.
   */
  function FirstNear<V>(elements: seq<V>, distance: (V, V) -> real, bandwidth: real, s: seq<nat>, k: nat, m: nat): (r: nat)
    requires m <= k < |s|
    ensures m <= r <= k
    ensures r < k ==> Near(elements, distance, bandwidth, s[r], s[k])
    ensures forall i :: m <= i < r ==> !Near(elements, distance, bandwidth, s[i], s[k])
    decreases k - m
  {
    if m == k then k
    else if Near(elements, distance, bandwidth, s[m], s[k]) then m
    else FirstNear(elements, distance, bandwidth, s, k, m + 1)
  }

  /** Where `s[k]` was reached from: the first earlier element that is its neighbour (`k` when none is). */
  function Parent<V>(elements: seq<V>, distance: (V, V) -> real, bandwidth: real, s: seq<nat>, k: nat): nat
    requires k < |s|
  {
    FirstNear(elements, distance, bandwidth, s, k, 0)
  }

  /** The parent of an element depends only on the elements up to it. */
  lemma {:induction false} FirstNearPrefix<V>(elements: seq<V>, distance: (V, V) -> real, bandwidth: real, s: seq<nat>, t: seq<nat>, k: nat, m: nat)
    requires m <= k < |s|
    ensures FirstNear(elements, distance, bandwidth, s + t, k, m) == FirstNear(elements, distance, bandwidth, s, k, m)
    decreases k - m
  {
    assert (s + t)[m] == s[m] && (s + t)[k] == s[k];
    if m < k {
      FirstNearPrefix(elements, distance, bandwidth, s, t, k, m + 1);
    }
  }

  /** Every element of `s` after the first has an earlier neighbour among the first `p` elements. */
  ghost predicate LinkedFrom<V>(elements: seq<V>, distance: (V, V) -> real, bandwidth: real, s: seq<nat>, p: nat) {
    forall k :: 0 < k < |s| ==> Parent(elements, distance, bandwidth, s, k) < k && Parent(elements, distance, bandwidth, s, k) < p
  }

  /** Every position below `n` occurs exactly once in the clusters. */
  ghost predicate Partition(ids: seq<seq<nat>>, n: nat) {
    Distinct(Flatten(ids)) && forall j: nat :: j in Flatten(ids) <==> j < n
  }

  /** The clusters as elements: cluster `c` lists `elements[j]` for its positions `j`. */
  function ElementsAt<V>(elements: seq<V>, s: seq<nat>): (r: seq<V>)
    requires Below(s, |elements|)
    ensures |r| == |s| && forall k :: 0 <= k < |s| ==> r[k] == elements[s[k]]
  {
    seq(|s|, k requires 0 <= k < |s| => elements[s[k]])
  }

  /** The yielded clusters are the elements at the positions `ids`. */
  ghost predicate Listed<V>(elements: seq<V>, clusters: seq<seq<V>>, ids: seq<seq<nat>>) {
    |clusters| == |ids| && forall c :: 0 <= c < |ids| ==> Below(ids[c], |elements|) && clusters[c] == ElementsAt(elements, ids[c])
  }

  lemma ListedSnoc<V>(elements: seq<V>, clusters: seq<seq<V>>, ids: seq<seq<nat>>, members: seq<nat>)
    requires Listed(elements, clusters, ids) && Below(members, |elements|)
    ensures Listed(elements, clusters + [ElementsAt(elements, members)], ids + [members])
  {
    var clusters', ids' := clusters + [ElementsAt(elements, members)], ids + [members];
    forall c | 0 <= c < |ids'| ensures Below(ids'[c], |elements|) && clusters'[c] == ElementsAt(elements, ids'[c]) {
      if c < |ids| {
        assert ids'[c] == ids[c] && clusters'[c] == clusters[c];
      }
    }
  }

  /** Every neighbour of element `x` is flagged in `f`. */
  ghost predicate Covered<V>(elements: seq<V>, distance: (V, V) -> real, bandwidth: real, f: seq<bool>, x: nat) {
    forall y: nat :: Near(elements, distance, bandwidth, x, y) ==> y < |f| && f[y]
  }

  /** Flagging the neighbours `ids` of `x` covers `x`. */
  lemma CoveredByFlagging<V>(elements: seq<V>, distance: (V, V) -> real, bandwidth: real, f: seq<bool>, x: nat, ids: seq<nat>)
    requires |f| == |elements|
    requires forall j :: j in ids <==> Near(elements, distance, bandwidth, x, j)
    ensures Covered(elements, distance, bandwidth, Flagged(f, ids), x)
  {
  }

  /** Flagging more keeps an element covered. */
  lemma CoveredKept<V>(elements: seq<V>, distance: (V, V) -> real, bandwidth: real, f: seq<bool>, x: nat, ids: seq<nat>)
    requires Covered(elements, distance, bandwidth, f, x)
    ensures Covered(elements, distance, bandwidth, Flagged(f, ids), x)
  {
  }

  /** Moving the head of the queue to the members leaves the order unchanged. */
  lemma PopAppend(members: seq<nat>, queue: seq<nat>, added: seq<nat>)
    requires queue != []
    ensures (members + [queue[0]]) + (queue[1..] + added) == (members + queue) + added
  {
    assert queue == [queue[0]] + queue[1..];
  }

  /** Every neighbour of an element of the first `c` clusters is in the first `c` clusters. */
  ghost predicate PrefixClosed<V>(elements: seq<V>, distance: (V, V) -> real, bandwidth: real, ids: seq<seq<nat>>) {
    forall c :: 0 <= c <= |ids| ==> Closed(elements, distance, bandwidth, Flatten(ids[..c]))
  }

  /** The first `c + 1` clusters flatten to the first `c` followed by cluster `c`. */
  lemma FlattenLast<T>(ss: seq<seq<T>>, c: nat)
    requires c < |ss|
    ensures Flatten(ss[..c + 1]) == Flatten(ss[..c]) + ss[c]
  {
    assert ss[..c + 1][..c] == ss[..c];
  }

  /**
   * Flags that mark exactly the clustered positions still do so once the
   * positions a new cluster flagged are added as a cluster.
   */
  lemma AddCluster(f0: seq<bool>, f: seq<bool>, ids: seq<seq<nat>>, members: seq<nat>)
    requires Distinct(Flatten(ids)) && Below(Flatten(ids), |f0|)
    requires forall j :: 0 <= j < |f0| ==> f0[j] == (j in Flatten(ids))
    requires Tracked(f0, f, members)
    ensures Distinct(Flatten(ids + [members])) && Below(Flatten(ids + [members]), |f|)
    ensures forall j :: 0 <= j < |f| ==> f[j] == (j in Flatten(ids + [members]))
  {
    FlattenSnoc(ids, members);
    forall x | x in Flatten(ids) ensures x !in members {
      var k :| 0 <= k < |Flatten(ids)| && Flatten(ids)[k] == x;
    }
    DistinctConcat(Flatten(ids), members);
  }

  /**
   * Every cluster is closed under the neighbour relation: because a
   * neighbour of a later cluster's member lying in an earlier cluster would,
   * by symmetry, pull that member into the earlier cluster too.
   */
  lemma ClusterClosed<V(!new)>(elements: seq<V>, distance: (V, V) -> real, bandwidth: real, ids: seq<seq<nat>>, c: nat)
    requires VpTree.Metric(distance) && Distinct(Flatten(ids)) && PrefixClosed(elements, distance, bandwidth, ids) && c < |ids|
    ensures Closed(elements, distance, bandwidth, ids[c])
  {
    FlattenLast(ids, c);
    FlattenPrefix(ids, c + 1);
    var prefix := Flatten(ids[..c + 1]);
    DistinctSplit(Flatten(ids), |prefix|);
    DistinctSplit(prefix, |Flatten(ids[..c])|);
    assert prefix[..|Flatten(ids[..c])|] == Flatten(ids[..c]) && prefix[|Flatten(ids[..c])|..] == ids[c];
    assert Closed(elements, distance, bandwidth, Flatten(ids[..c]));
    assert Closed(elements, distance, bandwidth, prefix);
    forall x: nat, y: nat | x in ids[c] && Near(elements, distance, bandwidth, x, y) ensures y in ids[c] {
      assert x in prefix;
      if y in Flatten(ids[..c]) {
        assert Near(elements, distance, bandwidth, y, x);
      }
    }
  }

  // ---------------------------------------------------------------- sequence facts

  /** A sequence of distinct positions below `n` has at most `n` elements. */
  lemma DistinctBound(s: seq<nat>, n: nat)
    requires Distinct(s) && Below(s, n)
    ensures |s| <= n
  {
    DistinctCard(s);
    RangeCard(n);
    forall e | e in s ensures e in Range(n) {
      var i :| 0 <= i < |s| && s[i] == e;
    }
    var members := set j | j in s;
    assert members <= Range(n);
    assert Range(n) == members + (Range(n) - members);
  }

  /** The positions below `n`. */
  function Range(n: nat): (r: set<nat>)
    ensures forall j: nat :: j in r <==> j < n
  {
    if n == 0 then {} else Range(n - 1) + {n - 1}
  }

  lemma {:induction false} RangeCard(n: nat)
    ensures |Range(n)| == n
  {
    if n > 0 {
      RangeCard(n - 1);
    }
  }

  /** The clusters before `c` flatten to a prefix of all the clusters. */
  lemma {:induction false} FlattenPrefix<T>(ss: seq<seq<T>>, c: nat)
    requires c <= |ss|
    ensures |Flatten(ss[..c])| <= |Flatten(ss)| && Flatten(ss)[..|Flatten(ss[..c])|] == Flatten(ss[..c])
    decreases |ss|
  {
    if c < |ss| {
      var init := ss[..|ss| - 1];
      assert ss == init + [ss[|ss| - 1]];
      FlattenSnoc(init, ss[|ss| - 1]);
      assert init[..c] == ss[..c];
      FlattenPrefix(init, c);
    } else {
      assert ss[..c] == ss;
    }
  }

  /** In a sequence without duplicates, a prefix is without duplicates and shares nothing with the rest. */
  lemma DistinctSplit<T>(s: seq<T>, k: nat)
    requires Distinct(s) && k <= |s|
    ensures Distinct(s[..k]) && Distinct(s[k..])
    ensures forall x :: x in s[..k] ==> x !in s[k..]
  {
  }

  /** Two sequences without duplicates and without common elements concatenate to one without duplicates. */
  lemma DistinctConcat<T>(a: seq<T>, b: seq<T>)
    requires Distinct(a) && Distinct(b) && forall x :: x in a ==> x !in b
    ensures Distinct(a + b)
  {
    forall i, j | 0 <= i < j < |a + b| ensures (a + b)[i] != (a + b)[j] {
      if j < |a| {
      } else if i >= |a| {
        assert (a + b)[i] == b[i - |a|] && (a + b)[j] == b[j - |a|];
      } else {
        assert (a + b)[i] == a[i] && (a + b)[j] == b[j - |a|];
        assert a[i] in a;
      }
    }
  }
}
