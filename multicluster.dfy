/**
 * Combining the clusters found for several probes (`main/multicluster.py`):
 * summing the weights of elements that several sources share, and merging
 * clusters that overlap by at least a given rate.
 */
module MultiCluster {
  import opened Seqs
  import opened ClusterData

  // ---------------------------------------------------------------- sum_elements

  /** One entry of `multi_elements`: the elements, the weight getter and the source's id. */
  datatype Source<!E, I> = Source(elements: seq<E>, weight: E -> real, id: I)

  /** The weight of `el`, once for each of its occurrences in `s`. */
  function RowWeight<E(==, !new)>(s: seq<E>, w: E -> real, el: E): real {
    if s == [] then 0.0
    else RowWeight(s[..|s| - 1], w, el) + (if s[|s| - 1] == el then w(el) else 0.0)
  }

  /** The summed weight of `el` over all sources. */
  function TotalWeight<E(==, !new), I>(sources: seq<Source<E, I>>, el: E): real {
    if sources == [] then 0.0
    else
      var last := sources[|sources| - 1];
      TotalWeight(sources[..|sources| - 1], el) + RowWeight(last.elements, last.weight, el)
  }

  /** The ids of the sources in which `el` occurs. */
  function ElementIds<E(==, !new), I>(sources: seq<Source<E, I>>, el: E): set<I> {
    if sources == [] then {}
    else
      var last := sources[|sources| - 1];
      ElementIds(sources[..|sources| - 1], el) + (if el in last.elements then {last.id} else {})
  }

  /** `m` holds, for every element of some source, its total weight and its source ids. */
  ghost predicate Summed<E(!new), I>(m: map<E, (real, set<I>)>, sources: seq<Source<E, I>>) {
    (forall el :: el in m <==> ElementIds(sources, el) != {})
    && forall el :: el in m ==> m[el].0 == TotalWeight(sources, el) && m[el].1 == ElementIds(sources, el)
  }

  /** `x` added up `c` times. */
  function Times(c: nat, x: real): real {
    if c == 0 then 0.0 else Times(c - 1, x) + x
  }

  /** Adding up `c` times is multiplying by `c`. */
  lemma {:induction false} TimesIsProduct(c: nat, x: real)
    ensures Times(c, x) == c as real * x
  {
    if c > 0 {
      TimesIsProduct(c - 1, x);
      assert (c - 1) as real * x + x == c as real * x;
    }
  }

  /** A row weight counts the occurrences: the weight added up once per occurrence. */
  lemma {:induction false} RowWeightCount<E(!new)>(s: seq<E>, w: E -> real, el: E)
    ensures RowWeight(s, w, el) == Times(multiset(s)[el], w(el))
  {
    if s != [] {
      var init, last := s[..|s| - 1], s[|s| - 1];
      RowWeightCount(init, w, el);
      assert s == init + [last];
      assert multiset(s) == multiset(init) + multiset{last};
    }
  }

  lemma RowWeightSnoc<E(!new)>(s: seq<E>, j: nat, w: E -> real, el: E)
    requires j < |s|
    ensures RowWeight(s[..j + 1], w, el) == RowWeight(s[..j], w, el) + (if s[j] == el then w(el) else 0.0)
  {
    assert s[..j + 1][..j] == s[..j];
  }

  /** An element that occurs nowhere has no weight. */
  lemma {:induction false} RowWeightAbsent<E(!new)>(s: seq<E>, w: E -> real, el: E)
    requires el !in s
    ensures RowWeight(s, w, el) == 0.0
  {
    if s != [] {
      RowWeightAbsent(s[..|s| - 1], w, el);
    }
  }

  lemma {:induction false} TotalWeightAbsent<E(!new), I>(sources: seq<Source<E, I>>, el: E)
    requires ElementIds(sources, el) == {}
    ensures TotalWeight(sources, el) == 0.0
  {
    if sources != [] {
      var last := sources[|sources| - 1];
      TotalWeightAbsent(sources[..|sources| - 1], el);
      RowWeightAbsent(last.elements, last.weight, el);
    }
  }

  /** The source ids of an element are exactly the ids of the sources that contain it. */
  lemma {:induction false} ElementIdsMeaning<E(!new), I>(sources: seq<Source<E, I>>, el: E, id: I)
    ensures id in ElementIds(sources, el) <==> exists k :: 0 <= k < |sources| && el in sources[k].elements && sources[k].id == id
  {
    if sources != [] {
      var init := sources[..|sources| - 1];
      ElementIdsMeaning(init, el, id);
      assert forall k :: 0 <= k < |init| ==> init[k] == sources[k];
    }
  }

  /** The sum over `sources` and the first `j` elements of `src`. */
  ghost predicate PartSummed<E(!new), I>(m: map<E, (real, set<I>)>, sources: seq<Source<E, I>>, src: Source<E, I>, j: nat)
    requires j <= |src.elements|
  {
    var done := src.elements[..j];
    (forall el :: el in m <==> ElementIds(sources, el) != {} || el in done)
    && forall el :: el in m ==>
         m[el].0 == TotalWeight(sources, el) + RowWeight(done, src.weight, el)
         && m[el].1 == ElementIds(sources, el) + (if el in done then {src.id} else {})
  }

  lemma PartSummedStart<E(!new), I>(m: map<E, (real, set<I>)>, sources: seq<Source<E, I>>, src: Source<E, I>)
    requires Summed(m, sources)
    ensures PartSummed(m, sources, src, 0)
  {
    assert src.elements[..0] == [];
  }

  lemma PartSummedDone<E(!new), I>(m: map<E, (real, set<I>)>, sources: seq<Source<E, I>>, src: Source<E, I>)
    requires PartSummed(m, sources, src, |src.elements|)
    ensures Summed(m, sources + [src])
  {
    assert src.elements[..|src.elements|] == src.elements;
    assert (sources + [src])[..|sources|] == sources;
  }

  /** The map after adding weight `x` and id `id` for element `el`. */
  function Added<E, I>(m: map<E, (real, set<I>)>, el: E, x: real, id: I): map<E, (real, set<I>)> {
    if el in m then m[el := (x + m[el].0, m[el].1 + {id})] else m[el := (x, {id})]
  }

  /** One element of `src` added to the sum. */
  lemma AddStep<E(!new), I>(m: map<E, (real, set<I>)>, m': map<E, (real, set<I>)>,
                            sources: seq<Source<E, I>>, src: Source<E, I>, j: nat)
    requires j < |src.elements| && PartSummed(m, sources, src, j)
    requires m' == Added(m, src.elements[j], src.weight(src.elements[j]), src.id)
    ensures PartSummed(m', sources, src, j + 1)
  {
    var el, w := src.elements[j], src.weight;
    var done, done' := src.elements[..j], src.elements[..j + 1];
    assert done' == done + [el];
    forall x | x in m'
      ensures m'[x].0 == TotalWeight(sources, x) + RowWeight(done', w, x)
      ensures m'[x].1 == ElementIds(sources, x) + (if x in done' then {src.id} else {})
    {
      RowWeightSnoc(src.elements, j, w, x);
      if x == el && el !in m {
        TotalWeightAbsent(sources, el);
        RowWeightAbsent(done, w, el);
      }
    }
  }

  /** Adding a source to the sum: the inner loop of `sum_elements`. */
  method AddSource<E(==, !new), I(==)>(m0: map<E, (real, set<I>)>, src: Source<E, I>, ghost sources: seq<Source<E, I>>)
    returns (m: map<E, (real, set<I>)>)
    requires Summed(m0, sources)
    ensures Summed(m, sources + [src])
  {
    var elements := src.elements;
    m := m0;
    PartSummedStart(m, sources, src);
    for j := 0 to |elements|
      invariant PartSummed(m, sources, src, j)
    {
      var el := elements[j];
      ghost var prev := m;
      if el in m {
        var (v, s) := m[el];
        m := m[el := (src.weight(el) + v, s + {src.id})];
      } else {
        m := m[el := (src.weight(el), {src.id})];
      }
      assert m == Added(prev, el, src.weight(el), src.id);
      AddStep(prev, m, sources, src, j);
    }
    PartSummedDone(m, sources, src);
  }

  /**
   * `sum_elements`: for each element of any source, its weight summed over
   * all its occurrences and the set of the ids of the sources it occurs in.
   */
  method SumElements<E(==, !new), I(==)>(sources: seq<Source<E, I>>) returns (m: map<E, (real, set<I>)>)
    ensures forall el :: el in m <==> ElementIds(sources, el) != {}
    ensures forall el :: el in m ==> m[el].0 == TotalWeight(sources, el) && m[el].1 == ElementIds(sources, el)
  {
    m := map[];
    for i := 0 to |sources|
      invariant Summed(m, sources[..i])
    {
      assert sources[..i + 1] == sources[..i] + [sources[i]];
      m := AddSource(m, sources[i], sources[..i]);
    }
    assert sources[..|sources|] == sources;
  }

  // ---------------------------------------------------------------- marge_clusters

  /** One entry of `clusters`: the cluster's elements and its id. */
  datatype Cluster<E, I> = Cluster(elements: seq<E>, id: I)

  /** The numbers below `n` of the clusters that contain `el`. */
  function HoldersBelow<E(==, !new), I>(clusters: seq<Cluster<E, I>>, n: nat, el: E): (r: set<nat>)
    requires n <= |clusters|
    ensures forall i: nat :: i in r <==> i < n && el in clusters[i].elements
  {
    set i: nat | i < n && el in clusters[i].elements
  }

  /** `all_table`: each element of any cluster mapped to the numbers of all clusters that contain it. */
  ghost predicate HoldersOk<E(!new), I>(holders: map<E, set<nat>>, clusters: seq<Cluster<E, I>>) {
    (forall el :: el in holders <==> HoldersBelow(clusters, |clusters|, el) != {})
    && forall el :: el in holders ==> holders[el] == HoldersBelow(clusters, |clusters|, el)
  }

  /** `all_table` after clusters below `i` and the first `j` elements of cluster `i`. */
  ghost predicate PartIndexed<E(!new), I>(holders: map<E, set<nat>>, clusters: seq<Cluster<E, I>>, i: nat, j: nat)
    requires i < |clusters| && j <= |clusters[i].elements|
  {
    var done := clusters[i].elements[..j];
    (forall el :: el in holders <==> HoldersBelow(clusters, i, el) != {} || el in done)
    && forall el :: el in holders ==> holders[el] == HoldersBelow(clusters, i, el) + (if el in done then {i} else {})
  }

  /** The map after recording that cluster `i` holds `el`. */
  function Recorded<E>(holders: map<E, set<nat>>, el: E, i: nat): map<E, set<nat>> {
    if el in holders then holders[el := holders[el] + {i}] else holders[el := {i}]
  }

  /** One element of cluster `i` recorded. */
  lemma IndexStep<E(!new), I>(holders: map<E, set<nat>>, holders': map<E, set<nat>>,
                              clusters: seq<Cluster<E, I>>, i: nat, j: nat)
    requires i < |clusters| && j < |clusters[i].elements| && PartIndexed(holders, clusters, i, j)
    requires holders' == Recorded(holders, clusters[i].elements[j], i)
    ensures PartIndexed(holders', clusters, i, j + 1)
  {
    var elements := clusters[i].elements;
    assert elements[..j + 1] == elements[..j] + [elements[j]];
  }

  /** With all of cluster `i` recorded, the table covers the clusters below `i + 1`. */
  lemma IndexDone<E(!new), I>(holders: map<E, set<nat>>, clusters: seq<Cluster<E, I>>, i: nat)
    requires i < |clusters| && PartIndexed(holders, clusters, i, |clusters[i].elements|)
    ensures forall el :: el in holders <==> HoldersBelow(clusters, i + 1, el) != {}
    ensures forall el :: el in holders ==> holders[el] == HoldersBelow(clusters, i + 1, el)
  {
    var elements := clusters[i].elements;
    assert elements[..|elements|] == elements;
    forall el ensures HoldersBelow(clusters, i + 1, el) == HoldersBelow(clusters, i, el) + (if el in elements then {i} else {}) {
    }
  }

  /** The inner loop of the first pass of `marge_clusters`: records that cluster `i` contains its elements. */
  method IndexCluster<E(==, !new), I>(holders0: map<E, set<nat>>, clusters: seq<Cluster<E, I>>, i: nat)
    returns (holders: map<E, set<nat>>)
    requires i < |clusters|
    requires forall el :: el in holders0 <==> HoldersBelow(clusters, i, el) != {}
    requires forall el :: el in holders0 ==> holders0[el] == HoldersBelow(clusters, i, el)
    ensures forall el :: el in holders <==> HoldersBelow(clusters, i + 1, el) != {}
    ensures forall el :: el in holders ==> holders[el] == HoldersBelow(clusters, i + 1, el)
  {
    var elements := clusters[i].elements;
    holders := holders0;
    assert elements[..0] == [];
    for j := 0 to |elements|
      invariant PartIndexed(holders, clusters, i, j)
    {
      var el := elements[j];
      ghost var prev := holders;
      if el in holders {
        holders := holders[el := holders[el] + {i}];
      } else {
        holders := holders[el := {i}];
      }
      assert holders == Recorded(prev, el, i);
      IndexStep(prev, holders, clusters, i, j);
    }
    IndexDone(holders, clusters, i);
  }

  /** The first pass of `marge_clusters`: builds `all_table`. */
  method IndexClusters<E(==, !new), I>(clusters: seq<Cluster<E, I>>) returns (holders: map<E, set<nat>>)
    ensures HoldersOk(holders, clusters)
  {
    holders := map[];
    for i := 0 to |clusters|
      invariant forall el :: el in holders <==> HoldersBelow(clusters, i, el) != {}
      invariant forall el :: el in holders ==> holders[el] == HoldersBelow(clusters, i, el)
    {
      holders := IndexCluster(holders, clusters, i);
    }
  }

  /** The number of positions of `s` whose element occurs in `t`. */
  function SharedIn<E(==)>(s: seq<E>, t: seq<E>): (n: nat)
    ensures n <= |s|
  {
    if s == [] then 0 else SharedIn(s[..|s| - 1], t) + (if s[|s| - 1] in t then 1 else 0)
  }

  /** Some position is shared exactly when the two sequences have an element in common. */
  lemma {:induction false} SharedInPositive<E>(s: seq<E>, t: seq<E>)
    ensures SharedIn(s, t) > 0 <==> exists x :: x in s && x in t
  {
    if s != [] {
      var init, last := s[..|s| - 1], s[|s| - 1];
      SharedInPositive(init, t);
      assert s == init + [last];
      assert forall x :: x in s <==> x in init || x == last;
    }
  }

  /** How many elements of cluster `i`, counted with repetition, lie in cluster `k`. */
  function Shared<E(==, !new), I>(clusters: seq<Cluster<E, I>>, i: nat, k: nat): nat
    requires i < |clusters| && k < |clusters|
  {
    SharedIn(clusters[i].elements, clusters[k].elements)
  }

  /** `math.ceil`. */
  function Ceil(x: real): (c: int)
    ensures x <= c as real < x + 1.0
  {
    if x.Floor as real == x then x.Floor else x.Floor + 1
  }

  /** `th` of `marge_clusters` for cluster `i`: its element count times the rate, rounded up. */
  function Threshold<E, I>(clusters: seq<Cluster<E, I>>, thRate: real, i: nat): int
    requires i < |clusters|
  {
    Ceil(|clusters[i].elements| as real * thRate)
  }

  /**
   * Whether `marge_clusters` joins cluster `i` with cluster `k`: `k` is
   * another cluster sharing elements with `i`, and at least the rate
   * `thRate` of the elements of `i`, rounded up, lie in `k`.
   */
  predicate Qualifies<E(==, !new), I>(clusters: seq<Cluster<E, I>>, thRate: real, i: nat, k: nat) {
    i < |clusters| && k < |clusters| && k != i
    && Shared(clusters, i, k) > 0
    && Shared(clusters, i, k) >= Threshold(clusters, thRate, i)
  }

  /** With a rate of at most 0, any two clusters that touch are joined. */
  lemma ZeroRateJoinsTouching<E(!new), I>(clusters: seq<Cluster<E, I>>, thRate: real, i: nat, k: nat)
    requires thRate <= 0.0 && i < |clusters| && k < |clusters| && i != k
    ensures Qualifies(clusters, thRate, i, k) <==> exists x :: x in clusters[i].elements && x in clusters[k].elements
  {
    SharedInPositive(clusters[i].elements, clusters[k].elements);
    assert |clusters[i].elements| as real * thRate <= 0.0;
  }

  /** With a rate above 1, no two clusters are joined. */
  lemma HighRateJoinsNothing<E(!new), I>(clusters: seq<Cluster<E, I>>, thRate: real, i: nat, k: nat)
    requires thRate > 1.0
    ensures !Qualifies(clusters, thRate, i, k)
  {
    if i < |clusters| && k < |clusters| && Shared(clusters, i, k) > 0 {
      var n := |clusters[i].elements|;
      assert Shared(clusters, i, k) <= n;
      var x := n as real * thRate;
      AboveOne(n as real, thRate);
      assert Ceil(x) as real >= x > n as real;
      assert Threshold(clusters, thRate, i) == Ceil(x);
    }
  }

  lemma AboveOne(n: real, r: real)
    requires n > 0.0 && r > 1.0
    ensures n * r > n
  {
    assert n * r - n == n * (r - 1.0);
  }

  /**
   * The loop over `all_table[el]` without `i`: counts one more shared
   * element for each of those cluster numbers, keeping the insertion order
   * of `other_count`. The set is visited in an unspecified order.
   */
  method BumpOthers(count0: map<nat, nat>, order0: seq<nat>, holders: set<nat>, i: nat)
    returns (count: map<nat, nat>, order: seq<nat>)
    requires Distinct(order0) && forall k :: k in count0 <==> k in order0
    ensures Distinct(order) && forall k :: k in count <==> k in order
    ensures forall k :: k in count <==> k in count0 || (k in holders && k != i)
    ensures forall k :: k in count ==>
              count[k] == (if k in count0 then count0[k] else 0) + (if k in holders && k != i then 1 else 0)
  {
    count, order := count0, order0;
    var rest := holders;
    while rest != {}
      invariant rest <= holders
      invariant Distinct(order) && forall k :: k in count <==> k in order
      invariant forall k :: k in count <==> k in count0 || (k in holders - rest && k != i)
      invariant forall k :: k in count ==>
                  count[k] == (if k in count0 then count0[k] else 0) + (if k in holders - rest && k != i then 1 else 0)
      decreases |rest|
    {
      var other :| other in rest;
      if other != i {
        if other in count {
          count := count[other := count[other] + 1];
        } else {
          DistinctSnoc(order, other);
          count, order := count[other := 1], order + [other];
        }
      }
      rest := rest - {other};
    }
  }

  /** The counting loop of `marge_clusters` for cluster `i`: `other_count`, its key order, and `n_el`. */
  method CountOthers<E(==, !new), I>(clusters: seq<Cluster<E, I>>, holders: map<E, set<nat>>, i: nat)
    returns (count: map<nat, nat>, order: seq<nat>, nEl: nat)
    requires i < |clusters| && HoldersOk(holders, clusters)
    ensures nEl == |clusters[i].elements|
    ensures Distinct(order) && forall k :: k in count <==> k in order
    ensures forall k: nat :: k in count <==> k < |clusters| && k != i && Shared(clusters, i, k) > 0
    ensures forall k :: k in count ==> count[k] == Shared(clusters, i, k)
  {
    var elements := clusters[i].elements;
    count, order, nEl := map[], [], 0;
    for j := 0 to |elements|
      invariant nEl == j
      invariant Distinct(order) && forall k :: k in count <==> k in order
      invariant forall k: nat :: k in count <==> k < |clusters| && k != i && SharedIn(elements[..j], clusters[k].elements) > 0
      invariant forall k :: k in count ==> k < |clusters| && count[k] == SharedIn(elements[..j], clusters[k].elements)
    {
      var el := elements[j];
      nEl := nEl + 1;
      assert elements[..j + 1][..j] == elements[..j];
      assert i in HoldersBelow(clusters, |clusters|, el);
      count, order := BumpOthers(count, order, holders[el], i);
    }
    assert elements[..|elements|] == elements;
  }

  /** The pairs `(i, k)` that `marge_clusters` joins with `i` below `below`, all listed in `done`. */
  ghost predicate AllListed<E(!new), I>(clusters: seq<Cluster<E, I>>, thRate: real, below: nat, done: seq<(nat, nat)>) {
    forall i: nat, k: nat :: i < below && Qualifies(clusters, thRate, i, k) ==> (i, k) in done
  }

  /** The pairs `(i, k)`, in the order of `order`, whose count reaches the threshold `th`. */
  function Picked(i: nat, order: seq<nat>, count: map<nat, nat>, th: int): seq<(nat, nat)>
    requires forall q :: 0 <= q < |order| ==> order[q] in count
  {
    if order == [] then []
    else
      var last := order[|order| - 1];
      Picked(i, order[..|order| - 1], count, th) + (if count[last] >= th then [(i, last)] else [])
  }

  lemma {:induction false} PickedMembers(i: nat, order: seq<nat>, count: map<nat, nat>, th: int, p: (nat, nat))
    requires forall q :: 0 <= q < |order| ==> order[q] in count
    ensures p in Picked(i, order, count, th) <==> p.0 == i && p.1 in order && count[p.1] >= th
  {
    if order != [] {
      var init, last := order[..|order| - 1], order[|order| - 1];
      PickedMembers(i, init, count, th, p);
      assert order == init + [last];
    }
  }

  lemma PickedSnoc(i: nat, order: seq<nat>, count: map<nat, nat>, th: int, t: nat, done0: seq<(nat, nat)>)
    requires t < |order| && forall q :: 0 <= q < |order| ==> order[q] in count
    ensures done0 + Picked(i, order[..t + 1], count, th)
            == done0 + Picked(i, order[..t], count, th) + (if count[order[t]] >= th then [(i, order[t])] else [])
  {
    assert order[..t + 1][..t] == order[..t];
  }

  /** After the merging loop for cluster `i`, every pair `(i, k)` that qualifies is listed. */
  lemma RowListed<E(!new), I>(clusters: seq<Cluster<E, I>>, thRate: real, i: nat, count: map<nat, nat>, order: seq<nat>,
                             th: int, done0: seq<(nat, nat)>, done: seq<(nat, nat)>)
    requires i < |clusters| && th == Threshold(clusters, thRate, i)
    requires forall k :: k in count <==> k in order
    requires forall k: nat :: k in count <==> k < |clusters| && k != i && Shared(clusters, i, k) > 0
    requires forall k :: k in count ==> count[k] == Shared(clusters, i, k)
    requires AllListed(clusters, thRate, i, done0) && done == done0 + Picked(i, order, count, th)
    ensures AllListed(clusters, thRate, i + 1, done)
  {
    forall i': nat, k: nat | i' < i + 1 && Qualifies(clusters, thRate, i', k) ensures (i', k) in done {
      if i' == i {
        assert k in count && count[k] == Shared(clusters, i, k) >= th;
        assert k in order;
        PickedMembers(i, order, count, th, (i, k));
        assert (i, k) in Picked(i, order, count, th);
      } else {
        assert (i', k) in done0;
      }
    }
  }

  /** Every pair in `done` qualifies. */
  ghost predicate AllQualify<E(!new), I>(clusters: seq<Cluster<E, I>>, thRate: real, done: seq<(nat, nat)>) {
    forall q :: 0 <= q < |done| ==> Qualifies(clusters, thRate, done[q].0, done[q].1)
  }

  /** The merging loop for cluster `i` joins only pairs that qualify. */
  lemma RowQualified<E(!new), I>(clusters: seq<Cluster<E, I>>, thRate: real, i: nat, count: map<nat, nat>, order: seq<nat>,
                                th: int, done0: seq<(nat, nat)>, done: seq<(nat, nat)>)
    requires i < |clusters| && th == Threshold(clusters, thRate, i)
    requires forall k :: k in count <==> k in order
    requires forall k: nat :: k in count <==> k < |clusters| && k != i && Shared(clusters, i, k) > 0
    requires forall k :: k in count ==> count[k] == Shared(clusters, i, k)
    requires AllQualify(clusters, thRate, done0) && done == done0 + Picked(i, order, count, th)
    ensures AllQualify(clusters, thRate, done)
  {
    forall q | 0 <= q < |done| ensures Qualifies(clusters, thRate, done[q].0, done[q].1) {
      if q >= |done0| {
        var p := done[q];
        assert p in Picked(i, order, count, th);
        PickedMembers(i, order, count, th, p);
        assert p.1 in count;
      }
    }
  }

  /** The loop over `other_count`: joins cluster `i` with each cluster whose count reaches `th`. */
  method JoinRow(table: ClusterTable<nat>, i: nat, order: seq<nat>, count: map<nat, nat>, th: int, ghost done0: seq<(nat, nat)>)
    returns (ghost done: seq<(nat, nat)>, ghost merges: nat)
    requires table.Valid() && i in table.links
    requires forall q :: 0 <= q < |order| ==> order[q] in count && order[q] in table.links
    requires PairsJoined(table.links, table.rank, done0) && RootsLinked(table.links, table.rank, done0)
    modifies table
    ensures table.Valid() && table.keys == old(table.keys) && table.links.Keys == old(table.links.Keys)
    ensures PairsJoined(table.links, table.rank, done) && RootsLinked(table.links, table.rank, done)
    ensures done == done0 + Picked(i, order, count, th)
    ensures |RootsIn(table.keys, table.links)| == |RootsIn(old(table.keys), old(table.links))| - merges
  {
    done, merges := done0, 0;
    for t := 0 to |order|
      invariant table.Valid() && table.keys == old(table.keys) && table.links.Keys == old(table.links.Keys)
      invariant PairsJoined(table.links, table.rank, done) && RootsLinked(table.links, table.rank, done)
      invariant done == done0 + Picked(i, order[..t], count, th)
      invariant |RootsIn(table.keys, table.links)| == |RootsIn(old(table.keys), old(table.links))| - merges
    {
      var k := order[t];
      PickedSnoc(i, order, count, th, t, done0);
      if count[k] >= th {
        var merged := JoinPair(table, i, k, done);
        done := done + [(i, k)];
        if merged {
          merges := merges + 1;
        }
      }
    }
    assert order[..|order|] == order;
  }

  /** The merging loop of `marge_clusters` for cluster `i`: joins it with each cluster over the threshold. */
  method MergeRow<E(==, !new), I>(table: ClusterTable<nat>, clusters: seq<Cluster<E, I>>, holders: map<E, set<nat>>,
                            thRate: real, i: nat, ghost done0: seq<(nat, nat)>)
    returns (ghost done: seq<(nat, nat)>, ghost merges: nat)
    requires i < |clusters| && HoldersOk(holders, clusters)
    requires table.Valid() && table.links.Keys == Numbers(|clusters|)
    requires PairsJoined(table.links, table.rank, done0) && AllListed(clusters, thRate, i, done0)
    requires RootsLinked(table.links, table.rank, done0) && AllQualify(clusters, thRate, done0)
    modifies table
    ensures table.Valid() && table.keys == old(table.keys) && table.links.Keys == old(table.links.Keys)
    ensures PairsJoined(table.links, table.rank, done) && AllListed(clusters, thRate, i + 1, done)
    ensures RootsLinked(table.links, table.rank, done) && AllQualify(clusters, thRate, done)
    ensures |RootsIn(table.keys, table.links)| == |RootsIn(old(table.keys), old(table.links))| - merges
  {
    var count, order, nEl := CountOthers(clusters, holders, i);
    var th := Ceil(nEl as real * thRate);
    assert th == Threshold(clusters, thRate, i);
    forall q | 0 <= q < |order| ensures order[q] in count && order[q] in table.links {
      assert order[q] in order;
    }
    done, merges := JoinRow(table, i, order, count, th, done0);
    RowListed(clusters, thRate, i, count, order, th, done0, done);
    RowQualified(clusters, thRate, i, count, order, th, done0, done);
  }

  /** The elements of the listed clusters, one cluster after the other. */
  function Chain<E, I>(clusters: seq<Cluster<E, I>>, cl: seq<nat>): seq<E>
    requires Below(cl, |clusters|)
  {
    if cl == [] then [] else Chain(clusters, cl[..|cl| - 1]) + clusters[cl[|cl| - 1]].elements
  }

  /** An element is in the chain exactly when one of the listed clusters contains it. */
  lemma {:induction false} ChainMembers<E, I>(clusters: seq<Cluster<E, I>>, cl: seq<nat>, x: E)
    requires Below(cl, |clusters|)
    ensures x in Chain(clusters, cl) <==> exists j :: j in cl && x in clusters[j].elements
  {
    if cl != [] {
      var init, last := cl[..|cl| - 1], cl[|cl| - 1];
      ChainMembers(clusters, init, x);
      assert cl == init + [last];
      assert forall j :: j in cl <==> j in init || j == last;
    }
  }

  /** The ids of the listed clusters. */
  function GroupIds<E, I>(clusters: seq<Cluster<E, I>>, cl: seq<nat>): set<I> {
    set j | j in cl && j < |clusters| :: clusters[j].id
  }

  /** The loop building `src_set`: the ids of the clusters of one group. */
  method CollectIds<E, I(==)>(clusters: seq<Cluster<E, I>>, cl: seq<nat>) returns (ids: set<I>)
    requires Below(cl, |clusters|)
    ensures ids == GroupIds(clusters, cl)
  {
    ids := {};
    for t := 0 to |cl|
      invariant ids == GroupIds(clusters, cl[..t])
    {
      assert cl[..t + 1] == cl[..t] + [cl[t]];
      ids := ids + {clusters[cl[t]].id};
    }
    assert cl[..|cl|] == cl;
  }

  /** The numbers `0, ..., n - 1`. */
  function Indices(n: nat): (r: seq<nat>)
    ensures |r| == n && forall j :: 0 <= j < n ==> r[j] == j
  {
    seq(n, j => j)
  }

  /** The cluster numbers below `n`, as a set. */
  function Numbers(n: nat): (r: set<nat>)
    ensures forall j: nat :: j in r <==> j < n
  {
    IndicesMembers(n);
    set j | j in Indices(n)
  }

  lemma IndicesMembers(n: nat)
    ensures forall j: nat :: j in Indices(n) <==> j < n
  {
    forall j: nat | j < n ensures j in Indices(n) {
      assert Indices(n)[j] == j;
    }
  }

  /** The first two passes of `marge_clusters`: a table of the cluster numbers with every qualifying pair joined. */
  method JoinQualifying<E(==, !new), I>(clusters: seq<Cluster<E, I>>, thRate: real)
    returns (table: ClusterTable<nat>, ghost done: seq<(nat, nat)>, ghost merges: nat)
    ensures fresh(table) && table.Valid() && table.keys == Indices(|clusters|)
    ensures PairsJoined(table.links, table.rank, done) && AllListed(clusters, thRate, |clusters|, done)
    ensures RootsLinked(table.links, table.rank, done) && AllQualify(clusters, thRate, done)
    ensures |RootsIn(table.keys, table.links)| == |clusters| - merges
  {
    var holders := IndexClusters(clusters);
    table := new ClusterTable(Indices(|clusters|));
    InsertOrderNew(Indices(|clusters|));
    IndicesMembers(|clusters|);
    assert table.links.Keys == Numbers(|clusters|);
    RootsInSelf(table.keys, table.links);
    RootsLinkedSelf(table.links, table.rank);
    done, merges := [], 0;
    for i := 0 to |clusters|
      invariant table.Valid() && table.keys == Indices(|clusters|)
      invariant table.links.Keys == Numbers(|clusters|)
      invariant PairsJoined(table.links, table.rank, done) && AllListed(clusters, thRate, i, done)
      invariant RootsLinked(table.links, table.rank, done) && AllQualify(clusters, thRate, done)
      invariant |RootsIn(table.keys, table.links)| == |clusters| - merges
    {
      ghost var m;
      done, m := MergeRow(table, clusters, holders, thRate, i, done);
      merges := merges + m;
    }
  }

  /** Grouping by representative puts both clusters of every qualifying pair in one group. */
  lemma QualifiedGrouped<E(!new), I>(clusters: seq<Cluster<E, I>>, thRate: real, keys: seq<nat>, links: map<nat, nat>,
                                    rank: map<nat, nat>, groups: seq<seq<nat>>, done: seq<(nat, nat)>)
    requires Grouped(keys, links, rank, groups) && PairsJoined(links, rank, done)
    requires AllListed(clusters, thRate, |clusters|, done)
    ensures forall i: nat, k: nat :: Qualifies(clusters, thRate, i, k) ==> SameCluster(groups, i, k)
  {
    GroupsPartition(keys, links, rank, groups);
    forall i: nat, k: nat | Qualifies(clusters, thRate, i, k) ensures SameCluster(groups, i, k) {
      var q :| 0 <= q < |done| && done[q] == (i, k);
    }
  }

  /** Every qualifying pair has both clusters in `S` or neither. */
  ghost predicate QualClosed<E(!new), I>(clusters: seq<Cluster<E, I>>, thRate: real, S: set<nat>) {
    forall i: nat, k: nat :: Qualifies(clusters, thRate, i, k) ==> (i in S <==> k in S)
  }

  /**
   * Clusters `i` and `k` are connected by a chain of qualifying pairs: no
   * set of cluster numbers that keeps every qualifying pair together
   * separates them.
   */
  ghost predicate Connected<E(!new), I>(clusters: seq<Cluster<E, I>>, thRate: real, i: nat, k: nat) {
    forall S: set<nat> :: QualClosed(clusters, thRate, S) ==> (i in S <==> k in S)
  }

  /** Grouping by representative puts in one group only clusters connected by qualifying pairs. */
  lemma GroupedConnected<E(!new), I>(clusters: seq<Cluster<E, I>>, thRate: real, keys: seq<nat>, links: map<nat, nat>,
                                    rank: map<nat, nat>, groups: seq<seq<nat>>, done: seq<(nat, nat)>)
    requires Grouped(keys, links, rank, groups) && RootsLinked(links, rank, done)
    requires AllQualify(clusters, thRate, done)
    ensures forall i: nat, k: nat :: SameCluster(groups, i, k) ==> Connected(clusters, thRate, i, k)
  {
    forall i: nat, k: nat | SameCluster(groups, i, k) ensures Connected(clusters, thRate, i, k) {
      SameClusterRoots(keys, links, rank, groups, i, k);
      assert Linked(done, i, k);
      forall S | QualClosed(clusters, thRate, S) ensures i in S <==> k in S {
        assert Closed(done, S);
      }
    }
  }

  /** In a partition that keeps every qualifying pair together, connected clusters share a group. */
  lemma ConnectedGrouped<E(!new), I>(clusters: seq<Cluster<E, I>>, thRate: real, groups: seq<seq<nat>>, i: nat, k: nat)
    requires IsPartition(groups, Indices(|clusters|)) && i < |clusters|
    requires forall a: nat, b: nat :: Qualifies(clusters, thRate, a, b) ==> SameCluster(groups, a, b)
    requires Connected(clusters, thRate, i, k)
    ensures SameCluster(groups, i, k)
  {
    IndicesMembers(|clusters|);
    assert i in Indices(|clusters|);
    var g :| 0 <= g < |groups| && i in groups[g];
    var S := set x | x in groups[g];
    forall a: nat, b: nat | Qualifies(clusters, thRate, a, b) ensures a in S <==> b in S {
      var h :| 0 <= h < |groups| && a in groups[h] && b in groups[h];
    }
    assert QualClosed(clusters, thRate, S);
  }

  /** The groups of a partition of the cluster numbers hold cluster numbers only. */
  lemma PartitionBelow(groups: seq<seq<nat>>, n: nat)
    requires IsPartition(groups, Indices(n))
    ensures forall g :: 0 <= g < |groups| ==> Below(groups[g], n)
  {
    IndicesMembers(n);
    forall g, q | 0 <= g < |groups| && 0 <= q < |groups[g]| ensures groups[g][q] < n {
      var x := groups[g][q];
      assert x in groups[g];
      assert x in Indices(n);
    }
  }

  /** The last loop of `marge_clusters`: each group's elements, one cluster after the other, and its ids. */
  method DescribeGroups<E, I(==)>(clusters: seq<Cluster<E, I>>, groups: seq<seq<nat>>) returns (result: seq<(seq<E>, set<I>)>)
    requires forall g :: 0 <= g < |groups| ==> Below(groups[g], |clusters|)
    ensures |result| == |groups|
    ensures forall g :: 0 <= g < |groups| ==> result[g] == (Chain(clusters, groups[g]), GroupIds(clusters, groups[g]))
  {
    result := [];
    for g := 0 to |groups|
      invariant |result| == g
      invariant forall h :: 0 <= h < g ==> result[h] == (Chain(clusters, groups[h]), GroupIds(clusters, groups[h]))
    {
      var ids := CollectIds(clusters, groups[g]);
      result := result + [(Chain(clusters, groups[g]), ids)];
    }
  }

  /** Strictly ascending cluster numbers. */
  predicate Increasing(s: seq<nat>) {
    forall i, j :: 0 <= i < j < |s| ==> s[i] < s[j]
  }

  /** Every element of an ascending prefix is below the element that follows it. */
  lemma PrefixBelow(keys: seq<nat>, x: nat)
    requires Increasing(keys) && keys != [] && x in keys[..|keys| - 1]
    ensures x < keys[|keys| - 1]
  {
    var q :| 0 <= q < |keys| - 1 && keys[..|keys| - 1][q] == x;
  }

  /** The representatives are listed in the order of the keys, so ascending keys give ascending representatives. */
  lemma {:induction false} RootsInIncreasing(keys: seq<nat>, links: map<nat, nat>)
    requires forall e :: e in keys ==> e in links
    requires Increasing(keys)
    ensures Increasing(RootsIn(keys, links))
  {
    if keys != [] {
      var init, last := keys[..|keys| - 1], keys[|keys| - 1];
      RootsInIncreasing(init, links);
      var prev := RootsIn(init, links);
      forall q | 0 <= q < |prev| ensures prev[q] < last {
        assert prev[q] in prev;
        PrefixBelow(keys, prev[q]);
      }
      assert Increasing(prev + [last]);
    }
  }

  /** The members of a cluster are listed in the order of the keys, so ascending keys give ascending members. */
  lemma {:induction false} MembersInIncreasing(keys: seq<nat>, links: map<nat, nat>, rank: map<nat, nat>, r: nat)
    requires Ranked(links, rank) && forall e :: e in keys ==> e in links
    requires Increasing(keys)
    ensures Increasing(MembersIn(keys, links, rank, r))
  {
    if keys != [] {
      var init, last := keys[..|keys| - 1], keys[|keys| - 1];
      MembersInIncreasing(init, links, rank, r);
      var prev := MembersIn(init, links, rank, r);
      forall q | 0 <= q < |prev| ensures prev[q] < last {
        assert prev[q] in prev;
        PrefixBelow(keys, prev[q]);
      }
      assert Increasing(prev + [last]);
    }
  }

  /**
   * Grouping the cluster numbers by representative: the groups come in
   * ascending order of their representatives, and each lists its cluster
   * numbers in ascending order.
   */
  lemma GroupsOrdered(n: nat, links: map<nat, nat>, rank: map<nat, nat>, groups: seq<seq<nat>>)
    returns (roots: seq<nat>)
    requires Grouped(Indices(n), links, rank, groups)
    ensures |roots| == |groups| && Increasing(roots)
    ensures forall g :: 0 <= g < |groups| ==> roots[g] in groups[g] && Increasing(groups[g])
  {
    var keys := Indices(n);
    roots := RootsIn(keys, links);
    RootsInIncreasing(keys, links);
    forall g | 0 <= g < |groups| ensures roots[g] in groups[g] && Increasing(groups[g]) {
      assert roots[g] in roots;
      MembersInIncreasing(keys, links, rank, roots[g]);
    }
  }

  /**
   * `marge_clusters`: joins every pair of clusters that qualifies, judged on
   * the original clusters only, and lists, for each group of joined
   * clusters, their elements one cluster after the other and their ids.
   * `groups` holds the cluster numbers of each group, in ascending order,
   * and the groups come in ascending order of their representatives
   * `roots`; `merges` counts the joins that merged two groups.
   */
  method MargeClusters<E(==, !new), I(==)>(clusters: seq<Cluster<E, I>>, thRate: real)
    returns (result: seq<(seq<E>, set<I>)>, groups: seq<seq<nat>>, ghost roots: seq<nat>, ghost merges: int)
    ensures IsPartition(groups, Indices(|clusters|))
    ensures |roots| == |groups| && Increasing(roots)
    ensures forall g :: 0 <= g < |groups| ==> roots[g] in groups[g] && Increasing(groups[g])
    ensures forall i: nat, k: nat :: Qualifies(clusters, thRate, i, k) ==> SameCluster(groups, i, k)
    ensures forall i: nat, k: nat :: i < |clusters| ==> (SameCluster(groups, i, k) <==> Connected(clusters, thRate, i, k))
    ensures |groups| == |clusters| - merges
    ensures |result| == |groups|
    ensures forall g :: 0 <= g < |groups| ==>
              Below(groups[g], |clusters|) && result[g] == (Chain(clusters, groups[g]), GroupIds(clusters, groups[g]))
  {
    var table, done, m := JoinQualifying(clusters, thRate);
    merges := m;
    groups := table.ClusterToElements();
    roots := GroupsOrdered(|clusters|, table.links, table.rank, groups);
    QualifiedGrouped(clusters, thRate, table.keys, table.links, table.rank, groups, done);
    GroupedConnected(clusters, thRate, table.keys, table.links, table.rank, groups, done);
    forall i: nat, k: nat | i < |clusters| && Connected(clusters, thRate, i, k) ensures SameCluster(groups, i, k) {
      ConnectedGrouped(clusters, thRate, groups, i, k);
    }
    PartitionBelow(groups, |clusters|);
    result := DescribeGroups(clusters, groups);
  }

  // ---------------------------------------------------------------- the merge example

  /** The `n` consecutive numbers from `lo`. */
  function Run(lo: int, n: nat): seq<int> {
    seq(n, q => lo + q)
  }

  /** Clusters of the elements 1 to 6, 3 to 8 and 13 to 18: the first two share four elements. */
  function ExampleClusters(): seq<Cluster<int, int>> {
    [Cluster(Run(1, 6), 0), Cluster(Run(3, 6), 1), Cluster(Run(13, 6), 2)]
  }

  /** Counting one more position of `s`. */
  lemma SharedInPrefix<E>(s: seq<E>, n: nat, t: seq<E>)
    requires n < |s|
    ensures SharedIn(s[..n + 1], t) == SharedIn(s[..n], t) + (if s[n] in t then 1 else 0)
  {
    assert s[..n + 1][..n] == s[..n];
  }

  /** How many of the first `n` numbers of the run from `a` lie in the run of six from `b`. */
  function Overlap(a: int, b: int, n: nat): nat {
    if n == 0 then 0 else Overlap(a, b, n - 1) + (if b <= a + n - 1 < b + 6 then 1 else 0)
  }

  /** Two runs of six numbers share as many positions as they overlap. */
  lemma {:induction false} SharedInRuns(a: int, b: int, n: nat)
    requires n <= 6
    ensures SharedIn(Run(a, 6)[..n], Run(b, 6)) == Overlap(a, b, n)
  {
    var s, t := Run(a, 6), Run(b, 6);
    if n == 0 {
      assert s[..0] == [];
    } else {
      SharedInRuns(a, b, n - 1);
      SharedInPrefix(s, n - 1, t);
      var x := a + n - 1;
      if b <= x < b + 6 {
        assert t[x - b] == x;
      }
    }
  }

  /** The clusters of the example share elements only between the first two, four of them. */
  lemma ExampleShared(i: nat, k: nat)
    requires i < 3 && k < 3
    ensures Shared(ExampleClusters(), i, k) == if i == 2 || k == 2 then (if i == k then 6 else 0) else (if i == k then 6 else 4)
  {
    var lo := [1, 3, 13];
    var cs := ExampleClusters();
    assert cs[i].elements == Run(lo[i], 6) && cs[k].elements == Run(lo[k], 6);
    SharedInRuns(lo[i], lo[k], 6);
    assert Run(lo[i], 6)[..6] == Run(lo[i], 6);
  }

  /** At rate 0.5 only the first two clusters qualify, in either direction. */
  lemma ExampleQualifies(i: nat, k: nat)
    ensures Qualifies(ExampleClusters(), 0.5, i, k) <==> (i == 0 && k == 1) || (i == 1 && k == 0)
  {
    if i < 3 && k < 3 {
      assert Threshold(ExampleClusters(), 0.5, i) == 3;
      ExampleShared(i, k);
    }
  }

  /** Clusters 0 and 1 are connected; cluster 2 is connected to neither. */
  lemma ExampleConnected()
    ensures Connected(ExampleClusters(), 0.5, 0, 1)
    ensures !Connected(ExampleClusters(), 0.5, 0, 2) && !Connected(ExampleClusters(), 0.5, 1, 2)
  {
    var cs := ExampleClusters();
    ExampleQualifies(0, 1);
    var S: set<nat> := {0, 1};
    forall i: nat, k: nat | Qualifies(cs, 0.5, i, k) ensures i in S <==> k in S {
      ExampleQualifies(i, k);
    }
    assert QualClosed(cs, 0.5, S);
  }

  /**
   * The merge example: any result meeting the contract of `MargeClusters`
   * on these clusters at rate 0.5 is the group of clusters 0 and 1, with
   * their elements one after the other and ids {0, 1}, followed by the
   * group of cluster 2 alone.
   */
  lemma MargeExample(result: seq<(seq<int>, set<int>)>, groups: seq<seq<nat>>, roots: seq<nat>)
    requires IsPartition(groups, Indices(3))
    requires forall i: nat, k: nat :: i < 3 ==> (SameCluster(groups, i, k) <==> Connected(ExampleClusters(), 0.5, i, k))
    requires |roots| == |groups| && Increasing(roots)
    requires forall g :: 0 <= g < |groups| ==> roots[g] in groups[g] && Increasing(groups[g])
    requires |result| == |groups|
    requires forall g :: 0 <= g < |groups| ==>
               Below(groups[g], 3) && result[g] == (Chain(ExampleClusters(), groups[g]), GroupIds(ExampleClusters(), groups[g]))
    ensures groups == [[0, 1], [2]]
    ensures result == [(ExampleClusters()[0].elements + ExampleClusters()[1].elements, {0, 1}), (ExampleClusters()[2].elements, {2})]
  {
    ExampleGroups(groups, roots);
    ExampleChains();
    assert result[0] == (Chain(ExampleClusters(), [0, 1]), GroupIds(ExampleClusters(), [0, 1]));
    assert result[1] == (Chain(ExampleClusters(), [2]), GroupIds(ExampleClusters(), [2]));
  }

  /** The groups of the merge example: clusters 0 and 1, then cluster 2. */
  lemma ExampleGroups(groups: seq<seq<nat>>, roots: seq<nat>)
    requires IsPartition(groups, Indices(3))
    requires forall i: nat, k: nat :: i < 3 ==> (SameCluster(groups, i, k) <==> Connected(ExampleClusters(), 0.5, i, k))
    requires |roots| == |groups| && Increasing(roots)
    requires forall g :: 0 <= g < |groups| ==> roots[g] in groups[g] && Increasing(groups[g]) && Below(groups[g], 3)
    ensures groups == [[0, 1], [2]]
  {
    ExampleConnected();
    IndicesMembers(3);
    assert 0 in Indices(3) && 2 in Indices(3);
    var a :| 0 <= a < |groups| && 0 in groups[a];
    var b :| 0 <= b < |groups| && 2 in groups[b];
    assert SameCluster(groups, 0, 1);
    assert 1 in groups[a];
    assert !SameCluster(groups, 0, 2) && !SameCluster(groups, 1, 2);
    NoOtherGroup(groups, a, b);
    GroupIsPair(groups[a]);
    GroupIsSingle(groups[b]);
    assert roots[a] in groups[a] && roots[b] in groups[b];
    assert a == 0 && b == 1;
  }

  /** What the last loop of `marge_clusters` lists for the two groups of the example. */
  lemma ExampleChains()
    ensures Chain(ExampleClusters(), [0, 1]) == ExampleClusters()[0].elements + ExampleClusters()[1].elements
    ensures Chain(ExampleClusters(), [2]) == ExampleClusters()[2].elements
    ensures GroupIds(ExampleClusters(), [0, 1]) == {0, 1} && GroupIds(ExampleClusters(), [2]) == {2}
  {
    var cs := ExampleClusters();
    assert [0, 1][..1] == [0] && [0][..0] == [] && [2][..0] == [];
    assert GroupIds(cs, [0, 1]) == {cs[0].id, cs[1].id};
  }

  /** In a partition of 0, 1 and 2 where group `a` holds 0 and 1 and group `b` holds 2, every group is one of the two. */
  lemma OtherGroup(groups: seq<seq<nat>>, a: nat, b: nat, g: nat)
    requires IsPartition(groups, Indices(3)) && a < |groups| && b < |groups| && g < |groups|
    requires 0 in groups[a] && 1 in groups[a] && 2 in groups[b]
    ensures g == a || g == b
  {
    IndicesMembers(3);
    var x := groups[g][0];
    assert x in groups[g];
    assert x in Indices(3);
  }

  /** So there are exactly two groups. */
  lemma NoOtherGroup(groups: seq<seq<nat>>, a: nat, b: nat)
    requires IsPartition(groups, Indices(3)) && a < |groups| && b < |groups| && a != b
    requires 0 in groups[a] && 1 in groups[a] && 2 in groups[b]
    ensures |groups| == 2
  {
    var g := if 0 != a && 0 != b then 0 else if 1 != a && 1 != b then 1 else 2;
    if g < |groups| {
      OtherGroup(groups, a, b, g);
    }
  }

  /** An ascending group of numbers below 3 holding 0 and 1 but not 2 is `[0, 1]`. */
  lemma GroupIsPair(grp: seq<nat>)
    requires Increasing(grp) && Below(grp, 3) && 0 in grp && 1 in grp && 2 !in grp
    ensures grp == [0, 1]
  {
    forall q | 0 <= q < |grp| ensures grp[q] < 2 {
      assert grp[q] in grp;
    }
    var i :| 0 <= i < |grp| && grp[i] == 0;
    var j :| 0 <= j < |grp| && grp[j] == 1;
    assert i == 0 && grp[0] == 0;
    assert j == |grp| - 1 && grp[|grp| - 1] == 1;
    assert grp[1] == 1;
    assert j == 1;
  }

  /** An ascending group of numbers below 3 holding 2 and neither 0 nor 1 is `[2]`. */
  lemma GroupIsSingle(grp: seq<nat>)
    requires Increasing(grp) && Below(grp, 3) && 2 in grp && 0 !in grp && 1 !in grp
    ensures grp == [2]
  {
    forall q | 0 <= q < |grp| ensures grp[q] == 2 {
      assert grp[q] in grp;
    }
    assert grp[0] == 2 && grp[|grp| - 1] == 2;
  }
}
