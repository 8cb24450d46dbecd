/**
 * Single-linkage clustering over a three-dimensional lattice
 * (singlelinkage3d.py). Candidate edges join each index to the indices at
 * the offsets of the half ball, when those are in the set and carry data;
 * edges at least the distance threshold apart are dropped. The edges are
 * then merged in ascending order of distance, Kruskal style, until the
 * number of clusters falls to the requested minimum.
 */
module SingleLinkage3d {
  import opened Wrappers
  import opened Seqs
  import opened Sorting
  import opened Index3d
  import opened ClusterData

  /** An entry of `distance_list`: the two indices and their distance. */
  datatype Edge = Edge(a: Index3, b: Index3, d: real)

  /** `operator.itemgetter(2)`. */
  function EdgeKey(e: Edge): real {
    e.d
  }

  /**
   * The edge from `i` to the index at offset `o`, if that index is in the
   * set, has data and is closer than `thr`; `data1` is the data of `i`.
   */
  function EdgeTo<D>(i: Index3, data1: Option<D>, o: Index3, members: set<Index3>,
                     data: Index3 -> Option<D>, dist: (Index3, Option<D>, Index3, D) -> real, thr: real): seq<Edge>
  {
    var n := (o.0 + i.0, o.1 + i.1, o.2 + i.2);
    if n !in members then []
    else match data(n)
      case None => []
      case Some(v) =>
        var d := dist(i, data1, n, v);
        if d < thr then [Edge(i, n, d)] else []
  }

  /** The edges the inner loop appends for index `i`, one offset after the other. */
  function RowEdges<D>(i: Index3, data1: Option<D>, offs: seq<Index3>, members: set<Index3>,
                       data: Index3 -> Option<D>, dist: (Index3, Option<D>, Index3, D) -> real, thr: real): seq<Edge>
    decreases |offs|
  {
    if offs == [] then []
    else RowEdges(i, data1, offs[..|offs| - 1], members, data, dist, thr)
         + EdgeTo(i, data1, offs[|offs| - 1], members, data, dist, thr)
  }

  /** `distance_list` once the outer loop has visited the indices of `order`. */
  function Edges<D>(order: seq<Index3>, offs: seq<Index3>, members: set<Index3>,
                    data: Index3 -> Option<D>, dist: (Index3, Option<D>, Index3, D) -> real, thr: real): seq<Edge>
    decreases |order|
  {
    if order == [] then []
    else
      var i := order[|order| - 1];
      Edges(order[..|order| - 1], offs, members, data, dist, thr) + RowEdges(i, data(i), offs, members, data, dist, thr)
  }

  /** What makes an edge a candidate: `b` is in the set at an offset of `offs` from `a`, has data, and is closer than `thr`. */
  predicate Candidate<D>(e: Edge, data1: Option<D>, offs: seq<Index3>, members: set<Index3>,
                         data: Index3 -> Option<D>, dist: (Index3, Option<D>, Index3, D) -> real, thr: real)
  {
    e.b in members && Diff(e.b, e.a) in offs && data(e.b).Some?
    && e.d == dist(e.a, data1, e.b, data(e.b).value) && e.d < thr
  }

  function Diff(a: Index3, b: Index3): Index3 {
    (a.0 - b.0, a.1 - b.1, a.2 - b.2)
  }

  lemma EdgeToMembers<D>(i: Index3, data1: Option<D>, o: Index3, members: set<Index3>,
                         data: Index3 -> Option<D>, dist: (Index3, Option<D>, Index3, D) -> real, thr: real, e: Edge)
    ensures e in EdgeTo(i, data1, o, members, data, dist, thr) <==>
      e.a == i && Diff(e.b, i) == o && Candidate(e, data1, [o], members, data, dist, thr)
  {
    if e.a == i && Diff(e.b, i) == o {
      assert e.b == (o.0 + i.0, o.1 + i.1, o.2 + i.2);
    }
  }

  /** Adding offset `o` adds exactly the candidate edge at that offset. */
  lemma RowEdgesStep<D>(i: Index3, data1: Option<D>, offs: seq<Index3>, members: set<Index3>,
                        data: Index3 -> Option<D>, dist: (Index3, Option<D>, Index3, D) -> real, thr: real, e: Edge)
    requires offs != []
    ensures e in RowEdges(i, data1, offs, members, data, dist, thr) <==>
      e in RowEdges(i, data1, offs[..|offs| - 1], members, data, dist, thr)
      || (e.a == i && Diff(e.b, i) == offs[|offs| - 1] && Candidate(e, data1, [offs[|offs| - 1]], members, data, dist, thr))
  {
    var a := RowEdges(i, data1, offs[..|offs| - 1], members, data, dist, thr);
    var c := EdgeTo(i, data1, offs[|offs| - 1], members, data, dist, thr);
    assert RowEdges(i, data1, offs, members, data, dist, thr) == a + c;
    EdgeToMembers(i, data1, offs[|offs| - 1], members, data, dist, thr, e);
    assert e in a + c <==> e in a || e in c;
  }

  lemma {:induction false} RowEdgesMembers<D>(i: Index3, data1: Option<D>, offs: seq<Index3>, members: set<Index3>,
                                             data: Index3 -> Option<D>, dist: (Index3, Option<D>, Index3, D) -> real, thr: real, e: Edge)
    ensures e in RowEdges(i, data1, offs, members, data, dist, thr) <==>
      e.a == i && Candidate(e, data1, offs, members, data, dist, thr)
    decreases |offs|
  {
    if offs != [] {
      var init, o := offs[..|offs| - 1], offs[|offs| - 1];
      RowEdgesStep(i, data1, offs, members, data, dist, thr, e);
      RowEdgesMembers(i, data1, init, members, data, dist, thr, e);
      assert offs == init + [o];
      assert Diff(e.b, e.a) in offs <==> Diff(e.b, e.a) in init || Diff(e.b, e.a) == o;
    }
  }

  /** Adding index `i` adds exactly the candidate edges starting at `i`. */
  lemma EdgesStep<D>(order: seq<Index3>, offs: seq<Index3>, members: set<Index3>,
                     data: Index3 -> Option<D>, dist: (Index3, Option<D>, Index3, D) -> real, thr: real, e: Edge)
    requires order != []
    ensures e in Edges(order, offs, members, data, dist, thr) <==>
      e in Edges(order[..|order| - 1], offs, members, data, dist, thr)
      || (e.a == order[|order| - 1] && Candidate(e, data(e.a), offs, members, data, dist, thr))
  {
    var i := order[|order| - 1];
    var a := Edges(order[..|order| - 1], offs, members, data, dist, thr);
    var c := RowEdges(i, data(i), offs, members, data, dist, thr);
    assert Edges(order, offs, members, data, dist, thr) == a + c;
    RowEdgesMembers(i, data(i), offs, members, data, dist, thr, e);
    assert e in a + c <==> e in a || e in c;
  }

  /** The collected edges are exactly the candidate edges starting at a visited index. */
  lemma {:induction false} EdgesMembers<D>(order: seq<Index3>, offs: seq<Index3>, members: set<Index3>,
                                          data: Index3 -> Option<D>, dist: (Index3, Option<D>, Index3, D) -> real, thr: real, e: Edge)
    ensures e in Edges(order, offs, members, data, dist, thr) <==>
      e.a in order && Candidate(e, data(e.a), offs, members, data, dist, thr)
    decreases |order|
  {
    if order != [] {
      var init := order[..|order| - 1];
      EdgesStep(order, offs, members, data, dist, thr, e);
      EdgesMembers(init, offs, members, data, dist, thr, e);
      assert order == init + [order[|order| - 1]];
      assert e.a in order <==> e.a in init || e.a == order[|order| - 1];
    }
  }

  /**
   * Over the half ball of squared radius `r2`, an edge is collected exactly
   * when its end lies in the set, carries data, is within the radius and
   * after its start in the lattice order, and the edge is short enough.
   */
  lemma CandidateEdges<D>(order: seq<Index3>, r2: nat,
                          data: Index3 -> Option<D>, dist: (Index3, Option<D>, Index3, D) -> real, thr: real, e: Edge)
    ensures e in Edges(order, HalfSphere(r2), Elements(order), data, dist, thr) <==>
      e.a in order && e.b in order && data(e.b).Some?
      && Norm(Diff(e.b, e.a)) <= r2 && Cmp(e.a, e.b) < 0
      && e.d == dist(e.a, data(e.a), e.b, data(e.b).value) && e.d < thr
  {
    EdgesMembers(order, HalfSphere(r2), Elements(order), data, dist, thr, e);
    HalfSphereMembers(r2, Diff(e.b, e.a));
    CmpTranslate((0, 0, 0), Diff(e.b, e.a), e.a);
    assert Add((0, 0, 0), e.a) == e.a && Add(Diff(e.b, e.a), e.a) == e.b;
  }

  /** The inner loop for index `i`: appends its edges to `edges`. */
  method CollectRow<D>(i: Index3, data1: Option<D>, offs: seq<Index3>, members: set<Index3>,
                       data: Index3 -> Option<D>, dist: (Index3, Option<D>, Index3, D) -> real, thr: real,
                       edges: seq<Edge>) returns (r: seq<Edge>)
    ensures r == edges + RowEdges(i, data1, offs, members, data, dist, thr)
  {
    r := edges;
    var k := 0;
    while k < |offs|
      invariant 0 <= k <= |offs|
      invariant r == edges + RowEdges(i, data1, offs[..k], members, data, dist, thr)
    {
      assert offs[..k + 1][..k] == offs[..k];
      var n := (offs[k].0 + i.0, offs[k].1 + i.1, offs[k].2 + i.2);
      if n !in members {
        k := k + 1;
        continue;
      }
      var data2 := data(n);
      if data2.Some? {
        var d := dist(i, data1, n, data2.value);
        if d < thr {
          r := r + [Edge(i, n, d)];
        }
      }
      k := k + 1;
    }
    assert offs[..k] == offs;
  }

  /** The outer loop: collects the edges and puts every index in a cluster of its own. */
  method CollectEdges<D>(order: seq<Index3>, offs: seq<Index3>,
                         data: Index3 -> Option<D>, dist: (Index3, Option<D>, Index3, D) -> real, thr: real)
    returns (table: ClusterTable<Index3>, num: int, edges: seq<Edge>)
    requires Distinct(order)
    ensures fresh(table) && table.Valid()
    ensures table.keys == order && table.links == SelfLinks(order)
    ensures num == |order|
    ensures edges == Edges(order, offs, Elements(order), data, dist, thr)
  {
    var members := Elements(order);
    table := new ClusterTable<Index3>([]);
    assert order[..0] == [];
    num := 0;
    edges := [];
    var i := 0;
    while i < |order|
      invariant 0 <= i <= |order| && num == i
      invariant fresh(table) && table.Valid()
      invariant table.keys == order[..i] && table.links == SelfLinks(order[..i])
      invariant edges == Edges(order[..i], offs, members, data, dist, thr)
    {
      var x := order[i];
      var data1 := data(x);
      edges := CollectRow(x, data1, offs, members, data, dist, thr, edges);
      EdgesSnoc(order, i, offs, members, data, dist, thr);
      table.AddElement(x);
      KeysSnoc(order, i);
      num := num + 1;
      i := i + 1;
    }
    assert order[..i] == order;
  }

  lemma EdgesSnoc<D>(order: seq<Index3>, i: nat, offs: seq<Index3>, members: set<Index3>,
                     data: Index3 -> Option<D>, dist: (Index3, Option<D>, Index3, D) -> real, thr: real)
    requires i < |order|
    ensures Edges(order[..i + 1], offs, members, data, dist, thr)
         == Edges(order[..i], offs, members, data, dist, thr) + RowEdges(order[i], data(order[i]), offs, members, data, dist, thr)
  {
    assert order[..i + 1][..i] == order[..i];
  }

  /** Adding the next index of `order` to a table holding the ones before it. */
  lemma KeysSnoc(order: seq<Index3>, i: nat)
    requires Distinct(order) && i < |order|
    ensures InsertOrder(order[..i], [order[i]]) == order[..i + 1]
    ensures SelfLinks(order[..i])[order[i] := order[i]] == SelfLinks(order[..i + 1])
  {
    assert [order[i]][..0] == [];
    InsertOrderFresh(order, i);
  }

  /** The pairs of indices the edges join, in order. */
  function Pairs(edges: seq<Edge>): seq<(Index3, Index3)>
    decreases |edges|
  {
    if edges == [] then []
    else Pairs(edges[..|edges| - 1]) + [(edges[|edges| - 1].a, edges[|edges| - 1].b)]
  }

  /** The number of `true` results, i.e. of merges. */
  function Successes(results: seq<bool>): nat
    decreases |results|
  {
    if results == [] then 0
    else Successes(results[..|results| - 1]) + (if results[|results| - 1] then 1 else 0)
  }

  /** `results[k]`, the value of `concat_cluster` on edge `k`, is true exactly when no earlier edge connected its ends. */
  ghost predicate Outcomes(sorted: seq<Edge>, results: seq<bool>) {
    |results| <= |sorted|
    && forall k :: 0 <= k < |results| ==> (results[k] <==> !Linked(Pairs(sorted[..k]), sorted[k].a, sorted[k].b))
  }

  /** The loop did not stop at any earlier merge: the count was still above `nClusters` after each. */
  ghost predicate KeptGoing(num0: int, nClusters: int, results: seq<bool>) {
    forall k :: 0 <= k < |results| - 1 && results[k] ==> num0 - Successes(results[..k + 1]) > nClusters
  }

  /** Both ends of every edge are elements of the table. */
  predicate EndsIn(sorted: seq<Edge>, keys: set<Index3>) {
    forall k :: 0 <= k < |sorted| ==> sorted[k].a in keys && sorted[k].b in keys
  }

  /**
   * The merge loop: `concat_cluster` on the ends of each edge in order,
   * counting down from `num0` clusters per successful merge, until the
   * count is at most `nClusters`. `results` holds the values
   * `concat_cluster` returned, one per visited edge.
   */
  method MergeEdges(table: ClusterTable<Index3>, sorted: seq<Edge>, num0: int, nClusters: int)
    returns (num: int, ghost results: seq<bool>)
    requires table.Valid() && EndsIn(sorted, table.links.Keys)
    requires PairsJoined(table.links, table.rank, []) && RootsLinked(table.links, table.rank, [])
    requires num0 == |RootsIn(table.keys, table.links)|
    modifies table
    ensures table.Valid() && table.keys == old(table.keys) && table.links.Keys == old(table.links.Keys)
    ensures Merged(table.links, table.rank, sorted, results)
    ensures num == |RootsIn(table.keys, table.links)| && num == num0 - Successes(results)
    ensures KeptGoing(num0, nClusters, results)
    ensures |results| < |sorted| ==> results != [] && results[|results| - 1] && num <= nClusters
    ensures num0 > nClusters ==> num >= nClusters
  {
    num, results := num0, [];
    var j := 0;
    while j < |sorted|
      invariant 0 <= j <= |sorted| && |results| == j
      invariant table.Valid() && table.keys == old(table.keys) && table.links.Keys == old(table.links.Keys)
      invariant Merged(table.links, table.rank, sorted, results)
      invariant num == |RootsIn(table.keys, table.links)| && num == num0 - Successes(results)
      invariant KeptGoing(num0, nClusters, results)
      invariant results != [] && results[|results| - 1] ==> num > nClusters
      invariant num0 > nClusters ==> num > nClusters
    {
      var doneConcat := MergeAt(table, sorted, j, results);
      CountStep(results, doneConcat, num0, nClusters);
      results := results + [doneConcat];
      j := j + 1;
      if doneConcat {
        num := num - 1;
        if num <= nClusters {
          break;
        }
      }
    }
  }

  /** The table after the merge loop has visited one edge per result. */
  ghost predicate Merged(links: map<Index3, Index3>, rank: map<Index3, nat>, sorted: seq<Edge>, results: seq<bool>) {
    Outcomes(sorted, results)
    && PairsJoined(links, rank, Pairs(sorted[..|results|])) && RootsLinked(links, rank, Pairs(sorted[..|results|]))
  }

  /** One pass of the merge loop: `concat_cluster` on the ends of edge `j`. */
  method MergeAt(table: ClusterTable<Index3>, sorted: seq<Edge>, j: nat, ghost results: seq<bool>) returns (doneConcat: bool)
    requires table.Valid() && j < |sorted| && |results| == j && EndsIn(sorted, table.links.Keys)
    requires Merged(table.links, table.rank, sorted, results)
    modifies table
    ensures table.Valid() && table.keys == old(table.keys) && table.links.Keys == old(table.links.Keys)
    ensures Merged(table.links, table.rank, sorted, results + [doneConcat])
    ensures |RootsIn(table.keys, table.links)| == |RootsIn(old(table.keys), old(table.links))| - (if doneConcat then 1 else 0)
  {
    var e := sorted[j];
    doneConcat := JoinPair(table, e.a, e.b, Pairs(sorted[..j]));
    PairsSnoc(sorted, j);
    OutcomesSnoc(sorted, results, doneConcat);
    assert |results + [doneConcat]| == j + 1;
  }

  lemma PairsSnoc(sorted: seq<Edge>, j: nat)
    requires j < |sorted|
    ensures Pairs(sorted[..j + 1]) == Pairs(sorted[..j]) + [(sorted[j].a, sorted[j].b)]
  {
    assert sorted[..j + 1][..j] == sorted[..j];
  }

  /** The count after appending the result of one more `concat_cluster`. */
  lemma CountStep(results: seq<bool>, doneConcat: bool, num0: int, nClusters: int)
    requires KeptGoing(num0, nClusters, results)
    requires results != [] && results[|results| - 1] ==> num0 - Successes(results) > nClusters
    ensures Successes(results + [doneConcat]) == Successes(results) + (if doneConcat then 1 else 0)
    ensures KeptGoing(num0, nClusters, results + [doneConcat])
  {
    SuccessesSnoc(results, doneConcat);
    KeptGoingSnoc(num0, nClusters, results, doneConcat);
  }

  lemma SuccessesSnoc(results: seq<bool>, b: bool)
    ensures Successes(results + [b]) == Successes(results) + (if b then 1 else 0)
  {
    assert (results + [b])[..|results|] == results;
  }

  lemma OutcomesSnoc(sorted: seq<Edge>, results: seq<bool>, b: bool)
    requires |results| < |sorted| && Outcomes(sorted, results)
    requires b <==> !Linked(Pairs(sorted[..|results|]), sorted[|results|].a, sorted[|results|].b)
    ensures Outcomes(sorted, results + [b])
  {
    var rs := results + [b];
    forall k | 0 <= k < |rs| ensures rs[k] <==> !Linked(Pairs(sorted[..k]), sorted[k].a, sorted[k].b) {
      if k < |results| {
        assert rs[k] == results[k];
      }
    }
  }

  lemma KeptGoingSnoc(num0: int, nClusters: int, results: seq<bool>, b: bool)
    requires KeptGoing(num0, nClusters, results)
    requires results != [] && results[|results| - 1] ==> num0 - Successes(results) > nClusters
    ensures KeptGoing(num0, nClusters, results + [b])
  {
    var rs := results + [b];
    forall k | 0 <= k < |rs| - 1 && rs[k] ensures num0 - Successes(rs[..k + 1]) > nClusters {
      assert rs[k] == results[k];
      if k < |results| - 1 {
        assert rs[..k + 1] == results[..k + 1];
      } else {
        assert rs[..k + 1] == results;
      }
    }
  }

  /**
   * `single_linkage_3d`, visiting the index set in the order `order`, with
   * the 3D distance threshold given by its square `r2`. `results` holds
   * what `concat_cluster` returned for each edge the merge loop visited:
   * true exactly when no earlier edge connected the two ends. The result
   * partitions the indices into the components of the visited edges, one
   * cluster fewer per merge; the loop stops early only right after a merge
   * that brings the count to at most `nClusters`, and no earlier merge did;
   * and unless there were at most `nClusters` indices, at least
   * `nClusters` clusters remain.
   */
  method SingleLinkage<D>(data: Index3 -> Option<D>, order: seq<Index3>,
                          dist: (Index3, Option<D>, Index3, D) -> real, r2: nat, thr: real, nClusters: int)
    returns (clusters: seq<seq<Index3>>, ghost sorted: seq<Edge>, ghost results: seq<bool>)
    requires Distinct(order)
    ensures sorted == SortBy(Edges(order, HalfSphere(r2), Elements(order), data, dist, thr), EdgeKey)
    ensures IsPartition(clusters, order)
    ensures Outcomes(sorted, results)
    ensures forall x, y :: x in order ==> (SameCluster(clusters, x, y) <==> Linked(Pairs(sorted[..|results|]), x, y))
    ensures |clusters| == |order| - Successes(results)
    ensures KeptGoing(|order|, nClusters, results)
    ensures |results| < |sorted| ==> results != [] && results[|results| - 1] && |clusters| <= nClusters
    ensures |order| > nClusters ==> |clusters| >= nClusters
  {
    var offs := HalfSphere(r2);
    var table, num, edges := CollectEdges(order, offs, data, dist, thr);
    var distanceList := SortBy(edges, EdgeKey);
    sorted := distanceList;
    EdgesInTable(order, r2, data, dist, thr, table.links);
    RootsInSelf(order, table.links);
    RootsLinkedSelf(table.links, table.rank);
    num, results := MergeEdges(table, distanceList, num, nClusters);
    clusters := table.ClusterToElements();
    GroupedLinked(table.keys, table.links, table.rank, clusters, Pairs(sorted[..|results|]));
  }

  /** Both ends of every sorted edge are indices of the set. */
  lemma EdgesInTable<D>(order: seq<Index3>, r2: nat, data: Index3 -> Option<D>,
                        dist: (Index3, Option<D>, Index3, D) -> real, thr: real, links: map<Index3, Index3>)
    requires links == SelfLinks(order)
    ensures EndsIn(SortBy(Edges(order, HalfSphere(r2), Elements(order), data, dist, thr), EdgeKey), links.Keys)
  {
    var edges := Edges(order, HalfSphere(r2), Elements(order), data, dist, thr);
    var sorted := SortBy(edges, EdgeKey);
    SortByFacts(edges, EdgeKey);
    forall k | 0 <= k < |sorted| ensures sorted[k].a in links && sorted[k].b in links {
      assert sorted[k] in multiset(edges);
      CandidateEdges(order, r2, data, dist, thr, sorted[k]);
    }
  }
}
