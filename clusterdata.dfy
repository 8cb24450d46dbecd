/**
 * A union-find table without path compression or union by rank. Every
 * element links to another element of its cluster; the representative of a
 * cluster is the element that links to itself. The table remembers the
 * order in which elements were first inserted, as a Python dictionary does.
 */
module ClusterData {
  import opened Wrappers
  import opened Seqs

  // ---------------------------------------------------------------- links as values

  /**
   * Following links always reaches a self-linked element: every link that
   * is not a self-link points to an element of strictly smaller rank.
   */
  ghost predicate Ranked<E(!new)>(links: map<E, E>, rank: map<E, nat>) {
    links.Keys == rank.Keys
    && links.Values <= links.Keys
    && (forall e {:trigger links[e]} :: e in links && links[e] != e ==> rank[links[e]] < rank[e])
  }

  /** The representative reached from `e` by following links. */
  ghost function RootOf<E(!new)>(links: map<E, E>, rank: map<E, nat>, e: E): (r: E)
    requires Ranked(links, rank) && e in links
    ensures r in links && links[r] == r
    decreases rank[e]
  {
    if links[e] == e then e else RootOf(links, rank, links[e])
  }

  /** The first occurrences of the elements of `s` not already in `keys`, appended to `keys`. */
  function InsertOrder<E(==, !new)>(keys: seq<E>, s: seq<E>): (r: seq<E>)
    ensures forall e :: e in r <==> e in keys || e in s
    ensures |keys| <= |r| && r[..|keys|] == keys
  {
    if s == [] then keys
    else
      var prev := InsertOrder(keys, s[..|s| - 1]);
      if s[|s| - 1] in prev then prev else prev + [s[|s| - 1]]
  }

  lemma {:induction false} InsertOrderDistinct<E(!new)>(keys: seq<E>, s: seq<E>)
    requires Distinct(keys)
    ensures Distinct(InsertOrder(keys, s))
  {
    if s != [] {
      InsertOrderDistinct(keys, s[..|s| - 1]);
    }
  }

  /** Every element of `s` linked to itself. */
  function SelfLinks<E(!new)>(s: seq<E>): (m: map<E, E>)
    ensures forall e :: e in m <==> e in s
    ensures forall e :: e in m ==> m[e] == e
  {
    map e | e in s :: e
  }

  /** Rank 0 for each element of `s` that `rank` does not know yet. */
  ghost function RankNew<E(!new)>(rank: map<E, nat>, s: seq<E>): (r: map<E, nat>)
    ensures r.Keys == rank.Keys + set e | e in s
    ensures forall e :: e in rank ==> r[e] == rank[e]
  {
    map e | e in rank.Keys + (set e | e in s) :: if e in rank then rank[e] else 0
  }

  /** Self-linking elements keeps the ranking: a self-link constrains nothing. */
  lemma SelfLinkRanked<E(!new)>(links: map<E, E>, rank: map<E, nat>, s: seq<E>)
    requires Ranked(links, rank)
    ensures Ranked(links + SelfLinks(s), RankNew(rank, s))
  {
  }

  /**
   * The ranks after linking root `r2` under root `r1`: `r1` drops to rank 0
   * and every other element moves up by one, so the new link descends.
   */
  ghost function ShiftedRank<E(!new)>(rank: map<E, nat>, r1: E): (r: map<E, nat>)
    ensures r.Keys == rank.Keys
  {
    map x | x in rank :: if x == r1 then 0 else rank[x] + 1
  }

  /** Linking root `r2` under root `r1` keeps a ranking. */
  lemma ConcatRanked<E(!new)>(links: map<E, E>, rank: map<E, nat>, r1: E, r2: E)
    requires Ranked(links, rank) && r1 in links && r2 in links
    requires links[r1] == r1 && r1 != r2
    ensures Ranked(links[r2 := r1], ShiftedRank(rank, r1))
  {
  }

  /** After linking root `r2` under root `r1`, `r2`'s cluster has joined `r1`'s and nothing else moved. */
  lemma {:induction false} ConcatRoot<E(!new)>(links: map<E, E>, rank: map<E, nat>, r1: E, r2: E, x: E)
    requires Ranked(links, rank) && r1 in links && r2 in links && x in links
    requires links[r1] == r1 && links[r2] == r2 && r1 != r2
    ensures Ranked(links[r2 := r1], ShiftedRank(rank, r1))
    ensures RootOf(links[r2 := r1], ShiftedRank(rank, r1), x)
         == if RootOf(links, rank, x) == r2 then r1 else RootOf(links, rank, x)
    decreases rank[x]
  {
    ConcatRanked(links, rank, r1, r2);
    if links[x] != x {
      ConcatRoot(links, rank, r1, r2, links[x]);
    }
  }

  /** Self-linking elements that were not in the table yet changes no representative. */
  lemma {:induction false} FreshRoot<E(!new)>(links: map<E, E>, rank: map<E, nat>, s: seq<E>, x: E)
    requires Ranked(links, rank) && x in links
    requires forall e :: e in s ==> e !in links
    ensures Ranked(links + SelfLinks(s), RankNew(rank, s))
    ensures RootOf(links + SelfLinks(s), RankNew(rank, s), x) == RootOf(links, rank, x)
    decreases rank[x]
  {
    SelfLinkRanked(links, rank, s);
    if links[x] != x {
      FreshRoot(links, rank, s, links[x]);
    }
  }

  /** The self-linked elements of `keys`, in order. */
  function RootsIn<E(==, !new)>(keys: seq<E>, links: map<E, E>): (r: seq<E>)
    requires forall e :: e in keys ==> e in links
    ensures forall e {:trigger e in r} :: e in r <==> e in keys && links[e] == e
  {
    if keys == [] then []
    else
      var prev := RootsIn(keys[..|keys| - 1], links);
      var last := keys[|keys| - 1];
      if links[last] == last then prev + [last] else prev
  }

  lemma {:induction false} RootsInDistinct<E(!new)>(keys: seq<E>, links: map<E, E>)
    requires forall e :: e in keys ==> e in links
    requires Distinct(keys)
    ensures Distinct(RootsIn(keys, links))
  {
    if keys != [] {
      var init, last := keys[..|keys| - 1], keys[|keys| - 1];
      DistinctPrefix(keys);
      RootsInDistinct(init, links);
      if links[last] == last {
        DistinctSnoc(RootsIn(init, links), last);
      }
    }
  }

  /** The elements of `keys` whose representative is `r`, in order. */
  ghost function MembersIn<E(!new)>(keys: seq<E>, links: map<E, E>, rank: map<E, nat>, r: E): (m: seq<E>)
    requires Ranked(links, rank) && forall e :: e in keys ==> e in links
    ensures forall e {:trigger e in m} :: e in m <==> e in keys && RootOf(links, rank, e) == r
    ensures |m| <= |keys|
  {
    if keys == [] then []
    else
      var prev := MembersIn(keys[..|keys| - 1], links, rank, r);
      var last := keys[|keys| - 1];
      if RootOf(links, rank, last) == r then prev + [last] else prev
  }

  lemma {:induction false} MembersInDistinct<E(!new)>(keys: seq<E>, links: map<E, E>, rank: map<E, nat>, r: E)
    requires Ranked(links, rank) && forall e :: e in keys ==> e in links
    requires Distinct(keys)
    ensures Distinct(MembersIn(keys, links, rank, r))
  {
    if keys != [] {
      var init, last := keys[..|keys| - 1], keys[|keys| - 1];
      DistinctPrefix(keys);
      MembersInDistinct(init, links, rank, r);
      if RootOf(links, rank, last) == r {
        DistinctSnoc(MembersIn(init, links, rank, r), last);
      }
    }
  }

  /** The position of `x` in a sequence without duplicates. */
  function IndexOf<E(==)>(s: seq<E>, x: E): (i: nat)
    requires x in s
    ensures i < |s| && s[i] == x
    ensures Distinct(s) ==> forall j :: 0 <= j < |s| && s[j] == x ==> j == i
  {
    if s[0] == x then 0 else 1 + IndexOf(s[1..], x)
  }

  /** The invariant of a table: keys without repetition, matching the link domain, and a ranking. */
  ghost predicate TableOk<E(!new)>(keys: seq<E>, links: map<E, E>, rank: map<E, nat>) {
    Distinct(keys) && (forall e :: e in keys <==> e in links) && Ranked(links, rank)
  }

  /** Self-linking one element keeps the invariant and makes it a representative. */
  lemma AddOk<E(!new)>(keys: seq<E>, links: map<E, E>, rank: map<E, nat>, e: E)
    requires TableOk(keys, links, rank)
    ensures TableOk(InsertOrder(keys, [e]), links[e := e], RankNew(rank, [e]))
  {
    assert links[e := e] == links + SelfLinks([e]);
    SelfLinkRanked(links, rank, [e]);
    InsertOrderDistinct(keys, [e]);
  }

  /** Self-linking an element that was not in the table yet changes no representative. */
  lemma AddRoots<E(!new)>(links: map<E, E>, rank: map<E, nat>, e: E)
    requires Ranked(links, rank) && e !in links
    ensures Ranked(links[e := e], RankNew(rank, [e]))
    ensures forall x {:trigger RootOf(links[e := e], RankNew(rank, [e]), x)} :: x in links ==>
              RootOf(links[e := e], RankNew(rank, [e]), x) == RootOf(links, rank, x)
  {
    assert links[e := e] == links + SelfLinks([e]);
    SelfLinkRanked(links, rank, [e]);
    forall x | x in links ensures RootOf(links[e := e], RankNew(rank, [e]), x) == RootOf(links, rank, x) {
      FreshRoot(links, rank, [e], x);
    }
  }

  lemma InsertOrderSnoc<E(!new)>(keys: seq<E>, s: seq<E>, i: nat)
    requires i < |s|
    ensures InsertOrder(keys, s[..i + 1]) == InsertOrder(InsertOrder(keys, s[..i]), [s[i]])
  {
    assert s[..i + 1][..i] == s[..i];
    assert [s[i]][..0] == [];
  }

  lemma SelfLinksSnoc<E(!new)>(links: map<E, E>, s: seq<E>, i: nat)
    requires i < |s|
    ensures links + SelfLinks(s[..i + 1]) == (links + SelfLinks(s[..i]))[s[i] := s[i]]
  {
  }

  /** Linking root `r2` under root `r1` keeps the invariant. */
  lemma ConcatTableOk<E(!new)>(keys: seq<E>, links: map<E, E>, rank: map<E, nat>, r1: E, r2: E)
    requires TableOk(keys, links, rank) && r1 in links && r2 in links
    requires links[r1] == r1 && r1 != r2
    ensures TableOk(keys, links[r2 := r1], ShiftedRank(rank, r1))
  {
    ConcatRanked(links, rank, r1, r2);
    assert links[r2 := r1].Keys == links.Keys;
  }

  /** Linking root `r2` under root `r1` merges exactly those two clusters. */
  lemma ConcatRoots<E(!new)>(links: map<E, E>, rank: map<E, nat>, r1: E, r2: E)
    requires Ranked(links, rank) && r1 in links && r2 in links
    requires links[r1] == r1 && links[r2] == r2 && r1 != r2
    ensures Ranked(links[r2 := r1], ShiftedRank(rank, r1))
    ensures forall x {:trigger RootOf(links[r2 := r1], ShiftedRank(rank, r1), x)} :: x in links ==>
              RootOf(links[r2 := r1], ShiftedRank(rank, r1), x)
              == if RootOf(links, rank, x) == r2 then r1 else RootOf(links, rank, x)
  {
    ConcatRanked(links, rank, r1, r2);
    forall x | x in links
      ensures RootOf(links[r2 := r1], ShiftedRank(rank, r1), x)
           == if RootOf(links, rank, x) == r2 then r1 else RootOf(links, rank, x)
    {
      ConcatRoot(links, rank, r1, r2, x);
    }
  }

  /** Linking root `r2` under root `r1` moved exactly the members of `r2`'s cluster, to `r1`'s. */
  ghost predicate Remapped<E(!new)>(links: map<E, E>, rank: map<E, nat>, links': map<E, E>, rank': map<E, nat>, r1: E, r2: E) {
    Ranked(links, rank) && Ranked(links', rank') && links'.Keys == links.Keys
    && forall x {:trigger RootOf(links', rank', x)} :: x in links ==>
         RootOf(links', rank', x) == if RootOf(links, rank, x) == r2 then r1 else RootOf(links, rank, x)
  }

  /** Linking root `r2` under root `r1` remaps exactly `r2`'s cluster. */
  lemma ConcatRemapped<E(!new)>(links: map<E, E>, rank: map<E, nat>, r1: E, r2: E)
    requires Ranked(links, rank) && r1 in links && r2 in links
    requires links[r1] == r1 && links[r2] == r2 && r1 != r2
    ensures Remapped(links, rank, links[r2 := r1], ShiftedRank(rank, r1), r1, r2)
  {
    ConcatRoots(links, rank, r1, r2);
  }

  /** The loop of `extend_elements` on the table's state: self-links each element in turn. */
  method ExtendTable<E(==, !new)>(keys: seq<E>, links: map<E, E>, ghost rank: map<E, nat>, elements: seq<E>)
    returns (k: seq<E>, l: map<E, E>, ghost r: map<E, nat>)
    requires TableOk(keys, links, rank)
    ensures TableOk(k, l, r)
    ensures k == InsertOrder(keys, elements) && l == links + SelfLinks(elements)
  {
    k, l, r := keys, links, rank;
    for i := 0 to |elements|
      invariant TableOk(k, l, r)
      invariant k == InsertOrder(keys, elements[..i]) && l == links + SelfLinks(elements[..i])
    {
      AddOk(k, l, r, elements[i]);
      InsertOrderSnoc(keys, elements, i);
      SelfLinksSnoc(links, elements, i);
      k, l, r := InsertOrder(k, [elements[i]]), l[elements[i] := elements[i]], RankNew(r, [elements[i]]);
    }
    assert elements[..|elements|] == elements;
  }

  /** The loop of `_give_element_to_index`: numbers the self-linked keys in order. */
  method NumberRoots<E(==, !new)>(keys: seq<E>, links: map<E, E>) returns (m: map<E, int>)
    requires Distinct(keys) && forall e :: e in keys ==> e in links
    ensures forall e :: e in m <==> e in keys && links[e] == e
    ensures forall e :: e in m ==> 0 <= m[e] < |RootsIn(keys, links)| && RootsIn(keys, links)[m[e]] == e
    ensures forall i :: 0 <= i < |RootsIn(keys, links)| ==> RootsIn(keys, links)[i] in m && m[RootsIn(keys, links)[i]] == i
  {
    m := map[];
    var clusterId := 0;
    ghost var roots: seq<E> := [];
    for k := 0 to |keys|
      invariant roots == RootsIn(keys[..k], links)
      invariant clusterId == |roots|
      invariant forall e :: e in m <==> e in roots
      invariant forall e :: e in m ==> 0 <= m[e] < |roots| && roots[m[e]] == e
      invariant forall i :: 0 <= i < |roots| ==> roots[i] in m && m[roots[i]] == i
    {
      assert keys[..k + 1][..k] == keys[..k];
      if links[keys[k]] == keys[k] {
        InsertOrderFresh(keys, k);
        m := m[keys[k] := clusterId];
        roots := roots + [keys[k]];
        clusterId := clusterId + 1;
      }
    }
    assert keys[..|keys|] == keys;
  }

  /** The loop of `get_cluster`: follows links from a known element until one links to itself. */
  method FindRoot<E(==, !new)>(links: map<E, E>, ghost rank: map<E, nat>, e: E) returns (root: E)
    requires Ranked(links, rank) && e in links
    ensures root == RootOf(links, rank, e)
  {
    root := e;
    while links[root] != root
      invariant root in links && RootOf(links, rank, root) == RootOf(links, rank, e)
      decreases rank[root]
    {
      root := links[root];
    }
  }

  /** The loop of `create_element_to_cluster_dict`: each key's cluster number, looked up in `index`. */
  method NumberElements<E(==, !new)>(keys: seq<E>, links: map<E, E>, ghost rank: map<E, nat>, index: map<E, int>)
    returns (d: map<E, int>)
    requires TableOk(keys, links, rank)
    requires forall e :: e in keys && links[e] == e ==> e in index
    requires forall e :: e in index ==> 0 <= index[e] < |RootsIn(keys, links)| && RootsIn(keys, links)[index[e]] == e
    ensures d.Keys == links.Keys
    ensures forall e :: e in d ==> 0 <= d[e] < |RootsIn(keys, links)| && RootsIn(keys, links)[d[e]] == RootOf(links, rank, e)
  {
    ghost var roots := RootsIn(keys, links);
    d := map[];
    for k := 0 to |keys|
      invariant forall e :: e in d <==> e in keys[..k]
      invariant forall e :: e in d ==> 0 <= d[e] < |roots| && roots[d[e]] == RootOf(links, rank, e)
    {
      var root := FindRoot(links, rank, keys[k]);
      d := d[keys[k] := index[root]];
    }
    assert keys[..|keys|] == keys;
  }

  /** The loop of `create_cluster_to_element_sequence`: appends each key to its cluster's list. */
  method GroupElements<E(==, !new)>(keys: seq<E>, links: map<E, E>, ghost rank: map<E, nat>, index: map<E, int>)
    returns (clusters: seq<seq<E>>)
    requires TableOk(keys, links, rank)
    requires forall e :: e in index <==> e in keys && links[e] == e
    requires forall e :: e in index ==> 0 <= index[e] < |RootsIn(keys, links)| && RootsIn(keys, links)[index[e]] == e
    ensures |clusters| == |RootsIn(keys, links)|
    ensures forall i :: 0 <= i < |clusters| ==> clusters[i] == MembersIn(keys, links, rank, RootsIn(keys, links)[i])
  {
    ghost var roots := RootsIn(keys, links);
    RootsInDistinct(keys, links);
    IndexSize(roots, index);
    clusters := seq(|index|, _ => []);
    for k := 0 to |keys|
      invariant |clusters| == |roots|
      invariant forall i :: 0 <= i < |roots| ==> clusters[i] == MembersIn(keys[..k], links, rank, roots[i])
    {
      var root := FindRoot(links, rank, keys[k]);
      GroupStep(keys, links, rank, clusters, k, index[root]);
      clusters := clusters[index[root] := clusters[index[root]] + [keys[k]]];
    }
    assert keys[..|keys|] == keys;
  }

  /** A numbering of the distinct `roots` by their positions has one entry per root. */
  lemma IndexSize<E>(roots: seq<E>, index: map<E, int>)
    requires Distinct(roots)
    requires forall e :: e in index <==> e in roots
    ensures |index| == |roots|
  {
    assert index.Keys == set e | e in roots;
    DistinctCard(roots);
  }

  /** One step of grouping: key `k` joins the list of its representative, numbered `i`. */
  lemma GroupStep<E(!new)>(keys: seq<E>, links: map<E, E>, rank: map<E, nat>, clusters: seq<seq<E>>, k: nat, i: int)
    requires TableOk(keys, links, rank) && k < |keys|
    requires |clusters| == |RootsIn(keys, links)| && Distinct(RootsIn(keys, links))
    requires 0 <= i < |clusters| && RootsIn(keys, links)[i] == RootOf(links, rank, keys[k])
    requires forall j :: 0 <= j < |clusters| ==> clusters[j] == MembersIn(keys[..k], links, rank, RootsIn(keys, links)[j])
    ensures forall j :: 0 <= j < |clusters| ==>
              clusters[i := clusters[i] + [keys[k]]][j] == MembersIn(keys[..k + 1], links, rank, RootsIn(keys, links)[j])
  {
    var roots := RootsIn(keys, links);
    assert keys[..k + 1][..k] == keys[..k];
    forall j | 0 <= j < |clusters|
      ensures clusters[i := clusters[i] + [keys[k]]][j] == MembersIn(keys[..k + 1], links, rank, roots[j])
    {
      DistinctIndex(roots, i, j);
    }
  }

  /** When every key links to itself, every key is a representative. */
  lemma {:induction false} RootsInSelf<E(!new)>(keys: seq<E>, links: map<E, E>)
    requires forall e :: e in keys ==> e in links && links[e] == e
    ensures RootsIn(keys, links) == keys
  {
    if keys != [] {
      RootsInSelf(keys[..|keys| - 1], links);
    }
  }

  /** Linking one representative to another leaves one representative fewer. */
  lemma {:induction false} RootsInRelink<E(!new)>(keys: seq<E>, links: map<E, E>, r1: E, r2: E)
    requires forall e :: e in keys ==> e in links
    requires Distinct(keys) && r2 in keys && links[r2] == r2 && r1 != r2
    ensures |RootsIn(keys, links[r2 := r1])| == |RootsIn(keys, links)| - 1
  {
    var init, last := keys[..|keys| - 1], keys[|keys| - 1];
    DistinctPrefix(keys);
    if last == r2 {
      assert r2 !in init;
      RootsInAway(init, links, r1, r2);
    } else {
      RootsInRelink(init, links, r1, r2);
    }
  }

  /** Relinking an element outside `keys` does not change which keys are representatives. */
  lemma {:induction false} RootsInAway<E(!new)>(keys: seq<E>, links: map<E, E>, r1: E, r2: E)
    requires forall e :: e in keys ==> e in links
    requires r2 !in keys
    ensures RootsIn(keys, links[r2 := r1]) == RootsIn(keys, links)
  {
    if keys != [] {
      RootsInAway(keys[..|keys| - 1], links, r1, r2);
    }
  }

  /** The clusters cover `elements`, are not empty, and no element is in two of them. */
  predicate IsPartition<E(==)>(clusters: seq<seq<E>>, elements: seq<E>) {
    (forall i :: 0 <= i < |clusters| ==> clusters[i] != [])
    && (forall i, x :: 0 <= i < |clusters| && x in clusters[i] ==> x in elements)
    && (forall x :: x in elements ==> exists i :: 0 <= i < |clusters| && x in clusters[i])
    && (forall i, j, x :: 0 <= i < |clusters| && 0 <= j < |clusters| && x in clusters[i] && x in clusters[j] ==> i == j)
  }

  predicate SameCluster<E(==)>(clusters: seq<seq<E>>, x: E, y: E) {
    exists i :: 0 <= i < |clusters| && x in clusters[i] && y in clusters[i]
  }

  /** The keys grouped by representative, with the representatives numbered in insertion order. */
  ghost predicate Grouped<E(!new)>(keys: seq<E>, links: map<E, E>, rank: map<E, nat>, clusters: seq<seq<E>>) {
    TableOk(keys, links, rank)
    && |clusters| == |RootsIn(keys, links)|
    && forall i :: 0 <= i < |clusters| ==> clusters[i] == MembersIn(keys, links, rank, RootsIn(keys, links)[i])
  }

  lemma GroupsNonEmpty<E(!new)>(keys: seq<E>, links: map<E, E>, rank: map<E, nat>, clusters: seq<seq<E>>)
    requires Grouped(keys, links, rank, clusters)
    ensures forall i :: 0 <= i < |clusters| ==> clusters[i] != []
  {
    var roots := RootsIn(keys, links);
    forall i | 0 <= i < |clusters| ensures clusters[i] != [] {
      assert roots[i] in roots;
      assert roots[i] in clusters[i];
    }
  }

  /** The representative of `x`'s cluster has a number, and `x` is in that cluster. */
  lemma GroupOf<E(!new)>(keys: seq<E>, links: map<E, E>, rank: map<E, nat>, clusters: seq<seq<E>>, x: E) returns (i: nat)
    requires Grouped(keys, links, rank, clusters) && x in links
    ensures i < |clusters| && x in clusters[i]
    ensures forall y :: y in links && RootOf(links, rank, y) == RootOf(links, rank, x) ==> y in clusters[i]
  {
    var roots := RootsIn(keys, links);
    i := IndexOf(roots, RootOf(links, rank, x));
  }

  lemma GroupsDisjoint<E(!new)>(keys: seq<E>, links: map<E, E>, rank: map<E, nat>, clusters: seq<seq<E>>)
    requires Grouped(keys, links, rank, clusters)
    ensures forall i, j, x :: 0 <= i < |clusters| && 0 <= j < |clusters| && x in clusters[i] && x in clusters[j] ==> i == j
  {
    RootsInDistinct(keys, links);
    forall i, j, x | 0 <= i < |clusters| && 0 <= j < |clusters| && x in clusters[i] && x in clusters[j] ensures i == j {
      DistinctIndex(RootsIn(keys, links), i, j);
    }
  }

  /** Grouping the keys by representative partitions them; a shared representative means a shared cluster. */
  lemma GroupsPartition<E(!new)>(keys: seq<E>, links: map<E, E>, rank: map<E, nat>, clusters: seq<seq<E>>)
    requires Grouped(keys, links, rank, clusters)
    ensures IsPartition(clusters, keys)
    ensures forall x, y :: x in links && y in links && RootOf(links, rank, x) == RootOf(links, rank, y) ==> SameCluster(clusters, x, y)
  {
    GroupsNonEmpty(keys, links, rank, clusters);
    GroupsDisjoint(keys, links, rank, clusters);
    forall x | x in keys ensures exists i :: 0 <= i < |clusters| && x in clusters[i] {
      var i := GroupOf(keys, links, rank, clusters, x);
    }
    forall x, y | x in links && y in links && RootOf(links, rank, x) == RootOf(links, rank, y) ensures SameCluster(clusters, x, y) {
      var i := GroupOf(keys, links, rank, clusters, x);
    }
  }

  /** Keys in one cluster share their representative. */
  lemma SameClusterRoots<E(!new)>(keys: seq<E>, links: map<E, E>, rank: map<E, nat>, clusters: seq<seq<E>>, x: E, y: E)
    requires Grouped(keys, links, rank, clusters) && SameCluster(clusters, x, y)
    ensures x in links && y in links && RootOf(links, rank, x) == RootOf(links, rank, y)
  {
    var i :| 0 <= i < |clusters| && x in clusters[i] && y in clusters[i];
  }

  // ---------------------------------------------------------------- joined pairs

  /** Both ends of every pair are in the table and share a representative. */
  ghost predicate PairsJoined<E(!new)>(links: map<E, E>, rank: map<E, nat>, pairs: seq<(E, E)>) {
    Ranked(links, rank)
    && forall q :: 0 <= q < |pairs| ==>
         pairs[q].0 in links && pairs[q].1 in links
         && RootOf(links, rank, pairs[q].0) == RootOf(links, rank, pairs[q].1)
  }

  /** A `concat_cluster(a, b)` keeps every joined pair joined, and joins `a` with `b`. */
  lemma JoinStep<E(!new)>(links: map<E, E>, rank: map<E, nat>, links': map<E, E>, rank': map<E, nat>,
                          a: E, b: E, merged: bool, pairs: seq<(E, E)>)
    requires PairsJoined(links, rank, pairs) && a in links && b in links
    requires merged ==> Remapped(links, rank, links', rank', RootOf(links, rank, a), RootOf(links, rank, b))
    requires !merged ==> links' == links && rank' == rank && RootOf(links, rank, a) == RootOf(links, rank, b)
    ensures PairsJoined(links', rank', pairs + [(a, b)])
  {
    var all := pairs + [(a, b)];
    forall q | 0 <= q < |all|
      ensures all[q].0 in links' && all[q].1 in links'
      ensures RootOf(links', rank', all[q].0) == RootOf(links', rank', all[q].1)
    {
      if q < |pairs| {
        assert all[q] == pairs[q];
      }
    }
  }

  /** Every pair has both ends in `S` or neither. */
  ghost predicate Closed<E(!new)>(pairs: seq<(E, E)>, S: set<E>) {
    forall q :: 0 <= q < |pairs| ==> (pairs[q].0 in S <==> pairs[q].1 in S)
  }

  /**
   * `x` and `y` are connected by a chain of pairs: no set that keeps the
   * two ends of every pair together separates them.
   */
  ghost predicate Linked<E(!new)>(pairs: seq<(E, E)>, x: E, y: E) {
    forall S: set<E> :: Closed(pairs, S) ==> (x in S <==> y in S)
  }

  /** Keys that share a representative are connected by the pairs joined so far. */
  ghost predicate RootsLinked<E(!new)>(links: map<E, E>, rank: map<E, nat>, pairs: seq<(E, E)>) {
    Ranked(links, rank)
    && forall x, y :: x in links && y in links && RootOf(links, rank, x) == RootOf(links, rank, y) ==> Linked(pairs, x, y)
  }

  /** A chain through the new pair `(a, b)`, or an old chain, connects under the extended pairs. */
  lemma LinkedVia<E(!new)>(pairs: seq<(E, E)>, a: E, b: E, x: E, y: E)
    requires Linked(pairs, x, y) || (Linked(pairs, x, a) && Linked(pairs, b, y)) || (Linked(pairs, x, b) && Linked(pairs, a, y))
    ensures Linked(pairs + [(a, b)], x, y)
  {
    var all := pairs + [(a, b)];
    forall S | Closed(all, S) ensures x in S <==> y in S {
      forall q | 0 <= q < |pairs| ensures pairs[q].0 in S <==> pairs[q].1 in S {
        assert all[q] == pairs[q];
      }
      assert all[|pairs|] == (a, b);
    }
  }

  /** Under both invariants, being connected by the pairs is exactly sharing a representative. */
  lemma LinkedRoots<E(!new)>(links: map<E, E>, rank: map<E, nat>, pairs: seq<(E, E)>, x: E, y: E)
    requires PairsJoined(links, rank, pairs) && RootsLinked(links, rank, pairs) && x in links
    ensures Linked(pairs, x, y) <==> y in links && RootOf(links, rank, x) == RootOf(links, rank, y)
  {
    if Linked(pairs, x, y) {
      var S := set z | z in links && RootOf(links, rank, z) == RootOf(links, rank, x);
      assert Closed(pairs, S);
      assert x in S;
    }
  }

  /** Grouping by representative puts two keys in one cluster exactly when the pairs connect them. */
  lemma GroupedLinked<E(!new)>(keys: seq<E>, links: map<E, E>, rank: map<E, nat>, clusters: seq<seq<E>>, pairs: seq<(E, E)>)
    requires Grouped(keys, links, rank, clusters)
    requires PairsJoined(links, rank, pairs) && RootsLinked(links, rank, pairs)
    ensures forall x, y :: x in links ==> (SameCluster(clusters, x, y) <==> Linked(pairs, x, y))
  {
    GroupsPartition(keys, links, rank, clusters);
    forall x, y | x in links ensures SameCluster(clusters, x, y) <==> Linked(pairs, x, y) {
      LinkedRoots(links, rank, pairs, x, y);
      if SameCluster(clusters, x, y) {
        SameClusterRoots(keys, links, rank, clusters, x, y);
      }
    }
  }

  /** Starting from singletons, sharing a representative means being the same key. */
  lemma RootsLinkedSelf<E(!new)>(links: map<E, E>, rank: map<E, nat>)
    requires Ranked(links, rank) && forall x :: x in links ==> RootOf(links, rank, x) == x
    ensures RootsLinked(links, rank, [])
  {
  }

  /** A `concat_cluster(a, b)` connects only what the pair `(a, b)` connects. */
  lemma LinkStep<E(!new)>(links: map<E, E>, rank: map<E, nat>, links': map<E, E>, rank': map<E, nat>,
                          a: E, b: E, merged: bool, pairs: seq<(E, E)>)
    requires RootsLinked(links, rank, pairs) && a in links && b in links
    requires merged ==> Remapped(links, rank, links', rank', RootOf(links, rank, a), RootOf(links, rank, b))
    requires !merged ==> links' == links && rank' == rank
    ensures RootsLinked(links', rank', pairs + [(a, b)])
  {
    var r1, r2 := RootOf(links, rank, a), RootOf(links, rank, b);
    forall x, y | x in links' && y in links' && RootOf(links', rank', x) == RootOf(links', rank', y)
      ensures Linked(pairs + [(a, b)], x, y)
    {
      var rx, ry := RootOf(links, rank, x), RootOf(links, rank, y);
      if !merged || (rx == r2) == (ry == r2) {
        assert rx == ry;
        LinkedVia(pairs, a, b, x, y);
      } else if rx == r2 {
        assert ry == r1;
        assert Linked(pairs, x, b) && Linked(pairs, a, y);
        LinkedVia(pairs, a, b, x, y);
      } else {
        assert rx == r1;
        assert Linked(pairs, x, a) && Linked(pairs, b, y);
        LinkedVia(pairs, a, b, x, y);
      }
    }
  }

  /** A sequence without duplicates lists its elements in order of first insertion. */
  lemma {:induction false} InsertOrderNew<E(!new)>(s: seq<E>)
    requires Distinct(s)
    ensures InsertOrder([], s) == s
  {
    if s != [] {
      DistinctPrefix(s);
      InsertOrderNew(s[..|s| - 1]);
      assert s == s[..|s| - 1] + [s[|s| - 1]];
    }
  }

  // ---------------------------------------------------------------- the table

  class ClusterTable<E(==, !new)> {
    /** The keys of the link dictionary, in insertion order. */
    var keys: seq<E>
    /** `_element_links`. */
    var links: map<E, E>
    /** A witness that following links terminates. */
    ghost var rank: map<E, nat>

    ghost predicate Valid()
      reads this
    {
      TableOk(keys, links, rank)
    }

    /** The representative of `e`'s cluster. */
    ghost function Root(e: E): E
      reads this
      requires Valid() && e in links
    {
      RootOf(links, rank, e)
    }

    /** The representatives in insertion order: the cluster numbering. */
    ghost function Roots(): seq<E>
      reads this
      requires Valid()
    {
      RootsIn(keys, links)
    }

    /** The members of the cluster represented by `r`, in insertion order. */
    ghost function Members(r: E): seq<E>
      reads this
      requires Valid()
    {
      MembersIn(keys, links, rank, r)
    }

    /** `ClusterTable(elements)`: every element is its own cluster. */
    constructor (elements: seq<E>)
      ensures Valid()
      ensures keys == InsertOrder([], elements)
      ensures links == SelfLinks(elements)
      ensures forall e :: e in elements ==> Root(e) == e
    {
      keys, links, rank := [], map[], map[];
      new;
      ExtendElements(elements);
      assert map[] + SelfLinks(elements) == SelfLinks(elements);
    }

    /** `add_element`: links `e` to itself, even if it was linked elsewhere before. */
    method AddElement(e: E)
      requires Valid()
      modifies this
      ensures Valid()
      ensures keys == InsertOrder(old(keys), [e]) && links == old(links)[e := e]
      ensures Root(e) == e
      ensures old(e !in links) ==> forall x :: x in old(links) ==> Root(x) == old(Root(x))
      ensures old(e in links && links[e] != e) ==> old(Root(e)) != e
    {
      AddOk(keys, links, rank, e);
      if e !in links {
        AddRoots(links, rank, e);
      }
      keys, links, rank := InsertOrder(keys, [e]), links[e := e], RankNew(rank, [e]);
    }

    /** `extend_elements`: `add_element` for each element in turn. */
    method ExtendElements(elements: seq<E>)
      requires Valid()
      modifies this
      ensures Valid()
      ensures keys == InsertOrder(old(keys), elements) && links == old(links) + SelfLinks(elements)
    {
      keys, links, rank := ExtendTable(keys, links, rank, elements);
    }

    /** `get_cluster`: follows links to the representative; an unknown element is a `KeyError`. */
    method GetCluster(e: E) returns (r: Result<E>)
      requires Valid()
      ensures e !in links ==> r == Err(KeyError)
      ensures e in links ==> r == Ok(Root(e)) && links[r.value] == r.value
    {
      if e !in links {
        return Err(KeyError);
      }
      var root := FindRoot(links, rank, e);
      return Ok(root);
    }

    /**
     * `concat_cluster`: links the representative of `e2` to that of `e1`
     * and answers true, or answers false and changes nothing when either
     * element is unknown or both are already in one cluster.
     */
    method ConcatCluster(e1: E, e2: E) returns (merged: bool)
      requires Valid()
      modifies this
      ensures Valid()
      ensures merged <==> old(e1 in links && e2 in links && Root(e1) != Root(e2))
      ensures keys == old(keys) && links.Keys == old(links.Keys)
      ensures !merged ==> unchanged(this)
      ensures merged ==> links == old(links)[old(Root(e2)) := old(Root(e1))]
      ensures merged ==> rank == ShiftedRank(old(rank), old(Root(e1)))
      ensures merged ==> Remapped(old(links), old(rank), links, rank, old(Root(e1)), old(Root(e2)))
      ensures merged ==> Root(e1) == Root(e2) == old(Root(e1))
      ensures |RootsIn(keys, links)| == |RootsIn(old(keys), old(links))| - (if merged then 1 else 0)
    {
      var c1 := GetCluster(e1);
      if c1.Err? {
        return false;
      }
      var c2 := GetCluster(e2);
      if c2.Err? {
        return false;
      }
      if c1.value == c2.value {
        return false;
      }
      ConcatTableOk(keys, links, rank, c1.value, c2.value);
      ConcatRemapped(links, rank, c1.value, c2.value);
      ConcatRoots(links, rank, c1.value, c2.value);
      RootsInRelink(keys, links, c1.value, c2.value);
      links, rank := links[c2.value := c1.value], ShiftedRank(rank, c1.value);
      return true;
    }

    /** `_give_element_to_index`: numbers the representatives 0, 1, ... in insertion order. */
    method GiveElementToIndex() returns (m: map<E, int>)
      requires Valid()
      ensures forall e :: e in m <==> e in links && links[e] == e
      ensures forall e :: e in m ==> 0 <= m[e] < |Roots()| && Roots()[m[e]] == e
      ensures forall i :: 0 <= i < |Roots()| ==> Roots()[i] in m && m[Roots()[i]] == i
    {
      m := NumberRoots(keys, links);
    }

    /** `create_element_to_cluster_dict`: each element's cluster number. */
    method ElementToCluster() returns (d: map<E, int>)
      requires Valid()
      ensures d.Keys == links.Keys
      ensures forall e :: e in d ==> 0 <= d[e] < |Roots()| && Roots()[d[e]] == Root(e)
      ensures forall e1, e2 :: e1 in d && e2 in d ==> (d[e1] == d[e2] <==> Root(e1) == Root(e2))
    {
      var index := GiveElementToIndex();
      d := NumberElements(keys, links, rank, index);
      ghost var roots := Roots();
      RootsInDistinct(keys, links);
      forall e1, e2 | e1 in d && e2 in d ensures d[e1] == d[e2] <==> Root(e1) == Root(e2) {
        DistinctIndex(roots, d[e1], d[e2]);
      }
    }

    /** `create_cluster_to_element_sequence`: the members of each cluster, numbered as above. */
    method ClusterToElements() returns (clusters: seq<seq<E>>)
      requires Valid()
      ensures |clusters| == |Roots()|
      ensures forall i :: 0 <= i < |clusters| ==> clusters[i] == Members(Roots()[i])
      ensures IsPartition(clusters, keys)
      ensures forall x, y :: x in links && y in links && Root(x) == Root(y) ==> SameCluster(clusters, x, y)
      ensures Grouped(keys, links, rank, clusters)
    {
      var index := GiveElementToIndex();
      clusters := GroupElements(keys, links, rank, index);
      GroupsPartition(keys, links, rank, clusters);
    }
  }

  /** `concat_cluster(a, b)`, tracking the pairs joined so far: it merges exactly when `a` and `b` were not yet connected. */
  method JoinPair<E(==, !new)>(table: ClusterTable<E>, a: E, b: E, ghost pairs: seq<(E, E)>) returns (merged: bool)
    requires table.Valid() && a in table.links && b in table.links
    requires PairsJoined(table.links, table.rank, pairs) && RootsLinked(table.links, table.rank, pairs)
    modifies table
    ensures table.Valid() && table.keys == old(table.keys) && table.links.Keys == old(table.links.Keys)
    ensures PairsJoined(table.links, table.rank, pairs + [(a, b)]) && RootsLinked(table.links, table.rank, pairs + [(a, b)])
    ensures |RootsIn(table.keys, table.links)| == |RootsIn(old(table.keys), old(table.links))| - (if merged then 1 else 0)
    ensures merged <==> !Linked(pairs, a, b)
  {
    ghost var links, rank := table.links, table.rank;
    ghost var r1, r2 := table.Root(a), table.Root(b);
    assert r1 == RootOf(links, rank, a) && r2 == RootOf(links, rank, b);
    LinkedRoots(links, rank, pairs, a, b);
    merged := table.ConcatCluster(a, b);
    JoinStep(links, rank, table.links, table.rank, a, b, merged, pairs);
    LinkStep(links, rank, table.links, table.rank, a, b, merged, pairs);
  }

  lemma InsertOrderFresh<E>(keys: seq<E>, k: nat)
    requires Distinct(keys) && k < |keys|
    ensures keys[k] !in keys[..k]
  {
  }

  lemma IndexOfRoot<E>(roots: seq<E>, r: E, i: int)
    requires Distinct(roots) && 0 <= i < |roots| && roots[i] == r
    ensures forall j :: 0 <= j < |roots| && roots[j] == r ==> j == i
  {
  }
}
