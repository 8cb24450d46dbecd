/**
 * `neighbor`: elements closer than the bandwidth belong to the same
 * cluster. Each element not yet in a cluster seeds one, and the cluster
 * grows breadth first through a queue of neighbours, each flagged
 * `in_cluster` when it is queued.
 *
 * The clusters are modelled as fully consumed, one after the other, so the
 * lazy generators become a method that returns all of them; `ids` (ghost)
 * gives the input positions behind each yielded element.
 */
module NeighborClustering {
  import opened Seqs
  import VpTree
  import opened Neighborhood

  // ---------------------------------------------------------------- one cluster

  /** Every neighbour of the first `p` elements of `order` is flagged in `f`. */
  ghost predicate Explored<V>(elements: seq<V>, distance: (V, V) -> real, bandwidth: real, f: seq<bool>, order: seq<nat>, p: nat) {
    p <= |order| && forall i :: 0 <= i < p ==> Covered(elements, distance, bandwidth, f, order[i])
  }

  /**
   * First in, first out: the elements after the seed come in the order of
   * the members they were reached from.
   */
  ghost predicate Fifo<V>(elements: seq<V>, distance: (V, V) -> real, bandwidth: real, s: seq<nat>) {
    forall k1, k2 :: 0 < k1 < k2 < |s| ==> Parent(elements, distance, bandwidth, s, k1) <= Parent(elements, distance, bandwidth, s, k2)
  }

  /**
   * The state of `_neg_fill` after `p` elements of `order` have been popped
   * and expanded: `order` is the seed, the popped elements and the queue;
   * the flags are the flags at the start plus `order`.
   */
  ghost predicate ExpandInv<V>(elements: seq<V>, distance: (V, V) -> real, bandwidth: real,
                               f0: seq<bool>, f: seq<bool>, seed: nat, order: seq<nat>, p: nat) {
    |f0| == |elements| && order != [] && order[0] == seed
    && Tracked(f0, f, order)
    && Explored(elements, distance, bandwidth, f, order, p)
    && LinkedFrom(elements, distance, bandwidth, order, p)
    && Fifo(elements, distance, bandwidth, order)
  }

  lemma ExpandStart<V>(elements: seq<V>, distance: (V, V) -> real, bandwidth: real, f0: seq<bool>, f: seq<bool>, seed: nat)
    requires |f0| == |elements| && seed < |f0| && !f0[seed] && f == f0[seed := true]
    ensures ExpandInv(elements, distance, bandwidth, f0, f, seed, [seed], 0)
  {
  }

  lemma ExploredStep<V>(elements: seq<V>, distance: (V, V) -> real, bandwidth: real,
                        f: seq<bool>, f': seq<bool>, order: seq<nat>, p: nat, ids: seq<nat>)
    requires Explored(elements, distance, bandwidth, f, order, p) && p < |order| && |f| == |elements|
    requires forall j :: j in ids <==> Near(elements, distance, bandwidth, order[p], j)
    requires f' == Flagged(f, ids)
    requires Below(ids, |f|)
    ensures Explored(elements, distance, bandwidth, f', order + Fresh(f, ids), p + 1)
  {
    var order' := order + Fresh(f, ids);
    forall i | 0 <= i < p + 1 ensures Covered(elements, distance, bandwidth, f', order'[i]) {
      assert order'[i] == order[i];
      if i < p {
        assert Covered(elements, distance, bandwidth, f, order[i]);
      }
    }
  }

  /**
   * Appending the fresh neighbours of `order[p]` keeps the parents of the
   * elements already there, and gives every added element the parent `p`:
   * no member expanded before it is their neighbour, or they would be flagged.
   */
  lemma AddedParents<V>(elements: seq<V>, distance: (V, V) -> real, bandwidth: real,
                        f: seq<bool>, order: seq<nat>, p: nat, ids: seq<nat>)
    requires Explored(elements, distance, bandwidth, f, order, p) && p < |order|
    requires forall j :: j in ids <==> Near(elements, distance, bandwidth, order[p], j)
    requires Below(ids, |f|)
    ensures forall k :: 0 <= k < |order| ==>
      Parent(elements, distance, bandwidth, order + Fresh(f, ids), k) == Parent(elements, distance, bandwidth, order, k)
    ensures forall k :: |order| <= k < |order + Fresh(f, ids)| ==> Parent(elements, distance, bandwidth, order + Fresh(f, ids), k) == p
  {
    var added := Fresh(f, ids);
    var order' := order + added;
    forall k | 0 <= k < |order| ensures Parent(elements, distance, bandwidth, order', k) == Parent(elements, distance, bandwidth, order, k) {
      FirstNearPrefix(elements, distance, bandwidth, order, added, k, 0);
    }
    forall k | |order| <= k < |order'| ensures Parent(elements, distance, bandwidth, order', k) == p {
      assert order'[k] == added[k - |order|] && added[k - |order|] in added;
      assert order'[p] == order[p];
      forall i | 0 <= i < p ensures !Near(elements, distance, bandwidth, order'[i], order'[k]) {
        assert order'[i] == order[i];
        assert Covered(elements, distance, bandwidth, f, order[i]);
      }
    }
  }

  lemma LinkedStep<V>(elements: seq<V>, distance: (V, V) -> real, bandwidth: real,
                      f: seq<bool>, order: seq<nat>, p: nat, ids: seq<nat>)
    requires Explored(elements, distance, bandwidth, f, order, p) && p < |order|
    requires LinkedFrom(elements, distance, bandwidth, order, p)
    requires forall j :: j in ids <==> Near(elements, distance, bandwidth, order[p], j)
    requires Below(ids, |f|)
    ensures LinkedFrom(elements, distance, bandwidth, order + Fresh(f, ids), p + 1)
  {
    AddedParents(elements, distance, bandwidth, f, order, p, ids);
  }

  lemma FifoStep<V>(elements: seq<V>, distance: (V, V) -> real, bandwidth: real,
                    f: seq<bool>, order: seq<nat>, p: nat, ids: seq<nat>)
    requires Explored(elements, distance, bandwidth, f, order, p) && p < |order|
    requires LinkedFrom(elements, distance, bandwidth, order, p)
    requires Fifo(elements, distance, bandwidth, order)
    requires forall j :: j in ids <==> Near(elements, distance, bandwidth, order[p], j)
    requires Below(ids, |f|)
    ensures Fifo(elements, distance, bandwidth, order + Fresh(f, ids))
  {
    AddedParents(elements, distance, bandwidth, f, order, p, ids);
  }

  /** One round of `_neg_fill`: pop `order[p]`, query its neighbours, flag and queue the fresh ones. */
  lemma ExpandStep<V>(elements: seq<V>, distance: (V, V) -> real, bandwidth: real,
                      f0: seq<bool>, f: seq<bool>, f': seq<bool>, seed: nat, order: seq<nat>, p: nat, ids: seq<nat>, order': seq<nat>)
    requires ExpandInv(elements, distance, bandwidth, f0, f, seed, order, p) && p < |order|
    requires forall j :: j in ids <==> Near(elements, distance, bandwidth, order[p], j)
    requires Below(ids, |f|)
    requires f' == Flagged(f, ids) && order' == order + Fresh(f, ids)
    ensures ExpandInv(elements, distance, bandwidth, f0, f', seed, order', p + 1)
  {
    TrackedEnqueue(f0, f, f', order, ids);
    ExploredStep(elements, distance, bandwidth, f, f', order, p, ids);
    LinkedStep(elements, distance, bandwidth, f, order, p, ids);
    FifoStep(elements, distance, bandwidth, f, order, p, ids);
  }

  /**
   * One pass of the loop of `_neg_fill`: pop the head of the queue, yield it,
   * and queue its neighbours that are not flagged yet.
   */
  method Round<V(!new)>(t: VpTree.Tree<Info<V>>, elements: seq<V>, ghost distance: (V, V) -> real, bandwidth: real,
                        flags: array<bool>, ghost f0: seq<bool>, ghost seed: nat, members: seq<nat>, queue: seq<nat>)
    returns (members': seq<nat>, queue': seq<nat>)
    requires VpTree.Metric(distance) && TreeOf(t, elements, distance) && flags.Length == |elements|
    requires queue != [] && ExpandInv(elements, distance, bandwidth, f0, flags[..], seed, members + queue, |members|)
    modifies flags
    ensures members' == members + [queue[0]]
    ensures ExpandInv(elements, distance, bandwidth, f0, flags[..], seed, members' + queue', |members'|)
  {
    var cur := queue[0];
    assert (members + queue)[|members|] == cur;
    var ids := NeighborIds(t, elements, bandwidth, cur);
    NeighborIdsMembers(t, elements, distance, bandwidth, cur);
    ghost var f := flags[..];
    queue' := Enqueue(flags, ids, queue[1..]);
    members' := members + [cur];
    RoundStep(elements, distance, bandwidth, f0, f, seed, members, queue, ids);
  }

  /** The state after a pass of the loop of `_neg_fill` in which the head of the queue had the neighbours `ids`. */
  lemma RoundStep<V>(elements: seq<V>, distance: (V, V) -> real, bandwidth: real,
                     f0: seq<bool>, f: seq<bool>, seed: nat, members: seq<nat>, queue: seq<nat>, ids: seq<nat>)
    requires queue != [] && ExpandInv(elements, distance, bandwidth, f0, f, seed, members + queue, |members|)
    requires forall j :: j in ids <==> Near(elements, distance, bandwidth, queue[0], j)
    requires Below(ids, |f|)
    ensures ExpandInv(elements, distance, bandwidth, f0, Flagged(f, ids), seed,
                      (members + [queue[0]]) + (queue[1..] + Fresh(f, ids)), |members + [queue[0]]|)
  {
    assert (members + queue)[|members|] == queue[0];
    PopAppend(members, queue, Fresh(f, ids));
    ExpandStep(elements, distance, bandwidth, f0, f, Flagged(f, ids), seed, members + queue, |members|, ids,
               (members + [queue[0]]) + (queue[1..] + Fresh(f, ids)));
  }

  /**
   * The cluster seeded by `seed`: the seed, then the queued elements in the
   * order they are popped. The seed is flagged and its fresh neighbours are
   * queued exactly as `_neg_fill` does for a popped element, so the seed's
   * pass is the first round over a queue that holds only the seed. When the
   * queue runs dry every neighbour of every member is flagged.
   */
  method Expand<V(!new)>(t: VpTree.Tree<Info<V>>, elements: seq<V>, ghost distance: (V, V) -> real, bandwidth: real,
                         flags: array<bool>, seed: nat) returns (members: seq<nat>)
    requires VpTree.Metric(distance) && TreeOf(t, elements, distance)
    requires flags.Length == |elements| && seed < |elements| && !flags[seed]
    modifies flags
    ensures ExpandInv(elements, distance, bandwidth, old(flags[..]), flags[..], seed, members, |members|)
  {
    ghost var f0 := flags[..];
    flags[seed] := true;
    ExpandStart(elements, distance, bandwidth, f0, flags[..], seed);
    var queue := [seed];
    members := [];
    while queue != []
      invariant flags.Length == |elements|
      invariant ExpandInv(elements, distance, bandwidth, f0, flags[..], seed, members + queue, |members|)
      decreases |elements| - |members|
    {
      DistinctBound(members + queue, |elements|);
      members, queue := Round(t, elements, distance, bandwidth, flags, f0, seed, members, queue);
    }
    assert members + queue == members;
  }

  // ---------------------------------------------------------------- all clusters

  /** Each cluster starts at the first position below `i` that no earlier cluster holds. */
  ghost predicate Seeded(ids: seq<seq<nat>>, i: nat) {
    forall c :: 0 <= c < |ids| ==> ids[c] != [] && ids[c][0] < i && forall j: nat :: j < ids[c][0] ==> j in Flatten(ids[..c])
  }

  /** Every cluster grows breadth first from its seed. */
  ghost predicate Grown<V>(elements: seq<V>, distance: (V, V) -> real, bandwidth: real, ids: seq<seq<nat>>) {
    forall c :: 0 <= c < |ids| ==>
      LinkedFrom(elements, distance, bandwidth, ids[c], |ids[c]|) && Fifo(elements, distance, bandwidth, ids[c])
  }

  /** The state of the loop of `neighbor` after the first `i` elements have been visited. */
  ghost predicate OuterInv<V>(elements: seq<V>, distance: (V, V) -> real, bandwidth: real, f: seq<bool>, ids: seq<seq<nat>>, i: nat) {
    |f| == |elements| && i <= |f|
    && Distinct(Flatten(ids)) && Below(Flatten(ids), |f|)
    && (forall j :: 0 <= j < |f| ==> f[j] == (j in Flatten(ids)))
    && (forall j :: 0 <= j < i ==> f[j])
    && Seeded(ids, i)
    && PrefixClosed(elements, distance, bandwidth, ids)
    && Grown(elements, distance, bandwidth, ids)
  }

  lemma OuterStepSeeded(ids: seq<seq<nat>>, i: nat, members: seq<nat>)
    requires Seeded(ids, i) && members != [] && members[0] == i
    requires forall j: nat :: j < i ==> j in Flatten(ids)
    ensures Seeded(ids + [members], i + 1)
  {
    var ids' := ids + [members];
    forall c | 0 <= c < |ids'|
      ensures ids'[c] != [] && ids'[c][0] < i + 1 && forall j: nat :: j < ids'[c][0] ==> j in Flatten(ids'[..c])
    {
      if c < |ids| {
        assert ids'[..c] == ids[..c];
      } else {
        assert ids'[..c] == ids;
      }
    }
  }

  lemma OuterStepClosed<V>(elements: seq<V>, distance: (V, V) -> real, bandwidth: real, f: seq<bool>, ids: seq<seq<nat>>, members: seq<nat>)
    requires PrefixClosed(elements, distance, bandwidth, ids)
    requires Explored(elements, distance, bandwidth, f, members, |members|)
    requires forall j :: 0 <= j < |f| ==> f[j] == (j in Flatten(ids + [members]))
    ensures PrefixClosed(elements, distance, bandwidth, ids + [members])
  {
    var ids' := ids + [members];
    forall c | 0 <= c <= |ids'| ensures Closed(elements, distance, bandwidth, Flatten(ids'[..c])) {
      if c <= |ids| {
        assert ids'[..c] == ids[..c];
      } else {
        assert ids'[..c] == ids';
        assert ids[..|ids|] == ids;
        FlattenSnoc(ids, members);
        assert Closed(elements, distance, bandwidth, Flatten(ids));
        forall x: nat, y: nat | x in Flatten(ids') && Near(elements, distance, bandwidth, x, y) ensures y in Flatten(ids') {
          if x in members {
            var m :| 0 <= m < |members| && members[m] == x;
            assert f[y];
          } else {
            assert x in Flatten(ids);
          }
        }
      }
    }
  }

  lemma OuterStepGrown<V>(elements: seq<V>, distance: (V, V) -> real, bandwidth: real, ids: seq<seq<nat>>, members: seq<nat>)
    requires Grown(elements, distance, bandwidth, ids)
    requires LinkedFrom(elements, distance, bandwidth, members, |members|) && Fifo(elements, distance, bandwidth, members)
    ensures Grown(elements, distance, bandwidth, ids + [members])
  {
    var ids' := ids + [members];
    assert forall c :: 0 <= c < |ids| ==> ids'[c] == ids[c];
  }

  /** Element `i` is not in a cluster yet: it seeds the next one. */
  lemma OuterStep<V>(elements: seq<V>, distance: (V, V) -> real, bandwidth: real,
                     f0: seq<bool>, f: seq<bool>, ids: seq<seq<nat>>, i: nat, members: seq<nat>)
    requires OuterInv(elements, distance, bandwidth, f0, ids, i) && i < |f0| && !f0[i]
    requires ExpandInv(elements, distance, bandwidth, f0, f, i, members, |members|)
    ensures OuterInv(elements, distance, bandwidth, f, ids + [members], i + 1)
  {
    AddCluster(f0, f, ids, members);
    forall j: nat | j < i ensures j in Flatten(ids) {
      assert f0[j];
    }
    OuterStepSeeded(ids, i, members);
    OuterStepClosed(elements, distance, bandwidth, f, ids, members);
    OuterStepGrown(elements, distance, bandwidth, ids, members);
  }

  /** Element `i` is already in a cluster: the filter of line 26 skips it. */
  lemma OuterSkip<V>(elements: seq<V>, distance: (V, V) -> real, bandwidth: real, f: seq<bool>, ids: seq<seq<nat>>, i: nat)
    requires OuterInv(elements, distance, bandwidth, f, ids, i) && i < |f| && f[i]
    ensures OuterInv(elements, distance, bandwidth, f, ids, i + 1)
  {
  }

  /** Once every element has been visited, the clusters partition the input into closed, breadth first grown clusters. */
  lemma OuterDone<V(!new)>(elements: seq<V>, distance: (V, V) -> real, bandwidth: real, f: seq<bool>, ids: seq<seq<nat>>)
    requires VpTree.Metric(distance)
    requires OuterInv(elements, distance, bandwidth, f, ids, |f|)
    ensures Partition(ids, |elements|)
    ensures forall c :: 0 <= c < |ids| ==> ids[c] != [] && forall j: nat :: j < ids[c][0] ==> j in Flatten(ids[..c])
    ensures forall c :: 0 <= c < |ids| ==> Closed(elements, distance, bandwidth, ids[c])
    ensures forall c :: 0 <= c < |ids| ==> LinkedFrom(elements, distance, bandwidth, ids[c], |ids[c]|)
    ensures forall c :: 0 <= c < |ids| ==> Fifo(elements, distance, bandwidth, ids[c])
  {
    forall j: nat | j in Flatten(ids) ensures j < |elements| {
      var k :| 0 <= k < |Flatten(ids)| && Flatten(ids)[k] == j;
    }
    forall j: nat | j < |elements| ensures j in Flatten(ids) {
      assert f[j];
    }
    forall c | 0 <= c < |ids| ensures Closed(elements, distance, bandwidth, ids[c]) {
      ClusterClosed(elements, distance, bandwidth, ids, c);
    }
  }

  /**
   * `neighbor`, fully consumed: every element of the input is yielded exactly
   * once; each cluster starts with the first element no earlier cluster
   * holds, is closed under "closer than `bandwidth`" and grows breadth first
   * from its seed, each later element a neighbour of an earlier one. So the
   * clusters are the connected components of that relation.
   */
  method Neighbor<V(!new)>(elements: seq<V>, distance: (V, V) -> real, bandwidth: real)
    returns (clusters: seq<seq<V>>, ghost ids: seq<seq<nat>>)
    requires VpTree.Metric(distance)
    ensures Partition(ids, |elements|)
    ensures Listed(elements, clusters, ids)
    ensures forall c :: 0 <= c < |ids| ==> ids[c] != [] && forall j: nat :: j < ids[c][0] ==> j in Flatten(ids[..c])
    ensures forall c :: 0 <= c < |ids| ==> Closed(elements, distance, bandwidth, ids[c])
    ensures forall c :: 0 <= c < |ids| ==> LinkedFrom(elements, distance, bandwidth, ids[c], |ids[c]|)
    ensures forall c :: 0 <= c < |ids| ==> Fifo(elements, distance, bandwidth, ids[c])
  {
    var infos := Infos(elements);
    var t := VpTree.NewTree(infos, InfoDistance(distance));
    var flags := new bool[|elements|](_ => false);
    clusters, ids := [], [];
    for i := 0 to |elements|
      invariant flags.Length == |elements|
      invariant OuterInv(elements, distance, bandwidth, flags[..], ids, i)
      invariant Listed(elements, clusters, ids)
    {
      if !flags[i] {
        ghost var f0 := flags[..];
        var members := Expand(t, elements, distance, bandwidth, flags, i);
        OuterStep(elements, distance, bandwidth, f0, flags[..], ids, i, members);
        ListedSnoc(elements, clusters, ids, members);
        ids := ids + [members];
        clusters := clusters + [ElementsAt(elements, members)];
      } else {
        OuterSkip(elements, distance, bandwidth, flags[..], ids, i);
      }
    }
    OuterDone(elements, distance, bandwidth, flags[..], ids);
  }
}
