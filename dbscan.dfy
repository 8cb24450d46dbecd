/**
 * `dbscan`: the breadth first clustering of `neighbor` with a density
 * gate. An element is a core element when its neighbourhood, itself
 * included, has at least `densityThreshold` members. Only a core element
 * seeds a cluster or has its neighbours queued; any other element reached
 * from a core element joins the cluster as a border element. A seed
 * candidate that is not core is flagged `neg_checked` and is not queried
 * again when it is popped later.
 *
 * As in `NeighborClustering`, the clusters are modelled as fully consumed,
 * and `ids` (ghost) gives the input positions behind each yielded element.
 */
module Dbscan {
  import opened Seqs
  import VpTree
  import opened Neighborhood
  import NeighborClustering

  /** The number of positions below `m` whose elements are closer than `bandwidth` to element `x`. */
  function NeighborCount<V>(elements: seq<V>, distance: (V, V) -> real, bandwidth: real, x: nat, m: nat): nat
    requires x < |elements| && m <= |elements|
  {
    if m == 0 then 0
    else NeighborCount(elements, distance, bandwidth, x, m - 1) + if distance(elements[x], elements[m - 1]) < bandwidth then 1 else 0
  }

  /** The count is the length of the neighbourhood that a query returns. */
  lemma {:induction false} WithinCount<V>(elements: seq<V>, distance: (V, V) -> real, bandwidth: real, x: nat, m: nat)
    requires x < |elements| && m <= |elements|
    ensures |Within(elements, distance, bandwidth, x, m)| == NeighborCount(elements, distance, bandwidth, x, m)
  {
    if m > 0 {
      WithinCount(elements, distance, bandwidth, x, m - 1);
    }
  }

  /** Element `x` has at least `threshold` elements, itself included, closer than `bandwidth`. */
  predicate Core<V>(elements: seq<V>, distance: (V, V) -> real, bandwidth: real, threshold: int, x: nat) {
    x < |elements| && NeighborCount(elements, distance, bandwidth, x, |elements|) >= threshold
  }

  /** The flags `neg_checked` mark only elements that are not core. */
  ghost predicate NegSound<V>(elements: seq<V>, distance: (V, V) -> real, bandwidth: real, threshold: int, nc: seq<bool>) {
    |nc| == |elements| && forall j :: 0 <= j < |nc| && nc[j] ==> !Core(elements, distance, bandwidth, threshold, j)
  }

  // ---------------------------------------------------------------- core parents

  /**
   * The position of the first of `s[m]`, ..., `s[k - 1]` that is a core
   * element and a neighbour of `s[k]`, or `k` when none is.
   */
  function FirstCoreNear<V>(elements: seq<V>, distance: (V, V) -> real, bandwidth: real, threshold: int,
                            s: seq<nat>, k: nat, m: nat): (r: nat)
    requires m <= k < |s|
    ensures m <= r <= k
    ensures r < k ==> Core(elements, distance, bandwidth, threshold, s[r]) && Near(elements, distance, bandwidth, s[r], s[k])
    ensures forall i :: m <= i < r ==>
      !(Core(elements, distance, bandwidth, threshold, s[i]) && Near(elements, distance, bandwidth, s[i], s[k]))
    decreases k - m
  {
    if m == k then k
    else if Core(elements, distance, bandwidth, threshold, s[m]) && Near(elements, distance, bandwidth, s[m], s[k]) then m
    else FirstCoreNear(elements, distance, bandwidth, threshold, s, k, m + 1)
  }

  /** The expanded element `s[k]` was reached from: its first earlier core neighbour (`k` when none is). */
  function CoreParent<V>(elements: seq<V>, distance: (V, V) -> real, bandwidth: real, threshold: int, s: seq<nat>, k: nat): nat
    requires k < |s|
  {
    FirstCoreNear(elements, distance, bandwidth, threshold, s, k, 0)
  }

  lemma {:induction false} FirstCoreNearPrefix<V>(elements: seq<V>, distance: (V, V) -> real, bandwidth: real, threshold: int,
                                                  s: seq<nat>, t: seq<nat>, k: nat, m: nat)
    requires m <= k < |s|
    ensures FirstCoreNear(elements, distance, bandwidth, threshold, s + t, k, m)
         == FirstCoreNear(elements, distance, bandwidth, threshold, s, k, m)
    decreases k - m
  {
    assert (s + t)[m] == s[m] && (s + t)[k] == s[k];
    if m < k {
      FirstCoreNearPrefix(elements, distance, bandwidth, threshold, s, t, k, m + 1);
    }
  }

  /** Every element after the seed is a neighbour of a core element among the first `p`, which precedes it. */
  ghost predicate Reached<V>(elements: seq<V>, distance: (V, V) -> real, bandwidth: real, threshold: int, s: seq<nat>, p: nat) {
    forall k :: 0 < k < |s| ==>
      CoreParent(elements, distance, bandwidth, threshold, s, k) < k && CoreParent(elements, distance, bandwidth, threshold, s, k) < p
  }

  /** First in, first out: the elements after the seed come in the order of the core elements that reached them. */
  ghost predicate CoreFifo<V>(elements: seq<V>, distance: (V, V) -> real, bandwidth: real, threshold: int, s: seq<nat>) {
    forall k1, k2 :: 0 < k1 < k2 < |s| ==>
      CoreParent(elements, distance, bandwidth, threshold, s, k1) <= CoreParent(elements, distance, bandwidth, threshold, s, k2)
  }

  // ---------------------------------------------------------------- one cluster

  /** Every neighbour of a core element among the first `p` of `order` is flagged in `f`. */
  ghost predicate CoreExplored<V>(elements: seq<V>, distance: (V, V) -> real, bandwidth: real, threshold: int,
                                  f: seq<bool>, order: seq<nat>, p: nat) {
    p <= |order| && forall i :: 0 <= i < p && Core(elements, distance, bandwidth, threshold, order[i]) ==>
      Covered(elements, distance, bandwidth, f, order[i])
  }

  /**
   * The state of `_neg_fill` after `p` elements of `order` have been popped:
   * `order` is the core seed, the popped elements and the queue, and the
   * flags `in_cluster` are the flags at the start plus `order`.
   */
  ghost predicate DbExpandInv<V>(elements: seq<V>, distance: (V, V) -> real, bandwidth: real, threshold: int,
                                 f0: seq<bool>, f: seq<bool>, seed: nat, order: seq<nat>, p: nat) {
    |f0| == |elements| && order != [] && order[0] == seed
    && Core(elements, distance, bandwidth, threshold, seed)
    && Tracked(f0, f, order)
    && CoreExplored(elements, distance, bandwidth, threshold, f, order, p)
    && Reached(elements, distance, bandwidth, threshold, order, p)
    && CoreFifo(elements, distance, bandwidth, threshold, order)
  }

  lemma DbStart<V>(elements: seq<V>, distance: (V, V) -> real, bandwidth: real, threshold: int,
                   f0: seq<bool>, f: seq<bool>, seed: nat)
    requires |f0| == |elements| && seed < |f0| && !f0[seed] && f == f0[seed := true]
    requires Core(elements, distance, bandwidth, threshold, seed)
    ensures DbExpandInv(elements, distance, bandwidth, threshold, f0, f, seed, [seed], 0)
  {
  }

  lemma CoreExploredStep<V>(elements: seq<V>, distance: (V, V) -> real, bandwidth: real, threshold: int,
                            f: seq<bool>, f': seq<bool>, order: seq<nat>, p: nat, ids: seq<nat>)
    requires CoreExplored(elements, distance, bandwidth, threshold, f, order, p) && p < |order| && |f| == |elements|
    requires forall j :: j in ids <==> Near(elements, distance, bandwidth, order[p], j)
    requires f' == Flagged(f, ids) && Below(ids, |f|)
    ensures CoreExplored(elements, distance, bandwidth, threshold, f', order + Fresh(f, ids), p + 1)
  {
    var order' := order + Fresh(f, ids);
    forall i | 0 <= i < p + 1 && Core(elements, distance, bandwidth, threshold, order'[i])
      ensures Covered(elements, distance, bandwidth, f', order'[i])
    {
      assert order'[i] == order[i];
      CoveredAfterStep(elements, distance, bandwidth, threshold, f, order, p, ids, i);
    }
  }

  /** The element `order[i]` of the explored prefix or the one just expanded is covered after the flagging. */
  lemma CoveredAfterStep<V>(elements: seq<V>, distance: (V, V) -> real, bandwidth: real, threshold: int,
                            f: seq<bool>, order: seq<nat>, p: nat, ids: seq<nat>, i: nat)
    requires CoreExplored(elements, distance, bandwidth, threshold, f, order, p) && i <= p < |order| && |f| == |elements|
    requires Core(elements, distance, bandwidth, threshold, order[i])
    requires forall j :: j in ids <==> Near(elements, distance, bandwidth, order[p], j)
    ensures Covered(elements, distance, bandwidth, Flagged(f, ids), order[i])
  {
    if i < p {
      CoveredKept(elements, distance, bandwidth, f, order[i], ids);
    } else {
      CoveredByFlagging(elements, distance, bandwidth, f, order[i], ids);
    }
  }

  /**
   * Appending the fresh neighbours of the core element `order[p]` keeps the
   * core parents of the elements already there and gives every added
   * element the core parent `p`: no core element expanded before it is
   * their neighbour, or they would be flagged.
   */
  lemma AddedCoreParents<V>(elements: seq<V>, distance: (V, V) -> real, bandwidth: real, threshold: int,
                            f: seq<bool>, order: seq<nat>, p: nat, ids: seq<nat>)
    requires CoreExplored(elements, distance, bandwidth, threshold, f, order, p) && p < |order|
    requires Core(elements, distance, bandwidth, threshold, order[p])
    requires forall j :: j in ids <==> Near(elements, distance, bandwidth, order[p], j)
    requires Below(ids, |f|)
    ensures forall k :: 0 <= k < |order| ==>
      CoreParent(elements, distance, bandwidth, threshold, order + Fresh(f, ids), k)
        == CoreParent(elements, distance, bandwidth, threshold, order, k)
    ensures forall k :: |order| <= k < |order + Fresh(f, ids)| ==>
      CoreParent(elements, distance, bandwidth, threshold, order + Fresh(f, ids), k) == p
  {
    var added := Fresh(f, ids);
    var order' := order + added;
    forall k | 0 <= k < |order|
      ensures CoreParent(elements, distance, bandwidth, threshold, order', k) == CoreParent(elements, distance, bandwidth, threshold, order, k)
    {
      FirstCoreNearPrefix(elements, distance, bandwidth, threshold, order, added, k, 0);
    }
    forall k | |order| <= k < |order'| ensures CoreParent(elements, distance, bandwidth, threshold, order', k) == p {
      assert order'[k] == added[k - |order|] && added[k - |order|] in added;
      assert order'[p] == order[p];
      forall i | 0 <= i < p
        ensures !(Core(elements, distance, bandwidth, threshold, order'[i]) && Near(elements, distance, bandwidth, order'[i], order'[k]))
      {
        assert order'[i] == order[i];
        if Core(elements, distance, bandwidth, threshold, order[i]) {
          assert Covered(elements, distance, bandwidth, f, order[i]);
        }
      }
    }
  }

  lemma ReachedStep<V>(elements: seq<V>, distance: (V, V) -> real, bandwidth: real, threshold: int,
                       f: seq<bool>, order: seq<nat>, p: nat, ids: seq<nat>)
    requires CoreExplored(elements, distance, bandwidth, threshold, f, order, p) && p < |order|
    requires Core(elements, distance, bandwidth, threshold, order[p])
    requires Reached(elements, distance, bandwidth, threshold, order, p)
    requires forall j :: j in ids <==> Near(elements, distance, bandwidth, order[p], j)
    requires Below(ids, |f|)
    ensures Reached(elements, distance, bandwidth, threshold, order + Fresh(f, ids), p + 1)
  {
    AddedCoreParents(elements, distance, bandwidth, threshold, f, order, p, ids);
  }

  lemma CoreFifoStep<V>(elements: seq<V>, distance: (V, V) -> real, bandwidth: real, threshold: int,
                        f: seq<bool>, order: seq<nat>, p: nat, ids: seq<nat>)
    requires CoreExplored(elements, distance, bandwidth, threshold, f, order, p) && p < |order|
    requires Core(elements, distance, bandwidth, threshold, order[p])
    requires Reached(elements, distance, bandwidth, threshold, order, p)
    requires CoreFifo(elements, distance, bandwidth, threshold, order)
    requires forall j :: j in ids <==> Near(elements, distance, bandwidth, order[p], j)
    requires Below(ids, |f|)
    ensures CoreFifo(elements, distance, bandwidth, threshold, order + Fresh(f, ids))
  {
    AddedCoreParents(elements, distance, bandwidth, threshold, f, order, p, ids);
  }

  /** A popped core element: its fresh neighbours are flagged and queued. */
  lemma DbExpandStep<V>(elements: seq<V>, distance: (V, V) -> real, bandwidth: real, threshold: int,
                        f0: seq<bool>, f: seq<bool>, f': seq<bool>, seed: nat, order: seq<nat>, p: nat,
                        ids: seq<nat>, order': seq<nat>)
    requires DbExpandInv(elements, distance, bandwidth, threshold, f0, f, seed, order, p) && p < |order|
    requires Core(elements, distance, bandwidth, threshold, order[p])
    requires forall j :: j in ids <==> Near(elements, distance, bandwidth, order[p], j)
    requires Below(ids, |f|)
    requires f' == Flagged(f, ids) && order' == order + Fresh(f, ids)
    ensures DbExpandInv(elements, distance, bandwidth, threshold, f0, f', seed, order', p + 1)
  {
    TrackedEnqueue(f0, f, f', order, ids);
    CoreExploredStep(elements, distance, bandwidth, threshold, f, f', order, p, ids);
    ReachedStep(elements, distance, bandwidth, threshold, f, order, p, ids);
    CoreFifoStep(elements, distance, bandwidth, threshold, f, order, p, ids);
  }

  /** A popped element that is not core: it stays in the cluster as a border element and nothing is queued. */
  lemma DbSkipStep<V>(elements: seq<V>, distance: (V, V) -> real, bandwidth: real, threshold: int,
                      f0: seq<bool>, f: seq<bool>, seed: nat, order: seq<nat>, p: nat)
    requires DbExpandInv(elements, distance, bandwidth, threshold, f0, f, seed, order, p) && p < |order|
    requires !Core(elements, distance, bandwidth, threshold, order[p])
    ensures DbExpandInv(elements, distance, bandwidth, threshold, f0, f, seed, order, p + 1)
  {
  }

  /** The state after a pass of `_neg_fill` whose popped core element had the neighbours `ids`. */
  lemma DbRoundStep<V>(elements: seq<V>, distance: (V, V) -> real, bandwidth: real, threshold: int,
                       f0: seq<bool>, f: seq<bool>, seed: nat, members: seq<nat>, queue: seq<nat>, ids: seq<nat>)
    requires queue != [] && DbExpandInv(elements, distance, bandwidth, threshold, f0, f, seed, members + queue, |members|)
    requires Core(elements, distance, bandwidth, threshold, queue[0])
    requires forall j :: j in ids <==> Near(elements, distance, bandwidth, queue[0], j)
    requires Below(ids, |f|)
    ensures DbExpandInv(elements, distance, bandwidth, threshold, f0, Flagged(f, ids), seed,
                        (members + [queue[0]]) + (queue[1..] + Fresh(f, ids)), |members + [queue[0]]|)
  {
    assert (members + queue)[|members|] == queue[0];
    PopAppend(members, queue, Fresh(f, ids));
    DbExpandStep(elements, distance, bandwidth, threshold, f0, f, Flagged(f, ids), seed, members + queue, |members|, ids,
                 (members + [queue[0]]) + (queue[1..] + Fresh(f, ids)));
  }

  /** The state after a pass of `_neg_fill` whose popped element was not core. */
  lemma DbBorderStep<V>(elements: seq<V>, distance: (V, V) -> real, bandwidth: real, threshold: int,
                        f0: seq<bool>, f: seq<bool>, seed: nat, members: seq<nat>, queue: seq<nat>)
    requires queue != [] && DbExpandInv(elements, distance, bandwidth, threshold, f0, f, seed, members + queue, |members|)
    requires !Core(elements, distance, bandwidth, threshold, queue[0])
    ensures DbExpandInv(elements, distance, bandwidth, threshold, f0, f, seed,
                        (members + [queue[0]]) + queue[1..], |members + [queue[0]]|)
  {
    assert (members + queue)[|members|] == queue[0];
    PopAppend(members, queue, []);
    assert (members + queue) + [] == members + queue && queue[1..] + [] == queue[1..];
    DbSkipStep(elements, distance, bandwidth, threshold, f0, f, seed, members + queue, |members|);
  }

  /**
   * One pass of the loop of `_neg_fill`: pop the head of the queue and
   * yield it; unless it is flagged `neg_checked`, query its neighbours, and
   * if there are at least `threshold` of them queue those not flagged yet.
   */
  method Round<V(!new)>(t: VpTree.Tree<Info<V>>, elements: seq<V>, ghost distance: (V, V) -> real, bandwidth: real,
                        threshold: int, flags: array<bool>, negChecked: array<bool>, ghost f0: seq<bool>, ghost seed: nat,
                        members: seq<nat>, queue: seq<nat>)
    returns (members': seq<nat>, queue': seq<nat>)
    requires VpTree.Metric(distance) && TreeOf(t, elements, distance)
    requires flags.Length == |elements| && flags != negChecked
    requires NegSound(elements, distance, bandwidth, threshold, negChecked[..])
    requires queue != [] && DbExpandInv(elements, distance, bandwidth, threshold, f0, flags[..], seed, members + queue, |members|)
    modifies flags
    ensures members' == members + [queue[0]]
    ensures !Core(elements, distance, bandwidth, threshold, queue[0]) ==> queue' == queue[1..] && flags[..] == old(flags[..])
    ensures DbExpandInv(elements, distance, bandwidth, threshold, f0, flags[..], seed, members' + queue', |members'|)
  {
    var cur := queue[0];
    assert (members + queue)[|members|] == cur;
    members' := members + [cur];
    if !negChecked[cur] {
      var ids := NeighborIds(t, elements, bandwidth, cur);
      NeighborIdsMembers(t, elements, distance, bandwidth, cur);
      WithinCount(elements, distance, bandwidth, cur, |elements|);
      if |ids| >= threshold {
        ghost var f := flags[..];
        queue' := Enqueue(flags, ids, queue[1..]);
        DbRoundStep(elements, distance, bandwidth, threshold, f0, f, seed, members, queue, ids);
        return;
      }
    }
    queue' := queue[1..];
    DbBorderStep(elements, distance, bandwidth, threshold, f0, flags[..], seed, members, queue);
  }

  /**
   * The cluster seeded by the core element `seed`, whose neighbours `ids`
   * the loop of `dbscan` has already queried: the seed is flagged, its
   * fresh neighbours queued, and the queue drained by `_neg_fill`.
   */
  method Expand<V(!new)>(t: VpTree.Tree<Info<V>>, elements: seq<V>, ghost distance: (V, V) -> real, bandwidth: real,
                         threshold: int, flags: array<bool>, negChecked: array<bool>, seed: nat, ids: seq<nat>)
    returns (members: seq<nat>)
    requires VpTree.Metric(distance) && TreeOf(t, elements, distance)
    requires flags.Length == |elements| && flags != negChecked
    requires NegSound(elements, distance, bandwidth, threshold, negChecked[..])
    requires seed < |elements| && !flags[seed]
    requires ids == NeighborIds(t, elements, bandwidth, seed) && |ids| >= threshold
    modifies flags
    ensures DbExpandInv(elements, distance, bandwidth, threshold, old(flags[..]), flags[..], seed, members, |members|)
  {
    ghost var f0 := flags[..];
    NeighborIdsMembers(t, elements, distance, bandwidth, seed);
    WithinCount(elements, distance, bandwidth, seed, |elements|);
    flags[seed] := true;
    ghost var f1 := flags[..];
    DbStart(elements, distance, bandwidth, threshold, f0, f1, seed);
    var queue := Enqueue(flags, ids, []);
    members := [seed];
    assert [] + Fresh(f1, ids) == Fresh(f1, ids);
    DbExpandStep(elements, distance, bandwidth, threshold, f0, f1, flags[..], seed, [seed], 0, ids, [seed] + Fresh(f1, ids));
    while queue != []
      invariant flags.Length == |elements|
      invariant NegSound(elements, distance, bandwidth, threshold, negChecked[..])
      invariant DbExpandInv(elements, distance, bandwidth, threshold, f0, flags[..], seed, members + queue, |members|)
      decreases |elements| - |members|
    {
      DistinctBound(members + queue, |elements|);
      members, queue := Round(t, elements, distance, bandwidth, threshold, flags, negChecked, f0, seed, members, queue);
    }
    assert members + queue == members;
  }

  // ---------------------------------------------------------------- all clusters

  /** Every neighbour of a core member of `s` is in `s`. */
  ghost predicate CoreClosed<V>(elements: seq<V>, distance: (V, V) -> real, bandwidth: real, threshold: int, s: seq<nat>) {
    forall x: nat, y: nat :: x in s && Core(elements, distance, bandwidth, threshold, x) && Near(elements, distance, bandwidth, x, y)
      ==> y in s
  }

  /** Every neighbour of a core element of the first `c` clusters is in the first `c` clusters. */
  ghost predicate PrefixCoreClosed<V>(elements: seq<V>, distance: (V, V) -> real, bandwidth: real, threshold: int, ids: seq<seq<nat>>) {
    forall c :: 0 <= c <= |ids| ==> CoreClosed(elements, distance, bandwidth, threshold, Flatten(ids[..c]))
  }

  /**
   * Each cluster starts with a core element below `i`, and every earlier
   * position is in an earlier cluster or is not core.
   */
  ghost predicate DbSeeded<V>(elements: seq<V>, distance: (V, V) -> real, bandwidth: real, threshold: int, ids: seq<seq<nat>>, i: nat) {
    forall c :: 0 <= c < |ids| ==>
      ids[c] != [] && ids[c][0] < i && Core(elements, distance, bandwidth, threshold, ids[c][0])
      && forall j: nat :: j < ids[c][0] ==> j in Flatten(ids[..c]) || !Core(elements, distance, bandwidth, threshold, j)
  }

  /** Every cluster grows breadth first from its seed through core elements. */
  ghost predicate DbGrown<V>(elements: seq<V>, distance: (V, V) -> real, bandwidth: real, threshold: int, ids: seq<seq<nat>>) {
    forall c :: 0 <= c < |ids| ==>
      Reached(elements, distance, bandwidth, threshold, ids[c], |ids[c]|) && CoreFifo(elements, distance, bandwidth, threshold, ids[c])
  }

  /** The state of the loop of `dbscan` after the first `i` elements have been visited. */
  ghost predicate DbInv<V>(elements: seq<V>, distance: (V, V) -> real, bandwidth: real, threshold: int,
                           f: seq<bool>, nc: seq<bool>, ids: seq<seq<nat>>, i: nat) {
    |f| == |elements| && i <= |f|
    && NegSound(elements, distance, bandwidth, threshold, nc)
    && Distinct(Flatten(ids)) && Below(Flatten(ids), |f|)
    && (forall j :: 0 <= j < |f| ==> f[j] == (j in Flatten(ids)))
    && (forall j :: 0 <= j < i ==> f[j] || !Core(elements, distance, bandwidth, threshold, j))
    && DbSeeded(elements, distance, bandwidth, threshold, ids, i)
    && PrefixCoreClosed(elements, distance, bandwidth, threshold, ids)
    && DbGrown(elements, distance, bandwidth, threshold, ids)
  }

  lemma DbStepSeeded<V>(elements: seq<V>, distance: (V, V) -> real, bandwidth: real, threshold: int,
                        ids: seq<seq<nat>>, i: nat, members: seq<nat>)
    requires DbSeeded(elements, distance, bandwidth, threshold, ids, i) && members != [] && members[0] == i
    requires Core(elements, distance, bandwidth, threshold, i)
    requires forall j: nat :: j < i ==> j in Flatten(ids) || !Core(elements, distance, bandwidth, threshold, j)
    ensures DbSeeded(elements, distance, bandwidth, threshold, ids + [members], i + 1)
  {
    var ids' := ids + [members];
    forall c | 0 <= c < |ids'|
      ensures ids'[c] != [] && ids'[c][0] < i + 1 && Core(elements, distance, bandwidth, threshold, ids'[c][0])
      ensures forall j: nat :: j < ids'[c][0] ==> j in Flatten(ids'[..c]) || !Core(elements, distance, bandwidth, threshold, j)
    {
      if c < |ids| {
        assert ids'[..c] == ids[..c];
      } else {
        assert ids'[..c] == ids;
      }
    }
  }

  lemma DbStepClosed<V>(elements: seq<V>, distance: (V, V) -> real, bandwidth: real, threshold: int,
                        f: seq<bool>, ids: seq<seq<nat>>, members: seq<nat>)
    requires PrefixCoreClosed(elements, distance, bandwidth, threshold, ids)
    requires CoreExplored(elements, distance, bandwidth, threshold, f, members, |members|)
    requires forall j :: 0 <= j < |f| ==> f[j] == (j in Flatten(ids + [members]))
    ensures PrefixCoreClosed(elements, distance, bandwidth, threshold, ids + [members])
  {
    var ids' := ids + [members];
    forall c | 0 <= c <= |ids'| ensures CoreClosed(elements, distance, bandwidth, threshold, Flatten(ids'[..c])) {
      if c <= |ids| {
        assert ids'[..c] == ids[..c];
      } else {
        assert ids'[..c] == ids';
        assert ids[..|ids|] == ids;
        FlattenSnoc(ids, members);
        assert CoreClosed(elements, distance, bandwidth, threshold, Flatten(ids));
        forall x: nat, y: nat | x in Flatten(ids') && Core(elements, distance, bandwidth, threshold, x)
                               && Near(elements, distance, bandwidth, x, y)
          ensures y in Flatten(ids')
        {
          if x in members {
            var m :| 0 <= m < |members| && members[m] == x;
            assert Covered(elements, distance, bandwidth, f, members[m]);
            assert f[y];
          } else {
            assert x in Flatten(ids);
          }
        }
      }
    }
  }

  lemma DbStepGrown<V>(elements: seq<V>, distance: (V, V) -> real, bandwidth: real, threshold: int,
                       ids: seq<seq<nat>>, members: seq<nat>)
    requires DbGrown(elements, distance, bandwidth, threshold, ids)
    requires Reached(elements, distance, bandwidth, threshold, members, |members|)
    requires CoreFifo(elements, distance, bandwidth, threshold, members)
    ensures DbGrown(elements, distance, bandwidth, threshold, ids + [members])
  {
    var ids' := ids + [members];
    assert forall c :: 0 <= c < |ids| ==> ids'[c] == ids[c];
  }

  /** The core element `i`, not in a cluster yet, seeds the next cluster. */
  lemma DbStep<V>(elements: seq<V>, distance: (V, V) -> real, bandwidth: real, threshold: int,
                  f0: seq<bool>, f: seq<bool>, nc: seq<bool>, ids: seq<seq<nat>>, i: nat, members: seq<nat>)
    requires DbInv(elements, distance, bandwidth, threshold, f0, nc, ids, i) && i < |f0| && !f0[i]
    requires DbExpandInv(elements, distance, bandwidth, threshold, f0, f, i, members, |members|)
    ensures DbInv(elements, distance, bandwidth, threshold, f, nc, ids + [members], i + 1)
  {
    AddCluster(f0, f, ids, members);
    forall j: nat | j < i ensures j in Flatten(ids) || !Core(elements, distance, bandwidth, threshold, j) {
      assert f0[j] || !Core(elements, distance, bandwidth, threshold, j);
    }
    DbStepSeeded(elements, distance, bandwidth, threshold, ids, i, members);
    DbStepClosed(elements, distance, bandwidth, threshold, f, ids, members);
    DbStepGrown(elements, distance, bandwidth, threshold, ids, members);
  }

  /** Element `i`, not in a cluster yet, has too few neighbours: it is flagged `neg_checked` (lines 39-41). */
  lemma DbSparse<V>(elements: seq<V>, distance: (V, V) -> real, bandwidth: real, threshold: int,
                    f: seq<bool>, nc: seq<bool>, ids: seq<seq<nat>>, i: nat)
    requires DbInv(elements, distance, bandwidth, threshold, f, nc, ids, i) && i < |f|
    requires !Core(elements, distance, bandwidth, threshold, i)
    ensures DbInv(elements, distance, bandwidth, threshold, f, nc[i := true], ids, i + 1)
  {
  }

  /** Element `i` is already in a cluster: the filter of line 37 skips it. */
  lemma DbSkip<V>(elements: seq<V>, distance: (V, V) -> real, bandwidth: real, threshold: int,
                  f: seq<bool>, nc: seq<bool>, ids: seq<seq<nat>>, i: nat)
    requires DbInv(elements, distance, bandwidth, threshold, f, nc, ids, i) && i < |f| && f[i]
    ensures DbInv(elements, distance, bandwidth, threshold, f, nc, ids, i + 1)
  {
  }

  /** Once every element has been visited, every core element is in a cluster. */
  lemma DbDone<V>(elements: seq<V>, distance: (V, V) -> real, bandwidth: real, threshold: int,
                  f: seq<bool>, nc: seq<bool>, ids: seq<seq<nat>>)
    requires DbInv(elements, distance, bandwidth, threshold, f, nc, ids, |f|)
    ensures Distinct(Flatten(ids)) && Below(Flatten(ids), |elements|)
    ensures forall j: nat :: Core(elements, distance, bandwidth, threshold, j) ==> j in Flatten(ids)
    ensures DbSeeded(elements, distance, bandwidth, threshold, ids, |elements|)
    ensures DbGrown(elements, distance, bandwidth, threshold, ids)
    ensures PrefixCoreClosed(elements, distance, bandwidth, threshold, ids)
  {
    forall j: nat | Core(elements, distance, bandwidth, threshold, j) ensures j in Flatten(ids) {
      assert f[j];
    }
  }

  /**
   * One pass of the loop of `dbscan` over element `i`: skip it when it is
   * in a cluster; otherwise query its neighbours and flag it `neg_checked`
   * when they are too few, or let it seed the next cluster.
   */
  method Visit<V(!new)>(t: VpTree.Tree<Info<V>>, elements: seq<V>, ghost distance: (V, V) -> real, bandwidth: real,
                        threshold: int, flags: array<bool>, negChecked: array<bool>, i: nat,
                        clusters: seq<seq<V>>, ghost ids: seq<seq<nat>>)
    returns (clusters': seq<seq<V>>, ghost ids': seq<seq<nat>>)
    requires VpTree.Metric(distance) && TreeOf(t, elements, distance)
    requires flags.Length == |elements| && negChecked.Length == |elements| && flags != negChecked && i < |elements|
    requires DbInv(elements, distance, bandwidth, threshold, flags[..], negChecked[..], ids, i)
    requires Listed(elements, clusters, ids)
    modifies flags, negChecked
    ensures DbInv(elements, distance, bandwidth, threshold, flags[..], negChecked[..], ids', i + 1)
    ensures Listed(elements, clusters', ids')
  {
    clusters', ids' := clusters, ids;
    if !flags[i] {
      var neighbors := NeighborIds(t, elements, bandwidth, i);
      NeighborIdsMembers(t, elements, distance, bandwidth, i);
      WithinCount(elements, distance, bandwidth, i, |elements|);
      if |neighbors| < threshold {
        DbSparse(elements, distance, bandwidth, threshold, flags[..], negChecked[..], ids, i);
        negChecked[i] := true;
      } else {
        ghost var f0 := flags[..];
        var members := Expand(t, elements, distance, bandwidth, threshold, flags, negChecked, i, neighbors);
        DbStep(elements, distance, bandwidth, threshold, f0, flags[..], negChecked[..], ids, i, members);
        ListedSnoc(elements, clusters, ids, members);
        ids' := ids + [members];
        clusters' := clusters + [ElementsAt(elements, members)];
      }
    } else {
      DbSkip(elements, distance, bandwidth, threshold, flags[..], negChecked[..], ids, i);
    }
  }

  /**
   * `dbscan`, fully consumed: no element is yielded twice; each cluster
   * starts with a core element that no earlier cluster holds, every
   * smaller position being clustered earlier or not core; every core
   * element is yielded; each later member is a neighbour of an earlier core
   * member, in breadth first order; and every neighbour of a core element
   * is in its cluster or an earlier one. With a positive bandwidth and a
   * threshold of at most one the clusters are those `neighbor` describes.
   */
  method Dbscan<V(!new)>(elements: seq<V>, distance: (V, V) -> real, bandwidth: real, densityThreshold: int)
    returns (clusters: seq<seq<V>>, ghost ids: seq<seq<nat>>)
    requires VpTree.Metric(distance)
    ensures Listed(elements, clusters, ids)
    ensures Distinct(Flatten(ids)) && Below(Flatten(ids), |elements|)
    ensures forall j: nat :: Core(elements, distance, bandwidth, densityThreshold, j) ==> j in Flatten(ids)
    ensures DbSeeded(elements, distance, bandwidth, densityThreshold, ids, |elements|)
    ensures DbGrown(elements, distance, bandwidth, densityThreshold, ids)
    ensures PrefixCoreClosed(elements, distance, bandwidth, densityThreshold, ids)
    ensures densityThreshold <= 1 && bandwidth > 0.0 ==>
      Partition(ids, |elements|)
      && (forall c :: 0 <= c < |ids| ==> Closed(elements, distance, bandwidth, ids[c]))
      && (forall c :: 0 <= c < |ids| ==> LinkedFrom(elements, distance, bandwidth, ids[c], |ids[c]|))
      && (forall c :: 0 <= c < |ids| ==> NeighborClustering.Fifo(elements, distance, bandwidth, ids[c]))
  {
    var infos := Infos(elements);
    var t := VpTree.NewTree(infos, InfoDistance(distance));
    var flags := new bool[|elements|](_ => false);
    var negChecked := new bool[|elements|](_ => false);
    clusters, ids := [], [];
    for i := 0 to |elements|
      invariant flags.Length == |elements| && negChecked.Length == |elements|
      invariant DbInv(elements, distance, bandwidth, densityThreshold, flags[..], negChecked[..], ids, i)
      invariant Listed(elements, clusters, ids)
    {
      clusters, ids := Visit(t, elements, distance, bandwidth, densityThreshold, flags, negChecked, i, clusters, ids);
    }
    DbDone(elements, distance, bandwidth, densityThreshold, flags[..], negChecked[..], ids);
    if densityThreshold <= 1 && bandwidth > 0.0 {
      DenseAsNeighbor(elements, distance, bandwidth, densityThreshold, ids);
    }
  }

  // ---------------------------------------------------------------- a threshold of at most one

  /** With a positive bandwidth and a threshold of at most one, every element is core: it is its own neighbour. */
  lemma AllCore<V(!new)>(elements: seq<V>, distance: (V, V) -> real, bandwidth: real, threshold: int, x: nat)
    requires VpTree.Metric(distance) && bandwidth > 0.0 && threshold <= 1 && x < |elements|
    ensures Core(elements, distance, bandwidth, threshold, x)
  {
    assert distance(elements[x], elements[x]) == 0.0;
    assert x in Within(elements, distance, bandwidth, x, |elements|);
    WithinCount(elements, distance, bandwidth, x, |elements|);
  }

  /** When every element is core, the core parent is the parent. */
  lemma {:induction false} FirstCoreNearAll<V(!new)>(elements: seq<V>, distance: (V, V) -> real, bandwidth: real, threshold: int,
                                               s: seq<nat>, k: nat, m: nat)
    requires VpTree.Metric(distance) && bandwidth > 0.0 && threshold <= 1
    requires m <= k < |s| && Below(s, |elements|)
    ensures FirstCoreNear(elements, distance, bandwidth, threshold, s, k, m) == FirstNear(elements, distance, bandwidth, s, k, m)
    decreases k - m
  {
    if m < k {
      AllCore(elements, distance, bandwidth, threshold, s[m]);
      FirstCoreNearAll(elements, distance, bandwidth, threshold, s, k, m + 1);
    }
  }

  /**
   * With a positive bandwidth and a threshold of at most one, the clusters
   * of `dbscan` have every property proved of the clusters of `neighbor`:
   * they partition the input, each is closed under "closer than
   * `bandwidth`", and each grows breadth first from its seed.
   */
  lemma DenseAsNeighbor<V(!new)>(elements: seq<V>, distance: (V, V) -> real, bandwidth: real, threshold: int, ids: seq<seq<nat>>)
    requires VpTree.Metric(distance) && bandwidth > 0.0 && threshold <= 1
    requires Distinct(Flatten(ids)) && Below(Flatten(ids), |elements|)
    requires forall c :: 0 <= c < |ids| ==> Below(ids[c], |elements|)
    requires forall j: nat :: Core(elements, distance, bandwidth, threshold, j) ==> j in Flatten(ids)
    requires DbGrown(elements, distance, bandwidth, threshold, ids)
    requires PrefixCoreClosed(elements, distance, bandwidth, threshold, ids)
    ensures Partition(ids, |elements|)
    ensures forall c :: 0 <= c < |ids| ==> Closed(elements, distance, bandwidth, ids[c])
    ensures forall c :: 0 <= c < |ids| ==> LinkedFrom(elements, distance, bandwidth, ids[c], |ids[c]|)
    ensures forall c :: 0 <= c < |ids| ==> NeighborClustering.Fifo(elements, distance, bandwidth, ids[c])
  {
    DensePartition(elements, distance, bandwidth, threshold, ids);
    DenseClosed(elements, distance, bandwidth, threshold, ids);
    forall c | 0 <= c < |ids| ensures Closed(elements, distance, bandwidth, ids[c]) {
      ClusterClosed(elements, distance, bandwidth, ids, c);
    }
    forall c | 0 <= c < |ids|
      ensures LinkedFrom(elements, distance, bandwidth, ids[c], |ids[c]|) && NeighborClustering.Fifo(elements, distance, bandwidth, ids[c])
    {
      DenseGrown(elements, distance, bandwidth, threshold, ids[c]);
    }
  }

  lemma DensePartition<V(!new)>(elements: seq<V>, distance: (V, V) -> real, bandwidth: real, threshold: int, ids: seq<seq<nat>>)
    requires VpTree.Metric(distance) && bandwidth > 0.0 && threshold <= 1
    requires Distinct(Flatten(ids)) && Below(Flatten(ids), |elements|)
    requires forall j: nat :: Core(elements, distance, bandwidth, threshold, j) ==> j in Flatten(ids)
    ensures Partition(ids, |elements|)
  {
    forall j: nat | j in Flatten(ids) ensures j < |elements| {
      var k :| 0 <= k < |Flatten(ids)| && Flatten(ids)[k] == j;
    }
    forall j: nat | j < |elements| ensures j in Flatten(ids) {
      AllCore(elements, distance, bandwidth, threshold, j);
    }
  }

  lemma DenseClosed<V(!new)>(elements: seq<V>, distance: (V, V) -> real, bandwidth: real, threshold: int, ids: seq<seq<nat>>)
    requires VpTree.Metric(distance) && bandwidth > 0.0 && threshold <= 1
    requires PrefixCoreClosed(elements, distance, bandwidth, threshold, ids)
    ensures PrefixClosed(elements, distance, bandwidth, ids)
  {
    forall c | 0 <= c <= |ids| ensures Closed(elements, distance, bandwidth, Flatten(ids[..c])) {
      assert CoreClosed(elements, distance, bandwidth, threshold, Flatten(ids[..c]));
      forall x: nat, y: nat | x in Flatten(ids[..c]) && Near(elements, distance, bandwidth, x, y) ensures y in Flatten(ids[..c]) {
        AllCore(elements, distance, bandwidth, threshold, x);
      }
    }
  }

  lemma DenseGrown<V(!new)>(elements: seq<V>, distance: (V, V) -> real, bandwidth: real, threshold: int, s: seq<nat>)
    requires VpTree.Metric(distance) && bandwidth > 0.0 && threshold <= 1 && Below(s, |elements|)
    requires Reached(elements, distance, bandwidth, threshold, s, |s|) && CoreFifo(elements, distance, bandwidth, threshold, s)
    ensures LinkedFrom(elements, distance, bandwidth, s, |s|) && NeighborClustering.Fifo(elements, distance, bandwidth, s)
  {
    forall k | 0 <= k < |s|
      ensures CoreParent(elements, distance, bandwidth, threshold, s, k) == Parent(elements, distance, bandwidth, s, k)
    {
      FirstCoreNearAll(elements, distance, bandwidth, threshold, s, k, 0);
    }
  }
}
