# cosmdanalyzer core, modelled in Dafny

cosmdanalyzer analyses cosolvent molecular-dynamics trajectories. It finds the
spots where probe molecules gather around a protein and scores them. This
project models the algorithmic core of its Python package and proves what
that core promises:

- **Nearest-neighbour search.** `VpTree` covers the vantage-point tree. It
  builds the tree in place over an array of (distance, value) records and
  runs the nearest, neighbours and exists searches with triangle-inequality
  pruning. `Liner` is the linear scan that serves as the tree's reference.
- **Clustering.**
  - `ClusterData` is the union-find table, a class whose link dictionary the
    methods update in place.
  - `NeighborClustering` and `Dbscan` are the breadth-first clusterings.
    `Neighborhood` holds what the two share.
  - `SingleLinkage3d` is the lattice single-linkage clustering.
  - `MultiCluster` sums element weights over sources and merges clusters
    that overlap by at least a given rate.
- **Lattice indices.**
  - `Index3d` and `Index2d` hold addition, comparison and row-major
    conversion, plus the enumerations of boxes, balls, discs and halves of
    them.
  - `Expand` grows a set of indices by a margin.
- **Geometry and matching.**
  - `SweepPrune` is sweep-and-prune sphere collision with its exact narrow
    phase.
  - `GraphMatch` is backtracking graph matching.
  - `CalcCharge` assigns template charges to residue atoms.
- **Readers.**
  - `FpocketParser` reads fpocket's tab-indented info file and the pocket
    PDB.
  - `Charge` reads GROMACS residue topologies and the Lennard-Jones charge
    table.
  - `Input` filters a multi-frame trajectory PDB down to the protein and
    counts the probe atoms.
- **Scores.**
  - `Protrusion` is the patch protrusion score.
  - `ScoreType` is the running mean score, its percentiles and the
    protrusion score over frames.
- **Helpers.**
  - `FunctionHelpers` is a dictionary used as a function, plus a memoising
    wrapper.
  - `IteratorHelpers` is a two-level map and a counter.

Some modules stand for Python's own semantics:

- `Wrappers` holds the Option and Result values; Python's exceptions are the
  `Error` values.
- `PyStr` holds string slicing, `strip`, `split`, `int()` and `float()`,
  with the digit limit listed under "Left out".
- `Dicts` is an insertion-ordered dictionary.
- `Sorting` is the stable `sorted` with a key.
- `Seqs` holds sequence helpers.

Some parts of the source are modelled in a different form:

- Floating-point values are `real`.
- Distances and other callables are function parameters. Where a proof needs
  metric axioms for a distance, the lemma requires them.
- Streams are sequences of lines, with the stream position made explicit.
- Generators are modelled by the result they give once fully consumed. An
  exception raised while a generator is drawn becomes an `Err` result.
- Lattice radii are given by their squares as integers, and the integer
  square root stands for `floor(sqrt(...))`.

## Model

| member | source | states |
|---|---|---|
| VpTree.Mid | cosmdanalyzer/src/neighbors/vptree.py:151 | The split position of a non-empty range `[start, end)` lies inside it, `int((end - start + 1) / 2) - 1` places after `start`. |
| VpTree.SortKeepsDistances | cosmdanalyzer/src/neighbors/vptree.py:149-150 | Sorting the records by distance keeps every record's distance from the pivot and the multiset of values, and leaves the records in ascending distance. |
| VpTree.FillDistances | cosmdanalyzer/src/neighbors/vptree.py:146-148 | The loop rewrites only `[start, end)`, keeps each record's value, and leaves each record holding its value's distance from the pivot. |
| VpTree.SortSlice | cosmdanalyzer/src/neighbors/vptree.py:149-150 | The slice assignment replaces `[start, end)` with its stable sort by distance and changes nothing outside it. |
| VpTree.AssignSlice | cosmdanalyzer/src/neighbors/vptree.py:149-150 | Slice assignment of a same-length list writes exactly that range. |
| VpTree.CreateOtherNode | cosmdanalyzer/src/neighbors/vptree.py:128-162 | The node's pivot is the given value; it has no branch exactly for an empty range; it holds the pivot plus exactly the values of the range (as a multiset); every branch under it separates its sides by its radius; nothing outside the range changes. |
| VpTree.CreateBranchUnder | cosmdanalyzer/src/neighbors/vptree.py:151-160 | On a slice sorted by distance from the pivot, the branch at the median holds exactly the slice's values and is valid. |
| VpTree.BranchValuesOf | cosmdanalyzer/src/neighbors/vptree.py:152-160 | The sphere side, the median value and the other side together hold the whole slice. |
| VpTree.BranchValidOf | cosmdanalyzer/src/neighbors/vptree.py:152-160 | The sphere side holds values no farther than the median distance, the other side values no nearer, so the branch is valid. |
| VpTree.CreateSphereNode | cosmdanalyzer/src/neighbors/vptree.py:165-192 | On an already sorted slice the sphere node holds exactly the slice's values, has no branch exactly for an empty range, and is valid around the parent pivot. |
| VpTree.NewTree | cosmdanalyzer/src/neighbors/vptree.py:43-66 | An empty input gives no root; otherwise the first value is the root pivot; the tree holds exactly the input values (as a multiset) and is valid. |
| VpTree.Update | cosmdanalyzer/src/neighbors/vptree.py:285-324 | The nearest collector records the value and returns its distance; the neighbours collector appends `(d, v)` and keeps the threshold; the exists collector records `True` and returns 0.0. |
| VpTree.SphereLowerBound | cosmdanalyzer/src/neighbors/vptree.py:267-271 | By the triangle inequality every sphere-side value is at least `standard_d - radius` from the query. |
| VpTree.OtherLowerBound | cosmdanalyzer/src/neighbors/vptree.py:275-278 | Every other-side value is at least `radius - standard_d` from the query. |
| VpTree.StepSound | cosmdanalyzer/src/neighbors/vptree.py:212-214 | Visiting one pivot is a complete search over that one value, for every collector. |
| VpTree.Compose | cosmdanalyzer/src/neighbors/vptree.py:267-282 | Two searches in a row are one search over the union of their values. |
| VpTree.Prune | cosmdanalyzer/src/neighbors/vptree.py:271-278 | Skipping a part none of whose values is nearer than the final threshold keeps the search complete. |
| VpTree.SearchOtherSound | cosmdanalyzer/src/neighbors/vptree.py:195-218 | The search of a node is complete over its values for every collector: nearest never misses a nearer value, neighbours collects each close value as often as it occurs, exists finds one whenever there is one. |
| VpTree.SearchSphereSound | cosmdanalyzer/src/neighbors/vptree.py:221-244 | The same for a sphere node. |
| VpTree.SearchBranchSound | cosmdanalyzer/src/neighbors/vptree.py:247-282 | The same for a branch, whichever side is searched first. |
| VpTree.SphereFirstSound | cosmdanalyzer/src/neighbors/vptree.py:267-274 | A query inside the radius: sphere side first, other side only when the threshold ball reaches across the radius. |
| VpTree.OtherFirstSound | cosmdanalyzer/src/neighbors/vptree.py:275-281 | A query outside the radius: other side first, sphere side only when the ball reaches inside. |
| VpTree.SkipOther | cosmdanalyzer/src/neighbors/vptree.py:271 | Skipping the other side is sound when `standard_d + threshold < radius`. |
| VpTree.SkipSphere | cosmdanalyzer/src/neighbors/vptree.py:278 | Skipping the sphere side is sound when `standard_d >= threshold + radius`. |
| VpTree.NearestNeighborCorrect | cosmdanalyzer/src/neighbors/vptree.py:68-88 | The returned distance is at most the threshold (float max when absent) and at most every value's distance; the value is absent exactly when no value is nearer than the threshold, and otherwise it is a tree value at that distance. |
| VpTree.NeighborsCorrect | cosmdanalyzer/src/neighbors/vptree.py:90-107 | Each returned pair carries its value's distance, and every value nearer than the threshold is returned exactly as often as the tree holds it, and nothing else. |
| VpTree.ExistsNeighborCorrect | cosmdanalyzer/src/neighbors/vptree.py:109-125 | `exists_neighbor` holds exactly when some value is nearer than the threshold. |
| VpTree.NearestMatchesLinear | cosmdanalyzer/src/neighbors/vptree.py:68-88 | The tree's nearest distance equals the linear scan's over the same values. |
| Liner.NearestDistanceIsMinimum | cosmdanalyzer/src/neighbors/liner.py:25-32 | The scan's distance is at most float max and at most every distance, and it is float max or one of the distances. |
| Liner.NearestDistanceUnique | cosmdanalyzer/src/neighbors/liner.py:25-32 | Those three facts determine the scan's distance: it is the minimum. |
| Liner.SearchNearestNeighbor | cosmdanalyzer/src/neighbors/liner.py:12-32 | The loop returns that minimum; no element exactly when every distance is at least float max (so an empty input gives `(float max, None)`); otherwise the first element at the minimum distance. |
| ClusterData.RootOf | cosmdanalyzer/src/clustering/clusterdata.py:59-73 | Following links from a known element ends at an element linked to itself. |
| ClusterData.InsertOrder | cosmdanalyzer/src/clustering/clusterdata.py:18-21 | The dictionary's key order after storing each element: it keeps the old keys in front and holds exactly the old and the new elements. |
| ClusterData.InsertOrderDistinct | cosmdanalyzer/src/clustering/clusterdata.py:18-21 | Storing keys never repeats a key. |
| ClusterData.SelfLinks | cosmdanalyzer/src/clustering/clusterdata.py:20-21 | Every given element, and only those, linked to itself. |
| ClusterData.SelfLinkRanked | cosmdanalyzer/src/clustering/clusterdata.py:37-38 | Self-links never create a cycle of links. |
| ClusterData.ConcatRanked | cosmdanalyzer/src/clustering/clusterdata.py:54 | Linking one representative under another never creates a cycle, so `get_cluster` still ends. |
| ClusterData.ConcatRoot | cosmdanalyzer/src/clustering/clusterdata.py:54 | After that link, the members of the second cluster have the first representative and every other element keeps its own. |
| ClusterData.FreshRoot | cosmdanalyzer/src/clustering/clusterdata.py:37-38 | Adding new elements changes no existing element's representative. |
| ClusterData.RootsIn | cosmdanalyzer/src/clustering/clusterdata.py:110-113 | The self-linked keys in insertion order, and nothing else. |
| ClusterData.MembersIn | cosmdanalyzer/src/clustering/clusterdata.py:97-98 | The keys whose representative is `r`, in insertion order, and nothing else. |
| ClusterData.AddOk | cosmdanalyzer/src/clustering/clusterdata.py:29 | Self-linking one element keeps the table's invariant: distinct keys equal to the link domain, with no cycle. |
| ClusterData.AddRoots | cosmdanalyzer/src/clustering/clusterdata.py:29 | Self-linking a new element changes no representative. |
| ClusterData.ConcatTableOk | cosmdanalyzer/src/clustering/clusterdata.py:54 | Linking representatives keeps the table's invariant. |
| ClusterData.ConcatRoots | cosmdanalyzer/src/clustering/clusterdata.py:49-57 | Linking two distinct representatives merges exactly those two clusters. |
| ClusterData.ConcatRemapped | cosmdanalyzer/src/clustering/clusterdata.py:54 | The link moves exactly the second cluster onto the first representative. |
| ClusterData.ExtendTable | cosmdanalyzer/src/clustering/clusterdata.py:37-38 | The loop keeps the invariant and leaves the keys in insertion order with every element self-linked. |
| ClusterData.NumberRoots | cosmdanalyzer/src/clustering/clusterdata.py:108-114 | The numbering has exactly the representatives as keys and gives the i-th representative in insertion order the number i. |
| ClusterData.FindRoot | cosmdanalyzer/src/clustering/clusterdata.py:68-73 | The loop returns the element's representative. |
| ClusterData.NumberElements | cosmdanalyzer/src/clustering/clusterdata.py:82-85 | Every element is mapped to the number of its representative. |
| ClusterData.GroupElements | cosmdanalyzer/src/clustering/clusterdata.py:95-99 | List i holds exactly the members of the i-th representative's cluster, in insertion order. |
| ClusterData.GroupStep | cosmdanalyzer/src/clustering/clusterdata.py:97-98 | Appending one key to the list of its representative's number keeps every list equal to its cluster's members so far. |
| ClusterData.RootsInSelf | cosmdanalyzer/src/clustering/clusterdata.py:18-21 | In a fresh table every key is a representative. |
| ClusterData.RootsInRelink | cosmdanalyzer/src/clustering/clusterdata.py:54 | A merge leaves one representative fewer. |
| ClusterData.RootsInAway | cosmdanalyzer/src/clustering/clusterdata.py:54 | Relinking an element outside the keys changes which keys are representatives not at all. |
| ClusterData.GroupsNonEmpty | cosmdanalyzer/src/clustering/clusterdata.py:95-99 | No list of `create_cluster_to_element_sequence` is empty. |
| ClusterData.GroupOf | cosmdanalyzer/src/clustering/clusterdata.py:95-99 | Every element lies in the list of its representative's number, together with every element that shares that representative. |
| ClusterData.GroupsDisjoint | cosmdanalyzer/src/clustering/clusterdata.py:95-99 | No element is in two lists. |
| ClusterData.GroupsPartition | cosmdanalyzer/src/clustering/clusterdata.py:95-99 | The lists partition the elements, and elements with one representative share a list. |
| ClusterData.SameClusterRoots | cosmdanalyzer/src/clustering/clusterdata.py:60-61 | Elements that share a list share a representative. |
| ClusterData.JoinStep | cosmdanalyzer/src/clustering/clusterdata.py:40-57 | After `concat_cluster(a, b)` every pair joined so far, and `(a, b)`, shares a representative. |
| ClusterData.LinkedVia | cosmdanalyzer/src/clustering/clusterdata.py:40-57 | A chain of pairs through the new pair connects its ends. |
| ClusterData.RootsLinkedSelf | cosmdanalyzer/src/clustering/clusterdata.py:18-21 | In a fresh table a shared representative means the same element. |
| ClusterData.LinkStep | cosmdanalyzer/src/clustering/clusterdata.py:40-57 | After `concat_cluster(a, b)` elements with one representative are connected by a chain of the pairs joined so far. |
| ClusterData.LinkedRoots | cosmdanalyzer/src/clustering/clusterdata.py:40-57 | Once every joined pair shares a representative and only joined pairs connect representatives, two elements are connected by the pairs exactly when they share a representative. |
| ClusterData.GroupedLinked | cosmdanalyzer/src/clustering/clusterdata.py:87-99 | The clusters listed by representative put two elements together exactly when the joined pairs connect them. |
| ClusterData.InsertOrderNew | cosmdanalyzer/src/clustering/clusterdata.py:18-21 | Elements without repetition keep their order as keys. |
| ClusterData.ClusterTable.constructor | cosmdanalyzer/src/clustering/clusterdata.py:12-21 | The table holds each element once, in order, each its own cluster. |
| ClusterData.ClusterTable.AddElement | cosmdanalyzer/src/clustering/clusterdata.py:23-29 | The element is self-linked and a representative; a new element changes no other representative; re-adding a linked element detaches it from its old representative. |
| ClusterData.ClusterTable.ExtendElements | cosmdanalyzer/src/clustering/clusterdata.py:31-38 | Each element is self-linked in turn, keys in insertion order. |
| ClusterData.ClusterTable.GetCluster | cosmdanalyzer/src/clustering/clusterdata.py:59-73 | An unknown element raises `KeyError`; otherwise the result is its representative, which links to itself. |
| ClusterData.ClusterTable.ConcatCluster | cosmdanalyzer/src/clustering/clusterdata.py:40-57 | Answers true exactly when both elements are known and in different clusters; then the second representative is linked to the first; otherwise nothing changes. |
| ClusterData.ClusterTable.GiveElementToIndex | cosmdanalyzer/src/clustering/clusterdata.py:101-114 | The representatives, and only they, numbered 0, 1, … in insertion order. |
| ClusterData.ClusterTable.ElementToCluster | cosmdanalyzer/src/clustering/clusterdata.py:75-85 | Every element gets its representative's number; two elements get one number exactly when they share a representative. |
| ClusterData.ClusterTable.ClusterToElements | cosmdanalyzer/src/clustering/clusterdata.py:87-99 | One list per representative, each holding its cluster's members in insertion order; together a partition of the elements. |
| ClusterData.JoinPair | cosmdanalyzer/src/clustering/clusterdata.py:40-57 | `concat_cluster` keeps the invariant, joins the new pair, connects only what the pairs connect, returns true exactly when the two elements were not yet connected by the pairs, and lowers the number of clusters by one exactly then. |
| Neighborhood.Infos | cosmdanalyzer/src/clustering/neighbor.py:24 | One wrapper per element, in input order, each carrying its element and position. |
| Neighborhood.InfoMetric | cosmdanalyzer/src/clustering/neighbor.py:60-67 | `_InfoDistance` is a metric when the element distance is one: it ignores the wrapper. |
| Neighborhood.Within | cosmdanalyzer/src/clustering/neighbor.py:27 | Reference set: exactly the positions of the elements closer than `bandwidth`, ascending. |
| Neighborhood.CloserCount | cosmdanalyzer/src/clustering/neighbor.py:27 | A close wrapper occurs among the close ones as often as in the input; a far one never. |
| Neighborhood.CloserIds | cosmdanalyzer/src/clustering/neighbor.py:27 | The positions of the close wrappers are `Within`. |
| Neighborhood.NeighborIdsCorrect | cosmdanalyzer/src/clustering/neighbor.py:27-45 | The tree query reports each close element exactly once: its positions rearrange `Within`. |
| Neighborhood.NeighborInfos | cosmdanalyzer/src/clustering/neighbor.py:27-45 | The reported wrappers rearrange the close wrappers in input order. |
| Neighborhood.NeighborIdsMembers | cosmdanalyzer/src/clustering/neighbor.py:27-45 | A position is reported exactly when its element is close, and all positions are in range. |
| Neighborhood.Fresh | cosmdanalyzer/src/clustering/neighbor.py:29-51 | The reported neighbours not yet flagged, each once: flagging inside the lazy `map` hides later duplicates. |
| Neighborhood.Flagged | cosmdanalyzer/src/clustering/neighbor.py:55-57 | `_check_in_cluster` sets exactly the flags of the given positions. |
| Neighborhood.Enqueue | cosmdanalyzer/src/clustering/neighbor.py:29-51 | The queue grows by the fresh neighbours in order, and exactly their flags are set. |
| Neighborhood.TrackedEnqueue | cosmdanalyzer/src/clustering/neighbor.py:46-51 | Flags stay the start flags plus the queued positions. |
| Neighborhood.FirstNear | cosmdanalyzer/src/clustering/neighbor.py:42-51 | The first earlier element that is a neighbour, or `k` when none is. |
| Neighborhood.FirstNearPrefix | cosmdanalyzer/src/clustering/neighbor.py:42-51 | Where an element was reached from depends only on the elements before it. |
| Neighborhood.ElementsAt | cosmdanalyzer/src/clustering/neighbor.py:32-44 | The yielded elements are the input elements at the cluster's positions. |
| Neighborhood.ListedSnoc | cosmdanalyzer/src/clustering/neighbor.py:32-35 | Yielding one more cluster keeps clusters and positions in step. |
| Neighborhood.CoveredByFlagging | cosmdanalyzer/src/clustering/neighbor.py:45-51 | After expanding `x`, every neighbour of `x` is flagged. |
| Neighborhood.CoveredKept | cosmdanalyzer/src/clustering/neighbor.py:55-57 | Flags are never cleared, so expanded elements stay covered. |
| Neighborhood.AddCluster | cosmdanalyzer/src/clustering/neighbor.py:26-35 | The flags mark exactly the clustered positions, cluster after cluster, with no position in two clusters. |
| Neighborhood.ClusterClosed | cosmdanalyzer/src/clustering/neighbor.py:26-52 | Every cluster is closed under "closer than `bandwidth`". |
| Neighborhood.DistinctBound | cosmdanalyzer/src/clustering/neighbor.py:26 | Distinct positions below n number at most n. |
| NeighborClustering.ExpandStart | cosmdanalyzer/src/clustering/neighbor.py:28 | Flagging the seed starts the expansion invariant. |
| NeighborClustering.ExploredStep | cosmdanalyzer/src/clustering/neighbor.py:45-51 | After expanding one more member, every neighbour of the expanded members is flagged. |
| NeighborClustering.AddedParents | cosmdanalyzer/src/clustering/neighbor.py:43-51 | Appended elements were reached from the member just popped; earlier elements keep where they were reached from. |
| NeighborClustering.LinkedStep | cosmdanalyzer/src/clustering/neighbor.py:43-51 | Every element after the seed has an earlier neighbour among the expanded members. |
| NeighborClustering.FifoStep | cosmdanalyzer/src/clustering/neighbor.py:42-43 | First in, first out: elements come in the order of the members they were reached from. |
| NeighborClustering.ExpandStep | cosmdanalyzer/src/clustering/neighbor.py:42-51 | One pop-and-expand keeps the whole expansion invariant. |
| NeighborClustering.Round | cosmdanalyzer/src/clustering/neighbor.py:42-51 | One loop pass moves the queue head to the yielded members and keeps the invariant. |
| NeighborClustering.RoundStep | cosmdanalyzer/src/clustering/neighbor.py:42-51 | The same, stated on values. |
| NeighborClustering.Expand | cosmdanalyzer/src/clustering/neighbor.py:27-52 | A cluster: the seed, then the queued elements in popping order, all flagged, breadth first, every neighbour of a member flagged. |
| NeighborClustering.OuterStepSeeded | cosmdanalyzer/src/clustering/neighbor.py:26 | Each cluster starts at the first element no earlier cluster holds. |
| NeighborClustering.OuterStepClosed | cosmdanalyzer/src/clustering/neighbor.py:26-35 | The clusters so far are closed as a whole under the neighbour relation. |
| NeighborClustering.OuterStepGrown | cosmdanalyzer/src/clustering/neighbor.py:32-35 | Every cluster so far grew breadth first from its seed. |
| NeighborClustering.OuterStep | cosmdanalyzer/src/clustering/neighbor.py:26-35 | An unflagged element seeds the next cluster and the outer invariant holds. |
| NeighborClustering.OuterSkip | cosmdanalyzer/src/clustering/neighbor.py:26 | A flagged element is skipped by the filter. |
| NeighborClustering.OuterDone | cosmdanalyzer/src/clustering/neighbor.py:19-52 | At the end the clusters partition the input, each starts at the first unclustered element, and each is closed and breadth first. |
| NeighborClustering.Neighbor | cosmdanalyzer/src/clustering/neighbor.py:19-52 | `neighbor` fully consumed: every element is yielded exactly once; each cluster starts with the first element no earlier cluster holds, is closed under "closer than `bandwidth`" and grows breadth first. |
| Dbscan.WithinCount | cosmdanalyzer/src/clustering/dbscan.py:38-61 | `len(neg_d_els)` is the number of elements closer than `bandwidth`, the element itself included. |
| Dbscan.FirstCoreNear | cosmdanalyzer/src/clustering/dbscan.py:56-68 | The first earlier core neighbour, or `k` when none is. |
| Dbscan.FirstCoreNearPrefix | cosmdanalyzer/src/clustering/dbscan.py:56-68 | Where an element was reached from depends only on the elements before it. |
| Dbscan.DbStart | cosmdanalyzer/src/clustering/dbscan.py:42 | Flagging a core seed starts the expansion invariant. |
| Dbscan.CoreExploredStep | cosmdanalyzer/src/clustering/dbscan.py:59-68 | After expanding a core member, every neighbour of every expanded core member is flagged. |
| Dbscan.AddedCoreParents | cosmdanalyzer/src/clustering/dbscan.py:62-68 | Appended elements were reached from the core member just popped; earlier ones keep theirs. |
| Dbscan.ReachedStep | cosmdanalyzer/src/clustering/dbscan.py:62-68 | Every element after the seed neighbours an earlier core member. |
| Dbscan.CoreFifoStep | cosmdanalyzer/src/clustering/dbscan.py:56-57 | First in, first out through core members. |
| Dbscan.DbExpandStep | cosmdanalyzer/src/clustering/dbscan.py:59-68 | A popped core element queues its fresh neighbours and keeps the invariant. |
| Dbscan.DbSkipStep | cosmdanalyzer/src/clustering/dbscan.py:57-61 | A popped element that is not core is yielded as a border element and queues nothing. |
| Dbscan.DbRoundStep | cosmdanalyzer/src/clustering/dbscan.py:56-68 | One loop pass over a core head, stated on values. |
| Dbscan.DbBorderStep | cosmdanalyzer/src/clustering/dbscan.py:56-61 | One loop pass over a border head, stated on values. |
| Dbscan.Round | cosmdanalyzer/src/clustering/dbscan.py:56-68 | One loop pass yields the head; a head that is not core leaves queue and flags as they were; the invariant holds. |
| Dbscan.Expand | cosmdanalyzer/src/clustering/dbscan.py:42-68 | The cluster of a core seed: seed first, then popped elements, breadth first through core members. |
| Dbscan.DbStepSeeded | cosmdanalyzer/src/clustering/dbscan.py:37-46 | Each cluster starts with a core element, every smaller position being clustered already or not core. |
| Dbscan.DbStepClosed | cosmdanalyzer/src/clustering/dbscan.py:37-68 | Every neighbour of a core element of the clusters so far is in those clusters. |
| Dbscan.DbStepGrown | cosmdanalyzer/src/clustering/dbscan.py:46-48 | Every cluster grew breadth first from its seed through core members. |
| Dbscan.DbStep | cosmdanalyzer/src/clustering/dbscan.py:42-49 | A core element not yet clustered seeds the next cluster. |
| Dbscan.DbSparse | cosmdanalyzer/src/clustering/dbscan.py:39-41 | An element with fewer than `density_threshold` neighbours is flagged `neg_checked` and yields nothing. |
| Dbscan.DbSkip | cosmdanalyzer/src/clustering/dbscan.py:37 | A clustered element is skipped. |
| Dbscan.DbDone | cosmdanalyzer/src/clustering/dbscan.py:37-49 | At the end no element is in two clusters and every core element is in one. |
| Dbscan.Visit | cosmdanalyzer/src/clustering/dbscan.py:37-49 | One pass of the outer loop keeps the outer invariant and the yielded clusters in step. |
| Dbscan.Dbscan | cosmdanalyzer/src/clustering/dbscan.py:21-68 | Fully consumed: no element yielded twice; each cluster starts with a core element no earlier cluster holds; every core element is yielded; clusters grow breadth first through core members; every neighbour of a core member is in its cluster or an earlier one; with `bandwidth > 0` and `density_threshold <= 1` the clusters partition the input and are closed, as for `neighbor`. |
| Dbscan.AllCore | cosmdanalyzer/src/clustering/dbscan.py:39 | With a positive bandwidth and threshold at most one, every element is core. |
| Dbscan.FirstCoreNearAll | cosmdanalyzer/src/clustering/dbscan.py:56-68 | Then the core parent is the parent of `neighbor`. |
| Dbscan.DenseAsNeighbor | cosmdanalyzer/src/clustering/dbscan.py:21-68 | Then the clusters have every property proved for `neighbor`. |
| Dbscan.DensePartition | cosmdanalyzer/src/clustering/dbscan.py:37-49 | Then the clusters partition the input. |
| Dbscan.DenseClosed | cosmdanalyzer/src/clustering/dbscan.py:59-68 | Then the clusters are closed under the neighbour relation. |
| Dbscan.DenseGrown | cosmdanalyzer/src/clustering/dbscan.py:56-68 | Then each cluster grows breadth first as in `neighbor`. |
| SingleLinkage3d.EdgeToMembers | cosmdanalyzer/src/clustering/singlelinkage3d.py:43-51 | One offset contributes an edge exactly when the shifted index is in the set, has data and is closer than the threshold. |
| SingleLinkage3d.RowEdgesStep | cosmdanalyzer/src/clustering/singlelinkage3d.py:42-51 | Each further offset adds exactly its candidate edge. |
| SingleLinkage3d.RowEdgesMembers | cosmdanalyzer/src/clustering/singlelinkage3d.py:41-51 | The inner loop collects exactly the candidate edges from index `i`. |
| SingleLinkage3d.EdgesStep | cosmdanalyzer/src/clustering/singlelinkage3d.py:40-53 | Each further index adds exactly its candidate edges. |
| SingleLinkage3d.EdgesMembers | cosmdanalyzer/src/clustering/singlelinkage3d.py:40-53 | `distance_list` holds exactly the candidate edges from a visited index. |
| SingleLinkage3d.CandidateEdges | cosmdanalyzer/src/clustering/singlelinkage3d.py:34-53 | Over the half ball an edge is collected exactly when both ends are in the set, the end has data, the end is within the radius and after the start in lattice order, and the distance is below the threshold. |
| SingleLinkage3d.CollectRow | cosmdanalyzer/src/clustering/singlelinkage3d.py:41-51 | The inner loop appends the row's edges and nothing else. |
| SingleLinkage3d.CollectEdges | cosmdanalyzer/src/clustering/singlelinkage3d.py:36-53 | The outer loop collects the edges, adds each index as its own cluster, and counts the indices. |
| SingleLinkage3d.EdgesSnoc | cosmdanalyzer/src/clustering/singlelinkage3d.py:40-51 | The edges of one more index are appended after the earlier ones. |
| SingleLinkage3d.KeysSnoc | cosmdanalyzer/src/clustering/singlelinkage3d.py:52 | Adding the next index keeps the table's keys in visiting order. |
| SingleLinkage3d.MergeEdges | cosmdanalyzer/src/clustering/singlelinkage3d.py:55-60 | The merge loop records what each `concat_cluster` returned: true exactly when no earlier edge connected the two ends. The count drops once per true result. The table joins exactly what the visited edges connect. The loop stops only right after a merge that brings the count to at most `n_clusters`, and no earlier merge did. |
| SingleLinkage3d.MergeAt | cosmdanalyzer/src/clustering/singlelinkage3d.py:56-57 | One `concat_cluster` on an edge returns true exactly when the earlier edges did not connect its ends, and lowers the number of clusters by one exactly then. |
| SingleLinkage3d.PairsSnoc | cosmdanalyzer/src/clustering/singlelinkage3d.py:55-56 | Visiting one more edge adds its pair of ends after the earlier ones. |
| SingleLinkage3d.CountStep | cosmdanalyzer/src/clustering/singlelinkage3d.py:57-60 | A true result lowers `cluster_num` by one. Continuing after a merge means the count was still above `n_clusters`. |
| SingleLinkage3d.SuccessesSnoc | cosmdanalyzer/src/clustering/singlelinkage3d.py:57-58 | One more result adds one merge exactly when it is true. |
| SingleLinkage3d.OutcomesSnoc | cosmdanalyzer/src/clustering/singlelinkage3d.py:56 | The recorded results stay the values of `concat_cluster` on the edges visited so far. |
| SingleLinkage3d.KeptGoingSnoc | cosmdanalyzer/src/clustering/singlelinkage3d.py:59-60 | Every merge before the last left more than `n_clusters` clusters. |
| SingleLinkage3d.SingleLinkage | cosmdanalyzer/src/clustering/singlelinkage3d.py:11-61 | The edges are sorted stably by distance, and the result partitions the indices. Two indices share a cluster exactly when the visited edges connect them. Each visited edge records whether `concat_cluster` merged, which happens exactly when no earlier edge connected its ends. There are `|indices|` minus the number of merges clusters. The loop stops early only right after a merge that leaves at most `n_clusters` clusters, and no earlier merge did. Unless there were at most `n_clusters` indices, at least `n_clusters` clusters remain. |
| SingleLinkage3d.EdgesInTable | cosmdanalyzer/src/clustering/singlelinkage3d.py:45-51 | Both ends of every edge are indices of the set. |
| MultiCluster.TimesIsProduct | cosmdanalyzer/src/main/multicluster.py:57 | Adding a weight up `c` times is `c` times the weight. |
| MultiCluster.RowWeightCount | cosmdanalyzer/src/main/multicluster.py:53-59 | One source contributes the element's weight once per occurrence. |
| MultiCluster.RowWeightSnoc | cosmdanalyzer/src/main/multicluster.py:53-59 | Each further element adds its weight when it is the element in question. |
| MultiCluster.RowWeightAbsent | cosmdanalyzer/src/main/multicluster.py:53-59 | An absent element gets no weight from that source. |
| MultiCluster.TotalWeightAbsent | cosmdanalyzer/src/main/multicluster.py:52-59 | An element in no source has total weight 0. |
| MultiCluster.ElementIdsMeaning | cosmdanalyzer/src/main/multicluster.py:56-59 | The id set of an element is exactly the ids of the sources that contain it. |
| MultiCluster.PartSummedStart | cosmdanalyzer/src/main/multicluster.py:52-53 | Starting a source keeps the sum of the earlier sources. |
| MultiCluster.PartSummedDone | cosmdanalyzer/src/main/multicluster.py:52-59 | A finished source joins the sum. |
| MultiCluster.AddStep | cosmdanalyzer/src/main/multicluster.py:54-59 | Adding one element updates its weight and id set; other elements keep theirs. |
| MultiCluster.AddSource | cosmdanalyzer/src/main/multicluster.py:53-59 | The inner loop adds one whole source to the sum. |
| MultiCluster.SumElements | cosmdanalyzer/src/main/multicluster.py:39-60 | The dictionary has exactly the elements of the sources as keys; each maps to its weight summed over all its occurrences and to the ids of the sources it occurs in. |
| MultiCluster.HoldersBelow | cosmdanalyzer/src/main/multicluster.py:77-83 | The numbers below `n` of the clusters holding the element. |
| MultiCluster.IndexStep | cosmdanalyzer/src/main/multicluster.py:79-83 | Recording one element adds cluster `i` to its set. |
| MultiCluster.IndexDone | cosmdanalyzer/src/main/multicluster.py:78-83 | After cluster `i`, `all_table` maps every element of the first `i + 1` clusters to the numbers of those holding it. |
| MultiCluster.IndexCluster | cosmdanalyzer/src/main/multicluster.py:79-83 | The inner loop records cluster `i`. |
| MultiCluster.IndexClusters | cosmdanalyzer/src/main/multicluster.py:77-83 | `all_table` maps each element to the numbers of all clusters holding it. |
| MultiCluster.SharedIn | cosmdanalyzer/src/main/multicluster.py:88-94 | The count of shared positions is at most the cluster's size. |
| MultiCluster.SharedInPositive | cosmdanalyzer/src/main/multicluster.py:88-94 | Some element is shared exactly when the count is positive. |
| MultiCluster.Ceil | cosmdanalyzer/src/main/multicluster.py:95 | `math.ceil`: the least integer not below the number. |
| MultiCluster.ZeroRateJoinsTouching | cosmdanalyzer/src/main/multicluster.py:95-98 | With a rate of at most 0, two clusters are joined exactly when they share an element. |
| MultiCluster.HighRateJoinsNothing | cosmdanalyzer/src/main/multicluster.py:95-98 | With a rate above 1, nothing is joined. |
| MultiCluster.BumpOthers | cosmdanalyzer/src/main/multicluster.py:90-94 | Each other cluster holding the element gets one more count; new keys are appended in order. |
| MultiCluster.CountOthers | cosmdanalyzer/src/main/multicluster.py:86-94 | `n_el` is the cluster's size, and `other_count` maps exactly the other clusters sharing an element to the number of shared elements (with repetition). |
| MultiCluster.PickedMembers | cosmdanalyzer/src/main/multicluster.py:96-98 | The pairs joined for cluster `i` are exactly those whose count reaches `th`. |
| MultiCluster.PickedSnoc | cosmdanalyzer/src/main/multicluster.py:96-98 | One more key adds its pair when its count reaches `th`. |
| MultiCluster.RowListed | cosmdanalyzer/src/main/multicluster.py:85-98 | After cluster `i`, every qualifying pair from it has been joined. |
| MultiCluster.RowQualified | cosmdanalyzer/src/main/multicluster.py:85-98 | Only qualifying pairs are joined. |
| MultiCluster.JoinRow | cosmdanalyzer/src/main/multicluster.py:96-98 | The loop joins exactly the picked pairs and keeps them joined. |
| MultiCluster.MergeRow | cosmdanalyzer/src/main/multicluster.py:85-98 | The merging loop for cluster `i` keeps the table valid and joins all and only the qualifying pairs from it. |
| MultiCluster.ChainMembers | cosmdanalyzer/src/main/multicluster.py:104-105 | An element is in the chained group exactly when one of its clusters holds it. |
| MultiCluster.CollectIds | cosmdanalyzer/src/main/multicluster.py:101-103 | `src_set` is the set of ids of the group's clusters. |
| MultiCluster.Indices | cosmdanalyzer/src/main/multicluster.py:84 | `range(len(clusters))`. |
| MultiCluster.Numbers | cosmdanalyzer/src/main/multicluster.py:84 | The cluster numbers as a set. |
| MultiCluster.IndicesMembers | cosmdanalyzer/src/main/multicluster.py:84 | Exactly the numbers below n. |
| MultiCluster.JoinQualifying | cosmdanalyzer/src/main/multicluster.py:77-98 | The table of cluster numbers with every qualifying pair joined, only qualifying pairs joined, and one cluster fewer per merge. |
| MultiCluster.QualifiedGrouped | cosmdanalyzer/src/main/multicluster.py:99 | Both clusters of every qualifying pair land in one group. |
| MultiCluster.GroupedConnected | cosmdanalyzer/src/main/multicluster.py:99 | A group holds only clusters connected by qualifying pairs. |
| MultiCluster.ConnectedGrouped | cosmdanalyzer/src/main/multicluster.py:99 | Connected clusters share a group. |
| MultiCluster.PartitionBelow | cosmdanalyzer/src/main/multicluster.py:99-103 | Groups hold cluster numbers only. |
| MultiCluster.DescribeGroups | cosmdanalyzer/src/main/multicluster.py:100-105 | One result per group: its clusters' elements one cluster after the other, and their ids. |
| MultiCluster.PrefixBelow | cosmdanalyzer/src/clustering/clusterdata.py:108-112 | In ascending keys every earlier key is below the last. |
| MultiCluster.RootsInIncreasing | cosmdanalyzer/src/clustering/clusterdata.py:108-112 | `_give_element_to_index` numbers the representatives in key order, so ascending keys give ascending representatives. |
| MultiCluster.MembersInIncreasing | cosmdanalyzer/src/clustering/clusterdata.py:97-98 | Each cluster lists its members in key order, so ascending keys give ascending members. |
| MultiCluster.GroupsOrdered | cosmdanalyzer/src/main/multicluster.py:84-99 | Over `range(len(clusters))` the groups come in ascending order of their representatives, and each group lists its cluster numbers in ascending order. |
| MultiCluster.MargeClusters | cosmdanalyzer/src/main/multicluster.py:63-105 | The groups partition the cluster numbers. Two clusters share a group exactly when a chain of qualifying pairs connects them, judged on the original clusters only. The groups come in ascending order of their representatives, and each lists its cluster numbers in ascending order. Each result lists its group's elements and ids. |
| MultiCluster.SharedInPrefix | cosmdanalyzer/src/main/multicluster.py:88-94 | Counting one more element of the cluster adds one exactly when the other cluster holds it. |
| MultiCluster.SharedInRuns | cosmdanalyzer/src/test/testcluster.py:9-11 | Two runs of six consecutive numbers share as many elements as they overlap. |
| MultiCluster.ExampleShared | cosmdanalyzer/src/test/testcluster.py:9-11 | The first two clusters of the example share four elements; the third shares none. |
| MultiCluster.ExampleQualifies | cosmdanalyzer/src/test/testcluster.py:12-13 | At rate 0.5 only clusters 0 and 1 qualify, in either direction. |
| MultiCluster.ExampleConnected | cosmdanalyzer/src/test/testcluster.py:12-19 | Clusters 0 and 1 are connected; cluster 2 is connected to neither. |
| MultiCluster.OtherGroup | cosmdanalyzer/src/test/testcluster.py:14-19 | With 0 and 1 in one group and 2 in another, every group is one of the two. |
| MultiCluster.NoOtherGroup | cosmdanalyzer/src/test/testcluster.py:14-19 | So there are exactly two groups. |
| MultiCluster.GroupIsPair | cosmdanalyzer/src/test/testcluster.py:14-16 | An ascending group of numbers below 3 holding 0 and 1 but not 2 is [0, 1]. |
| MultiCluster.GroupIsSingle | cosmdanalyzer/src/test/testcluster.py:17-19 | An ascending group of numbers below 3 holding 2 alone is [2]. |
| MultiCluster.ExampleGroups | cosmdanalyzer/src/test/testcluster.py:8-19 | Any groups meeting the contract of `MargeClusters` on the example are [[0, 1], [2]], in that order. |
| MultiCluster.ExampleChains | cosmdanalyzer/src/main/multicluster.py:100-105 | For those groups the last loop lists clusters 0 and 1 one after the other with ids {0, 1}, then cluster 2 with ids {2}. |
| MultiCluster.MargeExample | cosmdanalyzer/src/test/testcluster.py:8-19 | `marge_clusters` on the example first yields the elements of clusters 0 and 1 with ids {0, 1}, then those of cluster 2 with ids {2}. |
| Index3d.Cmp | cosmdanalyzer/src/index/index3d.py:22-47 | The comparison is -1, 0 or 1, and 0 exactly when the two indices are equal. |
| Index3d.CmpAntisymmetric | cosmdanalyzer/src/index/index3d.py:22-47 | Swapping the arguments of `cmp` negates its result. |
| Index3d.CmpTransitive | cosmdanalyzer/src/index/index3d.py:22-47 | `cmp` is a transitive strict order. |
| Index3d.CmpTranslate | cosmdanalyzer/src/index/index3d.py:9-47 | Adding the same offset with `add` to both indices leaves their `cmp` unchanged. |
| Index3d.AddLaws | cosmdanalyzer/src/index/index3d.py:9-19 | `add` commutes and has the origin as its neutral element. |
| Index3d.CmpRest | cosmdanalyzer/src/index/index3d.py:22-47 | For equal first coordinates `cmp` orders the remaining two axes as the two-dimensional lexicographic order does. |
| Index3d.AscendingDistinct | cosmdanalyzer/src/index/index3d.py:22-47 | A sequence ascending under `cmp` holds no index twice. |
| Index3d.To3dTo1d | cosmdanalyzer/src/index/index3d.py:153-167 | When the sizes of axes 1 and 2 are nonzero, `convert_1d_index_to_3d` succeeds and `convert_3d_index_to_1d` of its result gives back the linear index, with Python's floor division and modulo. |
| Index3d.To1dTo3d | cosmdanalyzer/src/index/index3d.py:153-167 | An index inside the box converts to a linear index and back to itself. |
| Index3d.To1dOrder | cosmdanalyzer/src/index/index3d.py:153-157 | Inside the box, `cmp` says "before" exactly when the row-major linear index is smaller. |
| Index3d.To1dInjective | cosmdanalyzer/src/index/index3d.py:153-157 | Two indices inside the box with the same linear index are equal. |
| Index3d.To1dRange | cosmdanalyzer/src/index/index3d.py:153-157 | Indices inside the box have linear indices from 0 to below the box's volume. |
| Index3d.DenseRow | cosmdanalyzer/src/index/index3d.py:62-65 | The innermost loop yields `(v0, v1, k)` at position k, for k below n2. |
| Index3d.DensePlaneIndices | cosmdanalyzer/src/index/index3d.py:61-65 | A plane of `dence_matrix_3d_indices` has n1*n2 indices, the j-th at plane-local linear index j. |
| Index3d.DenseIndices | cosmdanalyzer/src/index/index3d.py:50-65 | `dence_matrix_3d_indices` yields size0*size1*size2 indices; the k-th lies inside the box and has linear index k. |
| Index3d.DenseAscending | cosmdanalyzer/src/index/index3d.py:50-65 | The dense enumeration is ascending under `cmp`, so it yields no index twice. |
| Index3d.DenseMembers | cosmdanalyzer/src/index/index3d.py:50-65 | The dense enumeration yields exactly the indices inside the box. |
| Index3d.Lift | cosmdanalyzer/src/index/index3d.py:80-83 | Each row of the ball yields `(i0, i1, i2)` for the k-th point `(i1, i2)` of its disc, in the disc's order. |
| Index3d.LiftMembers | cosmdanalyzer/src/index/index3d.py:80-83 | A row holds exactly the points with first coordinate i0 whose other two coordinates are in the disc. |
| Index3d.LiftAscending | cosmdanalyzer/src/index/index3d.py:80-83 | A row built from an ascending disc is ascending under `cmp`. |
| Index3d.RowNorm | cosmdanalyzer/src/index/index3d.py:80-82 | In row i0 the disc of the remaining squared radius r2 - i0*i0 holds exactly the points of the ball. |
| Index3d.SphereRowMembers | cosmdanalyzer/src/index/index3d.py:80-83 | Row i of the enumeration holds exactly the ball's points with first coordinate i. |
| Index3d.SphereRowsMembers | cosmdanalyzer/src/index/index3d.py:76-83 | Rows lo to hi-1 hold exactly the ball's points whose first coordinate is in [lo, hi). |
| Index3d.NormBound | cosmdanalyzer/src/index/index3d.py:76-79 | Every point of the ball has its first coordinate within [-floor(r), floor(r)], so the outer loop meets it. |
| Index3d.SphereMembers | cosmdanalyzer/src/index/index3d.py:68-83 | `sphere_grid_index_iterator` yields exactly the lattice points of the closed ball, boundary included. |
| Index3d.SphereAscending | cosmdanalyzer/src/index/index3d.py:68-83 | The ball is enumerated axis 0 slowest, then axis 1, then axis 2, each ascending, so without duplicates. |
| Index3d.BoxRowMembers | cosmdanalyzer/src/index/index3d.py:100-106 | Row i of the clipped enumeration holds exactly the ball's points with first coordinate i whose other two coordinates lie in the box's face. |
| Index3d.BoxRowsMembers | cosmdanalyzer/src/index/index3d.py:96-106 | Rows lo to hi-1 of the clipped enumeration hold exactly the ball's points with first coordinate in [lo, hi) whose other coordinates lie in the face. |
| Index3d.InBoxFace | cosmdanalyzer/src/index/index3d.py:86-106 | A point lies in the box (start and size, ends included) exactly when its first coordinate does and its other two lie in the face. |
| Index3d.ClipRange | cosmdanalyzer/src/index/index3d.py:98-106 | Within [-s, s], the clipped range from max(-s, start) to min(s, start + size) keeps exactly the values also in [start, start + size]. |
| Index3d.SphereAndBoxMembers | cosmdanalyzer/src/index/index3d.py:86-106 | `sphere_and_box_grid_index_iterator` yields exactly the ball's lattice points that also lie in the box, boundaries included. |
| Index3d.SphereAndBoxAscending | cosmdanalyzer/src/index/index3d.py:86-106 | The clipped ball is enumerated in ascending `cmp` order, without duplicates. |
| Index3d.HalfSphereMembers | cosmdanalyzer/src/index/index3d.py:109-128 | `half_sphere_grid_index_iterator` yields exactly the ball's points greater than the origin under `cmp`; never the origin. |
| Index3d.HalfSphereAscending | cosmdanalyzer/src/index/index3d.py:109-128 | The half ball is enumerated in ascending `cmp` order, without duplicates. |
| Index3d.HalfSphereOneOfPair | cosmdanalyzer/src/index/index3d.py:109-128 | For each nonzero point of the ball exactly one of the point and its negation is in the half ball, so pairs are visited once. |
| Index2d.SquareIsProduct | cosmdanalyzer/src/index/index2d.py:21 | The square used for the row bounds is the product i*i. |
| Index2d.SquareMono | cosmdanalyzer/src/index/index2d.py:21 | The square grows with the absolute value, so rows further from the centre reach less far. |
| Index2d.ISqrtSpec | cosmdanalyzer/src/index/index2d.py:17-21 | `floor(sqrt(n))` is the largest natural number whose square is at most n. |
| Index2d.SqrtBound | cosmdanalyzer/src/index/index2d.py:17-20 | An integer lies in [-floor(sqrt(n)), floor(sqrt(n))] exactly when its square is at most n, so the outer range covers the disc. |
| Index2d.ReachBound | cosmdanalyzer/src/index/index2d.py:21-22 | Row i reaches column j, within [-floor(sqrt(r*r - i*i)), floor(sqrt(r*r - i*i))], exactly when (i, j) lies in the disc. |
| Index2d.Column | cosmdanalyzer/src/index/index2d.py:22-23 | The inner loop yields `(i0, lo + k)` at position k, for k below hi - lo. |
| Index2d.ColumnMembers | cosmdanalyzer/src/index/index2d.py:22-23 | The inner loop yields exactly the points of row i0 with second coordinate in [lo, hi). |
| Index2d.AscendingConcat | cosmdanalyzer/src/index/index2d.py:20-23 | Ascending rows whose first coordinates are ordered concatenate into an ascending enumeration. |
| Index2d.CircleRowMembers | cosmdanalyzer/src/index/index2d.py:21-23 | Row i holds exactly the disc's points with first coordinate i. |
| Index2d.CircleRowsMembers | cosmdanalyzer/src/index/index2d.py:20-23 | Rows lo to hi-1 hold exactly the disc's points whose first coordinate is in [lo, hi). |
| Index2d.CircleRowsAscending | cosmdanalyzer/src/index/index2d.py:20-23 | The rows lo to hi-1 are enumerated in ascending lexicographic order with first coordinates in [lo, hi). |
| Index2d.CircleMembers | cosmdanalyzer/src/index/index2d.py:7-23 | `circle_grid_index_iterator` yields exactly the lattice points of the closed disc, boundary included. |
| Index2d.CircleAscending | cosmdanalyzer/src/index/index2d.py:7-23 | The disc is enumerated axis 0 slowest, then axis 1, each ascending, so without duplicates. |
| Index2d.CircleSymmetric | cosmdanalyzer/src/index/index2d.py:7-23 | The disc is closed under negation. |
| Index2d.ClippedRowMembers | cosmdanalyzer/src/index/index2d.py:44-46 | Row i of the clipped disc holds exactly the disc's points with first coordinate i whose second coordinate lies in the rectangle's axis-1 range. |
| Index2d.ClippedRowsMembers | cosmdanalyzer/src/index/index2d.py:43-46 | Rows lo to hi-1 of the clipped disc hold exactly the disc's points with first coordinate in [lo, hi) inside the rectangle's axis-1 range. |
| Index2d.ClippedRowsAscending | cosmdanalyzer/src/index/index2d.py:43-46 | The clipped rows are enumerated in ascending lexicographic order. |
| Index2d.CircleAndRectMembers | cosmdanalyzer/src/index/index2d.py:26-46 | `circle_and_rect_grid_index_iterator` yields exactly the disc's lattice points that lie in the rectangle (start and size, ends included). |
| Index2d.CircleAndRectAscending | cosmdanalyzer/src/index/index2d.py:26-46 | The clipped disc is enumerated in ascending lexicographic order, without duplicates. |
| Index2d.HalfCircleMembers | cosmdanalyzer/src/index/index2d.py:49-67 | `half_circle_grid_index_iterator` yields exactly the disc's points lexicographically after the origin; never the origin. |
| Index2d.HalfCircleAscending | cosmdanalyzer/src/index/index2d.py:49-67 | The half disc is enumerated in ascending lexicographic order, without duplicates. |
| Index2d.HalfCircleOneOfPair | cosmdanalyzer/src/index/index2d.py:49-67 | For each nonzero point of the disc exactly one of it and its negation is in the half disc. |
| Expand.Sides | cosmdanalyzer/src/index/index3d.py:189-194 | There are six face neighbours, each with its offset, its axis and the box edge on that axis, in the order they are tried. |
| Expand.ShiftedMembers | cosmdanalyzer/src/index/index3d.py:204-207 | A point is added by the inner loop exactly when it is not an input index and its offset from the visited index is one of the enumerated offsets. |
| Expand.ShiftedSnoc | cosmdanalyzer/src/index/index3d.py:204-207 | Each enumerated offset adds its shifted point unless that point is an input index. |
| Expand.RelativeBox | cosmdanalyzer/src/index/index3d.py:200-203 | The box seen from `idx` holds an offset exactly when `idx` plus that offset lies in the original box. |
| Expand.GrownMembers | cosmdanalyzer/src/index/index3d.py:200-207 | What one index adds is exactly the new points in the box within the margin of it. |
| Expand.AddedSound | cosmdanalyzer/src/index/index3d.py:195-209 | Every added point is new, lies in the box and lies within the margin of some visited index. |
| Expand.AddedGrows | cosmdanalyzer/src/index/index3d.py:195-208 | `new_idx_set` only grows along the outer loop. |
| Expand.AddedComplete | cosmdanalyzer/src/index/index3d.py:195-208 | An index with a face neighbour that ends up in neither set and that is not on the box's edge along that neighbour's axis contributes its whole clipped ball. |
| Expand.Grow | cosmdanalyzer/src/index/index3d.py:204-207 | The inner loop adds to `new_idx_set` exactly the new points of the ball around `idx` clipped to the box. |
| Expand.AddShifted | cosmdanalyzer/src/index/index3d.py:204-207 | The loop over the enumerated offsets adds exactly their shifted points that are not input indices. |
| Expand.Visit | cosmdanalyzer/src/index/index3d.py:196-208 | One pass of the outer loop grows the ball around `idx` when one of its six neighbours is missing (in neither set and not beyond the box's edge), and adds nothing otherwise; the first missing side breaks the loop. |
| Expand.ExpandInBox | cosmdanalyzer/src/index/index3d.py:184-209 | With a box given, the result is the input set together with everything the loop adds. |
| Expand.ExpandIdxs | cosmdanalyzer/src/index/index3d.py:170-209 | `expand_idxs_float` returns the input set together with the added points, so it contains its input; with no box given the centred default box is used. |
| Expand.MaxBoxFar | cosmdanalyzer/src/index/index3d.py:212 | With `_MAX_BOX` as written, no added point has a coordinate below +2^61 on any axis. |
| Expand.MaxBoxAddsNothing | cosmdanalyzer/src/index/index3d.py:212 | With `_MAX_BOX` as written, a set whose indices all lie more than the margin below 2^61 on axis 0 gains nothing. |
| Expand.CentredBoxGrows | cosmdanalyzer/src/index/index3d.py:212 | With the default box centred on the origin, a lone index well inside it gains its neighbour along axis 0. |
| Expand.SingleGrows | cosmdanalyzer/src/index/index3d.py:195-208 | A lone index with a missing neighbour grows its whole clipped ball. |
| SweepPrune.Raw | cosmdanalyzer/src/solidcalc/sweepprune.py:119-122 | Before sorting, axis `dim` holds two events per sphere: at position 2j the open event of sphere j at pos - r, at 2j+1 its close event at pos + r. |
| SweepPrune.AppendSphere | cosmdanalyzer/src/solidcalc/sweepprune.py:120-122 | The inner loop appends to each of the three axes exactly the open and then the close event of the sphere. |
| SweepPrune.CreateAxes | cosmdanalyzer/src/solidcalc/sweepprune.py:104-125 | `_create_sweep_and_prune_axis` returns three axis lists, each the stable sort by coordinate of the events appended sphere by sphere. |
| SweepPrune.AxisFacts | cosmdanalyzer/src/solidcalc/sweepprune.py:123-125 | Each axis list is ordered by coordinate, is a permutation of the appended events and has two events per sphere. |
| SweepPrune.SweepStep | cosmdanalyzer/src/solidcalc/sweepprune.py:89-101 | An open event adds its id to the open set after pairing it with the ids already open; a close event discards its id and emits nothing. |
| SweepPrune.NewPairsAdd | cosmdanalyzer/src/solidcalc/sweepprune.py:91-98 | With `comp_lt` each open id gives one pair with the smaller id first; without it the pair in both orders. |
| SweepPrune.PairWithOpen | cosmdanalyzer/src/solidcalc/sweepprune.py:91-98 | The loop over `cur_opened` emits exactly the pairs of the opening id with each open id, in any visiting order. |
| SweepPrune.Sweep1d | cosmdanalyzer/src/solidcalc/sweepprune.py:74-101 | `_sweep_and_prune_1d` emits exactly the pairs of an opening id with each id open at that moment. |
| SweepPrune.SweepAndPrune | cosmdanalyzer/src/solidcalc/sweepprune.py:52-71 | `sweep_and_prune` returns the intersection of the pair sets found on the three axes. |
| SweepPrune.CommonThree | cosmdanalyzer/src/solidcalc/sweepprune.py:65-71 | The loop over axes 1 and 2 intersects the pairs of axis 0 with those of the other two axes. |
| SweepPrune.NestedPrefix | cosmdanalyzer/src/solidcalc/sweepprune.py:88-101 | Every prefix of well-nested events is well nested. |
| SweepPrune.OpenMeaning | cosmdanalyzer/src/solidcalc/sweepprune.py:88-101 | On nested events, `cur_opened` holds exactly the ids that have opened and not yet closed. |
| SweepPrune.NewPairsNone | cosmdanalyzer/src/solidcalc/sweepprune.py:96-98 | Without `comp_lt`, an opening id is paired in both orders with each open id and nothing else. |
| SweepPrune.PairsMeaning | cosmdanalyzer/src/solidcalc/sweepprune.py:74-101 | Without `comp_lt`, a pair is emitted exactly when one of its ids opens while the other is open. |
| SweepPrune.PairsSymmetric | cosmdanalyzer/src/solidcalc/sweepprune.py:63 | Without `comp_lt`, every pair is emitted in both orders. |
| SweepPrune.NoSelfPair | cosmdanalyzer/src/solidcalc/sweepprune.py:88-101 | On nested events no id is paired with itself. |
| SweepPrune.OrientedMember | cosmdanalyzer/src/solidcalc/sweepprune.py:59-62 | With a `comp_lt` that orders distinct ids, a pair is emitted exactly when it is emitted without `comp_lt` and its first id is the smaller. |
| SweepPrune.RawAt | cosmdanalyzer/src/solidcalc/sweepprune.py:119-122 | Position m of the appended events is the open or the close event of sphere m/2, as its flag says. |
| SweepPrune.RawDistinct | cosmdanalyzer/src/solidcalc/sweepprune.py:119-122 | With unique ids the appended events are pairwise different. |
| SweepPrune.AxisDistinct | cosmdanalyzer/src/solidcalc/sweepprune.py:123-124 | With unique ids the sorted axis list has no repeated event. |
| SweepPrune.AxisEvent | cosmdanalyzer/src/solidcalc/sweepprune.py:119-124 | Every entry of a sorted axis list is an event of one of the spheres. |
| SweepPrune.EventOfId | cosmdanalyzer/src/solidcalc/sweepprune.py:119-124 | With unique ids an entry carrying a sphere's id is an event of that sphere. |
| SweepPrune.EventIndex | cosmdanalyzer/src/solidcalc/sweepprune.py:119-124 | Every open and close event of every sphere is in the sorted axis list. |
| SweepPrune.OpenBeforeClose | cosmdanalyzer/src/solidcalc/sweepprune.py:121-124 | With radii at least 0 each sphere's open event comes before its close event, the stable sort keeping the open event first when the radius is 0. |
| SweepPrune.AxisNested | cosmdanalyzer/src/solidcalc/sweepprune.py:119-124 | With unique ids and radii at least 0 the events of each axis are well nested. |
| SweepPrune.OpenWhileOpen | cosmdanalyzer/src/solidcalc/sweepprune.py:88-101 | When sphere j opens after sphere i and before sphere i's end coordinate, j opens while i is open. |
| SweepPrune.ClosesLater | cosmdanalyzer/src/solidcalc/sweepprune.py:121-124 | A sphere whose end coordinate lies beyond event pj has not closed before it. |
| SweepPrune.Overlapping | cosmdanalyzer/src/solidcalc/sweepprune.py:74-124 | On one axis two different spheres whose intervals overlap with positive length are paired. |
| SweepPrune.OpenedEarlier | cosmdanalyzer/src/solidcalc/sweepprune.py:88-101 | When x opens while y is open, y opened earlier and closes later. |
| SweepPrune.OpenedWhileOpen | cosmdanalyzer/src/solidcalc/sweepprune.py:74-124 | When x opens while y is open, they are two different spheres whose intervals on that axis touch. |
| SweepPrune.PairedOverlap | cosmdanalyzer/src/solidcalc/sweepprune.py:74-124 | On one axis every pair found without `comp_lt` is two different spheres whose intervals touch. |
| SweepPrune.BroadPhaseSound | cosmdanalyzer/src/solidcalc/sweepprune.py:52-71 | Every candidate of `sweep_and_prune` is two different spheres whose bounding boxes touch on every axis. |
| SweepPrune.BroadPhaseComplete | cosmdanalyzer/src/solidcalc/sweepprune.py:52-71 | Two different spheres whose bounding boxes overlap with positive volume are a candidate, in both orders. |
| SweepPrune.BroadPhaseSymmetric | cosmdanalyzer/src/solidcalc/sweepprune.py:63 | Without `comp_lt` the candidates hold every pair in both orders. |
| SweepPrune.BroadPhaseOriented | cosmdanalyzer/src/solidcalc/sweepprune.py:59-62 | With `comp_lt` the candidates hold each pair once, the smaller id first. |
| SweepPrune.CollidesSymmetric | cosmdanalyzer/src/solidcalc/sweepprune.py:47-48 | The strict test is symmetric in the two spheres. |
| SweepPrune.CollidesOverlap | cosmdanalyzer/src/solidcalc/sweepprune.py:47-48 | Two spheres with radii at least 0 that pass the strict test have bounding boxes that overlap on every axis. |
| SweepPrune.StrictCollision | cosmdanalyzer/src/solidcalc/sweepprune.py:33-49 | `strict_collision` yields exactly the candidates that pass the distance test, in their order, without introducing repeats. |
| SweepPrune.GroupedMeaning | cosmdanalyzer/src/solidcalc/sweepprune.py:25-29 | `col_dict` lists exactly the yielded pairs under their first id; no list is empty; no partner repeats when no pair does. |
| SweepPrune.GroupedSnoc | cosmdanalyzer/src/solidcalc/sweepprune.py:26-29 | Each pair creates its first id's list when missing and appends its second id. |
| SweepPrune.CollectPairs | cosmdanalyzer/src/solidcalc/sweepprune.py:25-29 | The loop fills `col_dict` as the grouping of the pairs. |
| SweepPrune.SetToSeq | cosmdanalyzer/src/solidcalc/sweepprune.py:26 | Iterating a set visits each member exactly once. |
| SweepPrune.Bodies | cosmdanalyzer/src/solidcalc/sweepprune.py:23-24 | The broad phase receives `(i, id_to_sphere(i))` for each id, in order. |
| SweepPrune.BodiesFacts | cosmdanalyzer/src/solidcalc/sweepprune.py:23-24 | Distinct ids with radii at least 0 give spheres with unique ids and nonnegative radii. |
| SweepPrune.CandidateListed | cosmdanalyzer/src/solidcalc/sweepprune.py:23-24 | A candidate is a pair of two different listed ids. |
| SweepPrune.CollidingCandidate | cosmdanalyzer/src/solidcalc/sweepprune.py:23-24 | Two different listed spheres that pass the strict test are a candidate. |
| SweepPrune.CollidedExactly | cosmdanalyzer/src/solidcalc/sweepprune.py:23-29 | A candidate passing the strict test is exactly a pair of different listed ids whose spheres pass it. |
| SweepPrune.CreateStrictCollidedDict | cosmdanalyzer/src/solidcalc/sweepprune.py:11-30 | `create_strict_collided_dict` maps each id exactly to the ids it collides with strictly; no list is empty or holds an id twice. |
| GraphMatch.Without | cosmdanalyzer/src/graph/match.py:65 | Removing one position of the neighbour tuple leaves one element fewer. |
| GraphMatch.PermutationsPermute | cosmdanalyzer/src/graph/match.py:65 | Every tuple `itertools.permutations` yields is a rearrangement of the neighbours of `node1`. |
| GraphMatch.PermutationsFromPermute | cosmdanalyzer/src/graph/match.py:65 | Every permutation starting with one of the later positions is a rearrangement of the input. |
| GraphMatch.FirstPermutation | cosmdanalyzer/src/graph/match.py:65 | The first permutation tried is the neighbour tuple in its own order. |
| GraphMatch.RemovedOne | cosmdanalyzer/src/graph/match.py:65 | A permutation that starts with the element at position `i` followed by a rearrangement of the rest is a rearrangement of the whole tuple. |
| GraphMatch.GrownTrans | cosmdanalyzer/src/graph/match.py:85-86 | Adding the nodes of a successful recursive call to `child_same0` and `child_same1` composes the growth of the state. |
| GraphMatch.ZippedExtends | cosmdanalyzer/src/graph/match.py:68-86 | Neighbours already mapped stay mapped as the state grows. |
| GraphMatch.ZippedNext | cosmdanalyzer/src/graph/match.py:69-71 | A zipped neighbour already mapped to its partner in the permutation extends the matched prefix. |
| GraphMatch.CoversExtends | cosmdanalyzer/src/graph/match.py:68-86 | Nodes whose neighbourhoods are covered stay covered as the state grows. |
| GraphMatch.AddPair | cosmdanalyzer/src/graph/match.py:76-80 | Mapping an unsearched graph-1 node accepted by `is_same_node` keeps every pair accepted and every graph-1 node used once, and grows the state by that pair. |
| GraphMatch.Restored | cosmdanalyzer/src/graph/match.py:91-94 | Removing what an attempt added gives back the state before it. |
| GraphMatch.SelfIsomorphism | cosmdanalyzer/src/test/testgraph.py:13-15 | A part of a graph that holds the neighbours of its nodes is a relabelled copy of itself under the identity when `is_same_node` accepts each of its nodes with itself. |
| GraphMatch.FreshImage | cosmdanalyzer/src/graph/match.py:74-75 | While the state agrees with a one-to-one relabelling, the image of a node not yet mapped is not in `searched1`. |
| GraphMatch.ImagePair | cosmdanalyzer/src/graph/match.py:68-76 | While the state agrees with a relabelling and the permutation is the relabelled neighbour tuple in the same order, each zipped pair is accepted by `is_same_node`, is either already mapped to exactly that node or uses a node not in `searched1`. |
| GraphMatch.PopAll | cosmdanalyzer/src/graph/match.py:91-92 | The loop pops exactly the nodes of `child_same0` from `same_node`. |
| GraphMatch.RemoveAll | cosmdanalyzer/src/graph/match.py:93-94 | The loop removes exactly the nodes of `child_same1` from `searched1`. |
| GraphMatch.TryPair | cosmdanalyzer/src/graph/match.py:68-88 | One pass over a zipped pair: a mapped neighbour must map to the permutation's node, an unmapped one needs an unused node accepted by `is_same_node` and a successful recursive match; on success the matched prefix grows by one and the state stays consistent; under a relabelling the state agrees with, in the same neighbour order, and the relabelled permutation, the pass succeeds and the state still agrees. |
| GraphMatch.TryPermutation | cosmdanalyzer/src/graph/match.py:66-90 | One attempt over `zip(neg0, neg1)` keeps the state consistent and grows it by the children it records; on success every zipped neighbour is mapped to its place in the permutation and every child's neighbourhood is covered; when the state agrees with a relabelling and the permutation is the relabelled neighbour tuple in the same order, the attempt succeeds and the state still agrees with it. |
| GraphMatch.MatchInner | cosmdanalyzer/src/graph/match.py:40-96 | `_match_inner` returns None with the state unchanged, or the nodes it added with the state grown by exactly those, the neighbours of `node0` mapped into those of `node1` and each added node's neighbourhood covered; when graph 1 is a relabelled copy of graph 0, in the same neighbour order, and the state agrees with the relabelling, it succeeds (the first permutation tried is the relabelled one) and the state still agrees. |
| GraphMatch.MatchAll | cosmdanalyzer/src/graph/match.py:11-37 | `match_all` returns a map that starts at `node0`, uses each graph-1 node once and agrees on every pair and every zipped neighbourhood; when `is_same_node` accepts no node of `nodes1` it returns None; when graph 1 holds a relabelled copy, in the same neighbour order, of a part of graph 0 that contains `node0` and the neighbours of its nodes (as in cosmdanalyzer/src/test/testgraph.py lines 19-31), and `nodes1` holds the image of `node0`, it returns a map, and that map is the relabelling when the image is the first candidate accepted. |
| GraphMatch.SelfMatch | cosmdanalyzer/src/test/testgraph.py:13-18 | Matching a graph against itself with a reflexive `is_same_node` returns a map, and starting from the first node it maps every node to itself. |
| CalcCharge.InResidue | cosmdanalyzer/src/main/calccharge.py:122-124 | Every kept neighbour belongs to the residue and to the neighbours, and every neighbour that belongs to the residue is kept. |
| CalcCharge.KeptAt | cosmdanalyzer/src/main/calccharge.py:122-124 | The positions the filter keeps: ascending, each holding a neighbour in the residue, and every such position among them. |
| CalcCharge.InResidueOrder | cosmdanalyzer/src/main/calccharge.py:122-124 | The filter yields the neighbours at the kept positions, in the order of the positions. |
| CalcCharge.InResidueCount | cosmdanalyzer/src/main/calccharge.py:122-124 | Each neighbour in the residue is kept as often as it occurs, and any other is dropped. |
| CalcCharge.Range | cosmdanalyzer/src/main/calccharge.py:131 | The candidate template nodes are 0 to n-1 in order. |
| CalcCharge.Yielded | cosmdanalyzer/src/main/calccharge.py:134-136 | The generator yields, for each residue atom in order, the atom with the charge of its matched template atom; an unmatched atom raises `KeyError`, and only then. |
| CalcCharge.CalcResidueAtomsCharge | cosmdanalyzer/src/main/calccharge.py:101-138 | `_calc_residue_atoms_charge` matches the residue from its first atom, comparing atomic number and degree within the residue with the template's; a match yields the atoms' template charges, no match yields nothing, and when no template atom agrees with the first atom there is no match; when a one-to-one relabelling carries the residue onto its template, keeping the order of each atom's neighbours, a match is found. |
| CalcCharge.LoneAtomIsomorphic | cosmdanalyzer/src/main/calccharge.py:117-119 | A residue of one atom without bonds is carried onto a one-atom template of its element, so the success clause of the residue match applies to real residues. |
| CalcCharge.StoredMeaning | cosmdanalyzer/src/main/calccharge.py:96-97 | The table gains exactly the stored atoms; each takes the charge of its last pair and every other key keeps its value. |
| CalcCharge.StorePairs | cosmdanalyzer/src/main/calccharge.py:96-97 | The loop stores each yielded pair into `atom_to_charge` in turn. |
| CalcCharge.FitPrefix | cosmdanalyzer/src/main/calccharge.py:87-97 | Matches recorded for residues stay valid for every prefix of the residues. |
| CalcCharge.AssignedNext | cosmdanalyzer/src/main/calccharge.py:87-97 | Handling one more residue applies one step of the loop to the table so far. |
| CalcCharge.StoredAgree | cosmdanalyzer/src/main/calccharge.py:96-97 | When every pair for an atom carries the same charge, the table holds that charge. |
| CalcCharge.AllCoveredSnoc | cosmdanalyzer/src/main/calccharge.py:87-97 | Every residue is covered exactly when the earlier ones are and the last one is. |
| CalcCharge.NextOk | cosmdanalyzer/src/main/calccharge.py:88-97 | One residue keeps the table exactly when it has atoms and any match it has covers all of them. |
| CalcCharge.AssignedOk | cosmdanalyzer/src/main/calccharge.py:86-98 | `calc_atoms_charge` returns a table exactly when every residue has atoms and every match covers its residue. |
| CalcCharge.AssignedErrors | cosmdanalyzer/src/main/calccharge.py:86-98 | Its only errors are the `IndexError` of a residue without atoms and the `KeyError` of an unmatched atom. |
| CalcCharge.AssignedErrStays | cosmdanalyzer/src/main/calccharge.py:87-97 | Once a residue raises, later residues are not reached. |
| CalcCharge.AllStoredSnoc | cosmdanalyzer/src/main/calccharge.py:87-97 | Every atom of every matched residue stays stored as the table grows. |
| CalcCharge.StoredKeys | cosmdanalyzer/src/main/calccharge.py:96-97 | Storing a residue's pairs keeps every earlier key and adds each of its atoms. |
| CalcCharge.AssignedComplete | cosmdanalyzer/src/main/calccharge.py:86-98 | Every atom of a matched residue is a key of the result. |
| CalcCharge.AllChargedExtend | cosmdanalyzer/src/main/calccharge.py:87-97 | Entries charged by earlier residues stay charged when more residues are considered. |
| CalcCharge.YieldedCharged | cosmdanalyzer/src/main/calccharge.py:134-136 | An atom stored from a matched residue takes the charge of its template partner in that residue. |
| CalcCharge.AssignedCharges | cosmdanalyzer/src/main/calccharge.py:86-98 | Every key of the result is an atom of a matched residue, holding the charge of its template partner; unmatched residues, including those with an unknown symbol's empty template, add nothing. |
| CalcCharge.ChargedBySame | cosmdanalyzer/src/main/calccharge.py:125-133 | The template partner of a charged atom has its atomic number and the same number of bonds as the atom has inside the residue. |
| CalcCharge.FitSnoc | cosmdanalyzer/src/main/calccharge.py:87-97 | Recording a match for one more residue keeps the record valid. |
| CalcCharge.ChargeResidue | cosmdanalyzer/src/main/calccharge.py:88-97 | One pass of the residue loop: look up the template by the first atom's symbol, match, and store the yielded pairs; a residue that is a relabelled copy of its template, keeping the order of each atom's neighbours, is matched. |
| CalcCharge.MatchedAtSnoc | cosmdanalyzer/src/main/calccharge.py:88-97 | Recording one more residue keeps every marked residue matched when the new one, if marked, is matched. |
| CalcCharge.CalcAtomsCharge | cosmdanalyzer/src/main/calccharge.py:64-98 | `calc_atoms_charge` computes the fold of the residue step over the residues, starting from the empty table; every residue that is a relabelled copy of its template, keeping the order of each atom's neighbours, is matched unless an error stopped the loop, and on success every atom of such a residue has a charge in the table. |
| CalcCharge.Abandon | cosmdanalyzer/src/main/calccharge.py:87-97 | After an error the remaining residues, recorded as unmatched, leave the error as it is. |
| FpocketParser.TabIndent | cosmdanalyzer/src/fpocket/parser.py:124-131 | The count is the length of the run of tabs at the start of the line: every character before it is a tab and the one at it is not. |
| FpocketParser.CountTabIndent | cosmdanalyzer/src/fpocket/parser.py:124-131 | `_count_tab_indent` stops at the first non-tab character and returns the number of leading tabs. |
| FpocketParser.TabIndentUnique | cosmdanalyzer/src/fpocket/parser.py:124-131 | The leading tab count is the only count with those two properties. |
| FpocketParser.ParseLine | cosmdanalyzer/src/fpocket/parser.py:118-121 | `_parse_line` raises `IndexError` exactly when the stripped line has no colon. |
| FpocketParser.ParseLineFields | cosmdanalyzer/src/fpocket/parser.py:118-121 | Otherwise it returns the stripped text before the first colon and the stripped text between the first and the second colon (or to the end). |
| FpocketParser.Pop | cosmdanalyzer/src/fpocket/parser.py:104-105 | `dict_stack.pop()` succeeds when more than the outermost dictionary is open, removes only the top, and otherwise leads to an `IndexError`. |
| FpocketParser.Pops | cosmdanalyzer/src/fpocket/parser.py:104-105 | k pops succeed exactly when fewer than the stack's height, leaving k fewer dictionaries. |
| FpocketParser.PutTop | cosmdanalyzer/src/fpocket/parser.py:109 | Storing into the top dictionary changes no dictionary below it. |
| FpocketParser.Step | cosmdanalyzer/src/fpocket/parser.py:100-114 | One pass of the loop keeps at least one dictionary open when it succeeds. |
| FpocketParser.Store | cosmdanalyzer/src/fpocket/parser.py:107-114 | Storing a parsed line keeps at least one dictionary open. |
| FpocketParser.RunFrom | cosmdanalyzer/src/fpocket/parser.py:100-114 | The loop keeps at least one dictionary open while it succeeds. |
| FpocketParser.RunFromNext | cosmdanalyzer/src/fpocket/parser.py:100-114 | Reading one more line applies one pass of the loop, unless an error already ended it. |
| FpocketParser.RunFromStops | cosmdanalyzer/src/fpocket/parser.py:100-114 | An error ends the loop: the remaining lines are not read. |
| FpocketParser.PopFrame | cosmdanalyzer/src/fpocket/parser.py:105 | Popping in place writes the top dictionary back into its parent, as the shared reference does. |
| FpocketParser.PopFrames | cosmdanalyzer/src/fpocket/parser.py:104-105 | The loop pops exactly `level - line_level` dictionaries. |
| FpocketParser.ParseStep | cosmdanalyzer/src/fpocket/parser.py:101-114 | The loop body skips a blank line, closes the deeper dictionaries, then stores a value or opens a nested dictionary one level deeper. |
| FpocketParser.ParseTabIndent | cosmdanalyzer/src/fpocket/parser.py:90-115 | `_parse_tab_indent` returns the outermost dictionary built by the loop over all lines. |
| FpocketParser.Tabs | cosmdanalyzer/src/fpocket/parser.py:124-131 | An indent of depth n is n tab characters. |
| FpocketParser.ParseLineOf | cosmdanalyzer/src/fpocket/parser.py:118-121 | A stripped line `name:rest` with no other colon splits into the stripped name and the stripped rest. |
| FpocketParser.StripIndented | cosmdanalyzer/src/fpocket/parser.py:120 | `strip()` removes the indent and the line end of an entry line. |
| FpocketParser.StripTabbed | cosmdanalyzer/src/fpocket/parser.py:121 | A tab in front of a clean text is stripped. |
| FpocketParser.TabIndentOf | cosmdanalyzer/src/fpocket/parser.py:124-131 | A line indented by n tabs has tab indent n. |
| FpocketParser.EntryLineParses | cosmdanalyzer/src/fpocket/parser.py:101-121 | An entry line is not blank, its indent is its depth, and `_parse_line` reads back its name and text (empty for a nested dictionary). |
| FpocketParser.RunFromAppend | cosmdanalyzer/src/fpocket/parser.py:100-114 | Running the loop over two blocks of lines is running it over the first and then the second. |
| FpocketParser.PopsAdd | cosmdanalyzer/src/fpocket/parser.py:104-105 | a + b pops are a pops followed by b more. |
| FpocketParser.Closed | cosmdanalyzer/src/fpocket/parser.py:104-105 | Writing back the dictionaries above height h leaves h dictionaries open. |
| FpocketParser.AppendTop | cosmdanalyzer/src/fpocket/parser.py:109-112 | Extending the top dictionary keeps the stack's height. |
| FpocketParser.PutTopNew | cosmdanalyzer/src/fpocket/parser.py:109-112 | A name new to the top dictionary is added at its end. |
| FpocketParser.RunOne | cosmdanalyzer/src/fpocket/parser.py:100-114 | A single line is a single pass of the loop. |
| FpocketParser.StepEntry | cosmdanalyzer/src/fpocket/parser.py:101-114 | A non-blank line at indent d closes the dictionaries deeper than d and stores its value in the dictionary then on top. |
| FpocketParser.TextEntryRuns | cosmdanalyzer/src/fpocket/parser.py:108-109 | The line of a text entry stores its text under its name in the dictionary of its depth. |
| FpocketParser.NestedEntryRuns | cosmdanalyzer/src/fpocket/parser.py:110-114 | A dictionary entry's line and its entries' lines build that dictionary under its name in the one of its depth. |
| FpocketParser.CloseNested | cosmdanalyzer/src/fpocket/parser.py:104-105 | Closing a nested dictionary writes it, with its entries, into the dictionary below it, where its name was new. |
| FpocketParser.RenderRuns | cosmdanalyzer/src/fpocket/parser.py:100-114 | From a consistent state, the lines of a block of entries at depth d append those entries, in order, to the dictionary of depth d. |
| FpocketParser.EntryRuns | cosmdanalyzer/src/fpocket/parser.py:100-114 | The lines of one entry of a well-formed tree add that entry to the dictionary of its depth. |
| FpocketParser.FreshAfter | cosmdanalyzer/src/fpocket/parser.py:109-112 | With distinct names, names still to come stay new to a dictionary once an earlier entry is added. |
| FpocketParser.AppendTopTwice | cosmdanalyzer/src/fpocket/parser.py:109-112 | Entries appended to the top dictionary in two goes are appended in one. |
| FpocketParser.ContentsPops | cosmdanalyzer/src/fpocket/parser.py:115 | Popping dictionaries does not change what `dict_stack[0]` ends up holding. |
| FpocketParser.ParsedRendered | cosmdanalyzer/src/fpocket/parser.py:90-131 | The tab-indented text of a well-formed tree (distinct clean names, non-empty clean texts) parses back to that tree: names, texts, nesting and entry order. |
| FpocketParser.Score | cosmdanalyzer/src/fpocket/parser.py:86 | `v['Score']` raises `TypeError` on a text and `KeyError` on a dictionary without `Score`, and succeeds otherwise. |
| FpocketParser.PocketNumberOf | cosmdanalyzer/src/fpocket/parser.py:80-85 | The key `Pocket<n>` that fpocket writes names pocket n. |
| FpocketParser.ScoresFromNext | cosmdanalyzer/src/fpocket/parser.py:79-86 | One more entry of the tree is one more pass of the loop, unless an error already ended it. |
| FpocketParser.ScoresFromStops | cosmdanalyzer/src/fpocket/parser.py:79-86 | An error ends the loop. |
| FpocketParser.ParseScoreFromInfo | cosmdanalyzer/src/fpocket/parser.py:69-87 | `parse_score_from_info` maps each `Pocket<int>` entry's number to its `Score` value as read; other entries are skipped. |
| FpocketParser.ScoresFromGet | cosmdanalyzer/src/fpocket/parser.py:79-86 | Pocket n has a score exactly when some entry names it, and the score is that of the last such entry. |
| FpocketParser.ScoresFromOk | cosmdanalyzer/src/fpocket/parser.py:79-86 | The loop succeeds exactly when every entry naming a pocket has a readable `Score`. |
| FpocketParser.ScoresFromLast | cosmdanalyzer/src/fpocket/parser.py:79-86 | The loop over a tree succeeds exactly when it succeeds without the last entry and the last entry is not bad. |
| FpocketParser.NoneBadSnoc | cosmdanalyzer/src/fpocket/parser.py:79-86 | No entry of `init + [e]` is bad exactly when none of `init` is and `e` is not. |
| FpocketParser.ScoresFromErr | cosmdanalyzer/src/fpocket/parser.py:86 | A failing loop fails with `TypeError` or `KeyError`. |
| FpocketParser.ScoresFromDistinct | cosmdanalyzer/src/fpocket/parser.py:77-87 | The scores map each pocket number once. |
| FpocketParser.ReadPdbAtomLine | cosmdanalyzer/src/fpocket/parser.py:50-66 | `_read_pdb_atom_line` raises `ValueError` exactly when columns 22-26 are not an integer; otherwise it gives None exactly when one of the three coordinate fields is not a float. |
| FpocketParser.ReadPdbAtomLineOf | cosmdanalyzer/src/fpocket/parser.py:59-64 | A line with right-aligned integers in the residue-number and coordinate columns reads as those numbers. |
| FpocketParser.PositionsFromNext | cosmdanalyzer/src/fpocket/parser.py:36-46 | One more line is one more pass of the loop, unless an error already ended it. |
| FpocketParser.PositionsFromStops | cosmdanalyzer/src/fpocket/parser.py:36-46 | An error ends the loop. |
| FpocketParser.ParsePocketPositionFromPdb | cosmdanalyzer/src/fpocket/parser.py:26-47 | `parse_pocket_position_from_pdb` computes the fold of the line step over the lines. |
| FpocketParser.AddLineAtom | cosmdanalyzer/src/fpocket/parser.py:37-46 | A passing line stores its atom's coordinates under its residue number, if it is an `APOL` line that reads. |
| FpocketParser.AddLineGet | cosmdanalyzer/src/fpocket/parser.py:43-46 | One line adds its point to the list of its residue and to no other. |
| FpocketParser.PositionsFromGet | cosmdanalyzer/src/fpocket/parser.py:35-47 | Residue n is a key exactly when some readable `APOL` line gives it coordinates, and its list holds those coordinates in line order. |
| FpocketParser.PositionsFromOk | cosmdanalyzer/src/fpocket/parser.py:36-46 | The loop fails exactly when an `APOL` line has a malformed residue number. |
| FpocketParser.PositionsFromLast | cosmdanalyzer/src/fpocket/parser.py:36-46 | The loop succeeds exactly when it does without the last line and the last line is not a bad `APOL` line. |
| FpocketParser.NoneBadApolLast | cosmdanalyzer/src/fpocket/parser.py:36-46 | No line of `lines` is bad exactly when none of the lines before the last is and the last is not. |
| FpocketParser.PocketIdsAscending | cosmdanalyzer/src/fpocket/parser.py:19-20 | The sorted pocket numbers are the keys of the scores, each once, in strictly ascending order. |
| FpocketParser.PairsMeaning | cosmdanalyzer/src/fpocket/parser.py:22-23 | The pairs follow the pocket numbers one for one, each pairing the number's score and positions, and stop with a `KeyError` at the first number missing from either dictionary. |
| FpocketParser.PairsFrom | cosmdanalyzer/src/fpocket/parser.py:22-23 | The pairs from position i are the pair of number i followed by the pairs of the rest. |
| FpocketParser.ParseFpocket | cosmdanalyzer/src/fpocket/parser.py:8-23 | `parse_fpocket` yields the pairs of the sorted pocket numbers, ending with the error that stops it, if any. |
| FpocketParser.YieldPairs | cosmdanalyzer/src/fpocket/parser.py:22-23 | The loop yields `(scores[id], pos[id])` for each number in turn until one is missing. |
| FpocketParser.PocketIdsMeaning | cosmdanalyzer/src/fpocket/parser.py:18-20 | The pocket numbers are those the tree names, in strictly ascending order. |
| FpocketParser.PairMeaning | cosmdanalyzer/src/fpocket/parser.py:23 | A yielded pair holds the last `Score` read for its pocket and its atoms' coordinates, which are non-empty. |
| FpocketParser.PairsFound | cosmdanalyzer/src/fpocket/parser.py:18-23 | Each yielded pair holds the pocket's last score and its `APOL` coordinates, and the sequence stops with `KeyError` at the first pocket without atoms. |
| FpocketParser.FpocketMeaning | cosmdanalyzer/src/fpocket/parser.py:8-87 | End to end: pockets come in strictly ascending number, each with the `Score` of the last `_info.txt` entry naming it and its `APOL` coordinates in line order; a pocket without atoms ends the sequence with `KeyError`. |
| Charge.ClipComment | cosmdanalyzer/src/chem/charge.py:198-202 | The result is a prefix of the line with no `;`, cut exactly at the first `;` when there is one. |
| Charge.ToSymbol | cosmdanalyzer/src/chem/charge.py:205-206 | The symbol is the one-character string of the type's first character. |
| Charge.AtomicNumFirstLetter | cosmdanalyzer/src/chem/charge.py:153 | Only the first character of an atom type is looked up in the element table. |
| Charge.OneLetterSymbols | cosmdanalyzer/src/chem/charge.py:205-251 | Hence only the one-letter element symbols H, B, C, N, O, F, P, S, K, V and Y are recognised, and a type is hydrogen exactly when it starts with `H`. |
| Charge.BreakAt | cosmdanalyzer/src/chem/charge.py:38-40 | The loop over positions 3, 2, 1 stops at or before its starting position. |
| Charge.BreakAtMeaning | cosmdanalyzer/src/chem/charge.py:38-42 | It stops at the last of positions 1 to 3 that is neither a digit nor a space, every later position up to 3 holding a digit or a space. |
| Charge.NormalisedMeaning | cosmdanalyzer/src/chem/charge.py:37-43 | An unknown type whose positions 1 to 3 are all digits or spaces gives None; otherwise it becomes four characters, keeping the type up to the last other character and padding with spaces. |
| Charge.LennardJonesCharge.constructor | cosmdanalyzer/src/chem/charge.py:10-27 | The table holds the given type-to-charge entries. |
| Charge.LennardJonesCharge.Call | cosmdanalyzer/src/chem/charge.py:29-44 | `__call__` returns the charge of a known type as it is; an unknown type is normalised first and looked up, None when it has no entry; an unknown type shorter than four characters raises `IndexError`. |
| Charge.AtomLine | cosmdanalyzer/src/chem/charge.py:147-156 | An atoms line yields only an atom of a recognised element, and no hydrogen when hydrogens are removed. |
| Charge.AtomLineWords | cosmdanalyzer/src/chem/charge.py:152-156 | A kept atoms line has at least three words: the atom is named by the first, its atomic number is that of the type in the second and its charge is what `float` reads from the third. |
| Charge.AtomsFrom | cosmdanalyzer/src/chem/charge.py:145-159 | The atoms section ends at a line whose stripped text starts with `[`, or at the end of the text. |
| Charge.LoadAtoms | cosmdanalyzer/src/chem/charge.py:134-159 | `_load_atoms` skips blank lines, stops at a `[` line and reads each other line as an atom. |
| Charge.AtomsFromAt | cosmdanalyzer/src/chem/charge.py:146-156 | One line of the loop: a blank line is skipped, a `[` line ends the section, and any other line adds its atom or none. |
| Charge.KeptAdded | cosmdanalyzer/src/chem/charge.py:154-156 | Adding a kept atom, or none, to kept atoms keeps all of them kept. |
| Charge.AtomsFromKept | cosmdanalyzer/src/chem/charge.py:145-159 | Every atom an atoms section yields is of a recognised element, and no hydrogen when hydrogens are removed. |
| Charge.BlankRows | cosmdanalyzer/src/chem/charge.py:148-149 | A blank line gives no atom. |
| Charge.RowsStep | cosmdanalyzer/src/chem/charge.py:146-156 | A line that does not end an atoms section adds exactly the atom it gives, if any, to those read. |
| Charge.SectionEnd | cosmdanalyzer/src/chem/charge.py:145-159 | A `[` line, or the end of the text, ends an atoms section with the atoms read so far. |
| Charge.AtomsFromRows | cosmdanalyzer/src/chem/charge.py:145-159 | An atoms section holds exactly the atoms its lines give, one per kept line, in line order, from its first line up to the line that ended it. |
| Charge.LineRowRead | cosmdanalyzer/src/chem/charge.py:152-156 | A line gives at most one atom, and its atomic number and charge are what the line says (`ReadAt`). |
| Charge.SaysRead | cosmdanalyzer/src/chem/charge.py:152-156 | `ReadAt` holds of every line and the atom it gives. |
| Charge.RowsRead | cosmdanalyzer/src/chem/charge.py:145-159 | Every atom that a run of lines gives is what one of those lines says. |
| Charge.BondLine | cosmdanalyzer/src/chem/charge.py:180-184 | A bonds line yields a pair exactly when its first two words are atoms of the residue, namely the pair of their indices. |
| Charge.BondsFrom | cosmdanalyzer/src/chem/charge.py:173-195 | The bonds section ends at a line whose stripped text starts with `[`, or at the end of the text. |
| Charge.LoadBonds | cosmdanalyzer/src/chem/charge.py:162-195 | `_load_bonds` returns the adjacency lists of the bonds between known atoms, in line order, and the line that ended it. |
| Charge.AdjacencyGet | cosmdanalyzer/src/chem/charge.py:185-192 | The list of an atom holds the other end of each of its bonds, in bond order, and an atom without a bond has none. |
| Charge.NeighboursCount | cosmdanalyzer/src/chem/charge.py:185-192 | b is listed under a once per bond between them, in either direction. |
| Charge.AdjacencySymmetric | cosmdanalyzer/src/chem/charge.py:185-192 | b occurs in the list of a as often as a occurs in the list of b. |
| Charge.AdjacencyIsSymmetric | cosmdanalyzer/src/chem/charge.py:173-195 | Every adjacency `_load_bonds` builds is symmetric. |
| Charge.NeighboursBelow | cosmdanalyzer/src/chem/charge.py:185-192 | The neighbours of an atom are the other ends of its bonds, so they are below `n` when every bond joins atoms below `n`. |
| Charge.AdjacencyBelow | cosmdanalyzer/src/chem/charge.py:185-192 | The adjacency lists of bonds between atoms below `n` list only atoms below `n`. |
| Charge.BondsStep | cosmdanalyzer/src/chem/charge.py:174-192 | A line that does not end a bonds section adds exactly the bond it gives, if any, and that bond joins indices the name table holds. |
| Charge.BondsFromBelow | cosmdanalyzer/src/chem/charge.py:173-195 | Every bond of a bonds section joins two indices that the name-to-index table holds, so two indices below any bound on them. |
| Charge.IndexedLast | cosmdanalyzer/src/chem/charge.py:121-123 | A name of the atoms section maps to the index of its last atom of that name. |
| Charge.IndexedOther | cosmdanalyzer/src/chem/charge.py:121-123 | A name no atom of the section has keeps its earlier index. |
| Charge.IndexedBelow | cosmdanalyzer/src/chem/charge.py:121-123 | Indexing the atoms of a section stores only indices below the number of atoms read. |
| Charge.AddAtoms | cosmdanalyzer/src/chem/charge.py:121-123 | The `enumerate` loop appends each atom's atomic number and charge to the residue and indexes the section's atoms by name. |
| Charge.AminoFrom | cosmdanalyzer/src/chem/charge.py:109-131 | A residue ends at a line that starts with `[` before its comment, or at the end of the text. |
| Charge.AminoFromAt | cosmdanalyzer/src/chem/charge.py:114-128 | One line of the loop: a `[` line ends the residue, an `[ atoms ]` or `[ bonds ]` line reads its section, and any other line is skipped. |
| Charge.LoadAmino | cosmdanalyzer/src/chem/charge.py:100-131 | `_load_amino` returns the residue's atoms, its bonds when it has a bonds section, and the line that ended it. |
| Charge.ChargeRowsKept | cosmdanalyzer/src/chem/charge.py:121-122 | Appending kept atoms to kept atoms keeps all of them kept. |
| Charge.AminoFromMeaning | cosmdanalyzer/src/chem/charge.py:109-131 | A residue holds only kept atoms, and its bonds, when it has a bonds section, are symmetric. |
| Charge.AminoFromBonds | cosmdanalyzer/src/chem/charge.py:109-131 | Every atom index in a residue's bond graph is below the number of its atoms. |
| Charge.AminoFromRead | cosmdanalyzer/src/chem/charge.py:109-131 | Every atom of a residue is what one of its lines, from the header to the line that ended it, says. |
| Charge.PdbName | cosmdanalyzer/src/chem/charge.py:67-71 | A GROMACS histidine name is renamed to its PDB name, every other name is kept, and no renamed name is a GROMACS one. |
| Charge.AfterAfter | cosmdanalyzer/src/chem/charge.py:92-96 | Yielding some residues and then the rest of the generator's output composes. |
| Charge.ChargeFromAt | cosmdanalyzer/src/chem/charge.py:87-97 | One line of `load_charge`: a line that does not start with `[` is skipped; at a header an error while reading the residue ends the generator. |
| Charge.ChargeFromHeader | cosmdanalyzer/src/chem/charge.py:89-96 | At a header whose residue is read, its residue (when it has bonds) comes first and the generator goes on from the line that ended it. |
| Charge.ReadResidue | cosmdanalyzer/src/chem/charge.py:90-96 | One pass at a header reads the residue, yields it when it has bonds and goes on from the line that ended it. |
| Charge.LoadCharge | cosmdanalyzer/src/chem/charge.py:74-97 | `load_charge` yields the residues of the topology text in order and stops with the exception that ended it, if any. |
| Charge.YieldedMeaning | cosmdanalyzer/src/chem/charge.py:93-95 | The residue of one header is well formed. |
| Charge.ChargeFromMeaning | cosmdanalyzer/src/chem/charge.py:74-97 | No yielded residue keeps a GROMACS histidine name, every atom is a recognised element (no hydrogen when hydrogens are removed), and every bond graph is symmetric and lists only indices below the residue's number of atoms. |
| Charge.ChargeFromRead | cosmdanalyzer/src/chem/charge.py:74-97 | Every atom of every residue yielded from a line on is what one of the later lines says. |
| Charge.ChargeFromAtoms | cosmdanalyzer/src/chem/charge.py:74-97 | Every atom of every residue `load_charge` yields is read from a line of the text: its atomic number is that of the type in the second word and its charge is what `float` reads from the third. |
| Input.Head | cosmdanalyzer/src/main/input.py:78-81 | A line that starts with a record name starts with that name's first character. |
| Input.RecordKinds | cosmdanalyzer/src/main/input.py:26-33 | The record kinds exclude each other: an atom record is not `TER`, `MODEL` or `ENDMDL`, a `TER` line is not `MODEL` or `ENDMDL`, and a `MODEL` line is not `ENDMDL`. |
| Input.TerId | cosmdanalyzer/src/main/input.py:83 | Reading the serial of a `TER` line gives a number, or a `ValueError` when `int()` refuses it. |
| Input.FirstWith | cosmdanalyzer/src/main/input.py:77-83 | The search finds the first line from i on that starts with the tag, or runs to the end when none does. |
| Input.FirstWithNone | cosmdanalyzer/src/main/input.py:77-83 | The search runs to the end exactly when no line from i on starts with the tag. |
| Input.ProteinLinesMeaning | cosmdanalyzer/src/main/input.py:78-80 | The protein records kept are exactly the atom and `MODEL` lines among those read. |
| Input.ProteinOf | cosmdanalyzer/src/main/input.py:67-83 | The protein reader stops within the lines, and returns None only after drawing every line. |
| Input.ProteinOfKeepsNoEndmdl | cosmdanalyzer/src/main/input.py:77-83 | The first frame copies protein records and its `TER` line, never an `ENDMDL` line. |
| Input.ProteinOfStops | cosmdanalyzer/src/main/input.py:77-83 | The reader returns None exactly when no line is a `TER` line; otherwise it stops right after the first `TER` line. |
| Input.FirstFrameProteinFilter | cosmdanalyzer/src/main/input.py:67-83 | The loop of `_first_frame_protein_filter` appends the kept lines and returns the serial of the first `TER` line. |
| Input.ProbeAtoms | cosmdanalyzer/src/main/input.py:98-101 | The probe heavy atoms counted are at most the lines read. |
| Input.ProbeOf | cosmdanalyzer/src/main/input.py:86-104 | `next()` raises `StopIteration` exactly when no line is left; otherwise the counter draws at least one line. |
| Input.ProbeOfMeaning | cosmdanalyzer/src/main/input.py:93-104 | The count is at most the number of lines drawn, and the counter stops at the first `ENDMDL` line after the first line drawn, or at the end. |
| Input.FirstFrameProbeCounter | cosmdanalyzer/src/main/input.py:86-104 | The loop of `_first_frame_probe_counter` counts the probe heavy atoms of the first frame's probe residue. |
| Input.KeepLater | cosmdanalyzer/src/main/input.py:26-33 | Reading a serial of a later frame fails only with `ValueError`. |
| Input.LaterFrames | cosmdanalyzer/src/main/input.py:25-33 | The later frames fail only with `ValueError`. |
| Input.LaterFramesMeaning | cosmdanalyzer/src/main/input.py:25-33 | The later frames fail exactly when one of their lines does, and keep exactly the lines the rule keeps: atom records below the `TER` serial, the `TER` record with that serial, and every `MODEL` and `ENDMDL` line. |
| Input.LaterFramesStep | cosmdanalyzer/src/main/input.py:25-33 | One more line grows the kept lines by it when the rule keeps it, or ends the loop with its error. |
| Input.LaterFramesErrStays | cosmdanalyzer/src/main/input.py:25-33 | Once a serial has failed, the lines after it change nothing. |
| Input.LaterFramesFilter | cosmdanalyzer/src/main/input.py:25-33 | The loop over the rest of the lines keeps what the rule keeps. |
| Input.KeepLine | cosmdanalyzer/src/main/input.py:26-33 | The body of the later-frames loop applies the record tests to one line. |
| Input.FirstFrameClosed | cosmdanalyzer/src/main/input.py:21-24 | The inserted `ENDMDL` line is the first `ENDMDL` of the text: it closes the first frame. |
| Input.TrajectoryStops | cosmdanalyzer/src/main/input.py:11-35 | The filter fails with `StopIteration` exactly when no line is left for the probe counter: no `TER` line, or nothing after the first one. |
| Input.TrajectoryPdbStringFilter | cosmdanalyzer/src/main/input.py:11-35 | `trajectory_pdb_string_filter` joins the first frame's protein, one `ENDMDL` line, the kept lines of the later frames and `END`, and returns them with the probe heavy-atom count, all over one shared iterator. |
| Input.LaterFramesFiltered | cosmdanalyzer/src/main/input.py:25-33 | The later-frame filter is the generic filter by the keep rule. |
| Input.FilterOkFails | cosmdanalyzer/src/main/input.py:25-33 | A filter whose rule may raise fails exactly when the rule fails on some line. |
| Input.FilterOkKept | cosmdanalyzer/src/main/input.py:25-33 | Without a failure, the filter keeps exactly the lines the rule accepts. |
| Protrusion.FarCount | cosmdanalyzer/src/scorecalc/protrusion.py:71-73 | The count of neighbours at distance 8 or more is at most the number of distances. |
| Protrusion.FarCountPrefix | cosmdanalyzer/src/scorecalc/protrusion.py:71-75 | Counting a prefix of the distances never gives more than counting them all, so the early return at 120 decides as the full count would. |
| Protrusion.CalcAtomProtrusion | cosmdanalyzer/src/scorecalc/protrusion.py:56-76 | `_calc_atom_protrusion` says an atom protrudes exactly when fewer than 120 atoms in its 12 sphere lie at distance 8 or more. |
| Protrusion.CountProtruding | cosmdanalyzer/src/scorecalc/protrusion.py:49-52 | The number of protruding atoms is at most the number of atoms. |
| Protrusion.CalcResidueProtrusion | cosmdanalyzer/src/scorecalc/protrusion.py:35-53 | `_calc_residue_protrusion` says a residue protrudes exactly when at least half of its atoms do; a residue without atoms protrudes. |
| Protrusion.CountResidues | cosmdanalyzer/src/scorecalc/protrusion.py:24-28 | The number of protruding residues is at most the number of residues. |
| Protrusion.CalcPatchProtrusion | cosmdanalyzer/src/scorecalc/protrusion.py:6-32 | `calc_patch_protrusion` returns None exactly for an empty patch, and otherwise the share of protruding residues. |
| Protrusion.Share | cosmdanalyzer/src/scorecalc/protrusion.py:29-30 | The share `protrude_count / all_count` lies in [0, 1] and multiplied by the total gives the count back. |
| ScoreType.Present | cosmdanalyzer/src/main/scoretype.py:421-425 | The scores that are not None, in order; all of them when none is None. |
| ScoreType.PresentEmpty | cosmdanalyzer/src/main/scoretype.py:433-435 | There is no score to average exactly when every score passed was None. |
| ScoreType.PresentSnoc | cosmdanalyzer/src/main/scoretype.py:421-423 | One more score adds to the counted ones exactly when it is not None. |
| ScoreType.SumSnoc | cosmdanalyzer/src/main/scoretype.py:422 | The running sum grows by the added score. |
| ScoreType.MeanScore.constructor | cosmdanalyzer/src/main/scoretype.py:405-413 | A new `MeanScore` has seen no score, and keeps a buffer exactly when `calc_detail` is set. |
| ScoreType.MeanScore.AddScore | cosmdanalyzer/src/main/scoretype.py:415-425 | `add_score` records the score: the sum and count cover the scores that are not None, and the buffer, when kept, holds every score passed. |
| ScoreType.MeanScore.GetResult | cosmdanalyzer/src/main/scoretype.py:427-435 | `get_result` is None exactly when every score passed was None, and otherwise the mean of the scores that are not None. |
| ScoreType.MeanScore.GetDetailResult | cosmdanalyzer/src/main/scoretype.py:437-456 | `get_detail_result` fails exactly when `DetailError` names an error, with that error; otherwise it is None exactly when no score was counted, and else the mean, the sample variance, the smallest, the three quartiles and the largest of the sorted scores. |
| ScoreType.DetailResultOf | cosmdanalyzer/src/main/scoretype.py:446-456 | The same outcome computed from the fields: the count, the sum and the buffer. |
| ScoreType.DetailErrorMeaning | cosmdanalyzer/src/main/scoretype.py:446-456 | No score means no error; no buffer, or a None among the scores, means `TypeError` from sorting; `ValueError` (the `StatisticsError` of `statistics.variance`) exactly for one score; and two or more scores, none of them None, in a buffer, succeed. |
| ScoreType.Summarise | cosmdanalyzer/src/main/scoretype.py:447-456 | Two or more scores give the mean, the sample variance of the sorted scores, their first and last element and their quartiles. |
| ScoreType.SquaredDeviations | cosmdanalyzer/src/main/scoretype.py:449 | The sum of squared deviations is never negative. |
| ScoreType.Variance | cosmdanalyzer/src/main/scoretype.py:449 | The sample variance of two or more scores is never negative. |
| ScoreType.SumConstant | cosmdanalyzer/src/main/scoretype.py:448 | Equal scores sum to their count times the value. |
| ScoreType.NoDeviation | cosmdanalyzer/src/main/scoretype.py:449 | Equal scores do not deviate from their value. |
| ScoreType.ConstantVariance | cosmdanalyzer/src/main/scoretype.py:448-449 | Scores that are all equal have that value as mean and a variance of 0. |
| ScoreType.SortedPercentile | cosmdanalyzer/src/main/scoretype.py:459-475 | `sorted_percentile` raises `IndexError` exactly on empty data. |
| ScoreType.Scaled | cosmdanalyzer/src/main/scoretype.py:468-470 | The position `(n - 1) * per` lies inside the data, at the first element for 0 and at the last for 1. |
| ScoreType.PercentileEnds | cosmdanalyzer/src/main/scoretype.py:459-475 | The percentile at 0 is the first element and at 1 the last. |
| ScoreType.Between | cosmdanalyzer/src/main/scoretype.py:473-475 | A linear interpolation between a and b lies between them. |
| ScoreType.PercentileBounds | cosmdanalyzer/src/main/scoretype.py:459-475 | On ascending data the percentile lies between the smallest and the largest element. |
| ScoreType.PercentileExample | cosmdanalyzer/src/main/scoretype.py:459-475 | The quartiles of 1, 3, 4, 5, 7, 8 are 3.25, 4.5 and 6.5, with ends 1 and 8. |
| ScoreType.FrameScore | cosmdanalyzer/src/main/scoretype.py:102-110 | The frame score of a patch is its protrusion, or 0 for an empty patch, so it lies in [0, 1]. |
| ScoreType.PatchScore | cosmdanalyzer/src/main/scoretype.py:103-109 | One patch's score in `add_frame` is its protrusion with None replaced by 0. |
| ScoreType.ScoreProtrusion.constructor | cosmdanalyzer/src/main/scoretype.py:77-90 | A new `ScoreProtrusion` has one fresh, empty `MeanScore` per patch. |
| ScoreType.ScoreProtrusion.AddFrame | cosmdanalyzer/src/main/scoretype.py:92-110 | `add_frame` adds each patch's frame score to that patch's `MeanScore` and to no other. |
| ScoreType.ScoreProtrusion.GetResult | cosmdanalyzer/src/main/scoretype.py:112-119 | `get_result` gives each patch's mean score, None for a patch without a score. |
| ScoreType.ScoreProtrusion.GetDetailResult | cosmdanalyzer/src/main/scoretype.py:121-130 | `get_detail_result` gives each patch's details in turn, each from a patch whose own `get_detail_result` raises nothing; it stops exactly at the first patch that fails, with that patch's own error. |
| ScoreType.ReportsSnoc | cosmdanalyzer/src/main/scoretype.py:129-130 | One more yielded detail keeps every yielded detail that of its own patch. |
| ScoreType.ReportOf | cosmdanalyzer/src/main/scoretype.py:130 | One patch's `get_detail_result`: its details when it raises nothing, otherwise the error `DetailError` names. |
| FunctionHelpers.DictToFunction | cosmdanalyzer/src/common/function.py:8-16 | The function returns the stored value of each key of the dictionary and raises `KeyError` for any other key. |
| FunctionHelpers.BufferedFunction.constructor | cosmdanalyzer/src/common/function.py:22-24 | A new `BufferdFunction` has stored nothing and has not called its function. |
| FunctionHelpers.BufferedFunction.Call | cosmdanalyzer/src/common/function.py:26-29 | A call returns `func(key)`; only a key not seen before calls `func`, and stored results never change. |
| IteratorHelpers.Deep2Map | cosmdanalyzer/src/common/iterator.py:11-22 | `deep2_map` gives one inner result per outer item, `func` applied to each element in place. |
| IteratorHelpers.LenIterator | cosmdanalyzer/src/common/iterator.py:25-36 | `len_iterator` returns the number of items. |

## Left out

- Files, directories and streams. `trajectory_pdb_stream_filter` and
  `trajectory_pdb_files_filter` (cosmdanalyzer/src/main/input.py:38-64),
  `_io_to_line_iterator` and `_path_to_io_iterator` (input.py:107-116), and
  `SystemInfo` with the directory scan behind `parse_src_dir` (input.py:119-209)
  open and walk files. The model starts from the lines they would produce.
- `LennardJonesCharge.__init__` (cosmdanalyzer/src/chem/charge.py:10-27)
  reads the charge table from a CSV file. The model is given the table. The
  source's behaviour on a CSV without a header row, where the table attribute
  is never set, is not modelled.
- `load_glomacs_charge_from_file` (charge.py:47-64) and
  `calc_atoms_charge_from_lenard_jones_file` / `calc_atoms_charge_from_rtp_file`
  (cosmdanalyzer/src/main/calccharge.py:9-61) only open files and hand their
  contents to the modelled readers.
- Floating point. Every finite `float` is an exact `real`, so rounding is
  not modelled. `float()` does read `inf`, `infinity` and `nan` into the
  `PyFloat` values `Infinity` and `NaN`, and those values reach the charge
  and fpocket readers, but no arithmetic or comparison on them is modelled.
  Python's largest float is kept as the constant `FloatMax`.
- The `_MIN_FLOAT` widening of radii (cosmdanalyzer/src/index/index3d.py:78-79
  and cosmdanalyzer/src/index/index2d.py:18-19) guards `floor(sqrt(r * r))`
  against rounding. With radii given by integer squares and an exact integer
  square root there is nothing to guard, so it is left out.
- `offset_sphere_grid_index_iterator` (index3d.py:131-150) and
  `offset_circle_grid_index_iterator` (index2d.py:70-89) centre the ball on a
  fractional point with float arithmetic. They are not part of this model.
- Expand.ExpandIdxs: the margin of `expand_idxs_float` is a float. The model
  takes its square as an integer, which covers the lattice points the float
  radius reaches but not its rounding.
- The score classes `ScoreSize`, `ScoreConvexity`, `ScoreCompactness`,
  `ScoreChargeDensity` and `ScoreFpocket` (scoretype.py:12-72 and 133-398)
  wrap float formulas over atom positions (volumes, vector norms, areas,
  overlap ratios), as does `_res_to_atom_iterator` (scoretype.py:478-484),
  which only `ScoreSize` uses. They are not part of this model.
- The weighted mean shift `multi_mean_shift` (cosmdanalyzer/src/main/multicluster.py:13-36)
  is a float fixed-point iteration with no termination guarantee. It is not
  part of this model.
- Callables such as distance functions, weight getters, `is_same_node`, atom
  positions and the neighbourhood query of the protrusion score are function
  parameters. Their side effects and exceptions are not modelled. Where a
  proof needs metric axioms for a distance, the lemma requires them.
- Laziness. Each generator is modelled by its fully consumed result. What a
  consumer could observe by interleaving its own work with the generator (the
  `in_cluster` flags while a cluster is still being drawn) is not modelled.
- PyStr.ParseInt, PyStr.ParseFloat: Python's `int()` and `float()` also
  accept the non-ASCII Unicode decimal digits (category Nd); the model reads
  ASCII digits only (`PyStr.IsDigit`), so a number written with other digits
  is a `ValueError` here.
- CalcCharge.CalcResidueAtomsCharge, CalcCharge.ChargeResidue,
  CalcCharge.CalcAtomsCharge, GraphMatch.MatchAll: the success clauses cover a
  relabelling that keeps the order of each atom's neighbour list, so the first
  permutation `match.py` tries at every node is the one that works. A residue
  whose in-residue neighbour order (from the structure) differs from its
  template's (from the rtp bond list) is not covered: success there depends on
  the permutation search (match.py:65) finding an order, and the search keeps
  each child's first successful match (match.py:81-86) without trying its
  alternatives, so with rings it may fail where another assignment exists.
- Charge.DigitOrSpace: `str.isdigit` (charge.py:39) also accepts the
  non-ASCII Unicode digits; the model accepts the ASCII digits only, so an
  atom type with such a digit among its last three characters is read
  differently. White space follows Python's `str.isspace`.
- Object identity. Python elements compared by identity or by `__eq__` are
  values with equality here. The clustering flags kept as attributes of
  wrapped elements are arrays indexed by input position.

## Findings

| source | as written | input that shows it | evidently intended | confidence | as-written member | corrected member |
|---|---|---|---|---|---|---|
| cosmdanalyzer/src/index/index3d.py:212 | `_MAX_BOX`, the box `expand_idxs_float` uses when it is given none, starts at `int(sys.maxsize / 4)` = 2^61 on every axis and spans 2^62, so it does not contain the origin or any index below 2^61 | the set {(0, 0, 0)} with margin 1: the loop does try to grow it, but the ball clipped to the box is empty, since its first axis runs over `range(max(-1, 2^61), min(1, 2^61 + 2^62) + 1)` (index3d.py:101-102), so nothing is added and the expansion is the identity, as it is for every set whose indices lie more than the margin below 2^61 on an axis | a box of the same size centred on the origin, from -2^61 to 2^61 on each axis, so that the default expansion grows the set | not executed | Expand.MaxBoxAddsNothing | Expand.CentredBoxGrows |
