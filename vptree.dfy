/**
 * A vantage-point tree. Each "other" node holds a pivot value; its branch
 * splits the remaining values by their distance to that pivot into a sphere
 * part (not farther than the branch radius) and an other part (not nearer).
 * A sphere node has no pivot of its own: its branch splits the sphere part
 * again by the distance to the enclosing pivot. Searches prune with the
 * triangle inequality and report matches to a collector that models the
 * source's three update objects.
 */
module VpTree {
  import opened Wrappers
  import opened Sorting
  import Liner
  import opened Seqs

  datatype DistanceAndValue<V> = DistanceAndValue(d: real, v: V)

  datatype SphereNode<V> = SphereNode(branch: Option<BranchNodeData<V>>)

  datatype OtherNode<V> = OtherNode(branch: Option<BranchNodeData<V>>, value: V)

  datatype BranchNodeData<V> = BranchNodeData(radius: real, sphereNode: SphereNode<V>, otherNode: OtherNode<V>)

  /** A built tree: the root node (none for an empty input) and its distance. */
  datatype Tree<!V> = Tree(root: Option<OtherNode<V>>, distance: (V, V) -> real)

  /** The properties of a distance that the pruning relies on. */
  ghost predicate Metric<V(!new)>(distance: (V, V) -> real) {
    (forall x :: distance(x, x) == 0.0)
    && (forall x, y :: distance(x, y) == distance(y, x))
    && (forall x, y, z :: distance(x, z) <= distance(x, y) + distance(y, z))
  }

  // ---------------------------------------------------------------- contents

  function OtherValues<V>(n: OtherNode<V>): multiset<V>
    decreases n, 1
  {
    multiset{n.value} + (match n.branch case None => multiset{} case Some(b) => BranchValues(b))
  }

  function SphereValues<V>(n: SphereNode<V>): multiset<V>
    decreases n, 1
  {
    match n.branch case None => multiset{} case Some(b) => BranchValues(b)
  }

  function BranchValues<V>(b: BranchNodeData<V>): multiset<V>
    decreases b, 0
  {
    SphereValues(b.sphereNode) + OtherValues(b.otherNode)
  }

  function TreeValues<V>(t: Tree<V>): multiset<V> {
    match t.root case None => multiset{} case Some(r) => OtherValues(r)
  }

  // ---------------------------------------------------------------- validity

  /** Every branch under `n` separates its parts by the radius around its pivot. */
  ghost predicate ValidOther<V>(distance: (V, V) -> real, n: OtherNode<V>)
    decreases n, 1
  {
    match n.branch case None => true case Some(b) => ValidBranch(distance, n.value, b)
  }

  ghost predicate ValidSphere<V>(distance: (V, V) -> real, pivot: V, n: SphereNode<V>)
    decreases n, 1
  {
    match n.branch case None => true case Some(b) => ValidBranch(distance, pivot, b)
  }

  ghost predicate ValidBranch<V>(distance: (V, V) -> real, pivot: V, b: BranchNodeData<V>)
    decreases b, 0
  {
    (forall e :: e in SphereValues(b.sphereNode) ==> distance(pivot, e) <= b.radius)
    && (forall e :: e in OtherValues(b.otherNode) ==> distance(pivot, e) >= b.radius)
    && ValidSphere(distance, pivot, b.sphereNode)
    && ValidOther(distance, b.otherNode)
  }

  ghost predicate Valid<V>(t: Tree<V>) {
    t.root.Some? ==> ValidOther(t.distance, t.root.value)
  }

  // ---------------------------------------------------------------- construction

  function ValueOf<V>(x: DistanceAndValue<V>): V { x.v }

  /** The values of a run of records, in order. */
  function Vals<V>(s: seq<DistanceAndValue<V>>): (r: seq<V>)
    ensures |r| == |s| && forall i :: 0 <= i < |s| ==> r[i] == s[i].v
  {
    Map(s, ValueOf)
  }

  function KeyD<V>(x: DistanceAndValue<V>): real { x.d }

  /** `int((end - start + 1) / 2) - 1 + start`: the upper median position of a non-empty range. */
  function Mid(start: int, end: int): (m: int)
    requires start < end
    ensures start <= m < end
    ensures m - start == (end - start + 1) / 2 - 1
  {
    (end - start + 1) / 2 - 1 + start
  }

  lemma ValsSplit<V>(s: seq<DistanceAndValue<V>>, lo: nat, mid: nat, hi: nat)
    requires lo <= mid < hi <= |s|
    ensures multiset(Vals(s[lo..hi])) == multiset(Vals(s[lo..mid])) + multiset{s[mid].v} + multiset(Vals(s[mid + 1..hi]))
  {
    assert Vals(s[lo..hi]) == Vals(s[lo..mid]) + [s[mid].v] + Vals(s[mid + 1..hi]);
  }

  lemma ValuesOfSlice<V>(s: seq<DistanceAndValue<V>>, lo: nat, hi: nat, e: V)
    requires lo <= hi <= |s|
    requires e in multiset(Vals(s[lo..hi]))
    ensures exists j :: lo <= j < hi && s[j].v == e
  {
    assert e in Vals(s[lo..hi]);
    var k :| 0 <= k < hi - lo && Vals(s[lo..hi])[k] == e;
    assert s[lo + k].v == e;
  }

  /** Every record of `s` carries its value's distance from `pivot`. */
  ghost predicate DistancesFrom<V>(s: seq<DistanceAndValue<V>>, distance: (V, V) -> real, pivot: V) {
    forall j :: 0 <= j < |s| ==> s[j].d == distance(pivot, s[j].v)
  }

  ghost predicate SortedByDistance<V>(s: seq<DistanceAndValue<V>>) {
    forall i, j :: 0 <= i <= j < |s| ==> s[i].d <= s[j].d
  }

  /** `s[lo..hi]` holds the distances from `pivot`, in ascending order. */
  ghost predicate SortedFrom<V>(s: seq<DistanceAndValue<V>>, lo: nat, hi: nat, distance: (V, V) -> real, pivot: V) {
    lo <= hi <= |s| && DistancesFrom(s[lo..hi], distance, pivot) && SortedByDistance(s[lo..hi])
  }

  /** `t` differs from `s` at most inside `[lo, hi)`. */
  ghost predicate SameOutside<T>(s: seq<T>, t: seq<T>, lo: nat, hi: nat) {
    |s| == |t| && forall i :: 0 <= i < |s| && !(lo <= i < hi) ==> s[i] == t[i]
  }

  lemma SameOutsideSlice<T>(s: seq<T>, t: seq<T>, lo: nat, hi: nat, p: nat, q: nat)
    requires SameOutside(s, t, lo, hi) && p <= q <= |s|
    requires q <= lo || hi <= p
    ensures s[p..q] == t[p..q]
  {
    assert forall i :: p <= i < q ==> s[p..q][i - p] == s[i] && t[p..q][i - p] == t[i];
  }

  lemma SameOutsideJoin<T>(s: seq<T>, t: seq<T>, u: seq<T>, lo: nat, mid: nat, hi: nat)
    requires lo <= mid < hi
    requires SameOutside(s, t, lo, mid) && SameOutside(t, u, mid + 1, hi)
    ensures SameOutside(s, u, lo, hi)
  {
  }

  /** The sorted slice keeps each record's distance from the pivot and its values. */
  lemma SortKeepsDistances<V>(filled: seq<DistanceAndValue<V>>, distance: (V, V) -> real, pivot: V)
    requires DistancesFrom(filled, distance, pivot)
    ensures |SortBy(filled, KeyD)| == |filled|
    ensures DistancesFrom(SortBy(filled, KeyD), distance, pivot)
    ensures SortedByDistance(SortBy(filled, KeyD))
    ensures multiset(Vals(SortBy(filled, KeyD))) == multiset(Vals(filled))
  {
    var sorted := SortBy(filled, KeyD);
    SortByFacts(filled, KeyD);
    MapPermutation(sorted, filled, ValueOf);
    forall j | 0 <= j < |sorted| ensures sorted[j].d == distance(pivot, sorted[j].v) {
      assert sorted[j] in multiset(filled);
      var k :| 0 <= k < |filled| && filled[k] == sorted[j];
    }
    forall i, j | 0 <= i <= j < |sorted| ensures sorted[i].d <= sorted[j].d {
      if i < j {
        assert KeyD(sorted[i]) <= KeyD(sorted[j]);
      }
    }
  }

  /** The loop of `_create_other_node` that overwrites each record's distance. */
  method FillDistances<V>(distance: (V, V) -> real, standard: V, a: array<DistanceAndValue<V>>, start: nat, end: nat)
    requires start <= end <= a.Length
    modifies a
    ensures SameOutside(old(a[..]), a[..], start, end)
    ensures Vals(a[start..end]) == Vals(old(a[start..end]))
    ensures DistancesFrom(a[start..end], distance, standard)
  {
    for i := start to end
      invariant forall j :: 0 <= j < a.Length && !(start <= j < i) ==> a[j] == old(a[j])
      invariant forall j :: start <= j < i ==> a[j] == DistanceAndValue(distance(standard, old(a[j]).v), old(a[j]).v)
    {
      a[i] := DistanceAndValue(distance(standard, a[i].v), a[i].v);
    }
    assert Vals(a[start..end]) == Vals(old(a[start..end]));
  }

  /** `distance_array[start:end] = sorted(distance_array[start:end], key=lambda v: v.d)`. */
  method SortSlice<V>(a: array<DistanceAndValue<V>>, start: nat, end: nat)
    requires start <= end <= a.Length
    modifies a
    ensures SameOutside(old(a[..]), a[..], start, end)
    ensures a[start..end] == SortBy(old(a[start..end]), KeyD)
  {
    var sorted := SortBy(a[start..end], KeyD);
    SortByIsPermutation(a[start..end], KeyD);
    AssignSlice(a, start, end, sorted);
  }

  /** Python's slice assignment `a[start:end] = s` for an `s` of the slice's length. */
  method AssignSlice<T>(a: array<T>, start: nat, end: nat, s: seq<T>)
    requires start <= end <= a.Length && |s| == end - start
    modifies a
    ensures SameOutside(old(a[..]), a[..], start, end)
    ensures a[start..end] == s
  {
    forall j | start <= j < end {
      a[j] := s[j - start];
    }
    assert a[start..end] == s;
  }

  /**
   * `_create_other_node`: recomputes the distances of `a[start..end]` from
   * `standard`, sorts that slice by distance and splits it at `Mid`.
   */
  method CreateOtherNode<V>(distance: (V, V) -> real, standard: V, a: array<DistanceAndValue<V>>, start: nat, end: nat)
    returns (n: OtherNode<V>)
    requires start <= end <= a.Length
    modifies a
    ensures SameOutside(old(a[..]), a[..], start, end)
    ensures n.value == standard && (start == end <==> n.branch.None?)
    ensures OtherValues(n) == multiset{standard} + multiset(Vals(old(a[start..end])))
    ensures ValidOther(distance, n)
    decreases end - start, 1
  {
    if start == end {
      return OtherNode(None, standard);
    }
    ghost var given := a[..];
    FillDistances(distance, standard, a, start, end);
    ghost var filled := a[..];
    SortSlice(a, start, end);
    ghost var sorted := a[..];
    SortKeepsDistances(filled[start..end], distance, standard);
    var b := CreateBranchUnder(distance, standard, a, start, end);
    OtherFacts(given, filled, sorted, a[..], start, end);
    n := OtherNode(Some(b), standard);
  }

  lemma OtherFacts<T>(given: seq<T>, filled: seq<T>, sorted: seq<T>, after: seq<T>, start: nat, end: nat)
    requires SameOutside(given, filled, start, end) && SameOutside(filled, sorted, start, end)
    requires SameOutside(sorted, after, start, end)
    ensures SameOutside(given, after, start, end)
  {
  }

  /**
   * The part shared by `_create_other_node` and `_create_sphere_node`: with
   * `a[start..end]` sorted by distance from `pivot`, builds the branch at the
   * median position.
   */
  method CreateBranchUnder<V>(distance: (V, V) -> real, pivot: V, a: array<DistanceAndValue<V>>, start: nat, end: nat)
    returns (b: BranchNodeData<V>)
    requires start < end <= a.Length
    requires SortedFrom(a[..], start, end, distance, pivot)
    modifies a
    ensures SameOutside(old(a[..]), a[..], start, end)
    ensures BranchValues(b) == multiset(Vals(old(a[..])[start..end]))
    ensures ValidBranch(distance, pivot, b)
    decreases end - start, 0
  {
    var mid := Mid(start, end);
    var m := a[mid];
    ghost var before := a[..];
    SubRange(before, distance, pivot, start, end, mid);
    var sphere := CreateSphereNode(distance, pivot, a, start, mid);
    ghost var between := a[..];
    var other := CreateOtherNode(distance, m.v, a, mid + 1, end);
    SameOutsideSlice(before, between, start, mid, mid + 1, end);
    BranchValuesOf(before, start, mid, end, sphere, other);
    BranchValidOf(before, distance, pivot, start, mid, end, sphere, other);
    SameOutsideJoin(before, between, a[..], start, mid, end);
    b := BranchNodeData(m.d, sphere, other);
  }

  /** The branch built over a sorted slice holds the slice's values. */
  lemma BranchValuesOf<V>(s: seq<DistanceAndValue<V>>, start: nat, mid: nat, end: nat,
                          sphere: SphereNode<V>, other: OtherNode<V>)
    requires start <= mid < end <= |s|
    requires SphereValues(sphere) == multiset(Vals(s[start..mid]))
    requires OtherValues(other) == multiset{s[mid].v} + multiset(Vals(s[mid + 1..end]))
    ensures BranchValues(BranchNodeData(s[mid].d, sphere, other)) == multiset(Vals(s[start..end]))
  {
    ValsSplit(s, start, mid, end);
  }

  /** The branch built over a slice sorted by distance from `pivot` separates its sides at the median distance. */
  lemma BranchValidOf<V>(s: seq<DistanceAndValue<V>>, distance: (V, V) -> real, pivot: V, start: nat, mid: nat, end: nat,
                         sphere: SphereNode<V>, other: OtherNode<V>)
    requires start <= mid < end
    requires SortedFrom(s, start, end, distance, pivot)
    requires SphereValues(sphere) == multiset(Vals(s[start..mid]))
    requires OtherValues(other) == multiset{s[mid].v} + multiset(Vals(s[mid + 1..end]))
    requires ValidSphere(distance, pivot, sphere) && ValidOther(distance, other)
    ensures ValidBranch(distance, pivot, BranchNodeData(s[mid].d, sphere, other))
  {
    SplitFacts(s, distance, pivot, start, mid, end, sphere, other);
  }

  lemma SubRange<V>(s: seq<DistanceAndValue<V>>, distance: (V, V) -> real, pivot: V, lo: nat, hi: nat, mid: nat)
    requires lo <= mid <= hi
    requires SortedFrom(s, lo, hi, distance, pivot)
    ensures SortedFrom(s, lo, mid, distance, pivot)
  {
    assert forall j :: lo <= j < hi ==> s[j] == s[lo..hi][j - lo];
    assert forall j :: lo <= j < mid ==> s[j] == s[lo..mid][j - lo];
  }

  lemma SplitFacts<V>(s: seq<DistanceAndValue<V>>, distance: (V, V) -> real, pivot: V,
                      lo: nat, mid: nat, hi: nat, sphere: SphereNode<V>, other: OtherNode<V>)
    requires lo <= mid < hi <= |s|
    requires DistancesFrom(s[lo..hi], distance, pivot)
    requires SortedByDistance(s[lo..hi])
    requires SphereValues(sphere) == multiset(Vals(s[lo..mid]))
    requires OtherValues(other) == multiset{s[mid].v} + multiset(Vals(s[mid + 1..hi]))
    ensures SphereValues(sphere) + OtherValues(other) == multiset(Vals(s[lo..hi]))
    ensures forall e :: e in SphereValues(sphere) ==> distance(pivot, e) <= s[mid].d
    ensures forall e :: e in OtherValues(other) ==> distance(pivot, e) >= s[mid].d
  {
    ValsSplit(s, lo, mid, hi);
    BelowMid(s, distance, pivot, lo, mid, hi);
    AboveMid(s, distance, pivot, lo, mid, hi);
  }

  lemma BelowMid<V>(s: seq<DistanceAndValue<V>>, distance: (V, V) -> real, pivot: V, lo: nat, mid: nat, hi: nat)
    requires lo <= mid < hi <= |s|
    requires DistancesFrom(s[lo..hi], distance, pivot)
    requires SortedByDistance(s[lo..hi])
    ensures forall e :: e in multiset(Vals(s[lo..mid])) ==> distance(pivot, e) <= s[mid].d
  {
    forall e | e in multiset(Vals(s[lo..mid])) ensures distance(pivot, e) <= s[mid].d {
      ValuesOfSlice(s, lo, mid, e);
      var j :| lo <= j < mid && s[j].v == e;
      assert s[j] == s[lo..hi][j - lo] && s[mid] == s[lo..hi][mid - lo];
    }
  }

  lemma AboveMid<V>(s: seq<DistanceAndValue<V>>, distance: (V, V) -> real, pivot: V, lo: nat, mid: nat, hi: nat)
    requires lo <= mid < hi <= |s|
    requires DistancesFrom(s[lo..hi], distance, pivot)
    requires SortedByDistance(s[lo..hi])
    ensures forall e :: e in multiset{s[mid].v} + multiset(Vals(s[mid + 1..hi])) ==> distance(pivot, e) >= s[mid].d
  {
    var t := s[lo..hi];
    assert s[mid] == t[mid - lo];
    assert t[mid - lo].d == distance(pivot, t[mid - lo].v);
    forall e | e in multiset{s[mid].v} + multiset(Vals(s[mid + 1..hi])) ensures distance(pivot, e) >= s[mid].d {
      if e != s[mid].v {
        assert e in multiset(Vals(s[mid + 1..hi]));
        ValuesOfSlice(s, mid + 1, hi, e);
        var j :| mid + 1 <= j < hi && s[j].v == e;
        assert s[j] == t[j - lo];
        assert t[mid - lo].d <= t[j - lo].d && t[j - lo].d == distance(pivot, t[j - lo].v);
      }
    }
  }

  /** `_create_sphere_node`: splits an already sorted slice without recomputing distances. */
  method CreateSphereNode<V>(distance: (V, V) -> real, standard: V, a: array<DistanceAndValue<V>>, start: nat, end: nat)
    returns (s: SphereNode<V>)
    requires start <= end <= a.Length
    requires SortedFrom(a[..], start, end, distance, standard)
    modifies a
    ensures SameOutside(old(a[..]), a[..], start, end)
    ensures (start == end <==> s.branch.None?)
    ensures SphereValues(s) == multiset(Vals(old(a[start..end])))
    ensures ValidSphere(distance, standard, s)
    decreases end - start, 1
  {
    if start == end {
      return SphereNode(None);
    }
    var b := CreateBranchUnder(distance, standard, a, start, end);
    s := SphereNode(Some(b));
  }

  /** `VpTree.__init__`: the first value is the root pivot, the rest are split under it. */
  method NewTree<V>(values: seq<V>, distance: (V, V) -> real) returns (t: Tree<V>)
    ensures t.distance == distance
    ensures t.root.None? <==> values == []
    ensures t.root.Some? ==> t.root.value.value == values[0]
    ensures TreeValues(t) == multiset(values)
    ensures Valid(t)
  {
    if values == [] {
      return Tree(None, distance);
    }
    var a := new DistanceAndValue<V>[|values| - 1](i requires 0 <= i < |values| - 1 => DistanceAndValue(0.0, values[i + 1]));
    assert Vals(a[..]) == values[1..];
    assert a[0..a.Length] == a[..];
    var root := CreateOtherNode(distance, values[0], a, 0, a.Length);
    assert values == [values[0]] + values[1..];
    t := Tree(Some(root), distance);
  }

  // ---------------------------------------------------------------- search

  /**
   * The state of the three update objects of the source: the last value the
   * nearest-neighbour search accepted, the list of (distance, value) pairs the
   * neighbours search collected, and the flag of the existence search.
   */
  datatype Collector<V> = NearestCollector(found: Option<V>)
                        | NeighborCollector(ret: seq<(real, V)>)
                        | ExistsCollector(hit: bool)

  /** An update object's `__call__`: records `v` at distance `d` and returns the new threshold. */
  function Update<V>(c: Collector<V>, threshold: real, d: real, v: V): (r: (real, Collector<V>))
    ensures r.1.NearestCollector? == c.NearestCollector? && r.1.NeighborCollector? == c.NeighborCollector?
    ensures c.NearestCollector? ==> r == (d, NearestCollector(Some(v)))
    ensures c.NeighborCollector? ==> r == (threshold, NeighborCollector(c.ret + [(d, v)]))
    ensures c.ExistsCollector? ==> r == (0.0, ExistsCollector(true))
  {
    match c
    case NearestCollector(_) => (d, NearestCollector(Some(v)))
    case NeighborCollector(ret) => (threshold, NeighborCollector(ret + [(d, v)]))
    case ExistsCollector(_) => (0.0, ExistsCollector(true))
  }

  /** `_search_other_node`: visits the pivot, then the branch under it. */
  function SearchOther<V>(distance: (V, V) -> real, query: V, n: OtherNode<V>, threshold: real, c: Collector<V>)
    : (real, Collector<V>)
    decreases n, 1
  {
    var d := distance(query, n.value);
    var (t, c') := if d < threshold then Update(c, threshold, d, n.value) else (threshold, c);
    match n.branch
    case None => (t, c')
    case Some(b) => SearchBranch(distance, query, b, d, t, c')
  }

  /** `_search_sphere_node`: a sphere node has no pivot of its own. */
  function SearchSphere<V>(distance: (V, V) -> real, query: V, n: SphereNode<V>, standardD: real, threshold: real,
                           c: Collector<V>): (real, Collector<V>)
    decreases n, 1
  {
    match n.branch
    case None => (threshold, c)
    case Some(b) => SearchBranch(distance, query, b, standardD, threshold, c)
  }

  /**
   * `_search_branch_node`: searches the side of the radius the query lies on
   * first, and the other side only when the threshold ball reaches across it.
   */
  function SearchBranch<V>(distance: (V, V) -> real, query: V, b: BranchNodeData<V>, standardD: real, threshold: real,
                           c: Collector<V>): (real, Collector<V>)
    decreases b, 0
  {
    if standardD < b.radius then
      var (t, c') := SearchSphere(distance, query, b.sphereNode, standardD, threshold, c);
      if standardD + t >= b.radius then SearchOther(distance, query, b.otherNode, t, c') else (t, c')
    else
      var (t, c') := SearchOther(distance, query, b.otherNode, threshold, c);
      if standardD < t + b.radius then SearchSphere(distance, query, b.sphereNode, standardD, t, c') else (t, c')
  }

  /** `VpTree.nearest_neighbor`; an absent threshold is `sys.float_info.max`. */
  function NearestNeighbor<V>(t: Tree<V>, query: V, threshold: Option<real>): (real, Option<V>) {
    var thr := if threshold.None? then Liner.FloatMax else threshold.value;
    match t.root
    case None => (thr, None)
    case Some(r) =>
      var (d, c) := SearchOther(t.distance, query, r, thr, NearestCollector(None));
      (d, if c.NearestCollector? then c.found else None)
  }

  /** `VpTree.neighbors`: the (distance, value) pairs closer than `threshold`, in visiting order. */
  function Neighbors<V>(t: Tree<V>, query: V, threshold: real): seq<(real, V)> {
    match t.root
    case None => []
    case Some(r) =>
      var (_, c) := SearchOther(t.distance, query, r, threshold, NeighborCollector([]));
      if c.NeighborCollector? then c.ret else []
  }

  /** `VpTree.exists_neighbor`. */
  function ExistsNeighbor<V>(t: Tree<V>, query: V, threshold: real): bool {
    match t.root
    case None => false
    case Some(r) =>
      var (_, c) := SearchOther(t.distance, query, r, threshold, ExistsCollector(false));
      c.ExistsCollector? && c.hit
  }

  // ---------------------------------------------------------------- pruning

  lemma NonNegative<V(!new)>(distance: (V, V) -> real, x: V, y: V)
    requires Metric(distance)
    ensures distance(x, y) >= 0.0
  {
    assert distance(x, x) <= distance(x, y) + distance(y, x);
  }

  /** A value of the sphere part is at least `standardD - radius` from the query. */
  lemma SphereLowerBound<V(!new)>(distance: (V, V) -> real, query: V, pivot: V, b: BranchNodeData<V>, e: V)
    requires Metric(distance) && ValidBranch(distance, pivot, b)
    requires e in SphereValues(b.sphereNode)
    ensures distance(query, e) >= distance(query, pivot) - b.radius
  {
    assert distance(query, pivot) <= distance(query, e) + distance(e, pivot);
    assert distance(e, pivot) == distance(pivot, e);
  }

  /** A value of the other part is at least `radius - standardD` from the query. */
  lemma OtherLowerBound<V(!new)>(distance: (V, V) -> real, query: V, pivot: V, b: BranchNodeData<V>, e: V)
    requires Metric(distance) && ValidBranch(distance, pivot, b)
    requires e in OtherValues(b.otherNode)
    ensures distance(query, e) >= b.radius - distance(query, pivot)
  {
    assert distance(pivot, e) <= distance(pivot, query) + distance(query, e);
    assert distance(pivot, query) == distance(query, pivot);
  }

  // ---------------------------------------------------------------- outcomes

  function Second<V>(p: (real, V)): V { p.1 }

  /** The values of a list of (distance, value) pairs, with repetition. */
  function Hits<V>(s: seq<(real, V)>): multiset<V> {
    multiset(Map(s, Second))
  }

  /**
   * What a search over `values` from `threshold` and `c` leaves behind in
   * `r`. Nearest: the threshold only shrinks, it shrinks exactly when a
   * value at that distance was recorded, and no value is nearer. Neighbors:
   * the threshold stays, and the pairs appended are the values closer than
   * it, each with its own distance, as often as they occur. Exists: either
   * nothing changed, or a value closer than the threshold was found and the
   * threshold dropped to zero; no value is nearer than the final threshold.
   */
  ghost predicate Outcome<V(!new)>(distance: (V, V) -> real, query: V, values: multiset<V>, threshold: real,
                             c: Collector<V>, r: (real, Collector<V>))
  {
    match c
    case NearestCollector(_) =>
      r.1.NearestCollector? && r.0 <= threshold
      && ((r.0 == threshold && r.1 == c)
          || (r.0 < threshold && r.1.found.Some? && r.1.found.value in values
              && distance(query, r.1.found.value) == r.0))
      && forall e :: e in values ==> distance(query, e) >= r.0
    case NeighborCollector(ret) =>
      r.1.NeighborCollector? && r.0 == threshold
      && |ret| <= |r.1.ret| && r.1.ret[..|ret|] == ret
      && (forall i :: |ret| <= i < |r.1.ret| ==> r.1.ret[i].0 == distance(query, r.1.ret[i].1))
      && forall x :: Hits(r.1.ret[|ret|..])[x] == if distance(query, x) < threshold then values[x] else 0
    case ExistsCollector(_) =>
      r.1.ExistsCollector? && r.0 <= threshold
      && ((r.0 == threshold && r.1 == c)
          || (r.0 == 0.0 && r.1.hit && exists e :: e in values && distance(query, e) < threshold))
      && forall e :: e in values ==> distance(query, e) >= r.0
  }

  /** The visit of one pivot `v` in `_search_other_node`. */
  lemma StepSound<V(!new)>(distance: (V, V) -> real, query: V, v: V, threshold: real, c: Collector<V>)
    requires Metric(distance)
    ensures Outcome(distance, query, multiset{v}, threshold, c,
                    if distance(query, v) < threshold then Update(c, threshold, distance(query, v), v) else (threshold, c))
  {
    var d := distance(query, v);
    NonNegative(distance, query, v);
    if c.NeighborCollector? {
      var r := if d < threshold then Update(c, threshold, d, v) else (threshold, c);
      if d < threshold {
        assert r.1.ret[|c.ret|..] == [(d, v)];
      } else {
        assert r.1.ret[|c.ret|..] == [];
      }
    }
  }

  /** Two searches in a row make one search over both value sets. */
  lemma Compose<V(!new)>(distance: (V, V) -> real, query: V, a: multiset<V>, b: multiset<V>, threshold: real,
                   c: Collector<V>, r1: (real, Collector<V>), r2: (real, Collector<V>))
    requires Outcome(distance, query, a, threshold, c, r1)
    requires Outcome(distance, query, b, r1.0, r1.1, r2)
    ensures Outcome(distance, query, a + b, threshold, c, r2)
  {
    if c.NeighborCollector? {
      ComposeNeighbors(distance, query, a, b, threshold, c.ret, r1.1.ret, r2.1.ret);
    }
  }

  lemma ComposeNeighbors<V(!new)>(distance: (V, V) -> real, query: V, a: multiset<V>, b: multiset<V>, threshold: real,
                            s0: seq<(real, V)>, s1: seq<(real, V)>, s2: seq<(real, V)>)
    requires |s0| <= |s1| <= |s2| && s1[..|s0|] == s0 && s2[..|s1|] == s1
    requires forall i :: |s0| <= i < |s1| ==> s1[i].0 == distance(query, s1[i].1)
    requires forall i :: |s1| <= i < |s2| ==> s2[i].0 == distance(query, s2[i].1)
    requires forall x :: Hits(s1[|s0|..])[x] == if distance(query, x) < threshold then a[x] else 0
    requires forall x :: Hits(s2[|s1|..])[x] == if distance(query, x) < threshold then b[x] else 0
    ensures s2[..|s0|] == s0
    ensures forall i :: |s0| <= i < |s2| ==> s2[i].0 == distance(query, s2[i].1)
    ensures forall x :: Hits(s2[|s0|..])[x] == if distance(query, x) < threshold then (a + b)[x] else 0
  {
    PrefixAgree(s2, s1, |s0|, |s1|);
    assert s2[|s0|..] == s1[|s0|..] + s2[|s1|..];
    MapConcat(s1[|s0|..], s2[|s1|..], Second);
    forall i | |s0| <= i < |s2| ensures s2[i].0 == distance(query, s2[i].1) {
      if i < |s1| {
        assert s2[i] == s2[..|s1|][i];
      }
    }
  }

  /** A search that skipped `b` because none of its values is nearer than the threshold it ended with. */
  lemma Prune<V(!new)>(distance: (V, V) -> real, query: V, a: multiset<V>, b: multiset<V>, all: multiset<V>, threshold: real,
                 c: Collector<V>, r: (real, Collector<V>))
    requires Outcome(distance, query, a, threshold, c, r)
    requires forall e :: e in b ==> distance(query, e) >= r.0
    requires all == a + b
    ensures Outcome(distance, query, all, threshold, c, r)
  {
    if c.NeighborCollector? {
      forall x ensures Hits(r.1.ret[|c.ret|..])[x] == if distance(query, x) < threshold then all[x] else 0 {
        if distance(query, x) < threshold {
          assert x !in b;
        }
      }
    }
  }

  /** `_search_other_node` is sound for every collector. */
  lemma {:induction false} SearchOtherSound<V(!new)>(distance: (V, V) -> real, query: V, n: OtherNode<V>,
                                                     threshold: real, c: Collector<V>)
    requires Metric(distance) && ValidOther(distance, n)
    ensures Outcome(distance, query, OtherValues(n), threshold, c, SearchOther(distance, query, n, threshold, c))
    decreases n, 1
  {
    var d := distance(query, n.value);
    var step := if d < threshold then Update(c, threshold, d, n.value) else (threshold, c);
    StepSound(distance, query, n.value, threshold, c);
    match n.branch {
      case None =>
      case Some(b) =>
        SearchBranchSound(distance, query, n.value, b, d, step.0, step.1);
        Compose(distance, query, multiset{n.value}, BranchValues(b), threshold, c, step,
                SearchBranch(distance, query, b, d, step.0, step.1));
    }
  }

  lemma {:induction false} SearchSphereSound<V(!new)>(distance: (V, V) -> real, query: V, pivot: V, n: SphereNode<V>,
                                                      standardD: real, threshold: real, c: Collector<V>)
    requires Metric(distance) && ValidSphere(distance, pivot, n) && standardD == distance(query, pivot)
    ensures Outcome(distance, query, SphereValues(n), threshold, c,
                    SearchSphere(distance, query, n, standardD, threshold, c))
    decreases n, 1
  {
    match n.branch {
      case None =>
        if c.NeighborCollector? {
          assert c.ret[|c.ret|..] == [];
        }
      case Some(b) =>
        SearchBranchSound(distance, query, pivot, b, standardD, threshold, c);
    }
  }

  /** `_search_branch_node` is sound: the triangle inequality justifies each skipped side. */
  lemma {:induction false} SearchBranchSound<V(!new)>(distance: (V, V) -> real, query: V, pivot: V,
                                                      b: BranchNodeData<V>, standardD: real, threshold: real,
                                                      c: Collector<V>)
    requires Metric(distance) && ValidBranch(distance, pivot, b) && standardD == distance(query, pivot)
    ensures Outcome(distance, query, BranchValues(b), threshold, c,
                    SearchBranch(distance, query, b, standardD, threshold, c))
    decreases b, 2
  {
    if standardD < b.radius {
      SphereFirstSound(distance, query, pivot, b, standardD, threshold, c);
    } else {
      OtherFirstSound(distance, query, pivot, b, standardD, threshold, c);
    }
  }

  /** The query lies inside the radius: the sphere side first, the other side when the ball reaches it. */
  lemma {:induction false} SphereFirstSound<V(!new)>(distance: (V, V) -> real, query: V, pivot: V,
                                                     b: BranchNodeData<V>, standardD: real, threshold: real,
                                                     c: Collector<V>)
    requires Metric(distance) && ValidBranch(distance, pivot, b) && standardD == distance(query, pivot)
    requires standardD < b.radius
    ensures Outcome(distance, query, BranchValues(b), threshold, c,
                    SearchBranch(distance, query, b, standardD, threshold, c))
    decreases b, 1
  {
    var r := SearchBranch(distance, query, b, standardD, threshold, c);
    var r1 := SearchSphere(distance, query, b.sphereNode, standardD, threshold, c);
    SearchSphereSound(distance, query, pivot, b.sphereNode, standardD, threshold, c);
    if standardD + r1.0 >= b.radius {
      SphereThenOther(distance, query, pivot, b, threshold, c, r1, r);
    } else {
      SkipOther(distance, query, pivot, b, threshold, c, r1, r);
    }
  }

  /** After the sphere side, the search of the other side completes a search of the whole branch. */
  lemma {:induction false} SphereThenOther<V(!new)>(distance: (V, V) -> real, query: V, pivot: V,
                                                    b: BranchNodeData<V>, threshold: real,
                                                    c: Collector<V>, r1: (real, Collector<V>), r: (real, Collector<V>))
    requires Metric(distance) && ValidBranch(distance, pivot, b)
    requires Outcome(distance, query, SphereValues(b.sphereNode), threshold, c, r1)
    requires r == SearchOther(distance, query, b.otherNode, r1.0, r1.1)
    ensures Outcome(distance, query, BranchValues(b), threshold, c, r)
    decreases b, 0
  {
    SearchOtherSound(distance, query, b.otherNode, r1.0, r1.1);
    Compose(distance, query, SphereValues(b.sphereNode), OtherValues(b.otherNode), threshold, c, r1, r);
  }

  /** The query lies outside the radius: the other side first, the sphere side when the ball reaches it. */
  lemma {:induction false} OtherFirstSound<V(!new)>(distance: (V, V) -> real, query: V, pivot: V,
                                                    b: BranchNodeData<V>, standardD: real, threshold: real,
                                                    c: Collector<V>)
    requires Metric(distance) && ValidBranch(distance, pivot, b) && standardD == distance(query, pivot)
    requires standardD >= b.radius
    ensures Outcome(distance, query, BranchValues(b), threshold, c,
                    SearchBranch(distance, query, b, standardD, threshold, c))
    decreases b, 1
  {
    var r := SearchBranch(distance, query, b, standardD, threshold, c);
    var r1 := SearchOther(distance, query, b.otherNode, threshold, c);
    SearchOtherSound(distance, query, b.otherNode, threshold, c);
    if standardD < r1.0 + b.radius {
      OtherThenSphere(distance, query, pivot, b, standardD, threshold, c, r1, r);
    } else {
      SkipSphere(distance, query, pivot, b, threshold, c, r1, r);
    }
  }

  /** After the other side, the search of the sphere side completes a search of the whole branch. */
  lemma {:induction false} OtherThenSphere<V(!new)>(distance: (V, V) -> real, query: V, pivot: V,
                                                    b: BranchNodeData<V>, standardD: real, threshold: real,
                                                    c: Collector<V>, r1: (real, Collector<V>), r: (real, Collector<V>))
    requires Metric(distance) && ValidBranch(distance, pivot, b) && standardD == distance(query, pivot)
    requires Outcome(distance, query, OtherValues(b.otherNode), threshold, c, r1)
    requires r == SearchSphere(distance, query, b.sphereNode, standardD, r1.0, r1.1)
    ensures Outcome(distance, query, BranchValues(b), threshold, c, r)
    decreases b, 0
  {
    SearchSphereSound(distance, query, pivot, b.sphereNode, standardD, r1.0, r1.1);
    assert OtherValues(b.otherNode) + SphereValues(b.sphereNode) == BranchValues(b);
    Compose(distance, query, OtherValues(b.otherNode), SphereValues(b.sphereNode), threshold, c, r1, r);
  }

  /** Skipping the other side is sound when the threshold ball lies inside the radius. */
  lemma SkipOther<V(!new)>(distance: (V, V) -> real, query: V, pivot: V, b: BranchNodeData<V>, threshold: real,
                           c: Collector<V>, r1: (real, Collector<V>), r: (real, Collector<V>))
    requires Metric(distance) && ValidBranch(distance, pivot, b)
    requires Outcome(distance, query, SphereValues(b.sphereNode), threshold, c, r1)
    requires distance(query, pivot) + r1.0 < b.radius && r == r1
    ensures Outcome(distance, query, BranchValues(b), threshold, c, r)
  {
    forall e | e in OtherValues(b.otherNode) ensures distance(query, e) >= r1.0 {
      OtherLowerBound(distance, query, pivot, b, e);
    }
    Prune(distance, query, SphereValues(b.sphereNode), OtherValues(b.otherNode), BranchValues(b), threshold, c, r);
  }

  /** Skipping the sphere side is sound when the threshold ball lies outside the radius. */
  lemma SkipSphere<V(!new)>(distance: (V, V) -> real, query: V, pivot: V, b: BranchNodeData<V>, threshold: real,
                            c: Collector<V>, r1: (real, Collector<V>), r: (real, Collector<V>))
    requires Metric(distance) && ValidBranch(distance, pivot, b)
    requires Outcome(distance, query, OtherValues(b.otherNode), threshold, c, r1)
    requires distance(query, pivot) >= r1.0 + b.radius && r == r1
    ensures Outcome(distance, query, BranchValues(b), threshold, c, r)
  {
    forall e | e in SphereValues(b.sphereNode) ensures distance(query, e) >= r1.0 {
      SphereLowerBound(distance, query, pivot, b, e);
    }
    assert OtherValues(b.otherNode) + SphereValues(b.sphereNode) == BranchValues(b);
    Prune(distance, query, OtherValues(b.otherNode), SphereValues(b.sphereNode), BranchValues(b), threshold, c, r);
  }

  // ---------------------------------------------------------------- public searches

  /**
   * `nearest_neighbor` returns a distance no greater than the threshold and
   * no greater than any value's distance; it returns a value exactly when
   * that distance is below the threshold, and then that value is at that
   * distance; otherwise it returns the threshold itself.
   */
  lemma NearestNeighborCorrect<V(!new)>(t: Tree<V>, query: V, threshold: Option<real>)
    requires Metric(t.distance) && Valid(t)
    ensures var thr := if threshold.None? then Liner.FloatMax else threshold.value;
            var (d, v) := NearestNeighbor(t, query, threshold);
            d <= thr
            && (forall e :: e in TreeValues(t) ==> t.distance(query, e) >= d)
            && ((v.None? && d == thr)
                || (v.Some? && v.value in TreeValues(t) && t.distance(query, v.value) == d && d < thr))
  {
    if t.root.Some? {
      var thr := if threshold.None? then Liner.FloatMax else threshold.value;
      SearchOtherSound(t.distance, query, t.root.value, thr, NearestCollector(None));
    }
  }

  /**
   * `neighbors` returns each value closer than the threshold as often as the
   * tree holds it, paired with its distance, and nothing else.
   */
  lemma NeighborsCorrect<V(!new)>(t: Tree<V>, query: V, threshold: real)
    requires Metric(t.distance) && Valid(t)
    ensures var r := Neighbors(t, query, threshold);
            (forall i :: 0 <= i < |r| ==> r[i].0 == t.distance(query, r[i].1))
            && forall x :: Hits(r)[x] == if t.distance(query, x) < threshold then TreeValues(t)[x] else 0
  {
    if t.root.Some? {
      SearchOtherSound(t.distance, query, t.root.value, threshold, NeighborCollector([]));
      FromEmpty(t.distance, query, TreeValues(t), threshold,
                SearchOther(t.distance, query, t.root.value, threshold, NeighborCollector([])));
    }
  }

  lemma FromEmpty<V(!new)>(distance: (V, V) -> real, query: V, values: multiset<V>, threshold: real,
                           r: (real, Collector<V>))
    requires Outcome(distance, query, values, threshold, NeighborCollector([]), r)
    ensures r.1.NeighborCollector?
    ensures forall i :: 0 <= i < |r.1.ret| ==> r.1.ret[i].0 == distance(query, r.1.ret[i].1)
    ensures forall x :: Hits(r.1.ret)[x] == if distance(query, x) < threshold then values[x] else 0
  {
    assert r.1.ret[0..] == r.1.ret;
  }

  /** `exists_neighbor` holds exactly when some value is closer than the threshold. */
  lemma ExistsNeighborCorrect<V(!new)>(t: Tree<V>, query: V, threshold: real)
    requires Metric(t.distance) && Valid(t)
    ensures ExistsNeighbor(t, query, threshold) <==> exists e :: e in TreeValues(t) && t.distance(query, e) < threshold
  {
    if t.root.Some? {
      SearchOtherSound(t.distance, query, t.root.value, threshold, ExistsCollector(false));
    }
  }

  /**
   * The VP tree built from `values` finds the same nearest distance as the
   * linear scan of `liner.py`.
   */
  lemma NearestMatchesLinear<V(!new)>(values: seq<V>, t: Tree<V>, query: V)
    requires Metric(t.distance) && Valid(t) && TreeValues(t) == multiset(values)
    ensures NearestNeighbor(t, query, None).0 == Liner.NearestDistance(values, t.distance, query)
  {
    NearestNeighborCorrect(t, query, None);
    var (d, v) := NearestNeighbor(t, query, None);
    forall i | 0 <= i < |values| ensures d <= t.distance(query, values[i]) {
      assert values[i] in multiset(values);
    }
    if v.Some? {
      assert v.value in values;
      var i :| 0 <= i < |values| && values[i] == v.value;
    }
    Liner.NearestDistanceUnique(values, t.distance, query, d);
  }
}
