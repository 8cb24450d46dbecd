/**
 * Backtracking graph matching (`graph/match.py`).
 *
 * Graph 0 is explored from `node0`; `same_node` maps explored graph-0 nodes
 * to graph-1 nodes and `searched1` holds the graph-1 nodes already used.
 * For each node the neighbour list of its partner is tried in every order
 * (`itertools.permutations`), zipped with its own neighbour list, and every
 * failed attempt removes again what it added. The dictionary and the set that
 * the source shares between the recursive calls are threaded through the
 * methods here as in- and out-parameters.
 */
module GraphMatch {
  import opened Wrappers
  import opened Seqs

  // ---------------------------------------------------------------- permutations

  function Without<T>(s: seq<T>, i: nat): (r: seq<T>)
    requires i < |s|
    ensures |r| == |s| - 1
  {
    s[..i] + s[i + 1..]
  }

  function Prefixed<T>(x: T, ps: seq<seq<T>>): seq<seq<T>> {
    Map(ps, p => [x] + p)
  }

  /**
   * `itertools.permutations(s)`: the rearrangements of the positions of `s`
   * in lexicographic order of the positions.
   */
  function Permutations<T>(s: seq<T>): seq<seq<T>>
    decreases |s|, |s| + 1
  {
    if s == [] then [[]] else PermutationsFrom(s, 0)
  }

  /** The permutations of `s` that start with one of `s[i..]`. */
  function PermutationsFrom<T>(s: seq<T>, i: nat): seq<seq<T>>
    requires i <= |s|
    decreases |s|, |s| - i
  {
    if i == |s| then [] else Prefixed(s[i], Permutations(Without(s, i))) + PermutationsFrom(s, i + 1)
  }

  /** Every permutation is a rearrangement of `s`. */
  lemma {:induction false} PermutationsPermute<T>(s: seq<T>, p: seq<T>)
    requires p in Permutations(s)
    ensures multiset(p) == multiset(s)
    decreases |s|, |s| + 1
  {
    if s != [] {
      PermutationsFromPermute(s, 0, p);
    }
  }

  lemma {:induction false} PermutationsFromPermute<T>(s: seq<T>, i: nat, p: seq<T>)
    requires i <= |s| && p in PermutationsFrom(s, i)
    ensures multiset(p) == multiset(s)
    decreases |s|, |s| - i
  {
    if i < |s| {
      var w := Without(s, i);
      var ps := Permutations(w);
      var pre := Prefixed(s[i], ps);
      assert PermutationsFrom(s, i) == pre + PermutationsFrom(s, i + 1);
      if p in pre {
        var k :| 0 <= k < |ps| && pre[k] == p;
        PermutationsPermute(w, ps[k]);
        RemovedOne(s, i);
      } else {
        PermutationsFromPermute(s, i + 1, p);
      }
    }
  }

  /** Putting back the element `Without` removed restores the multiset. */
  lemma RemovedOne<T>(s: seq<T>, i: nat)
    requires i < |s|
    ensures multiset([s[i]] + Without(s, i)) == multiset(s)
  {
    assert s == s[..i] + [s[i]] + s[i + 1..];
  }

  /** The first permutation is `s` itself. */
  lemma {:induction false} FirstPermutation<T>(s: seq<T>)
    ensures Permutations(s) != [] && Permutations(s)[0] == s
    decreases |s|
  {
    if s != [] {
      var w := Without(s, 0);
      assert w == s[1..];
      FirstPermutation(w);
      var pre := Prefixed(s[0], Permutations(w));
      assert PermutationsFrom(s, 0) == pre + PermutationsFrom(s, 1);
      assert pre[0] == [s[0]] + w;
      assert [s[0]] + s[1..] == s;
    }
  }

  // ---------------------------------------------------------------- matching state

  /** Graph 1 is finite: `U` holds every node the search can reach. */
  ghost predicate ClosedUnder<N1>(U: set<N1>, edge1: N1 -> seq<N1>) {
    forall n :: n in U ==> Elements(edge1(n)) <= U
  }

  ghost predicate Injective<N0, N1>(m: map<N0, N1>) {
    forall a, b :: a in m && b in m && a != b ==> m[a] != m[b]
  }

  /** `searched1` is the set of used graph-1 nodes, used once each, and every pair is accepted by `is_same_node`. */
  ghost predicate Consistent<N0, N1>(m: map<N0, N1>, searched: set<N1>, isSame: (N0, N1) -> bool) {
    m.Values == searched && Injective(m) && forall a :: a in m ==> isSame(a, m[a])
  }

  /** `m'` keeps every entry of `m`. */
  ghost predicate Extends<N0, N1>(m: map<N0, N1>, m': map<N0, N1>) {
    forall a :: a in m ==> a in m' && m'[a] == m[a]
  }

  /** Every neighbour of `x` that `zip` pairs up is mapped to a neighbour of the partner of `x`. */
  ghost predicate Covers<N0, N1>(m: map<N0, N1>, edge0: N0 -> seq<N0>, edge1: N1 -> seq<N1>, x: N0) {
    x in m && forall i :: 0 <= i < |edge0(x)| && i < |edge1(m[x])| ==> edge0(x)[i] in m && m[edge0(x)[i]] in edge1(m[x])
  }

  /** The state `(m, s)` is `(m0, s0)` plus new pairs whose keys are `c0` and whose values are `c1`. */
  ghost predicate Grown<N0, N1>(m0: map<N0, N1>, s0: set<N1>, m: map<N0, N1>, s: set<N1>, c0: set<N0>, c1: set<N1>) {
    Extends(m0, m) && m.Keys == m0.Keys + c0 && c0 !! m0.Keys && s == s0 + c1 && c1 !! s0
  }

  lemma GrownTrans<N0, N1>(m0: map<N0, N1>, s0: set<N1>, m1: map<N0, N1>, s1: set<N1>, c0: set<N0>, c1: set<N1>,
                           m2: map<N0, N1>, s2: set<N1>, d0: set<N0>, d1: set<N1>)
    requires Grown(m0, s0, m1, s1, c0, c1) && Grown(m1, s1, m2, s2, d0, d1)
    ensures Grown(m0, s0, m2, s2, c0 + d0, c1 + d1)
  {
  }

  /** The first `k` zipped neighbours are mapped to their places in `perm`. */
  ghost predicate Zipped<N0, N1>(neg0: seq<N0>, perm: seq<N1>, m: map<N0, N1>, k: nat) {
    k <= |neg0| && k <= |perm| && forall j :: 0 <= j < k ==> neg0[j] in m && m[neg0[j]] == perm[j]
  }

  lemma ZippedExtends<N0, N1>(neg0: seq<N0>, perm: seq<N1>, m: map<N0, N1>, m': map<N0, N1>, k: nat)
    requires Zipped(neg0, perm, m, k) && Extends(m, m')
    ensures Zipped(neg0, perm, m', k)
  {
  }

  lemma ZippedNext<N0, N1>(neg0: seq<N0>, perm: seq<N1>, m: map<N0, N1>, k: nat)
    requires Zipped(neg0, perm, m, k) && k < |neg0| && k < |perm| && neg0[k] in m && m[neg0[k]] == perm[k]
    ensures Zipped(neg0, perm, m, k + 1)
  {
  }

  /** Every node of `xs` has its zipped neighbours mapped into the neighbours of its partner. */
  ghost predicate AllCover<N0, N1>(m: map<N0, N1>, edge0: N0 -> seq<N0>, edge1: N1 -> seq<N1>, xs: set<N0>) {
    forall x :: x in xs ==> Covers(m, edge0, edge1, x)
  }

  lemma CoversExtends<N0, N1>(m: map<N0, N1>, m': map<N0, N1>, edge0: N0 -> seq<N0>, edge1: N1 -> seq<N1>, xs: set<N0>)
    requires Extends(m, m') && AllCover(m, edge0, edge1, xs)
    ensures AllCover(m', edge0, edge1, xs)
  {
  }

  /** Adding a pair with an unused graph-1 node that `is_same_node` accepts keeps the state consistent. */
  lemma AddPair<N0, N1>(m: map<N0, N1>, searched: set<N1>, isSame: (N0, N1) -> bool, n0: N0, n1: N1)
    requires Consistent(m, searched, isSame) && n0 !in m && n1 !in searched && isSame(n0, n1)
    ensures Consistent(m[n0 := n1], searched + {n1}, isSame) && Grown(m, searched, m[n0 := n1], searched + {n1}, {n0}, {n1})
  {
    var m' := m[n0 := n1];
    assert m'.Values == m.Values + {n1} by {
      forall v | v in m'.Values ensures v in m.Values + {n1} {
        var a :| a in m' && m'[a] == v;
        if a != n0 {
          assert a in m && m[a] == v;
        }
      }
      forall v | v in m.Values ensures v in m'.Values {
        var a :| a in m && m[a] == v;
        assert m'[a] == v;
      }
      assert m'[n0] == n1;
    }
  }

  /** Removing what an attempt added gives back the state before it. */
  lemma Restored<N0, N1>(m0: map<N0, N1>, s0: set<N1>, m: map<N0, N1>, s: set<N1>, child0: set<N0>, child1: set<N1>)
    requires Grown(m0, s0, m, s, child0, child1)
    ensures m - child0 == m0 && s - child1 == s0
  {
  }

  /** `for n0 in child_same0: same_node.pop(n0)`. */
  method PopAll<K(==), V>(m: map<K, V>, ks: set<K>) returns (r: map<K, V>)
    requires ks <= m.Keys
    ensures r == m - ks
  {
    r := m;
    var rest := ks;
    while rest != {}
      invariant rest <= ks && r == m - (ks - rest)
      decreases |rest|
    {
      var k :| k in rest;
      r := r - {k};
      rest := rest - {k};
    }
  }

  /** `for n1 in child_same1: searched1.remove(n1)`. */
  method RemoveAll<T(==)>(s: set<T>, xs: set<T>) returns (r: set<T>)
    requires xs <= s
    ensures r == s - xs
  {
    r := s;
    var rest := xs;
    while rest != {}
      invariant rest <= xs && r == s - (xs - rest)
      decreases |rest|
    {
      var x :| x in rest;
      r := r - {x};
      rest := rest - {x};
    }
  }

  // ---------------------------------------------------------------- relabelled copies

  /**
   * `f` relabels the part `D` of graph 0 as graph 1: `D` holds the
   * neighbours of each of its nodes, `f` is one-to-one on `D`, keeps every
   * neighbour list of `D` in its order, and `is_same_node` accepts every
   * node of `D` with its image. A graph and itself, or a copy with its nodes
   * renumbered and its neighbour lists carried over, are related this way.
   */
  ghost predicate Isomorphism<N0, N1>(f: N0 -> N1, D: set<N0>, edge0: N0 -> seq<N0>, edge1: N1 -> seq<N1>,
                                      isSame: (N0, N1) -> bool) {
    (forall a, b :: a in D && b in D && f(a) == f(b) ==> a == b)
    && (forall x :: x in D ==> Elements(edge0(x)) <= D)
    && (forall x {:trigger edge1(f(x))} :: x in D ==> edge1(f(x)) == Map(edge0(x), f))
    && (forall x :: x in D ==> isSame(x, f(x)))
  }

  /** Every pair of the state maps a node of `D` to its image under `f`. */
  ghost predicate Agrees<N0, N1>(m: map<N0, N1>, D: set<N0>, f: N0 -> N1) {
    forall a :: a in m ==> a in D && m[a] == f(a)
  }

  /** A part of a graph that holds its neighbours is a relabelled copy of itself when `is_same_node` accepts each of its nodes with itself. */
  lemma SelfIsomorphism<N>(D: set<N>, edge: N -> seq<N>, isSame: (N, N) -> bool)
    requires forall x :: x in D ==> Elements(edge(x)) <= D && isSame(x, x)
    ensures Isomorphism(x => x, D, edge, edge, isSame)
  {
    forall x | x in D ensures edge(x) == Map(edge(x), y => y) {
      var m := Map(edge(x), y => y);
      assert |m| == |edge(x)| && forall i :: 0 <= i < |m| ==> m[i] == edge(x)[i];
    }
  }

  /** Under a relabelling that the state agrees with, the image of a node of `D` not yet mapped is still unused. */
  lemma FreshImage<N0, N1>(f: N0 -> N1, D: set<N0>, edge0: N0 -> seq<N0>, edge1: N1 -> seq<N1>, isSame: (N0, N1) -> bool,
                           m: map<N0, N1>, searched: set<N1>, n0: N0)
    ensures Isomorphism(f, D, edge0, edge1, isSame) && Agrees(m, D, f) && Consistent(m, searched, isSame)
            && n0 in D && n0 !in m
            ==> f(n0) !in searched
  {
    if Isomorphism(f, D, edge0, edge1, isSame) && Agrees(m, D, f) && Consistent(m, searched, isSame) && n0 in D && n0 !in m {
      forall a | a in m ensures m[a] != f(n0) {
        assert a != n0 && a in D;
      }
    }
  }

  /**
   * Under a relabelling that the state agrees with, the `k`-th zipped pair of
   * the relabelled neighbour list is accepted, is already mapped exactly
   * when its graph-1 node is used, and is mapped to that node when it is.
   */
  lemma ImagePair<N0, N1>(f: N0 -> N1, D: set<N0>, edge0: N0 -> seq<N0>, edge1: N1 -> seq<N1>, isSame: (N0, N1) -> bool,
                          m: map<N0, N1>, searched: set<N1>, neg0: seq<N0>, perm: seq<N1>, k: nat)
    requires k < |neg0| && k < |perm|
    ensures Isomorphism(f, D, edge0, edge1, isSame) && Agrees(m, D, f) && Consistent(m, searched, isSame)
            && Elements(neg0) <= D && perm == Map(neg0, f)
            ==> neg0[k] in D && perm[k] == f(neg0[k]) && isSame(neg0[k], perm[k])
                && (neg0[k] in m <==> perm[k] in searched) && (neg0[k] in m ==> m[neg0[k]] == perm[k])
  {
    if Isomorphism(f, D, edge0, edge1, isSame) && Agrees(m, D, f) && Consistent(m, searched, isSame)
       && Elements(neg0) <= D && perm == Map(neg0, f) {
      assert neg0[k] in D;
      FreshImage(f, D, edge0, edge1, isSame, m, searched, neg0[k]);
      if neg0[k] in m {
        assert m[neg0[k]] in m.Values;
      }
    }
  }

  // ---------------------------------------------------------------- the search

  /** The state after the first `k` zipped pairs of one permutation went through. */
  ghost predicate Partial<N0, N1>(neg0: seq<N0>, perm: seq<N1>, edge0: N0 -> seq<N0>, edge1: N1 -> seq<N1>,
                                  isSame: (N0, N1) -> bool, same0: map<N0, N1>, searched0: set<N1>, same: map<N0, N1>,
                                  searched: set<N1>, child0: set<N0>, child1: set<N1>, U: set<N1>, k: nat) {
    Consistent(same, searched, isSame) && searched <= U && Grown(same0, searched0, same, searched, child0, child1)
    && Zipped(neg0, perm, same, k) && AllCover(same, edge0, edge1, child0)
  }

  /**
   * One pass of the loop over `zip(neg0, neg1)`: the `k`-th neighbour of
   * graph 0 and the `k`-th node of `perm`. An already mapped neighbour must be
   * mapped to that node; otherwise the node must be unused and accepted by
   * `is_same_node`, and the pair is added and matched recursively. On
   * failure the pairs added so far stay in the state for the caller to remove.
   */
  method TryPair<N0(==), N1(==)>(neg0: seq<N0>, perm: seq<N1>, k: nat, edge0: N0 -> seq<N0>, edge1: N1 -> seq<N1>,
                                      isSame: (N0, N1) -> bool, same0: map<N0, N1>, searched0: set<N1>,
                                      same: map<N0, N1>, searched: set<N1>, child0: set<N0>, child1: set<N1>,
                                      ghost U: set<N1>, ghost D: set<N0>, ghost f: N0 -> N1)
    returns (ok: bool, same': map<N0, N1>, searched': set<N1>, child0': set<N0>, child1': set<N1>)
    requires k < |neg0| && k < |perm| && Elements(perm) <= U && ClosedUnder(U, edge1)
    requires Partial(neg0, perm, edge0, edge1, isSame, same0, searched0, same, searched, child0, child1, U, k)
    ensures Consistent(same', searched', isSame) && searched' <= U && Grown(same0, searched0, same', searched', child0', child1')
    ensures ok ==> Partial(neg0, perm, edge0, edge1, isSame, same0, searched0, same', searched', child0', child1', U, k + 1)
    ensures Isomorphism(f, D, edge0, edge1, isSame) && Agrees(same, D, f) && Elements(neg0) <= D && perm == Map(neg0, f)
            ==> ok && Agrees(same', D, f)
    decreases U - searched, 0
  {
    var n0, n1 := neg0[k], perm[k];
    ImagePair(f, D, edge0, edge1, isSame, same, searched, neg0, perm, k);
    if n0 in same {
      ok, same', searched', child0', child1' := n1 == same[n0], same, searched, child0, child1;
      if ok {
        ZippedNext(neg0, perm, same, k);
      }
      return;
    }
    if n1 in searched || !isSame(n0, n1) {
      ok, same', searched', child0', child1' := false, same, searched, child0, child1;
      return;
    }
    assert n1 in perm;
    var added, more := same[n0 := n1], searched + {n1};
    AddPair(same, searched, isSame, n0, n1);
    GrownTrans(same0, searched0, same, searched, child0, child1, added, more, {n0}, {n1});
    var ret, same'', searched'' := MatchInner(n0, edge0, n1, edge1, isSame, added, more, U, D, f);
    if ret.None? {
      ok, same', searched', child0', child1' := false, added, more, child0 + {n0}, child1 + {n1};
      return;
    }
    GrownTrans(same0, searched0, added, more, child0 + {n0}, child1 + {n1}, same'', searched'', ret.value.0, ret.value.1);
    CoversExtends(same, same'', edge0, edge1, child0);
    ZippedExtends(neg0, perm, same, same'', k);
    ZippedNext(neg0, perm, same'', k);
    ok, same', searched' := true, same'', searched'';
    child0', child1' := child0 + {n0} + ret.value.0, child1 + {n1} + ret.value.1;
  }

  /**
   * One permutation `perm` of the partner's neighbours in `_match_inner`:
   * the loop over `zip(neg0, neg1)`. On success every zipped neighbour is
   * mapped to its place in `perm`; either way the new state is the old one
   * plus the pairs `child0`/`child1` added, which the caller removes on failure.
   * When the state agrees with a relabelling `f` and `perm` is the relabelled
   * neighbour list, the permutation succeeds.
   */
  method TryPermutation<N0(==), N1(==)>(neg0: seq<N0>, perm: seq<N1>, edge0: N0 -> seq<N0>, edge1: N1 -> seq<N1>,
                                         isSame: (N0, N1) -> bool, same0: map<N0, N1>, searched0: set<N1>,
                                         ghost U: set<N1>, ghost D: set<N0>, ghost f: N0 -> N1)
    returns (ok: bool, same: map<N0, N1>, searched: set<N1>, child0: set<N0>, child1: set<N1>)
    requires Consistent(same0, searched0, isSame) && searched0 <= U && Elements(perm) <= U && ClosedUnder(U, edge1)
    ensures Consistent(same, searched, isSame) && searched <= U && Grown(same0, searched0, same, searched, child0, child1)
    ensures ok ==> Zipped(neg0, perm, same, if |neg0| < |perm| then |neg0| else |perm|)
    ensures ok ==> AllCover(same, edge0, edge1, child0)
    ensures Isomorphism(f, D, edge0, edge1, isSame) && Agrees(same0, D, f) && Elements(neg0) <= D && perm == Map(neg0, f)
            ==> ok && Agrees(same, D, f)
    decreases U - searched0, 1
  {
    same, searched, child0, child1 := same0, searched0, {}, {};
    ok := true;
    ghost var good := Isomorphism(f, D, edge0, edge1, isSame) && Agrees(same0, D, f) && Elements(neg0) <= D && perm == Map(neg0, f);
    var k := 0;
    while k < |neg0| && k < |perm|
      invariant Partial(neg0, perm, edge0, edge1, isSame, same0, searched0, same, searched, child0, child1, U, k)
      invariant good ==> Agrees(same, D, f)
    {
      ok, same, searched, child0, child1 := TryPair(neg0, perm, k, edge0, edge1, isSame, same0, searched0,
                                                    same, searched, child0, child1, U, D, f);
      if !ok {
        return;
      }
      k := k + 1;
    }
  }

  /**
   * `_match_inner`: with `node0` already mapped to `node1`, tries the
   * permutations of the neighbours of `node1` in order. On success it returns
   * the nodes it added, keeps them in the state and every added node, and
   * `node0` itself, has its zipped neighbours mapped to neighbours of its
   * partner; on failure the state is as it was.
   */
  method MatchInner<N0(==), N1(==)>(node0: N0, edge0: N0 -> seq<N0>, node1: N1, edge1: N1 -> seq<N1>,
                                     isSame: (N0, N1) -> bool, same0: map<N0, N1>, searched0: set<N1>,
                                     ghost U: set<N1>, ghost D: set<N0>, ghost f: N0 -> N1)
    returns (res: Option<(set<N0>, set<N1>)>, same: map<N0, N1>, searched: set<N1>)
    requires Consistent(same0, searched0, isSame) && node0 in same0 && same0[node0] == node1
    requires searched0 <= U && ClosedUnder(U, edge1)
    ensures Consistent(same, searched, isSame) && searched <= U
    ensures res.None? ==> same == same0 && searched == searched0
    ensures res.Some? ==> Grown(same0, searched0, same, searched, res.value.0, res.value.1)
    ensures res.Some? ==> Covers(same, edge0, edge1, node0) && AllCover(same, edge0, edge1, res.value.0)
    ensures Isomorphism(f, D, edge0, edge1, isSame) && Agrees(same0, D, f) ==> res.Some? && Agrees(same, D, f)
    decreases U - searched0, 2
  {
    var neg0 := edge0(node0);
    var perms := Permutations(edge1(node1));
    same, searched := same0, searched0;
    assert node1 in searched0;
    ghost var good := Isomorphism(f, D, edge0, edge1, isSame) && Agrees(same0, D, f);
    FirstPermutation(edge1(node1));
    assert good ==> perms[0] == Map(neg0, f);
    for p := 0 to |perms|
      invariant same == same0 && searched == searched0
      invariant good ==> p == 0
    {
      PermutationsPermute(edge1(node1), perms[p]);
      assert Elements(perms[p]) <= U by {
        forall n | n in perms[p] ensures n in U {
          assert n in multiset(perms[p]);
        }
      }
      var ok, same', searched', child0, child1 := TryPermutation(neg0, perms[p], edge0, edge1, isSame, same, searched, U, D, f);
      if ok {
        forall i | 0 <= i < |neg0| && i < |edge1(node1)| ensures neg0[i] in same' && same'[neg0[i]] in edge1(node1) {
          assert perms[p][i] in multiset(edge1(node1));
        }
        res, same, searched := Some((child0, child1)), same', searched';
        return;
      }
      Restored(same0, searched0, same', searched', child0, child1);
      same := PopAll(same', child0);
      searched := RemoveAll(searched', child1);
    }
    res := None;
  }

  /** What a returned map promises: it starts at `node0`, uses each graph-1 node once, and every pair and every zipped neighbourhood agrees. */
  ghost predicate Matched<N0, N1>(m: map<N0, N1>, node0: N0, nodes1: seq<N1>, edge0: N0 -> seq<N0>, edge1: N1 -> seq<N1>,
                                  isSame: (N0, N1) -> bool) {
    && node0 in m && m[node0] in nodes1 && Injective(m)
    && (forall a :: a in m ==> isSame(a, m[a]))
    && forall a :: a in m ==> Covers(m, edge0, edge1, a)
  }

  /** `y` occurs in `nodes1` no later than any node that `is_same_node` accepts as the partner of `x`. */
  ghost predicate FirstAccepted<N0, N1>(x: N0, nodes1: seq<N1>, isSame: (N0, N1) -> bool, y: N1) {
    y in nodes1 && forall k :: 0 <= k < |nodes1| && isSame(x, nodes1[k]) ==> y in nodes1[..k + 1]
  }

  /**
   * `match_all`: tries the nodes of `nodes1` in order as the partner of
   * `node0` and returns the map of the first that leads to a full match;
   * `None` when no node of `nodes1` is accepted by `is_same_node` or none
   * leads to a match. `U` is a finite set of graph-1 nodes closed under
   * `edge1` that holds `nodes1`. When graph 1 is a relabelled copy under
   * `f` of a part `D` of graph 0 that holds `node0` and its neighbours, and
   * `nodes1` holds the image of `node0`, a match is found; when that image
   * is also the first candidate accepted, the match found is the
   * relabelling itself.
   */
  method MatchAll<N0(==), N1(==)>(node0: N0, edge0: N0 -> seq<N0>, nodes1: seq<N1>, edge1: N1 -> seq<N1>,
                                   isSame: (N0, N1) -> bool, ghost U: set<N1>, ghost D: set<N0>, ghost f: N0 -> N1)
    returns (res: Option<map<N0, N1>>)
    requires Elements(nodes1) <= U && ClosedUnder(U, edge1)
    ensures res.Some? ==> Matched(res.value, node0, nodes1, edge0, edge1, isSame) && res.value.Values <= U
    ensures (forall k :: 0 <= k < |nodes1| ==> !isSame(node0, nodes1[k])) ==> res.None?
    ensures Isomorphism(f, D, edge0, edge1, isSame) && node0 in D && f(node0) in nodes1 ==> res.Some?
    ensures Isomorphism(f, D, edge0, edge1, isSame) && node0 in D && FirstAccepted(node0, nodes1, isSame, f(node0))
            ==> res.Some? && Agrees(res.value, D, f)
  {
    ghost var iso := Isomorphism(f, D, edge0, edge1, isSame) && node0 in D;
    for k := 0 to |nodes1|
      invariant iso && f(node0) in nodes1 ==> f(node0) in nodes1[k..]
      invariant iso ==> f(node0) !in nodes1[..k]
    {
      var node1 := nodes1[k];
      assert nodes1[k..] == [node1] + nodes1[k + 1..];
      assert nodes1[..k + 1] == nodes1[..k] + [node1];
      if isSame(node0, node1) {
        var same := map[node0 := node1];
        assert same.Values == {node1} by {
          assert same[node0] == node1;
        }
        assert node1 in nodes1;
        var ret, same', searched' := MatchInner(node0, edge0, node1, edge1, isSame, same, {node1}, U, D, f);
        if ret.Some? {
          assert same'.Keys == {node0} + ret.value.0;
          return Some(same');
        }
      }
    }
    return None;
  }

  /**
   * Matching a graph against itself from a node of `nodes` succeeds when
   * `is_same_node` accepts every node with itself; from the first node of
   * `nodes` the match found maps every node to itself.
   */
  method SelfMatch<N(==)>(node: N, edge: N -> seq<N>, nodes: seq<N>, isSame: (N, N) -> bool, ghost U: set<N>)
    returns (res: Option<map<N, N>>)
    requires Elements(nodes) <= U && ClosedUnder(U, edge)
    requires node in nodes && forall x :: x in U ==> isSame(x, x)
    ensures res.Some? && Matched(res.value, node, nodes, edge, edge, isSame)
    ensures node == nodes[0] ==> forall a :: a in res.value ==> res.value[a] == a
  {
    SelfIsomorphism(U, edge, isSame);
    ghost var id := (x: N) => x;
    assert node == nodes[0] ==> FirstAccepted(node, nodes, isSame, id(node)) by {
      if node == nodes[0] {
        forall k | 0 <= k < |nodes| && isSame(node, nodes[k]) ensures node in nodes[..k + 1] {
          assert nodes[..k + 1][0] == node;
        }
      }
    }
    res := MatchAll(node, edge, nodes, edge, isSame, U, U, id);
  }
}
