/**
 * Three-dimensional lattice indices (index3d.py): addition, the
 * lexicographic comparison, the row-major conversion to and from a linear
 * index, and the enumerations of a dense box, a ball, a ball clipped to a
 * box and a half ball. Radii are given by their squares as integers, as in
 * the two-dimensional module.
 */
module Index3d {
  import opened Wrappers
  import opened Seqs
  import Index2d

  type Index3 = (int, int, int)

  /** `add`: componentwise sum. */
  function Add(a: Index3, b: Index3): Index3 {
    (a.0 + b.0, a.1 + b.1, a.2 + b.2)
  }

  /** `cmp`: -1, 0 or 1 as `a` is before, equal to or after `b`, comparing axis 0, then 1, then 2. */
  function Cmp(a: Index3, b: Index3): (c: int)
    ensures -1 <= c <= 1
    ensures c == 0 <==> a == b
  {
    if a.0 < b.0 then -1
    else if a.0 > b.0 then 1
    else if a.1 < b.1 then -1
    else if a.1 > b.1 then 1
    else if a.2 < b.2 then -1
    else if a.2 > b.2 then 1
    else 0
  }

  /** Swapping the arguments negates the comparison. */
  lemma CmpAntisymmetric(a: Index3, b: Index3)
    ensures Cmp(b, a) == -Cmp(a, b)
  {
  }

  lemma CmpTransitive(a: Index3, b: Index3, c: Index3)
    requires Cmp(a, b) < 0 && Cmp(b, c) < 0
    ensures Cmp(a, c) < 0
  {
  }

  /** Adding the same offset to both sides keeps their order. */
  lemma CmpTranslate(a: Index3, b: Index3, o: Index3)
    ensures Cmp(Add(a, o), Add(b, o)) == Cmp(a, b)
  {
  }

  /** Addition commutes and has the origin as its neutral element. */
  lemma AddLaws(a: Index3, b: Index3)
    ensures Add(a, b) == Add(b, a)
    ensures Add(a, (0, 0, 0)) == a
  {
  }

  /** `cmp` orders points with equal first coordinate as the two-dimensional order orders the rest. */
  lemma CmpRest(a: Index3, b: Index3)
    requires a.0 == b.0
    ensures Cmp(a, b) < 0 <==> Index2d.Less((a.1, a.2), (b.1, b.2))
  {
  }

  predicate Ascending(s: seq<Index3>) {
    forall i, j :: 0 <= i < j < |s| ==> Cmp(s[i], s[j]) < 0
  }

  /** Ascending sequences have no duplicates. */
  lemma AscendingDistinct(s: seq<Index3>)
    requires Ascending(s)
    ensures Distinct(s)
  {
  }

  /** `convert_3d_index_to_1d`: the row-major linear index. */
  function To1d(i: Index3, size: Index3): int {
    i.0 * size.1 * size.2 + i.1 * size.2 + i.2
  }

  /** Python's floor division `floor(a / b)`. */
  function FloorDiv(a: int, b: int): int
    requires b != 0
  {
    if b > 0 then a / b else (-a) / (-b)
  }

  /** `convert_1d_index_to_3d`; a zero size on axis 2 or 1 is a division by zero. */
  function To3d(k: int, size: Index3): Result<Index3> {
    if size.2 == 0 then Err(ZeroDivisionError)
    else
      var idx := FloorDiv(k, size.2);
      var idx2 := k - idx * size.2;
      if size.1 == 0 then Err(ZeroDivisionError)
      else
        var idx0 := FloorDiv(idx, size.1);
        var idx1 := idx - idx0 * size.1;
        Ok((idx0, idx1, idx2))
  }

  /** Inside the dense box [0, size) on every axis. */
  predicate InSize(i: Index3, size: Index3) {
    0 <= i.0 < size.0 && 0 <= i.1 < size.1 && 0 <= i.2 < size.2
  }

  /** Division by a positive divisor is determined by quotient and remainder. */
  lemma DivUnique(q: int, r: int, d: int)
    requires d > 0 && 0 <= r < d
    ensures (q * d + r) / d == q
  {
    var x := q * d + r;
    var q', r' := x / d, x % d;
    assert x == q' * d + r';
    assert (q - q') * d == r' - r;
    if q' < q {
      MulAtLeast(q - q', d);
    } else if q' > q {
      MulAtLeast(q' - q, d);
    }
  }

  lemma MulAtLeast(a: int, d: int)
    requires a >= 1 && d > 0
    ensures a * d >= d
  {
    assert a * d == (a - 1) * d + d;
    assert (a - 1) * d >= 0;
  }

  /** A smaller quotient with any in-range remainder gives a smaller value. */
  lemma MixedLess(q1: int, r1: int, q2: int, r2: int, d: int)
    requires d > 0 && 0 <= r1 < d && 0 <= r2 < d && q1 < q2
    ensures q1 * d + r1 < q2 * d + r2
  {
    MulAtLeast(q2 - q1, d);
    assert q2 * d == q1 * d + (q2 - q1) * d;
  }

  lemma To1dMixed(i: Index3, size: Index3)
    ensures To1d(i, size) == (i.0 * size.1 + i.1) * size.2 + i.2
  {
    assert (i.0 * size.1 + i.1) * size.2 == i.0 * size.1 * size.2 + i.1 * size.2;
  }

  /** Converting a linear index to three dimensions and back gives it again, whenever the sizes divide. */
  lemma To3dTo1d(k: int, size: Index3)
    requires size.1 != 0 && size.2 != 0
    ensures To3d(k, size).Ok? && To1d(To3d(k, size).value, size) == k
  {
    var idx := FloorDiv(k, size.2);
    var idx0 := FloorDiv(idx, size.1);
    var i := To3d(k, size).value;
    assert i == (idx0, idx - idx0 * size.1, k - idx * size.2);
    To1dMixed(i, size);
    assert i.0 * size.1 + i.1 == idx;
    assert idx * size.2 + i.2 == k;
  }

  /** Converting an index of the box to a linear index and back gives it again. */
  lemma To1dTo3d(i: Index3, size: Index3)
    requires InSize(i, size)
    ensures To3d(To1d(i, size), size) == Ok(i)
  {
    var k := To1d(i, size);
    To1dMixed(i, size);
    DivUnique(i.0 * size.1 + i.1, i.2, size.2);
    var idx := FloorDiv(k, size.2);
    assert idx == i.0 * size.1 + i.1;
    DivUnique(i.0, i.1, size.1);
    assert FloorDiv(idx, size.1) == i.0;
  }

  /** On the box the linear index orders indices as `cmp` does: lexicographic order is row-major order. */
  lemma To1dOrder(a: Index3, b: Index3, size: Index3)
    requires InSize(a, size) && InSize(b, size)
    ensures Cmp(a, b) < 0 <==> To1d(a, size) < To1d(b, size)
  {
    if Cmp(a, b) < 0 {
      To1dLess(a, b, size);
    } else if Cmp(a, b) > 0 {
      CmpAntisymmetric(a, b);
      To1dLess(b, a, size);
    }
  }

  lemma To1dLess(a: Index3, b: Index3, size: Index3)
    requires InSize(a, size) && InSize(b, size) && Cmp(a, b) < 0
    ensures To1d(a, size) < To1d(b, size)
  {
    To1dMixed(a, size);
    To1dMixed(b, size);
    var ua, ub := a.0 * size.1 + a.1, b.0 * size.1 + b.1;
    if a.0 < b.0 {
      MixedLess(a.0, a.1, b.0, b.1, size.1);
    }
    if ua < ub {
      MixedLess(ua, a.2, ub, b.2, size.2);
    }
  }

  /** The linear index tells indices of the box apart. */
  lemma To1dInjective(a: Index3, b: Index3, size: Index3)
    requires InSize(a, size) && InSize(b, size) && To1d(a, size) == To1d(b, size)
    ensures a == b
  {
    To1dOrder(a, b, size);
    To1dOrder(b, a, size);
  }

  /** (v0, v1, v2) for v2 in range(n2). */
  function DenseRow(v0: int, v1: int, n2: int): (r: seq<Index3>)
    ensures |r| == if n2 <= 0 then 0 else n2
    ensures forall k :: 0 <= k < |r| ==> r[k] == (v0, v1, k)
    decreases n2
  {
    if n2 <= 0 then [] else DenseRow(v0, v1, n2 - 1) + [(v0, v1, n2 - 1)]
  }

  /** (v0, v1, v2) for v1 in range(n1) for v2 in range(n2). */
  function DensePlane(v0: int, n1: int, n2: int): seq<Index3>
    decreases n1
  {
    if n1 <= 0 then [] else DensePlane(v0, n1 - 1, n2) + DenseRow(v0, n1 - 1, n2)
  }

  /** `dence_matrix_3d_indices`: the indices of a size0 x size1 x size2 matrix, axis 2 fastest. */
  function Dense(n0: int, n1: int, n2: int): seq<Index3>
    decreases n0
  {
    if n0 <= 0 then [] else Dense(n0 - 1, n1, n2) + DensePlane(n0 - 1, n1, n2)
  }

  /** `x` lies on plane `v0` at plane-local linear index `j`. */
  predicate OnPlane(x: Index3, v0: int, n1: int, n2: int, j: int) {
    x.0 == v0 && 0 <= x.1 < n1 && 0 <= x.2 < n2 && x.1 * n2 + x.2 == j
  }

  /** Every index of a plane lies on it and has the plane-local linear index of its position. */
  lemma {:induction false} DensePlaneIndices(v0: int, n1: nat, n2: nat)
    ensures |DensePlane(v0, n1, n2)| == n1 * n2
    ensures forall j :: 0 <= j < |DensePlane(v0, n1, n2)| ==> OnPlane(DensePlane(v0, n1, n2)[j], v0, n1, n2, j)
  {
    if n1 > 0 {
      DensePlaneIndices(v0, n1 - 1, n2);
      var a, b := DensePlane(v0, n1 - 1, n2), DenseRow(v0, n1 - 1, n2);
      assert |a| == (n1 - 1) * n2;
      assert n1 * n2 == (n1 - 1) * n2 + n2;
      forall j | 0 <= j < |a + b| ensures OnPlane((a + b)[j], v0, n1, n2, j) {
        if j < |a| {
          assert (a + b)[j] == a[j];
        } else {
          assert (a + b)[j] == b[j - |a|];
        }
      }
    }
  }

  lemma Distrib3(n0: int, n1: int, n2: int)
    ensures n0 * n1 * n2 == (n0 - 1) * n1 * n2 + n1 * n2
  {
  }

  /** An index on plane `v0` at plane-local position `j` has linear index v0*n1*n2 + j. */
  lemma PlaneTo1d(x: Index3, v0: int, n0: int, n1: int, n2: int, j: int)
    requires OnPlane(x, v0, n1, n2, j)
    ensures To1d(x, (n0, n1, n2)) == v0 * n1 * n2 + j
  {
  }

  /** The k-th index of the dense enumeration lies in the box and has linear index k. */
  lemma {:induction false} DenseIndices(n0: nat, n1: nat, n2: nat)
    ensures |Dense(n0, n1, n2)| == n0 * n1 * n2
    ensures forall k :: 0 <= k < |Dense(n0, n1, n2)| ==>
      InSize(Dense(n0, n1, n2)[k], (n0, n1, n2)) && To1d(Dense(n0, n1, n2)[k], (n0, n1, n2)) == k
  {
    if n0 > 0 {
      DenseIndices(n0 - 1, n1, n2);
      DensePlaneIndices(n0 - 1, n1, n2);
      var a, b := Dense(n0 - 1, n1, n2), DensePlane(n0 - 1, n1, n2);
      var size := (n0, n1, n2);
      Distrib3(n0, n1, n2);
      forall k | 0 <= k < |a + b|
        ensures InSize((a + b)[k], size) && To1d((a + b)[k], size) == k
      {
        if k < |a| {
          assert (a + b)[k] == a[k];
          assert To1d(a[k], size) == To1d(a[k], (n0 - 1, n1, n2));
        } else {
          var x := b[k - |a|];
          assert (a + b)[k] == x;
          PlaneTo1d(x, n0 - 1, n0, n1, n2, k - |a|);
        }
      }
    }
  }

  /** The dense enumeration is in ascending lexicographic order, so it yields no index twice. */
  lemma DenseAscending(n0: nat, n1: nat, n2: nat)
    ensures Ascending(Dense(n0, n1, n2))
  {
    var s := Dense(n0, n1, n2);
    DenseIndices(n0, n1, n2);
    forall i, j | 0 <= i < j < |s| ensures Cmp(s[i], s[j]) < 0 {
      To1dOrder(s[i], s[j], (n0, n1, n2));
    }
  }

  lemma MulNonneg(a: int, b: int)
    requires a >= 0 && b >= 0
    ensures a * b >= 0
  {
  }

  /** Indices of the box have linear indices from 0 below the box's volume. */
  lemma To1dRange(x: Index3, size: Index3)
    requires InSize(x, size)
    ensures 0 <= To1d(x, size) < size.0 * size.1 * size.2
  {
    To1dMixed(x, size);
    var u := x.0 * size.1 + x.1;
    MulNonneg(x.0, size.1);
    MixedLess(x.0, x.1, size.0, 0, size.1);
    MulNonneg(u, size.2);
    MixedLess(u, x.2, size.0 * size.1, 0, size.2);
  }

  /** The dense enumeration yields every index of the box, and only those. */
  lemma DenseMembers(n0: nat, n1: nat, n2: nat, x: Index3)
    ensures x in Dense(n0, n1, n2) <==> InSize(x, (n0, n1, n2))
  {
    var s, size := Dense(n0, n1, n2), (n0, n1, n2);
    DenseIndices(n0, n1, n2);
    if InSize(x, size) {
      var k := To1d(x, size);
      To1dRange(x, size);
      assert 0 <= k < |s|;
      To1dInjective(s[k], x, size);
    }
  }

  /** The squared Euclidean norm. */
  function Norm(x: Index3): nat {
    Index2d.Square(x.0) + Index2d.Norm((x.1, x.2))
  }

  /** The points (i0, i1, i2) for (i1, i2) in `s`. */
  function Lift(i0: int, s: seq<Index2d.Index2>): (r: seq<Index3>)
    ensures |r| == |s|
    ensures forall k :: 0 <= k < |r| ==> r[k] == (i0, s[k].0, s[k].1)
  {
    Map(s, (p: Index2d.Index2) => (i0, p.0, p.1))
  }

  lemma LiftMembers(i0: int, s: seq<Index2d.Index2>, x: Index3)
    ensures x in Lift(i0, s) <==> x.0 == i0 && (x.1, x.2) in s
  {
    if x.0 == i0 && (x.1, x.2) in s {
      var k :| 0 <= k < |s| && s[k] == (x.1, x.2);
      assert Lift(i0, s)[k] == x;
    }
  }

  lemma LiftAscending(i0: int, s: seq<Index2d.Index2>)
    requires Index2d.Ascending(s)
    ensures Ascending(Lift(i0, s))
  {
    var r := Lift(i0, s);
    forall i, j | 0 <= i < j < |r| ensures Cmp(r[i], r[j]) < 0 {
      CmpRest(r[i], r[j]);
    }
  }

  /** Every first coordinate of `s` lies in [lo, hi). */
  predicate Within(s: seq<Index3>, lo: int, hi: int) {
    forall k :: 0 <= k < |s| ==> lo <= s[k].0 < hi
  }

  /** Concatenating ascending blocks whose first coordinates are ordered. */
  lemma AscendingConcat(a: seq<Index3>, b: seq<Index3>, lo: int, split: int)
    requires Ascending(a) && Ascending(b)
    requires lo <= split && Within(a, lo, split) && Within(b, split, split + 1)
    ensures Ascending(a + b) && Within(a + b, lo, split + 1)
  {
    var s := a + b;
    forall i, j | 0 <= i < j < |s| ensures Cmp(s[i], s[j]) < 0 {
      if j < |a| {
        assert s[i] == a[i] && s[j] == a[j];
      } else if i >= |a| {
        assert s[i] == b[i - |a|] && s[j] == b[j - |a|];
      } else {
        assert s[i] == a[i] && s[j] == b[j - |a|];
      }
    }
    forall k | 0 <= k < |s| ensures lo <= s[k].0 < split + 1 {
      if k < |a| {
        assert s[k] == a[k];
      } else {
        assert s[k] == b[k - |a|];
      }
    }
  }

  /** Row `i0` of the ball: its first coordinate is `i0` and the rest is the disc of the remaining squared radius. */
  lemma RowNorm(r2: nat, x: Index3)
    requires Index2d.Rows(r2, x.0, x.0 + 1)
    ensures Index2d.Norm((x.1, x.2)) <= Index2d.Rest(r2, x.0) <==> Norm(x) <= r2
  {
  }

  /** The rows `i0` in range(lo, hi) of the ball of squared radius `r2`. */
  function SphereRows(r2: nat, lo: int, hi: int): (r: seq<Index3>)
    requires Index2d.Rows(r2, lo, hi)
    decreases hi - lo
  {
    if hi <= lo then []
    else SphereRows(r2, lo, hi - 1) + Lift(hi - 1, Index2d.Circle(Index2d.Rest(r2, hi - 1)))
  }

  /** Row `i` of the ball. */
  lemma SphereRowMembers(r2: nat, i: int, x: Index3)
    requires Index2d.Rows(r2, i, i + 1)
    ensures x in Lift(i, Index2d.Circle(Index2d.Rest(r2, i))) <==> x.0 == i && Norm(x) <= r2
  {
    LiftMembers(i, Index2d.Circle(Index2d.Rest(r2, i)), x);
    if x.0 == i {
      Index2d.CircleMembers(Index2d.Rest(r2, i), (x.1, x.2));
      RowNorm(r2, x);
    }
  }

  /** Adding row `hi - 1` adds exactly the ball points of that row. */
  lemma SphereRowsStep(r2: nat, lo: int, hi: int, x: Index3)
    requires Index2d.Rows(r2, lo, hi) && lo < hi
    ensures x in SphereRows(r2, lo, hi) <==> x in SphereRows(r2, lo, hi - 1) || (x.0 == hi - 1 && Norm(x) <= r2)
  {
    var a := SphereRows(r2, lo, hi - 1);
    var c := Lift(hi - 1, Index2d.Circle(Index2d.Rest(r2, hi - 1)));
    assert SphereRows(r2, lo, hi) == a + c;
    SphereRowMembers(r2, hi - 1, x);
    assert x in a + c <==> x in a || x in c;
  }

  lemma {:induction false} SphereRowsMembers(r2: nat, lo: int, hi: int, x: Index3)
    requires Index2d.Rows(r2, lo, hi)
    ensures x in SphereRows(r2, lo, hi) <==> lo <= x.0 < hi && Norm(x) <= r2
    decreases hi - lo
  {
    if hi > lo {
      SphereRowsStep(r2, lo, hi, x);
      SphereRowsMembers(r2, lo, hi - 1, x);
    }
  }

  lemma {:induction false} SphereRowsAscending(r2: nat, lo: int, hi: int)
    requires Index2d.Rows(r2, lo, hi)
    ensures Ascending(SphereRows(r2, lo, hi)) && Within(SphereRows(r2, lo, hi), lo, hi)
    decreases hi - lo
  {
    if hi > lo {
      var c := Index2d.Circle(Index2d.Rest(r2, hi - 1));
      SphereRowsAscending(r2, lo, hi - 1);
      Index2d.CircleAscending(Index2d.Rest(r2, hi - 1));
      LiftAscending(hi - 1, c);
      AscendingConcat(SphereRows(r2, lo, hi - 1), Lift(hi - 1, c), lo, hi - 1);
    }
  }

  /** A point in the ball has its first coordinate within the ball's axis-0 extent. */
  lemma NormBound(r2: nat, x: Index3)
    requires Norm(x) <= r2
    ensures Index2d.Rows(r2, x.0, x.0 + 1)
  {
    Index2d.SqrtBound(r2, x.0);
  }

  /** `sphere_grid_index_iterator`: the lattice points of the closed ball of squared radius `r2`. */
  function Sphere(r2: nat): seq<Index3> {
    var s: int := Index2d.ISqrt(r2);
    SphereRows(r2, -s, s + 1)
  }

  /** The ball holds exactly the points whose squared norm is at most `r2`. */
  lemma SphereMembers(r2: nat, x: Index3)
    ensures x in Sphere(r2) <==> Norm(x) <= r2
  {
    var s: int := Index2d.ISqrt(r2);
    SphereRowsMembers(r2, -s, s + 1, x);
    if Norm(x) <= r2 {
      NormBound(r2, x);
    }
  }

  /** The ball is enumerated in ascending lexicographic order, without duplicates. */
  lemma SphereAscending(r2: nat)
    ensures Ascending(Sphere(r2))
  {
    var s: int := Index2d.ISqrt(r2);
    SphereRowsAscending(r2, -s, s + 1);
  }

  /** A box as its start corner and size; both borders are inside. */
  type Box = (Index3, Index3)

  predicate InBox(box: Box, x: Index3) {
    box.0.0 <= x.0 <= box.0.0 + box.1.0
    && box.0.1 <= x.1 <= box.0.1 + box.1.1
    && box.0.2 <= x.2 <= box.0.2 + box.1.2
  }

  /** The box's extent along axes 1 and 2. */
  function Face(box: Box): Index2d.Rect {
    ((box.0.1, box.0.2), (box.1.1, box.1.2))
  }

  /** The rows `i0` in range(lo, hi) of the ball, each clipped to the box's face. */
  function BoxRows(r2: nat, box: Box, lo: int, hi: int): (r: seq<Index3>)
    requires Index2d.Rows(r2, lo, hi)
    decreases hi - lo
  {
    if hi <= lo then []
    else BoxRows(r2, box, lo, hi - 1) + Lift(hi - 1, Index2d.CircleAndRect(Index2d.Rest(r2, hi - 1), Face(box)))
  }

  /** Row `i` of the clipped ball. */
  lemma BoxRowMembers(r2: nat, box: Box, i: int, x: Index3)
    requires Index2d.Rows(r2, i, i + 1)
    ensures x in Lift(i, Index2d.CircleAndRect(Index2d.Rest(r2, i), Face(box))) <==>
      x.0 == i && Norm(x) <= r2 && Index2d.InRect(Face(box), (x.1, x.2))
  {
    LiftMembers(i, Index2d.CircleAndRect(Index2d.Rest(r2, i), Face(box)), x);
    if x.0 == i {
      Index2d.CircleAndRectMembers(Index2d.Rest(r2, i), Face(box), (x.1, x.2));
      RowNorm(r2, x);
    }
  }

  /** Adding row `hi - 1` adds exactly the clipped ball points of that row. */
  lemma BoxRowsStep(r2: nat, box: Box, lo: int, hi: int, x: Index3)
    requires Index2d.Rows(r2, lo, hi) && lo < hi
    ensures x in BoxRows(r2, box, lo, hi) <==>
      x in BoxRows(r2, box, lo, hi - 1) || (x.0 == hi - 1 && Norm(x) <= r2 && Index2d.InRect(Face(box), (x.1, x.2)))
  {
    var a := BoxRows(r2, box, lo, hi - 1);
    var c := Lift(hi - 1, Index2d.CircleAndRect(Index2d.Rest(r2, hi - 1), Face(box)));
    assert BoxRows(r2, box, lo, hi) == a + c;
    BoxRowMembers(r2, box, hi - 1, x);
    assert x in a + c <==> x in a || x in c;
  }

  lemma {:induction false} BoxRowsMembers(r2: nat, box: Box, lo: int, hi: int, x: Index3)
    requires Index2d.Rows(r2, lo, hi)
    ensures x in BoxRows(r2, box, lo, hi) <==>
      lo <= x.0 < hi && Norm(x) <= r2 && Index2d.InRect(Face(box), (x.1, x.2))
    decreases hi - lo
  {
    if hi > lo {
      BoxRowsStep(r2, box, lo, hi, x);
      BoxRowsMembers(r2, box, lo, hi - 1, x);
    }
  }

  lemma {:induction false} BoxRowsAscending(r2: nat, box: Box, lo: int, hi: int)
    requires Index2d.Rows(r2, lo, hi)
    ensures Ascending(BoxRows(r2, box, lo, hi)) && Within(BoxRows(r2, box, lo, hi), lo, hi)
    decreases hi - lo
  {
    if hi > lo {
      var c := Index2d.CircleAndRect(Index2d.Rest(r2, hi - 1), Face(box));
      BoxRowsAscending(r2, box, lo, hi - 1);
      Index2d.CircleAndRectAscending(Index2d.Rest(r2, hi - 1), Face(box));
      LiftAscending(hi - 1, c);
      AscendingConcat(BoxRows(r2, box, lo, hi - 1), Lift(hi - 1, c), lo, hi - 1);
    }
  }

  /** `sphere_and_box_grid_index_iterator`: the ball's points that also lie in the box. */
  function SphereAndBox(r2: nat, box: Box): seq<Index3> {
    var s: int := Index2d.ISqrt(r2);
    BoxRows(r2, box, Index2d.Max(-s, box.0.0), Index2d.Min(s, box.0.0 + box.1.0) + 1)
  }

  /** The clipped ball holds exactly the ball's points inside the box. */
  lemma SphereAndBoxMembers(r2: nat, box: Box, x: Index3)
    ensures x in SphereAndBox(r2, box) <==> Norm(x) <= r2 && InBox(box, x)
  {
    var s: int := Index2d.ISqrt(r2);
    var lo, hi := Index2d.Max(-s, box.0.0), Index2d.Min(s, box.0.0 + box.1.0) + 1;
    BoxRowsMembers(r2, box, lo, hi, x);
    InBoxFace(box, x);
    if Norm(x) <= r2 {
      NormBound(r2, x);
      ClipRange(s, box.0.0, box.1.0, x.0);
    }
  }

  lemma InBoxFace(box: Box, x: Index3)
    ensures InBox(box, x) <==> box.0.0 <= x.0 <= box.0.0 + box.1.0 && Index2d.InRect(Face(box), (x.1, x.2))
  {
  }

  /** Within [-s, s], clipping the range to [start, start + size] keeps exactly the points of both. */
  lemma ClipRange(s: int, start: int, size: int, i: int)
    requires -s <= i <= s
    ensures Index2d.Max(-s, start) <= i < Index2d.Min(s, start + size) + 1 <==> start <= i <= start + size
  {
  }

  lemma SphereAndBoxAscending(r2: nat, box: Box)
    ensures Ascending(SphereAndBox(r2, box))
  {
    var s: int := Index2d.ISqrt(r2);
    BoxRowsAscending(r2, box, Index2d.Max(-s, box.0.0), Index2d.Min(s, box.0.0 + box.1.0) + 1);
  }

  /** `half_sphere_grid_index_iterator`: the half disc at i0 = 0, then the full discs of rows 1..max_r. */
  function HalfSphere(r2: nat): seq<Index3> {
    Lift(0, Index2d.HalfCircle(r2)) + SphereRows(r2, 1, Index2d.ISqrt(r2) + 1)
  }

  /** The half ball holds exactly the ball's points after the origin; the origin is not among them. */
  lemma HalfSphereMembers(r2: nat, x: Index3)
    ensures x in HalfSphere(r2) <==> Norm(x) <= r2 && Cmp((0, 0, 0), x) < 0
  {
    LiftMembers(0, Index2d.HalfCircle(r2), x);
    SphereRowsMembers(r2, 1, Index2d.ISqrt(r2) + 1, x);
    Index2d.HalfCircleMembers(r2, (x.1, x.2));
    if Norm(x) <= r2 {
      NormBound(r2, x);
    }
    if x.0 == 0 {
      assert Norm(x) == Index2d.Norm((x.1, x.2));
    }
  }

  lemma HalfSphereAscending(r2: nat)
    ensures Ascending(HalfSphere(r2))
  {
    var a := Lift(0, Index2d.HalfCircle(r2));
    var b := SphereRows(r2, 1, Index2d.ISqrt(r2) + 1);
    Index2d.HalfCircleAscending(r2);
    LiftAscending(0, Index2d.HalfCircle(r2));
    SphereRowsAscending(r2, 1, Index2d.ISqrt(r2) + 1);
    forall i, j | 0 <= i < j < |a + b| ensures Cmp((a + b)[i], (a + b)[j]) < 0 {
      if j < |a| {
        assert (a + b)[i] == a[i] && (a + b)[j] == a[j];
      } else if i >= |a| {
        assert (a + b)[i] == b[i - |a|] && (a + b)[j] == b[j - |a|];
      } else {
        assert (a + b)[i] == a[i] && (a + b)[j] == b[j - |a|];
      }
    }
  }

  function Neg(x: Index3): Index3 {
    (-x.0, -x.1, -x.2)
  }

  /** For each nonzero point of the ball exactly one of it and its negation is in the half ball. */
  lemma HalfSphereOneOfPair(r2: nat, x: Index3)
    requires x != (0, 0, 0) && Norm(x) <= r2
    ensures (x in HalfSphere(r2)) != (Neg(x) in HalfSphere(r2))
  {
    HalfSphereMembers(r2, x);
    HalfSphereMembers(r2, Neg(x));
  }
}
