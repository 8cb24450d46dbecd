/**
 * Two-dimensional lattice enumeration (index2d.py). A radius is given by its
 * square `r2` as an integer, and `floor(sqrt(x))` becomes the integer square
 * root `ISqrt`; for an integer `r2` and integer offsets the two agree.
 */
module Index2d {
  type Index2 = (int, int)

  /** i*i, by repeated addition; `SquareIsProduct` states that it is the product. */
  function Square(i: int): nat
    decreases if i < 0 then 1 - i else i
  {
    if i < 0 then Square(-i) else if i == 0 then 0 else Square(i - 1) + 2 * i - 1
  }

  lemma {:induction false} SquareIsProduct(i: int)
    ensures Square(i) == i * i
    decreases if i < 0 then 1 - i else i
  {
    if i < 0 {
      SquareIsProduct(-i);
      assert (-i) * (-i) == i * i;
    } else if i > 0 {
      var j := i - 1;
      SquareIsProduct(j);
      assert (j + 1) * (j + 1) == j * j + 2 * j + 1;
    }
  }

  /** The square grows with the absolute value. */
  lemma {:induction false} SquareMono(a: nat, b: nat)
    requires a <= b
    ensures Square(a) <= Square(b)
    decreases b
  {
    if a < b {
      SquareMono(a, b - 1);
    }
  }

  /** floor(sqrt(n)), by counting up; `ISqrtSpec` states what it computes. */
  function ISqrt(n: nat): nat {
    SqrtFrom(n, 0, 0)
  }

  /** Counts `s` up from a candidate whose square `sq` is at most `n`, keeping the square by additions. */
  function SqrtFrom(n: nat, s: nat, sq: nat): nat
    decreases n - sq
  {
    if sq + 2 * s + 1 > n then s else SqrtFrom(n, s + 1, sq + 2 * s + 1)
  }

  lemma {:induction false} SqrtFromSpec(n: nat, s: nat, sq: nat)
    requires sq == Square(s) && sq <= n
    ensures Square(SqrtFrom(n, s, sq)) <= n < Square(SqrtFrom(n, s, sq) + 1)
    decreases n - sq
  {
    assert Square(s + 1) == sq + 2 * s + 1;
    if sq + 2 * s + 1 <= n {
      SqrtFromSpec(n, s + 1, sq + 2 * s + 1);
    }
  }

  /** `ISqrt(n)` is the largest natural number whose square is at most `n`. */
  lemma ISqrtSpec(n: nat)
    ensures Square(ISqrt(n)) <= n < Square(ISqrt(n) + 1)
  {
    SqrtFromSpec(n, 0, 0);
  }

  /** An integer lies in [-ISqrt(n), ISqrt(n)] exactly when its square is at most n. */
  lemma SqrtBound(n: nat, i: int)
    ensures Square(i) <= n <==> -(ISqrt(n) as int) <= i <= ISqrt(n)
  {
    ISqrtSpec(n);
    var s := ISqrt(n);
    var a: nat := if i < 0 then -i else i;
    assert Square(i) == Square(a);
    if a <= s {
      SquareMono(a, s);
    } else {
      SquareMono(s + 1, a);
    }
  }

  /** r2 - i*i: the squared radius left for the other axes in row `i`. */
  function Rest(r2: nat, i: int): nat
    requires -(ISqrt(r2) as int) <= i <= ISqrt(r2)
  {
    SqrtBound(r2, i);
    r2 - Square(i)
  }

  /** floor(sqrt(r2 - i*i)): how far row `i` of the disc of squared radius `r2` reaches along axis 1. */
  function Reach(r2: nat, i: int): nat
    requires -(ISqrt(r2) as int) <= i <= ISqrt(r2)
  {
    ISqrt(Rest(r2, i))
  }

  /** The squared Euclidean norm. */
  function Norm(p: Index2): nat {
    Square(p.0) + Square(p.1)
  }

  /** Row `i` reaches `j` exactly when (i, j) lies in the disc. */
  lemma ReachBound(r2: nat, p: Index2)
    requires -(ISqrt(r2) as int) <= p.0 <= ISqrt(r2)
    ensures -(Reach(r2, p.0) as int) <= p.1 <= Reach(r2, p.0) <==> Norm(p) <= r2
  {
    SqrtBound(r2, p.0);
    SqrtBound(Rest(r2, p.0), p.1);
  }

  /** Rows `lo` up to `hi` (exclusive) all lie within the disc's axis-0 extent. */
  predicate Rows(r2: nat, lo: int, hi: int) {
    -(ISqrt(r2) as int) <= lo && hi <= ISqrt(r2) + 1
  }

  /** Lexicographic order, axis 0 first. */
  predicate Less(a: Index2, b: Index2) {
    a.0 < b.0 || (a.0 == b.0 && a.1 < b.1)
  }

  predicate Ascending(s: seq<Index2>) {
    forall i, j :: 0 <= i < j < |s| ==> Less(s[i], s[j])
  }

  /** `(i0, i1) for i1 in range(lo, hi)`. */
  function Column(i0: int, lo: int, hi: int): (r: seq<Index2>)
    ensures |r| == if hi <= lo then 0 else hi - lo
    ensures forall k :: 0 <= k < |r| ==> r[k] == (i0, lo + k)
    decreases hi - lo
  {
    if hi <= lo then [] else Column(i0, lo, hi - 1) + [(i0, hi - 1)]
  }

  lemma ColumnMembers(i0: int, lo: int, hi: int, p: Index2)
    ensures p in Column(i0, lo, hi) <==> p.0 == i0 && lo <= p.1 < hi
  {
    var c := Column(i0, lo, hi);
    if p.0 == i0 && lo <= p.1 < hi {
      assert c[p.1 - lo] == p;
    }
  }

  /** Every first coordinate of `s` lies in [lo, hi). */
  predicate Within(s: seq<Index2>, lo: int, hi: int) {
    forall k :: 0 <= k < |s| ==> lo <= s[k].0 < hi
  }

  /** Concatenating ascending blocks whose first coordinates are ordered. */
  lemma AscendingConcat(a: seq<Index2>, b: seq<Index2>, lo: int, split: int)
    requires Ascending(a) && Ascending(b)
    requires lo <= split && Within(a, lo, split) && Within(b, split, split + 1)
    ensures Ascending(a + b) && Within(a + b, lo, split + 1)
  {
    var s := a + b;
    forall i, j | 0 <= i < j < |s| ensures Less(s[i], s[j]) {
      if j < |a| {
        assert s[i] == a[i] && s[j] == a[j];
      } else if i >= |a| {
        assert s[i] == b[i - |a|] && s[j] == b[j - |a|];
      } else {
        assert s[i] == a[i] && s[j] == b[j - |a|];
      }
    }
    forall k | 0 <= k < |s| ensures lo <= s[k].0 < split + 1 {
      if k < |a| {
        assert s[k] == a[k];
      } else {
        assert s[k] == b[k - |a|];
      }
    }
  }

  /** The rows `i0` in range(lo, hi) of the disc of squared radius `r2`; the rows lie inside the disc. */
  function CircleRows(r2: nat, lo: int, hi: int): (r: seq<Index2>)
    requires Rows(r2, lo, hi)
    decreases hi - lo
  {
    if hi <= lo then []
    else
      var m: int := Reach(r2, hi - 1);
      CircleRows(r2, lo, hi - 1) + Column(hi - 1, -m, m + 1)
  }

  /** Row `i` of the disc. */
  lemma CircleRowMembers(r2: nat, i: int, p: Index2)
    requires Rows(r2, i, i + 1)
    ensures p in Column(i, -(Reach(r2, i) as int), Reach(r2, i) + 1) <==> p.0 == i && Norm(p) <= r2
  {
    ColumnMembers(i, -(Reach(r2, i) as int), Reach(r2, i) + 1, p);
    if p.0 == i {
      ReachBound(r2, p);
    }
  }

  /** Adding row `hi - 1` adds exactly the disc points of that row. */
  lemma CircleRowsStep(r2: nat, lo: int, hi: int, p: Index2)
    requires Rows(r2, lo, hi) && lo < hi
    ensures p in CircleRows(r2, lo, hi) <==> p in CircleRows(r2, lo, hi - 1) || (p.0 == hi - 1 && Norm(p) <= r2)
  {
    var m: int := Reach(r2, hi - 1);
    var a, c := CircleRows(r2, lo, hi - 1), Column(hi - 1, -m, m + 1);
    assert CircleRows(r2, lo, hi) == a + c;
    CircleRowMembers(r2, hi - 1, p);
    assert p in a + c <==> p in a || p in c;
  }

  lemma {:induction false} CircleRowsMembers(r2: nat, lo: int, hi: int, p: Index2)
    requires Rows(r2, lo, hi)
    ensures p in CircleRows(r2, lo, hi) <==> lo <= p.0 < hi && Norm(p) <= r2
    decreases hi - lo
  {
    if hi > lo {
      CircleRowsStep(r2, lo, hi, p);
      CircleRowsMembers(r2, lo, hi - 1, p);
    }
  }

  lemma {:induction false} CircleRowsAscending(r2: nat, lo: int, hi: int)
    requires Rows(r2, lo, hi)
    ensures Ascending(CircleRows(r2, lo, hi)) && Within(CircleRows(r2, lo, hi), lo, hi)
    decreases hi - lo
  {
    if hi > lo {
      var m: int := Reach(r2, hi - 1);
      CircleRowsAscending(r2, lo, hi - 1);
      AscendingConcat(CircleRows(r2, lo, hi - 1), Column(hi - 1, -m, m + 1), lo, hi - 1);
    }
  }

  /** `circle_grid_index_iterator`: the lattice points of the closed disc of squared radius `r2`. */
  function Circle(r2: nat): seq<Index2> {
    CircleRows(r2, -(ISqrt(r2) as int), ISqrt(r2) + 1)
  }

  /** The disc holds exactly the points whose squared norm is at most `r2`. */
  lemma CircleMembers(r2: nat, p: Index2)
    ensures p in Circle(r2) <==> Norm(p) <= r2
  {
    CircleRowsMembers(r2, -(ISqrt(r2) as int), ISqrt(r2) + 1, p);
    SqrtBound(r2, p.0);
  }

  /** The disc is enumerated axis 0 first, then axis 1, each ascending; hence without duplicates. */
  lemma CircleAscending(r2: nat)
    ensures Ascending(Circle(r2))
  {
    CircleRowsAscending(r2, -(ISqrt(r2) as int), ISqrt(r2) + 1);
  }

  /** The disc is closed under negation. */
  lemma CircleSymmetric(r2: nat, p: Index2)
    requires p in Circle(r2)
    ensures (-p.0, -p.1) in Circle(r2)
  {
    CircleMembers(r2, p);
    CircleMembers(r2, (-p.0, -p.1));
  }


  /** A rectangle as its start corner and size; both borders are inside. */
  type Rect = (Index2, Index2)

  predicate InRect(rect: Rect, p: Index2) {
    rect.0.0 <= p.0 <= rect.0.0 + rect.1.0 && rect.0.1 <= p.1 <= rect.0.1 + rect.1.1
  }

  function Max(a: int, b: int): int { if a < b then b else a }

  function Min(a: int, b: int): int { if a < b then a else b }

  /** The rows `i0` in range(lo, hi) of the disc clipped to the rectangle's axis-1 range. */
  function ClippedRows(r2: nat, rect: Rect, lo: int, hi: int): (r: seq<Index2>)
    requires Rows(r2, lo, hi)
    decreases hi - lo
  {
    if hi <= lo then []
    else
      var m: int := Reach(r2, hi - 1);
      ClippedRows(r2, rect, lo, hi - 1)
        + Column(hi - 1, Max(-m, rect.0.1), Min(m, rect.0.1 + rect.1.1) + 1)
  }

  /** Row `i` of the disc, clipped to the rectangle's axis-1 range. */
  lemma ClippedRowMembers(r2: nat, rect: Rect, i: int, p: Index2)
    requires Rows(r2, i, i + 1)
    ensures p in Column(i, Max(-(Reach(r2, i) as int), rect.0.1), Min(Reach(r2, i), rect.0.1 + rect.1.1) + 1) <==>
      p.0 == i && Norm(p) <= r2 && rect.0.1 <= p.1 <= rect.0.1 + rect.1.1
  {
    ColumnMembers(i, Max(-(Reach(r2, i) as int), rect.0.1), Min(Reach(r2, i), rect.0.1 + rect.1.1) + 1, p);
    if p.0 == i {
      ReachBound(r2, p);
    }
  }

  /** Adding row `hi - 1` adds exactly the clipped disc points of that row. */
  lemma ClippedRowsStep(r2: nat, rect: Rect, lo: int, hi: int, p: Index2)
    requires Rows(r2, lo, hi) && lo < hi
    ensures p in ClippedRows(r2, rect, lo, hi) <==>
      p in ClippedRows(r2, rect, lo, hi - 1) || (p.0 == hi - 1 && Norm(p) <= r2 && rect.0.1 <= p.1 <= rect.0.1 + rect.1.1)
  {
    var m: int := Reach(r2, hi - 1);
    var a := ClippedRows(r2, rect, lo, hi - 1);
    var c := Column(hi - 1, Max(-m, rect.0.1), Min(m, rect.0.1 + rect.1.1) + 1);
    assert ClippedRows(r2, rect, lo, hi) == a + c;
    ClippedRowMembers(r2, rect, hi - 1, p);
    assert p in a + c <==> p in a || p in c;
  }

  lemma {:induction false} ClippedRowsMembers(r2: nat, rect: Rect, lo: int, hi: int, p: Index2)
    requires Rows(r2, lo, hi)
    ensures p in ClippedRows(r2, rect, lo, hi) <==>
      lo <= p.0 < hi && Norm(p) <= r2 && rect.0.1 <= p.1 <= rect.0.1 + rect.1.1
    decreases hi - lo
  {
    if hi > lo {
      ClippedRowsStep(r2, rect, lo, hi, p);
      ClippedRowsMembers(r2, rect, lo, hi - 1, p);
    }
  }

  lemma {:induction false} ClippedRowsAscending(r2: nat, rect: Rect, lo: int, hi: int)
    requires Rows(r2, lo, hi)
    ensures Ascending(ClippedRows(r2, rect, lo, hi)) && Within(ClippedRows(r2, rect, lo, hi), lo, hi)
    decreases hi - lo
  {
    if hi > lo {
      var m: int := Reach(r2, hi - 1);
      ClippedRowsAscending(r2, rect, lo, hi - 1);
      AscendingConcat(ClippedRows(r2, rect, lo, hi - 1),
        Column(hi - 1, Max(-m, rect.0.1), Min(m, rect.0.1 + rect.1.1) + 1), lo, hi - 1);
    }
  }

  /** `circle_and_rect_grid_index_iterator`: the disc points that also lie in the rectangle. */
  function CircleAndRect(r2: nat, rect: Rect): seq<Index2> {
    var s: int := ISqrt(r2);
    var lo := Max(-s, rect.0.0);
    var hi := Min(s, rect.0.0 + rect.1.0) + 1;
    ClippedRows(r2, rect, lo, hi)
  }

  /** The clipped disc holds exactly the disc points inside the rectangle. */
  lemma CircleAndRectMembers(r2: nat, rect: Rect, p: Index2)
    ensures p in CircleAndRect(r2, rect) <==> Norm(p) <= r2 && InRect(rect, p)
  {
    var s: int := ISqrt(r2);
    ClippedRowsMembers(r2, rect, Max(-s, rect.0.0), Min(s, rect.0.0 + rect.1.0) + 1, p);
    SqrtBound(r2, p.0);
  }

  lemma CircleAndRectAscending(r2: nat, rect: Rect)
    ensures Ascending(CircleAndRect(r2, rect))
  {
    var s: int := ISqrt(r2);
    ClippedRowsAscending(r2, rect, Max(-s, rect.0.0), Min(s, rect.0.0 + rect.1.0) + 1);
  }

  /** Strictly after the origin in the lexicographic order. */
  predicate AfterOrigin(p: Index2) {
    Less((0, 0), p)
  }

  /** `half_circle_grid_index_iterator`: first (0, i1) for i1 in 1..max_r, then the full rows i0 in 1..max_r. */
  function HalfCircle(r2: nat): seq<Index2> {
    var s: int := ISqrt(r2);
    Column(0, 1, s + 1) + CircleRows(r2, 1, s + 1)
  }

  /** The half disc holds exactly the disc points after the origin; the origin is never among them. */
  lemma HalfCircleMembers(r2: nat, p: Index2)
    ensures p in HalfCircle(r2) <==> Norm(p) <= r2 && AfterOrigin(p)
  {
    var s: int := ISqrt(r2);
    ColumnMembers(0, 1, s + 1, p);
    CircleRowsMembers(r2, 1, s + 1, p);
    SqrtBound(r2, p.0);
    SqrtBound(r2, p.1);
  }

  lemma HalfCircleAscending(r2: nat)
    ensures Ascending(HalfCircle(r2))
  {
    var s: int := ISqrt(r2);
    CircleRowsAscending(r2, 1, s + 1);
    var a, b := Column(0, 1, s + 1), CircleRows(r2, 1, s + 1);
    forall i, j | 0 <= i < j < |a + b| ensures Less((a + b)[i], (a + b)[j]) {
      if j < |a| {
        assert (a + b)[i] == a[i] && (a + b)[j] == a[j];
      } else if i >= |a| {
        assert (a + b)[i] == b[i - |a|] && (a + b)[j] == b[j - |a|];
      } else {
        assert (a + b)[i] == a[i] && (a + b)[j] == b[j - |a|];
      }
    }
  }

  /** For a nonzero disc point exactly one of it and its negation is in the half disc. */
  lemma HalfCircleOneOfPair(r2: nat, p: Index2)
    requires p != (0, 0) && Norm(p) <= r2
    ensures (p in HalfCircle(r2)) != ((-p.0, -p.1) in HalfCircle(r2))
  {
    HalfCircleMembers(r2, p);
    HalfCircleMembers(r2, (-p.0, -p.1));
  }
}
