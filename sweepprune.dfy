/**
 * Sphere collision by sweep and prune (`solidcalc/sweepprune.py`).
 *
 * The broad phase sorts, on each axis, the open (`pos - r`) and close
 * (`pos + r`) events of every sphere by coordinate with a stable sort, and
 * sweeps them with the set of currently open spheres: a sphere that opens
 * is paired with every open one. The pairs found on all three axes are the
 * candidates; the narrow phase keeps those whose centres are closer than the
 * sum of the radii. Coordinates and radii are reals.
 */
module SweepPrune {
  import opened Wrappers
  import opened Seqs
  import opened Sorting

  /** A sphere centre, `(p[0], p[1], p[2])`. */
  datatype Point = Point(x: real, y: real, z: real)

  function Coord(p: Point, dim: nat): real
    requires dim < 3
  {
    if dim == 0 then p.x else if dim == 1 then p.y else p.z
  }

  /** `(pos, r)`. */
  datatype Sphere = Sphere(pos: Point, r: real)

  /** Where the sphere starts on axis `dim`. */
  function Lo(s: Sphere, dim: nat): real
    requires dim < 3
  {
    Coord(s.pos, dim) - s.r
  }

  /** Where the sphere ends on axis `dim`. */
  function Hi(s: Sphere, dim: nat): real
    requires dim < 3
  {
    Coord(s.pos, dim) + s.r
  }

  /** An entry of an axis list, `(coordinate, id, is_open)`. */
  datatype Event<I> = Event(at: real, id: I, open: bool)

  /** The sort key, `operator.itemgetter(0)`. */
  function At<I>(e: Event<I>): real {
    e.at
  }

  /** What the one-axis sweep reads of an event, `el[1:]`. */
  function Tag<I>(e: Event<I>): (I, bool) {
    (e.id, e.open)
  }

  function OpenOf<I>(b: (I, Sphere), dim: nat): Event<I>
    requires dim < 3
  {
    Event(Lo(b.1, dim), b.0, true)
  }

  function CloseOf<I>(b: (I, Sphere), dim: nat): Event<I>
    requires dim < 3
  {
    Event(Hi(b.1, dim), b.0, false)
  }

  // ---------------------------------------------------------------- axis lists

  /** The events of axis `dim` in the order they are appended: sphere by sphere, open then close. */
  function Raw<I>(spheres: seq<(I, Sphere)>, dim: nat): (r: seq<Event<I>>)
    requires dim < 3
    ensures |r| == 2 * |spheres|
    ensures forall j :: 0 <= j < |spheres| ==> r[2 * j] == OpenOf(spheres[j], dim) && r[2 * j + 1] == CloseOf(spheres[j], dim)
  {
    if spheres == [] then []
    else
      var last := spheres[|spheres| - 1];
      Raw(spheres[..|spheres| - 1], dim) + [OpenOf(last, dim), CloseOf(last, dim)]
  }

  /** The sorted axis list of `dim`. */
  function Axis<I>(spheres: seq<(I, Sphere)>, dim: nat): seq<Event<I>>
    requires dim < 3
  {
    SortBy(Raw(spheres, dim), At)
  }

  /** The inner loop of `_create_sweep_and_prune_axis`: appends the open and close events of `b` to every axis. */
  method AppendSphere<I>(ax0: seq<seq<Event<I>>>, b: (I, Sphere)) returns (ax: seq<seq<Event<I>>>)
    requires |ax0| == 3
    ensures |ax| == 3 && forall dim :: 0 <= dim < 3 ==> ax[dim] == ax0[dim] + [OpenOf(b, dim), CloseOf(b, dim)]
  {
    var (id, s) := b;
    ax := ax0;
    for dim := 0 to 3
      invariant |ax| == 3
      invariant forall d :: 0 <= d < dim ==> ax[d] == ax0[d] + [OpenOf(b, d), CloseOf(b, d)]
      invariant forall d :: dim <= d < 3 ==> ax[d] == ax0[d]
    {
      ax := ax[dim := ax[dim] + [Event(Coord(s.pos, dim) - s.r, id, true), Event(Coord(s.pos, dim) + s.r, id, false)]];
    }
  }

  lemma RawSnoc<I>(spheres: seq<(I, Sphere)>, k: nat, dim: nat)
    requires k < |spheres| && dim < 3
    ensures Raw(spheres[..k + 1], dim) == Raw(spheres[..k], dim) + [OpenOf(spheres[k], dim), CloseOf(spheres[k], dim)]
  {
    assert spheres[..k + 1][..k] == spheres[..k];
  }

  /**
   * `_create_sweep_and_prune_axis`: one open and one close event per sphere
   * on each axis, each axis then sorted by coordinate.
   */
  method CreateAxes<I>(spheres: seq<(I, Sphere)>) returns (ax: seq<seq<Event<I>>>)
    ensures |ax| == 3 && forall dim :: 0 <= dim < 3 ==> ax[dim] == Axis(spheres, dim)
  {
    ax := [[], [], []];
    for k := 0 to |spheres|
      invariant |ax| == 3 && forall dim :: 0 <= dim < 3 ==> ax[dim] == Raw(spheres[..k], dim)
    {
      forall dim | 0 <= dim < 3 {
        RawSnoc(spheres, k, dim);
      }
      ax := AppendSphere(ax, spheres[k]);
    }
    assert spheres[..|spheres|] == spheres;
    for dim := 0 to 3
      invariant |ax| == 3
      invariant forall d :: 0 <= d < dim ==> ax[d] == Axis(spheres, d)
      invariant forall d :: dim <= d < 3 ==> ax[d] == Raw(spheres, d)
    {
      ax := ax[dim := SortBy(ax[dim], At)];
    }
  }

  /** Each axis list is ordered by coordinate and holds exactly the open and close events of the spheres. */
  lemma AxisFacts<I>(spheres: seq<(I, Sphere)>, dim: nat)
    requires dim < 3
    ensures SortedBy(Axis(spheres, dim), At)
    ensures multiset(Axis(spheres, dim)) == multiset(Raw(spheres, dim))
    ensures |Axis(spheres, dim)| == 2 * |spheres|
  {
    SortByFacts(Raw(spheres, dim), At);
  }

  // ---------------------------------------------------------------- one axis

  /** `cur_opened` after the events `t`. */
  function OpenAfter<I(==)>(t: seq<(I, bool)>): set<I> {
    if t == [] then {}
    else
      var e := t[|t| - 1];
      if e.1 then OpenAfter(t[..|t| - 1]) + {e.0} else OpenAfter(t[..|t| - 1]) - {e.0}
  }

  /** The pair for `comp_lt`: the smaller id first. */
  function Orient<I(==)>(x: I, y: I, lt: (I, I) -> bool): (I, I) {
    if lt(x, y) then (x, y) else (y, x)
  }

  /** The pairs emitted when `x` opens while `live` are open. */
  function NewPairs<I(==)>(x: I, live: set<I>, lt: Option<(I, I) -> bool>): set<(I, I)> {
    match lt
    case Some(f) => set y | y in live :: Orient(x, y, f)
    case None => (set y | y in live :: (x, y)) + (set y | y in live :: (y, x))
  }

  /** The pairs `_sweep_and_prune_1d` emits on the events `t`. */
  function Pairs1d<I(==)>(t: seq<(I, bool)>, lt: Option<(I, I) -> bool>): set<(I, I)> {
    if t == [] then {}
    else
      var init, e := t[..|t| - 1], t[|t| - 1];
      Pairs1d(init, lt) + (if e.1 then NewPairs(e.0, OpenAfter(init), lt) else {})
  }

  lemma NewPairsAdd<I>(x: I, live: set<I>, y: I, lt: Option<(I, I) -> bool>)
    ensures NewPairs(x, live + {y}, lt)
            == NewPairs(x, live, lt) + (match lt case Some(f) => {Orient(x, y, f)} case None => {(x, y), (y, x)})
  {
  }

  /** One event of the sweep: the open set and the pairs after it. */
  lemma SweepStep<I>(t: seq<(I, bool)>, k: nat, lt: Option<(I, I) -> bool>)
    requires k < |t|
    ensures OpenAfter(t[..k + 1]) == if t[k].1 then OpenAfter(t[..k]) + {t[k].0} else OpenAfter(t[..k]) - {t[k].0}
    ensures Pairs1d(t[..k + 1], lt) == Pairs1d(t[..k], lt) + (if t[k].1 then NewPairs(t[k].0, OpenAfter(t[..k]), lt) else {})
  {
    assert t[..k + 1][..k] == t[..k];
  }

  lemma ElementsConcat<T>(a: seq<T>, b: seq<T>)
    ensures Elements(a + b) == Elements(a) + Elements(b)
  {
  }

  /** The loop over `cur_opened` when `x` opens; the open set is visited in an unspecified order. */
  method PairWithOpen<I(==)>(x: I, live: set<I>, lt: Option<(I, I) -> bool>) returns (out: seq<(I, I)>)
    ensures Elements(out) == NewPairs(x, live, lt)
  {
    out := [];
    var rest := live;
    while rest != {}
      invariant rest <= live
      invariant Elements(out) == NewPairs(x, live - rest, lt)
      decreases |rest|
    {
      var y :| y in rest;
      NewPairsAdd(x, live - rest, y, lt);
      assert live - (rest - {y}) == (live - rest) + {y};
      var more;
      match lt {
        case Some(f) =>
          more := [if f(x, y) then (x, y) else (y, x)];
        case None =>
          more := [(x, y), (y, x)];
      }
      ElementsConcat(out, more);
      out := out + more;
      rest := rest - {y};
    }
    assert live - rest == live;
  }

  /**
   * `_sweep_and_prune_1d`: sweeps the events of one axis, pairing each
   * sphere that opens with every open one.
   */
  method Sweep1d<I(==)>(t: seq<(I, bool)>, lt: Option<(I, I) -> bool>) returns (out: seq<(I, I)>)
    ensures Elements(out) == Pairs1d(t, lt)
  {
    var live: set<I> := {};
    out := [];
    for k := 0 to |t|
      invariant live == OpenAfter(t[..k]) && Elements(out) == Pairs1d(t[..k], lt)
    {
      var (x, isOpen) := t[k];
      SweepStep(t, k, lt);
      if isOpen {
        var more := PairWithOpen(x, live, lt);
        ElementsConcat(out, more);
        out := out + more;
        live := live + {x};
      } else {
        live := live - {x};
      }
    }
    assert t[..|t|] == t;
  }

  /** The pairs found on the first `n` axes. */
  function Common<I(==)>(spheres: seq<(I, Sphere)>, lt: Option<(I, I) -> bool>, n: nat): set<(I, I)>
    requires 1 <= n <= 3
  {
    if n == 1 then Pairs1d(Map(Axis(spheres, 0), Tag), lt)
    else Common(spheres, lt, n - 1) * Pairs1d(Map(Axis(spheres, n - 1), Tag), lt)
  }

  lemma CommonThree<I>(spheres: seq<(I, Sphere)>, lt: Option<(I, I) -> bool>)
    ensures Common(spheres, lt, 3) == Pairs1d(Map(Axis(spheres, 0), Tag), lt) * Pairs1d(Map(Axis(spheres, 1), Tag), lt)
                                      * Pairs1d(Map(Axis(spheres, 2), Tag), lt)
  {
    assert Common(spheres, lt, 2) == Pairs1d(Map(Axis(spheres, 0), Tag), lt) * Pairs1d(Map(Axis(spheres, 1), Tag), lt);
  }

  /** `sweep_and_prune`: the pairs found by the sweep on all three axes. */
  method SweepAndPrune<I(==)>(spheres: seq<(I, Sphere)>, lt: Option<(I, I) -> bool>) returns (col: set<(I, I)>)
    ensures col == Pairs1d(Map(Axis(spheres, 0), Tag), lt) * Pairs1d(Map(Axis(spheres, 1), Tag), lt)
                   * Pairs1d(Map(Axis(spheres, 2), Tag), lt)
  {
    var ax := CreateAxes(spheres);
    var found := Sweep1d(Map(ax[0], Tag), lt);
    col := Elements(found);
    for dim := 1 to 3
      invariant col == Common(spheres, lt, dim)
    {
      found := Sweep1d(Map(ax[dim], Tag), lt);
      col := col * Elements(found);
    }
  }

  // ---------------------------------------------------------------- what one sweep finds

  /** Events where no tag repeats and every close comes after the open of the same id. */
  ghost predicate Nested<I>(t: seq<(I, bool)>) {
    Distinct(t) && forall j :: 0 <= j < |t| && !t[j].1 ==> (t[j].0, true) in t[..j]
  }

  lemma NestedPrefix<I>(t: seq<(I, bool)>, n: nat)
    requires Nested(t) && n <= |t|
    ensures Nested(t[..n])
  {
    forall j | 0 <= j < n && !t[j].1 ensures (t[j].0, true) in t[..n][..j] {
      assert t[..n][..j] == t[..j];
    }
  }

  /** On nested events, the open set holds exactly the ids that have opened and not closed. */
  lemma {:induction false} OpenMeaning<I>(t: seq<(I, bool)>, y: I)
    requires Nested(t)
    ensures y in OpenAfter(t) <==> (y, true) in t && (y, false) !in t
  {
    if t != [] {
      var init, e := t[..|t| - 1], t[|t| - 1];
      NestedPrefix(t, |t| - 1);
      OpenMeaning(init, y);
      assert t == init + [e];
    }
  }

  lemma NewPairsNone<I>(x: I, live: set<I>, a: I, b: I)
    ensures (a, b) in NewPairs(x, live, None) <==> (a == x && b in live) || (b == x && a in live)
  {
    if a == x && b in live {
      assert (a, b) in (set y | y in live :: (x, y));
    }
    if b == x && a in live {
      assert (a, b) in (set y | y in live :: (y, x));
    }
  }

  /** When `a` opens with `b` open: the event at `q` opens `a` while `b` is open. */
  ghost predicate OpensWith<I>(t: seq<(I, bool)>, q: int, a: I, b: I) {
    0 <= q < |t| && t[q] == (a, true) && b in OpenAfter(t[..q])
  }

  /** Without `comp_lt`, a pair is emitted exactly when one of its ids opens while the other is open. */
  lemma {:induction false} PairsMeaning<I>(t: seq<(I, bool)>, a: I, b: I)
    ensures (a, b) in Pairs1d(t, None) <==> exists q :: OpensWith(t, q, a, b) || OpensWith(t, q, b, a)
  {
    if t != [] {
      var init, e := t[..|t| - 1], t[|t| - 1];
      PairsMeaning(init, a, b);
      forall q | 0 <= q < |init|
        ensures OpensWith(t, q, a, b) == OpensWith(init, q, a, b)
        ensures OpensWith(t, q, b, a) == OpensWith(init, q, b, a)
      {
        assert t[..q] == init[..q];
      }
      assert t[..|init|] == init;
      if e.1 {
        NewPairsNone(e.0, OpenAfter(init), a, b);
        if a == e.0 && b in OpenAfter(init) {
          assert OpensWith(t, |init|, a, b);
        }
        if b == e.0 && a in OpenAfter(init) {
          assert OpensWith(t, |init|, b, a);
        }
      }
    }
  }

  /** Without `comp_lt`, every pair is emitted in both orders. */
  lemma PairsSymmetric<I>(t: seq<(I, bool)>, a: I, b: I)
    ensures (a, b) in Pairs1d(t, None) <==> (b, a) in Pairs1d(t, None)
  {
    PairsMeaning(t, a, b);
    PairsMeaning(t, b, a);
  }

  /** On nested events, no sphere is paired with itself. */
  lemma NoSelfPair<I>(t: seq<(I, bool)>, a: I)
    requires Nested(t)
    ensures (a, a) !in Pairs1d(t, None)
  {
    PairsMeaning(t, a, a);
    if q :| OpensWith(t, q, a, a) {
      NestedPrefix(t, q);
      OpenMeaning(t[..q], a);
      assert false;
    }
  }

  /** `comp_lt` orders any two distinct ids one way round. */
  ghost predicate Orders<I(!new)>(f: (I, I) -> bool) {
    forall x, y :: x != y ==> f(x, y) != f(y, x)
  }

  lemma {:induction false} OrientedMember<I(!new)>(t: seq<(I, bool)>, f: (I, I) -> bool, a: I, b: I)
    requires Nested(t) && Orders(f)
    ensures (a, b) in Pairs1d(t, Some(f)) <==> (a, b) in Pairs1d(t, None) && f(a, b)
  {
    if t != [] {
      var init, e := t[..|t| - 1], t[|t| - 1];
      NestedPrefix(t, |t| - 1);
      OrientedMember(init, f, a, b);
      if e.1 {
        var x, live := e.0, OpenAfter(init);
        NewPairsNone(x, live, a, b);
        DistinctPrefix(t);
        OpenMeaning(init, x);
        assert x !in live;
        if (a, b) in NewPairs(x, live, Some(f)) {
          var y :| y in live && (a, b) == Orient(x, y, f);
          assert x != y;
        }
        if a == x && b in live && f(a, b) {
          assert (a, b) == Orient(x, b, f);
        }
        if b == x && a in live && f(a, b) {
          assert a != x;
          assert (a, b) == Orient(x, a, f);
        }
      }
    }
  }

  // ---------------------------------------------------------------- what the axis lists hold

  /** No id is given to two spheres. */
  ghost predicate UniqueIds<I>(spheres: seq<(I, Sphere)>) {
    forall i, j :: 0 <= i < j < |spheres| ==> spheres[i].0 != spheres[j].0
  }

  /** Every radius is at least 0, so each sphere opens no later than it closes. */
  ghost predicate NonNegative<I>(spheres: seq<(I, Sphere)>) {
    forall j :: 0 <= j < |spheres| ==> spheres[j].1.r >= 0.0
  }

  /** `e` is the open or the close event of `b` on axis `dim`, as its flag says. */
  ghost predicate EventOf<I>(e: Event<I>, b: (I, Sphere), dim: nat)
    requires dim < 3
  {
    e == if e.open then OpenOf(b, dim) else CloseOf(b, dim)
  }

  lemma RawAt<I>(spheres: seq<(I, Sphere)>, dim: nat, m: nat) returns (j: nat)
    requires dim < 3 && m < 2 * |spheres|
    ensures j < |spheres| && EventOf(Raw(spheres, dim)[m], spheres[j], dim)
    ensures m == 2 * j + (if Raw(spheres, dim)[m].open then 0 else 1)
  {
    j := m / 2;
    if m % 2 == 0 {
      assert m == 2 * j;
    } else {
      assert m == 2 * j + 1;
    }
  }

  /** With unique ids, the events appended for the spheres are all different. */
  lemma RawDistinct<I>(spheres: seq<(I, Sphere)>, dim: nat)
    requires dim < 3 && UniqueIds(spheres)
    ensures Distinct(Raw(spheres, dim))
  {
    var raw := Raw(spheres, dim);
    forall m, m' | 0 <= m < m' < |raw| ensures raw[m] != raw[m'] {
      var j := RawAt(spheres, dim, m);
      var j' := RawAt(spheres, dim, m');
    }
  }

  /** With unique ids, the sorted axis list has no repeated event. */
  lemma AxisDistinct<I>(spheres: seq<(I, Sphere)>, dim: nat)
    requires dim < 3 && UniqueIds(spheres)
    ensures Distinct(Axis(spheres, dim))
  {
    AxisFacts(spheres, dim);
    RawDistinct(spheres, dim);
    DistinctPerm(Raw(spheres, dim), Axis(spheres, dim));
  }

  /** Every entry of an axis list is an event of one of the spheres. */
  lemma AxisEvent<I>(spheres: seq<(I, Sphere)>, dim: nat, k: nat) returns (j: nat)
    requires dim < 3 && k < |Axis(spheres, dim)|
    ensures j < |spheres| && EventOf(Axis(spheres, dim)[k], spheres[j], dim)
  {
    AxisFacts(spheres, dim);
    var raw := Raw(spheres, dim);
    assert Axis(spheres, dim)[k] in multiset(raw);
    var m :| 0 <= m < |raw| && raw[m] == Axis(spheres, dim)[k];
    j := RawAt(spheres, dim, m);
  }

  /** With unique ids, an entry carrying the id of sphere `i` is an event of sphere `i`. */
  lemma EventOfId<I>(spheres: seq<(I, Sphere)>, dim: nat, k: nat, i: nat)
    requires dim < 3 && UniqueIds(spheres) && k < |Axis(spheres, dim)| && i < |spheres|
    requires Axis(spheres, dim)[k].id == spheres[i].0
    ensures EventOf(Axis(spheres, dim)[k], spheres[i], dim)
  {
    var j := AxisEvent(spheres, dim, k);
  }

  /** Every open and close event of every sphere is in the axis list. */
  lemma EventIndex<I>(spheres: seq<(I, Sphere)>, dim: nat, i: nat, open: bool) returns (k: nat)
    requires dim < 3 && i < |spheres|
    ensures k < |Axis(spheres, dim)|
    ensures Axis(spheres, dim)[k] == if open then OpenOf(spheres[i], dim) else CloseOf(spheres[i], dim)
  {
    AxisFacts(spheres, dim);
    var raw := Raw(spheres, dim);
    var e := raw[if open then 2 * i else 2 * i + 1];
    assert e in multiset(Axis(spheres, dim));
    k :| 0 <= k < |Axis(spheres, dim)| && Axis(spheres, dim)[k] == e;
  }

  /**
   * A sphere opens before it closes. With a radius above 0 the coordinates
   * say so; with radius 0 both events have the same coordinate and the
   * stable sort keeps the open event, appended first, in front.
   */
  lemma OpenBeforeClose<I>(spheres: seq<(I, Sphere)>, dim: nat, i: nat, p: nat, c: nat)
    requires dim < 3 && UniqueIds(spheres) && NonNegative(spheres) && i < |spheres|
    requires p < |Axis(spheres, dim)| && Axis(spheres, dim)[p] == OpenOf(spheres[i], dim)
    requires c < |Axis(spheres, dim)| && Axis(spheres, dim)[c] == CloseOf(spheres[i], dim)
    ensures p < c
  {
    var srt, raw := Axis(spheres, dim), Raw(spheres, dim);
    AxisFacts(spheres, dim);
    AxisDistinct(spheres, dim);
    var b := spheres[i];
    if Lo(b.1, dim) == Hi(b.1, dim) {
      assert raw[2 * i] == OpenOf(b, dim) && raw[2 * i + 1] == CloseOf(b, dim);
      assert Precedes(raw, OpenOf(b, dim), CloseOf(b, dim));
      StableOrder(raw, At, OpenOf(b, dim), CloseOf(b, dim));
      var p', c' :| 0 <= p' < c' < |srt| && srt[p'] == OpenOf(b, dim) && srt[c'] == CloseOf(b, dim);
      DistinctIndex(srt, p, p');
      DistinctIndex(srt, c, c');
    }
  }

  /** With unique ids and radii at least 0, the events of an axis are nested. */
  lemma AxisNested<I>(spheres: seq<(I, Sphere)>, dim: nat)
    requires dim < 3 && UniqueIds(spheres) && NonNegative(spheres)
    ensures Nested(Map(Axis(spheres, dim), Tag))
  {
    var srt := Axis(spheres, dim);
    var t := Map(srt, Tag);
    AxisDistinct(spheres, dim);
    forall k, k' | 0 <= k < k' < |t| ensures t[k] != t[k'] {
      var j := AxisEvent(spheres, dim, k);
      if srt[k'].id == spheres[j].0 {
        EventOfId(spheres, dim, k', j);
      }
    }
    forall c | 0 <= c < |t| && !t[c].1 ensures (t[c].0, true) in t[..c] {
      var j := AxisEvent(spheres, dim, c);
      var p := EventIndex(spheres, dim, j, true);
      OpenBeforeClose(spheres, dim, j, p, c);
      assert t[..c][p] == t[p];
    }
  }

  lemma InPrefix<T>(s: seq<T>, n: nat, c: nat)
    requires n <= |s| && c < |s|
    ensures c < n ==> s[c] in s[..n]
  {
    if c < n {
      assert s[..n][c] == s[c];
    }
  }

  /** When sphere `j` opens after sphere `i` and before `i` closes, `j` opens while `i` is open. */
  lemma OpenWhileOpen<I>(spheres: seq<(I, Sphere)>, dim: nat, i: nat, j: nat, pi: nat, pj: nat)
    requires dim < 3 && UniqueIds(spheres) && NonNegative(spheres) && i < |spheres| && j < |spheres|
    requires pi < pj < |Axis(spheres, dim)|
    requires Axis(spheres, dim)[pi] == OpenOf(spheres[i], dim) && Axis(spheres, dim)[pj] == OpenOf(spheres[j], dim)
    requires Lo(spheres[j].1, dim) < Hi(spheres[i].1, dim)
    ensures OpensWith(Map(Axis(spheres, dim), Tag), pj, spheres[j].0, spheres[i].0)
  {
    var srt := Axis(spheres, dim);
    var t := Map(srt, Tag);
    var a := spheres[i].0;
    AxisFacts(spheres, dim);
    AxisNested(spheres, dim);
    NestedPrefix(t, pj);
    OpenMeaning(t[..pj], a);
    InPrefix(t, pj, pi);
    forall k | 0 <= k < pj ensures t[..pj][k] != (a, false) {
      ClosesLater(spheres, dim, i, k, pj);
      assert t[..pj][k] == Tag(srt[k]);
    }
  }

  /** A sphere that has not reached its close coordinate at event `pj` has not closed before it. */
  lemma ClosesLater<I>(spheres: seq<(I, Sphere)>, dim: nat, i: nat, k: nat, pj: nat)
    requires dim < 3 && UniqueIds(spheres) && i < |spheres| && k < pj < |Axis(spheres, dim)|
    requires At(Axis(spheres, dim)[pj]) < Hi(spheres[i].1, dim)
    ensures Tag(Axis(spheres, dim)[k]) != (spheres[i].0, false)
  {
    AxisFacts(spheres, dim);
    if Axis(spheres, dim)[k].id == spheres[i].0 {
      EventOfId(spheres, dim, k, i);
    }
  }

  /** On one axis, two spheres whose intervals overlap with positive length are paired. */
  lemma Overlapping<I>(spheres: seq<(I, Sphere)>, dim: nat, i: nat, j: nat)
    requires dim < 3 && UniqueIds(spheres) && NonNegative(spheres) && i < |spheres| && j < |spheres| && i != j
    requires Lo(spheres[i].1, dim) < Hi(spheres[j].1, dim) && Lo(spheres[j].1, dim) < Hi(spheres[i].1, dim)
    ensures (spheres[i].0, spheres[j].0) in Pairs1d(Map(Axis(spheres, dim), Tag), None)
  {
    var t := Map(Axis(spheres, dim), Tag);
    var pi := EventIndex(spheres, dim, i, true);
    var pj := EventIndex(spheres, dim, j, true);
    if pi < pj {
      OpenWhileOpen(spheres, dim, i, j, pi, pj);
    } else if pj < pi {
      OpenWhileOpen(spheres, dim, j, i, pj, pi);
    }
    PairsMeaning(t, spheres[i].0, spheres[j].0);
  }

  /** When `x` opens while `y` is open on nested events, `y` opened earlier and closes later. */
  lemma OpenedEarlier<I>(t: seq<(I, bool)>, q: int, x: I, y: I) returns (k: nat)
    requires Nested(t) && OpensWith(t, q, x, y)
    ensures k < q && t[k] == (y, true)
    ensures forall c :: 0 <= c < |t| && t[c] == (y, false) ==> q < c
  {
    NestedPrefix(t, q);
    OpenMeaning(t[..q], y);
    k :| 0 <= k < q && t[..q][k] == (y, true);
    forall c | 0 <= c < |t| && t[c] == (y, false) ensures q < c {
      InPrefix(t, q, c);
    }
  }

  /** When `x` opens while `y` is open, they are two spheres whose intervals touch on this axis. */
  lemma OpenedWhileOpen<I>(spheres: seq<(I, Sphere)>, dim: nat, q: int, x: I, y: I) returns (ix: nat, iy: nat)
    requires dim < 3 && UniqueIds(spheres) && NonNegative(spheres)
    requires OpensWith(Map(Axis(spheres, dim), Tag), q, x, y)
    ensures ix < |spheres| && iy < |spheres| && ix != iy && spheres[ix].0 == x && spheres[iy].0 == y
    ensures Lo(spheres[ix].1, dim) <= Hi(spheres[iy].1, dim) && Lo(spheres[iy].1, dim) <= Hi(spheres[ix].1, dim)
  {
    var srt := Axis(spheres, dim);
    var t := Map(srt, Tag);
    AxisNested(spheres, dim);
    var k := OpenedEarlier(t, q, x, y);
    AxisFacts(spheres, dim);
    AxisDistinct(spheres, dim);
    ix := AxisEvent(spheres, dim, q);
    iy := AxisEvent(spheres, dim, k);
    DistinctIndex(srt, k, q);
    var c := EventIndex(spheres, dim, iy, false);
    assert t[c] == (y, false);
  }

  /** On one axis, a pair found without `comp_lt` is two spheres whose intervals touch. */
  lemma PairedOverlap<I>(spheres: seq<(I, Sphere)>, dim: nat, a: I, b: I) returns (i: nat, j: nat)
    requires dim < 3 && UniqueIds(spheres) && NonNegative(spheres)
    requires (a, b) in Pairs1d(Map(Axis(spheres, dim), Tag), None)
    ensures i < |spheres| && j < |spheres| && i != j && spheres[i].0 == a && spheres[j].0 == b
    ensures Lo(spheres[i].1, dim) <= Hi(spheres[j].1, dim) && Lo(spheres[j].1, dim) <= Hi(spheres[i].1, dim)
  {
    var t := Map(Axis(spheres, dim), Tag);
    PairsMeaning(t, a, b);
    var q :| OpensWith(t, q, a, b) || OpensWith(t, q, b, a);
    if OpensWith(t, q, a, b) {
      i, j := OpenedWhileOpen(spheres, dim, q, a, b);
    } else {
      j, i := OpenedWhileOpen(spheres, dim, q, b, a);
    }
  }

  // ---------------------------------------------------------------- all three axes

  /** The boxes of two spheres meet on every axis, boundaries included. */
  ghost predicate Touching(s0: Sphere, s1: Sphere) {
    forall dim :: 0 <= dim < 3 ==> Lo(s0, dim) <= Hi(s1, dim) && Lo(s1, dim) <= Hi(s0, dim)
  }

  /** The boxes of two spheres overlap with positive volume. */
  ghost predicate Overlap(s0: Sphere, s1: Sphere) {
    forall dim :: 0 <= dim < 3 ==> Lo(s0, dim) < Hi(s1, dim) && Lo(s1, dim) < Hi(s0, dim)
  }

  /** Every candidate of the broad phase is two different spheres whose boxes touch. */
  lemma BroadPhaseSound<I>(spheres: seq<(I, Sphere)>, a: I, b: I) returns (i: nat, j: nat)
    requires UniqueIds(spheres) && NonNegative(spheres) && (a, b) in Common(spheres, None, 3)
    ensures i < |spheres| && j < |spheres| && i != j && spheres[i].0 == a && spheres[j].0 == b
    ensures Touching(spheres[i].1, spheres[j].1)
  {
    CommonThree(spheres, None);
    i, j := PairedOverlap(spheres, 0, a, b);
    var i1, j1 := PairedOverlap(spheres, 1, a, b);
    var i2, j2 := PairedOverlap(spheres, 2, a, b);
    SameIndex(spheres, i, i1);
    SameIndex(spheres, j, j1);
    SameIndex(spheres, i, i2);
    SameIndex(spheres, j, j2);
  }

  lemma SameIndex<I>(spheres: seq<(I, Sphere)>, i: nat, i': nat)
    requires UniqueIds(spheres) && i < |spheres| && i' < |spheres|
    ensures spheres[i].0 == spheres[i'].0 <==> i == i'
  {
  }

  /** Two different spheres whose boxes overlap are a candidate of the broad phase, in both orders. */
  lemma BroadPhaseComplete<I>(spheres: seq<(I, Sphere)>, i: nat, j: nat)
    requires UniqueIds(spheres) && NonNegative(spheres) && i < |spheres| && j < |spheres| && i != j
    requires Overlap(spheres[i].1, spheres[j].1)
    ensures (spheres[i].0, spheres[j].0) in Common(spheres, None, 3)
  {
    CommonThree(spheres, None);
    forall dim | 0 <= dim < 3 ensures (spheres[i].0, spheres[j].0) in Pairs1d(Map(Axis(spheres, dim), Tag), None) {
      Overlapping(spheres, dim, i, j);
    }
  }

  /** Without `comp_lt`, the broad phase holds every pair in both orders. */
  lemma BroadPhaseSymmetric<I>(spheres: seq<(I, Sphere)>, a: I, b: I)
    ensures (a, b) in Common(spheres, None, 3) <==> (b, a) in Common(spheres, None, 3)
  {
    CommonThree(spheres, None);
    PairsSymmetric(Map(Axis(spheres, 0), Tag), a, b);
    PairsSymmetric(Map(Axis(spheres, 1), Tag), a, b);
    PairsSymmetric(Map(Axis(spheres, 2), Tag), a, b);
  }

  /** With `comp_lt`, the broad phase holds each pair once, the smaller id first. */
  lemma BroadPhaseOriented<I(!new)>(spheres: seq<(I, Sphere)>, f: (I, I) -> bool, a: I, b: I)
    requires UniqueIds(spheres) && NonNegative(spheres) && Orders(f)
    ensures (a, b) in Common(spheres, Some(f), 3) <==> (a, b) in Common(spheres, None, 3) && f(a, b)
  {
    CommonThree(spheres, None);
    CommonThree(spheres, Some(f));
    AxisNested(spheres, 0);
    AxisNested(spheres, 1);
    AxisNested(spheres, 2);
    OrientedMember(Map(Axis(spheres, 0), Tag), f, a, b);
    OrientedMember(Map(Axis(spheres, 1), Tag), f, a, b);
    OrientedMember(Map(Axis(spheres, 2), Tag), f, a, b);
  }

  // ---------------------------------------------------------------- narrow phase

  function Sq(v: real): real {
    v * v
  }

  /** The test of `strict_collision`: the centres are closer than the sum of the radii. */
  predicate Collides(s0: Sphere, s1: Sphere) {
    Sq(s0.pos.x - s1.pos.x) + Sq(s0.pos.y - s1.pos.y) + Sq(s0.pos.z - s1.pos.z) < Sq(s0.r + s1.r)
  }

  lemma CollidesSymmetric(s0: Sphere, s1: Sphere)
    ensures Collides(s0, s1) <==> Collides(s1, s0)
  {
    assert Sq(s0.pos.x - s1.pos.x) == Sq(s1.pos.x - s0.pos.x);
    assert Sq(s0.pos.y - s1.pos.y) == Sq(s1.pos.y - s0.pos.y);
    assert Sq(s0.pos.z - s1.pos.z) == Sq(s1.pos.z - s0.pos.z);
  }

  lemma SqBelow(v: real, c: real)
    requires c >= 0.0 && Sq(v) < Sq(c)
    ensures v < c && -v < c
  {
  }

  /** Spheres with radii at least 0 that collide have boxes that overlap on every axis. */
  lemma CollidesOverlap(s0: Sphere, s1: Sphere)
    requires s0.r >= 0.0 && s1.r >= 0.0 && Collides(s0, s1)
    ensures Overlap(s0, s1)
  {
    var dx, dy, dz := s0.pos.x - s1.pos.x, s0.pos.y - s1.pos.y, s0.pos.z - s1.pos.z;
    assert Sq(dx) >= 0.0 && Sq(dy) >= 0.0 && Sq(dz) >= 0.0;
    SqBelow(dx, s0.r + s1.r);
    SqBelow(dy, s0.r + s1.r);
    SqBelow(dz, s0.r + s1.r);
  }

  /** `strict_collision`: the candidate pairs that pass the test, in their order. */
  function StrictCollision<I(==)>(broad: seq<(I, I)>, sphereOf: I -> Sphere): (r: seq<(I, I)>)
    ensures forall k :: 0 <= k < |r| ==> r[k] in broad && Collides(sphereOf(r[k].0), sphereOf(r[k].1))
    ensures forall k :: 0 <= k < |broad| && Collides(sphereOf(broad[k].0), sphereOf(broad[k].1)) ==> broad[k] in r
    ensures Distinct(broad) ==> Distinct(r)
  {
    if broad == [] then []
    else
      var init, p := broad[..|broad| - 1], broad[|broad| - 1];
      assert broad == init + [p];
      var rest := StrictCollision(init, sphereOf);
      if Collides(sphereOf(p.0), sphereOf(p.1)) then
        assert Distinct(broad) ==> p !in init;
        rest + [p]
      else rest
  }

  /** `col_dict` after the pairs `pairs`: each first id maps to its partners in order. */
  function Grouped<I(==)>(pairs: seq<(I, I)>): map<I, seq<I>> {
    if pairs == [] then map[]
    else
      var g, p := Grouped(pairs[..|pairs| - 1]), pairs[|pairs| - 1];
      g[p.0 := (if p.0 in g then g[p.0] else []) + [p.1]]
  }

  /** `col_dict` lists exactly the pairs, every list is non-empty, and no partner repeats when no pair does. */
  lemma {:induction false} GroupedMeaning<I>(pairs: seq<(I, I)>, a: I)
    ensures a in Grouped(pairs) ==> Grouped(pairs)[a] != []
    ensures forall b :: (a in Grouped(pairs) && b in Grouped(pairs)[a]) <==> (a, b) in pairs
    ensures Distinct(pairs) && a in Grouped(pairs) ==> Distinct(Grouped(pairs)[a])
  {
    if pairs != [] {
      var init, p := pairs[..|pairs| - 1], pairs[|pairs| - 1];
      GroupedMeaning(init, a);
      assert pairs == init + [p];
      if Distinct(pairs) {
        DistinctPrefix(pairs);
      }
    }
  }

  lemma GroupedSnoc<I>(pairs: seq<(I, I)>, k: nat)
    requires k < |pairs|
    ensures Grouped(pairs[..k + 1]) == var g := Grouped(pairs[..k]);
              g[pairs[k].0 := (if pairs[k].0 in g then g[pairs[k].0] else []) + [pairs[k].1]]
  {
    assert pairs[..k + 1][..k] == pairs[..k];
  }

  /** The loop of `create_strict_collided_dict` that fills `col_dict`. */
  method CollectPairs<I(==)>(pairs: seq<(I, I)>) returns (d: map<I, seq<I>>)
    ensures d == Grouped(pairs)
  {
    d := map[];
    for k := 0 to |pairs|
      invariant d == Grouped(pairs[..k])
    {
      GroupedSnoc(pairs, k);
      var (id0, id1) := pairs[k];
      if id0 !in d {
        d := d[id0 := []];
      }
      d := d[id0 := d[id0] + [id1]];
    }
    assert pairs[..|pairs|] == pairs;
  }

  /** The iteration of a set, in an order the model leaves open. */
  method SetToSeq<T(==)>(s: set<T>) returns (r: seq<T>)
    ensures Elements(r) == s && Distinct(r)
  {
    r := [];
    var rest := s;
    while rest != {}
      invariant rest <= s && Elements(r) == s - rest && Distinct(r)
      decreases |rest|
    {
      var x :| x in rest;
      DistinctSnoc(r, x);
      ElementsConcat(r, [x]);
      r := r + [x];
      rest := rest - {x};
    }
  }

  /** The spheres `(i, id_to_sphere(i))` handed to the broad phase. */
  function Bodies<I>(ids: seq<I>, sphereOf: I -> Sphere): (r: seq<(I, Sphere)>)
    ensures |r| == |ids| && forall k :: 0 <= k < |ids| ==> r[k] == (ids[k], sphereOf(ids[k]))
  {
    Map(ids, i => (i, sphereOf(i)))
  }

  /** Every sphere named by `ids` has a radius of at least 0. */
  ghost predicate RadiiNonNegative<I>(ids: seq<I>, sphereOf: I -> Sphere) {
    forall k :: 0 <= k < |ids| ==> sphereOf(ids[k]).r >= 0.0
  }

  lemma BodiesFacts<I>(ids: seq<I>, sphereOf: I -> Sphere)
    requires Distinct(ids) && RadiiNonNegative(ids, sphereOf)
    ensures UniqueIds(Bodies(ids, sphereOf)) && NonNegative(Bodies(ids, sphereOf))
  {
  }

  /** A candidate of the broad phase is a pair of different listed spheres. */
  lemma CandidateListed<I>(ids: seq<I>, sphereOf: I -> Sphere, a: I, b: I)
    requires Distinct(ids) && RadiiNonNegative(ids, sphereOf)
    requires (a, b) in Common(Bodies(ids, sphereOf), None, 3)
    ensures a in ids && b in ids && a != b
  {
    BodiesFacts(ids, sphereOf);
    var i, j := BroadPhaseSound(Bodies(ids, sphereOf), a, b);
    assert a == ids[i] && b == ids[j];
  }

  /** Two different listed spheres that collide are a candidate of the broad phase. */
  lemma CollidingCandidate<I>(ids: seq<I>, sphereOf: I -> Sphere, a: I, b: I)
    requires Distinct(ids) && RadiiNonNegative(ids, sphereOf)
    requires a in ids && b in ids && a != b && Collides(sphereOf(a), sphereOf(b))
    ensures (a, b) in Common(Bodies(ids, sphereOf), None, 3)
  {
    BodiesFacts(ids, sphereOf);
    var i :| 0 <= i < |ids| && ids[i] == a;
    var j :| 0 <= j < |ids| && ids[j] == b;
    CollidesOverlap(sphereOf(a), sphereOf(b));
    BroadPhaseComplete(Bodies(ids, sphereOf), i, j);
  }

  /**
   * With distinct ids and radii at least 0, a candidate that passes the strict
   * test is exactly a pair of different listed spheres that collide.
   */
  lemma CollidedExactly<I>(ids: seq<I>, sphereOf: I -> Sphere, a: I, b: I)
    requires Distinct(ids) && RadiiNonNegative(ids, sphereOf)
    ensures (a, b) in Common(Bodies(ids, sphereOf), None, 3) && Collides(sphereOf(a), sphereOf(b))
            <==> a in ids && b in ids && a != b && Collides(sphereOf(a), sphereOf(b))
  {
    if (a, b) in Common(Bodies(ids, sphereOf), None, 3) {
      CandidateListed(ids, sphereOf, a, b);
    }
    if a in ids && b in ids && a != b && Collides(sphereOf(a), sphereOf(b)) {
      CollidingCandidate(ids, sphereOf, a, b);
    }
  }

  /**
   * `create_strict_collided_dict`: maps each id to the ids it collides with,
   * from the candidates of the broad phase that pass the strict test.
   */
  method CreateStrictCollidedDict<I(==)>(ids: seq<I>, sphereOf: I -> Sphere) returns (d: map<I, seq<I>>)
    ensures forall a, b :: (a in d && b in d[a])
                           <==> (a, b) in Common(Bodies(ids, sphereOf), None, 3) && Collides(sphereOf(a), sphereOf(b))
    ensures forall a :: a in d ==> d[a] != [] && Distinct(d[a])
  {
    var broad := SweepAndPrune(Bodies(ids, sphereOf), None);
    CommonThree(Bodies(ids, sphereOf), None);
    var order := SetToSeq(broad);
    var strict := StrictCollision(order, sphereOf);
    d := CollectPairs(strict);
    forall a | true
      ensures forall b :: (a in d && b in d[a]) <==> (a, b) in strict
      ensures a in d ==> d[a] != [] && Distinct(d[a])
    {
      GroupedMeaning(strict, a);
    }
  }
}
