/**
 * `expand_idxs_float` (index3d.py): grows a set of lattice indices by a
 * margin. Each index that has a face neighbour outside the set (and not on
 * the box's edge along that axis) contributes every point of the ball of the
 * margin around it that lies in the box. The margin is given by its square
 * as an integer, and the set's iteration order is a parameter.
 */
module Expand {
  import opened Wrappers
  import opened Seqs
  import opened Index3d
  import Index2d

  /** One entry of `neg_diff_idxs`: the neighbour's offset, the axis it moves along and the box edge on that axis. */
  datatype Side = Side(offset: Index3, axis: nat, edge: int)

  /** The six face neighbours in the order the source tries them. */
  function Sides(box: Box): (r: seq<Side>)
    ensures |r| == 6
  {
    [ Side((1, 0, 0), 0, box.1.0 + box.0.0),
      Side((0, 1, 0), 1, box.1.1 + box.0.1),
      Side((0, 0, 1), 2, box.1.2 + box.0.2),
      Side((-1, 0, 0), 0, box.0.0),
      Side((0, -1, 0), 1, box.0.1),
      Side((0, 0, -1), 2, box.0.2) ]
  }

  /** `idx[ax]`. */
  function Coord(x: Index3, axis: nat): int {
    if axis == 0 then x.0 else if axis == 1 then x.1 else x.2
  }

  /** The neighbour on this side is in neither set and `idx` is not on the side's edge. */
  predicate Missing(idx: Index3, side: Side, idxs: set<Index3>, added: set<Index3>) {
    var n := Add(idx, side.offset);
    !(n in idxs || n in added || Coord(idx, side.axis) == side.edge)
  }

  predicate HasMissing(idx: Index3, box: Box, idxs: set<Index3>, added: set<Index3>) {
    exists k :: 0 <= k < 6 && Missing(idx, Sides(box)[k], idxs, added)
  }

  /** The box seen from `idx`: the offsets `o` with `idx + o` in `box`. */
  function Relative(box: Box, idx: Index3): Box {
    ((box.0.0 - idx.0, box.0.1 - idx.1, box.0.2 - idx.2), box.1)
  }

  function Diff(a: Index3, b: Index3): Index3 {
    (a.0 - b.0, a.1 - b.1, a.2 - b.2)
  }

  /** The points `idx + o` for the offsets `o` of `offs`, leaving out members of `idxs`. */
  function Shifted(offs: seq<Index3>, idx: Index3, idxs: set<Index3>): set<Index3> {
    set o | o in offs && Add(idx, o) !in idxs :: Add(idx, o)
  }

  /** What one index with a missing neighbour adds: the ball of the margin around it, clipped to the box. */
  function Grown(idx: Index3, r2: nat, box: Box, idxs: set<Index3>): set<Index3> {
    Shifted(SphereAndBox(r2, Relative(box, idx)), idx, idxs)
  }

  /** `new_idx_set` once the loop has visited the indices of `order`. */
  function Added(order: seq<Index3>, idxs: set<Index3>, r2: nat, box: Box): set<Index3>
    decreases |order|
  {
    if order == [] then {}
    else
      var prev := Added(order[..|order| - 1], idxs, r2, box);
      var idx := order[|order| - 1];
      if HasMissing(idx, box, idxs, prev) then prev + Grown(idx, r2, box, idxs) else prev
  }

  /** `_MAX_BOX`, the box used when none is given, as the source writes it: it starts at +2^61 on every axis. */
  const MaxBox: Box := ((0x2000_0000_0000_0000, 0x2000_0000_0000_0000, 0x2000_0000_0000_0000),
                        (0x4000_0000_0000_0000, 0x4000_0000_0000_0000, 0x4000_0000_0000_0000))

  /** The box evidently meant: the same size, centred on the origin. */
  const CentredBox: Box := ((-0x2000_0000_0000_0000, -0x2000_0000_0000_0000, -0x2000_0000_0000_0000),
                            (0x4000_0000_0000_0000, 0x4000_0000_0000_0000, 0x4000_0000_0000_0000))

  function BoxOr(box: Option<Box>): Box {
    if box.Some? then box.value else CentredBox
  }

  /** Membership in `Shifted`. */
  lemma ShiftedMembers(offs: seq<Index3>, idx: Index3, idxs: set<Index3>, x: Index3)
    ensures x in Shifted(offs, idx, idxs) <==> x !in idxs && Diff(x, idx) in offs
  {
    if x !in idxs && Diff(x, idx) in offs {
      assert Add(idx, Diff(x, idx)) == x;
    }
  }

  lemma ShiftedSnoc(offs: seq<Index3>, o: Index3, idx: Index3, idxs: set<Index3>)
    ensures Shifted(offs + [o], idx, idxs) ==
      Shifted(offs, idx, idxs) + (if Add(idx, o) in idxs then {} else {Add(idx, o)})
  {
    forall x ensures x in Shifted(offs + [o], idx, idxs) <==>
      x in Shifted(offs, idx, idxs) || (x == Add(idx, o) && x !in idxs)
    {
      ShiftedMembers(offs + [o], idx, idxs, x);
      ShiftedMembers(offs, idx, idxs, x);
      assert Diff(x, idx) in offs + [o] <==> Diff(x, idx) in offs || Diff(x, idx) == o;
    }
  }

  lemma RelativeBox(box: Box, idx: Index3, x: Index3)
    ensures InBox(Relative(box, idx), Diff(x, idx)) <==> InBox(box, x)
  {
  }

  /** A point is grown from `idx` exactly when it is new, in the box and within the margin of `idx`. */
  lemma GrownMembers(idx: Index3, r2: nat, box: Box, idxs: set<Index3>, x: Index3)
    ensures x in Grown(idx, r2, box, idxs) <==> x !in idxs && InBox(box, x) && Norm(Diff(x, idx)) <= r2
  {
    ShiftedMembers(SphereAndBox(r2, Relative(box, idx)), idx, idxs, x);
    SphereAndBoxMembers(r2, Relative(box, idx), Diff(x, idx));
    RelativeBox(box, idx, x);
  }

  /** Every added point is new, lies in the box and is within the margin of some visited index. */
  lemma {:induction false} AddedSound(order: seq<Index3>, idxs: set<Index3>, r2: nat, box: Box, x: Index3)
    requires x in Added(order, idxs, r2, box)
    ensures x !in idxs && InBox(box, x)
    ensures exists i :: 0 <= i < |order| && Norm(Diff(x, order[i])) <= r2
    decreases |order|
  {
    var init := order[..|order| - 1];
    var idx := order[|order| - 1];
    if x in Added(init, idxs, r2, box) {
      AddedSound(init, idxs, r2, box, x);
      var i :| 0 <= i < |init| && Norm(Diff(x, init[i])) <= r2;
      assert order[i] == init[i];
    } else {
      GrownMembers(idx, r2, box, idxs, x);
    }
  }

  /** The added set only grows along the loop. */
  lemma {:induction false} AddedGrows(order: seq<Index3>, k: nat, idxs: set<Index3>, r2: nat, box: Box)
    requires k <= |order|
    ensures Added(order[..k], idxs, r2, box) <= Added(order, idxs, r2, box)
    decreases |order|
  {
    if k < |order| {
      var init := order[..|order| - 1];
      assert init[..k] == order[..k];
      AddedGrows(init, k, idxs, r2, box);
    } else {
      assert order[..k] == order;
    }
  }

  /**
   * An index with a neighbour that ends up in neither set, and that is not on
   * the box's edge along that neighbour's axis, contributes all of its ball.
   */
  lemma AddedComplete(order: seq<Index3>, i: nat, k: nat, idxs: set<Index3>, r2: nat, box: Box)
    requires i < |order| && k < 6
    requires Add(order[i], Sides(box)[k].offset) !in idxs
    requires Add(order[i], Sides(box)[k].offset) !in Added(order, idxs, r2, box)
    requires Coord(order[i], Sides(box)[k].axis) != Sides(box)[k].edge
    ensures Grown(order[i], r2, box, idxs) <= Added(order, idxs, r2, box)
  {
    var pre := order[..i + 1];
    assert pre[..i] == order[..i];
    AddedGrows(order, i, idxs, r2, box);
    AddedGrows(order, i + 1, idxs, r2, box);
    assert Missing(order[i], Sides(box)[k], idxs, Added(order[..i], idxs, r2, box));
  }

  /** The inner loop: adds the ball around `idx`, clipped to the box, to `added`. */
  method Grow(idx: Index3, r2: nat, box: Box, idxs: set<Index3>, added: set<Index3>) returns (r: set<Index3>)
    ensures r == added + Grown(idx, r2, box, idxs)
  {
    r := AddShifted(SphereAndBox(r2, Relative(box, idx)), idx, idxs, added);
  }

  /** `for add_idx in offs: add_idx = add(idx, add_idx); if add_idx not in idxs: new_idx_set.add(add_idx)`. */
  method AddShifted(offs: seq<Index3>, idx: Index3, idxs: set<Index3>, added: set<Index3>) returns (r: set<Index3>)
    ensures r == added + Shifted(offs, idx, idxs)
  {
    r := added;
    var j := 0;
    while j < |offs|
      invariant 0 <= j <= |offs|
      invariant r == added + Shifted(offs[..j], idx, idxs)
    {
      var x := Add(idx, offs[j]);
      ShiftedSnoc(offs[..j], offs[j], idx, idxs);
      assert offs[..j + 1] == offs[..j] + [offs[j]];
      if x !in idxs {
        r := r + {x};
      }
      j := j + 1;
    }
    assert offs[..j] == offs;
  }

  /** One pass of the outer loop: try the six sides in order and grow at the first missing one. */
  method Visit(idx: Index3, r2: nat, box: Box, idxs: set<Index3>, added: set<Index3>) returns (r: set<Index3>)
    ensures r == if HasMissing(idx, box, idxs, added) then added + Grown(idx, r2, box, idxs) else added
  {
    var sides := Sides(box);
    r := added;
    var k := 0;
    while k < 6
      invariant 0 <= k <= 6
      invariant r == added
      invariant forall j :: 0 <= j < k ==> !Missing(idx, sides[j], idxs, added)
    {
      var n := Add(idx, sides[k].offset);
      if !(n in idxs || n in added || Coord(idx, sides[k].axis) == sides[k].edge) {
        r := Grow(idx, r2, box, idxs, added);
        break;
      }
      k := k + 1;
    }
  }

  /** `expand_idxs_float` for a given box, visiting the set in the order `order`. */
  method ExpandInBox(order: seq<Index3>, r2: nat, box: Box) returns (r: set<Index3>)
    ensures r == Elements(order) + Added(order, Elements(order), r2, box)
  {
    var idxs := Elements(order);
    var added: set<Index3> := {};
    var i := 0;
    while i < |order|
      invariant 0 <= i <= |order|
      invariant added == Added(order[..i], idxs, r2, box)
    {
      assert order[..i + 1][..i] == order[..i];
      added := Visit(order[i], r2, box, idxs, added);
      i := i + 1;
    }
    assert order[..i] == order;
    r := idxs + added;
  }

  /** `expand_idxs_float`: the result contains the input and only adds points of the box within the margin of an input index. */
  method ExpandIdxs(order: seq<Index3>, r2: nat, box: Option<Box>) returns (r: set<Index3>)
    ensures r == Elements(order) + Added(order, Elements(order), r2, BoxOr(box))
    ensures Elements(order) <= r
  {
    r := ExpandInBox(order, r2, BoxOr(box));
  }

  /** With the box as written, nothing left of +2^61 on any axis is ever added. */
  lemma MaxBoxFar(order: seq<Index3>, idxs: set<Index3>, r2: nat, x: Index3)
    requires x in Added(order, idxs, r2, MaxBox)
    ensures x.0 >= 0x2000_0000_0000_0000 && x.1 >= 0x2000_0000_0000_0000 && x.2 >= 0x2000_0000_0000_0000
  {
    AddedSound(order, idxs, r2, MaxBox, x);
  }

  /**
   * With the box as written, a set whose indices all lie more than the margin
   * below 2^61 on axis 0 gains nothing: the expansion is the identity there.
   */
  lemma MaxBoxAddsNothing(order: seq<Index3>, idxs: set<Index3>, r2: nat)
    requires forall i :: 0 <= i < |order| ==> order[i].0 + r2 < 0x2000_0000_0000_0000
    ensures Added(order, idxs, r2, MaxBox) == {}
  {
    forall x | x in Added(order, idxs, r2, MaxBox) ensures false {
      AddedSound(order, idxs, r2, MaxBox, x);
      assert false;
    }
  }

  /** With the centred box, a lone index well inside it is expanded: it gains its neighbour along axis 0. */
  lemma CentredBoxGrows(idx: Index3, r2: nat)
    requires r2 >= 1
    requires -0x2000_0000_0000_0000 <= idx.0 < 0x2000_0000_0000_0000
    requires -0x2000_0000_0000_0000 <= idx.1 <= 0x2000_0000_0000_0000
    requires -0x2000_0000_0000_0000 <= idx.2 <= 0x2000_0000_0000_0000
    ensures Add(idx, (1, 0, 0)) in Added([idx], {idx}, r2, CentredBox)
  {
    var x := Add(idx, (1, 0, 0));
    assert Diff(x, idx) == (1, 0, 0);
    GrownMembers(idx, r2, CentredBox, {idx}, x);
    SingleGrows(idx, r2, CentredBox, 0, x);
  }

  /** A lone index with a missing neighbour grows its whole ball. */
  lemma SingleGrows(idx: Index3, r2: nat, box: Box, k: nat, x: Index3)
    requires k < 6 && Missing(idx, Sides(box)[k], {idx}, {})
    requires x in Grown(idx, r2, box, {idx})
    ensures x in Added([idx], {idx}, r2, box)
  {
    assert [idx][..0] == [];
  }
}
