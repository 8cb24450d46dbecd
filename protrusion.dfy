/**
 * Protrusion of a patch of residues (`scorecalc/protrusion.py`).
 *
 * An atom protrudes when fewer than 120 other atom centres lie at a distance
 * of at least 8 and below 12 from it; a residue protrudes when at least half
 * of its atoms do; the protrusion of a patch is the share of its residues
 * that protrude. The distances of the atoms inside a sphere come from a
 * callable, here the function `dIn(centre, radius)`.
 */
module Protrusion {
  import opened Wrappers
  import opened Seqs

  /** The radius of the sphere queried around an atom. */
  const Radius: real := 12.0
  /** Distances below this one do not count. */
  const Near: real := 8.0
  /** An atom with this many distant neighbours does not protrude. */
  const Crowd: nat := 120

  /** The number of distances that are at least `Near`. */
  function FarCount(ds: seq<real>): (n: nat)
    ensures n <= |ds|
  {
    if ds == [] then 0
    else FarCount(ds[..|ds| - 1]) + (if ds[|ds| - 1] >= Near then 1 else 0)
  }

  /** Counting a prefix never gives more than counting the whole. */
  lemma {:induction false} FarCountPrefix(ds: seq<real>, j: nat)
    requires j <= |ds|
    ensures FarCount(ds[..j]) <= FarCount(ds)
    decreases |ds|
  {
    if j < |ds| {
      var n := |ds| - 1;
      assert ds[..n][..j] == ds[..j];
      FarCountPrefix(ds[..n], j);
    } else {
      assert ds[..j] == ds;
    }
  }

  /** The atom at `pos` protrudes. */
  predicate AtomProtrudes<P>(pos: P, dIn: (P, real) -> seq<real>) {
    FarCount(dIn(pos, Radius)) < Crowd
  }

  /** `_calc_atom_protrusion`: counts the distant neighbours and gives up at the 120th. */
  method CalcAtomProtrusion<P>(pos: P, dIn: (P, real) -> seq<real>) returns (b: bool)
    ensures b <==> FarCount(dIn(pos, Radius)) < Crowd
  {
    var ds := dIn(pos, Radius);
    var count := 0;
    for j := 0 to |ds|
      invariant count == FarCount(ds[..j]) && count < Crowd
    {
      assert ds[..j + 1][..j] == ds[..j];
      if ds[j] >= Near {
        count := count + 1;
        if count >= Crowd {
          FarCountPrefix(ds, j + 1);
          return false;
        }
      }
    }
    assert ds[..|ds|] == ds;
    return true;
  }

  /** The number of protruding atoms among `positions`. */
  function CountProtruding<P>(positions: seq<P>, dIn: (P, real) -> seq<real>): (n: nat)
    ensures n <= |positions|
  {
    if positions == [] then 0
    else
      var n := |positions| - 1;
      CountProtruding(positions[..n], dIn) + (if AtomProtrudes(positions[n], dIn) then 1 else 0)
  }

  /** The residue with atoms at `positions` protrudes: at least half of its atoms do. */
  predicate ResidueProtrudes<P>(positions: seq<P>, dIn: (P, real) -> seq<real>) {
    2 * CountProtruding(positions, dIn) >= |positions|
  }

  /** `_calc_residue_protrusion`; a residue without atoms protrudes. */
  method CalcResidueProtrusion<P>(positions: seq<P>, dIn: (P, real) -> seq<real>) returns (b: bool)
    ensures b <==> 2 * CountProtruding(positions, dIn) >= |positions|
    ensures positions == [] ==> b
  {
    var allCount := 0;
    var protrudeCount := 0;
    for j := 0 to |positions|
      invariant allCount == j && protrudeCount == CountProtruding(positions[..j], dIn)
    {
      assert positions[..j + 1][..j] == positions[..j];
      var p := CalcAtomProtrusion(positions[j], dIn);
      if p {
        protrudeCount := protrudeCount + 1;
      }
      allCount := allCount + 1;
    }
    assert positions[..|positions|] == positions;
    b := protrudeCount * 2 >= allCount;
  }

  /** The atom positions of residue `r`. */
  function Positions<P>(r: int, atomToPos: int -> P, resToAtom: int -> seq<int>): seq<P> {
    Map(resToAtom(r), atomToPos)
  }

  /** The number of protruding residues among `residues`. */
  function CountResidues<P>(residues: seq<int>, atomToPos: int -> P, resToAtom: int -> seq<int>,
                            dIn: (P, real) -> seq<real>): (n: nat)
    ensures n <= |residues|
  {
    if residues == [] then 0
    else
      var n := |residues| - 1;
      CountResidues(residues[..n], atomToPos, resToAtom, dIn)
        + (if ResidueProtrudes(Positions(residues[n], atomToPos, resToAtom), dIn) then 1 else 0)
  }

  /**
   * `calc_patch_protrusion`: the share of protruding residues, a number in
   * [0, 1]; `None` for an empty patch.
   */
  method CalcPatchProtrusion<P>(residues: seq<int>, atomToPos: int -> P, resToAtom: int -> seq<int>,
                                dIn: (P, real) -> seq<real>)
    returns (r: Option<real>)
    ensures r.None? <==> residues == []
    ensures r.Some? ==> r.value == Share(CountResidues(residues, atomToPos, resToAtom, dIn), |residues|)
  {
    var allCount := 0;
    var protrudeCount := 0;
    for j := 0 to |residues|
      invariant allCount == j && protrudeCount == CountResidues(residues[..j], atomToPos, resToAtom, dIn)
    {
      assert residues[..j + 1][..j] == residues[..j];
      var p := CalcResidueProtrusion(Positions(residues[j], atomToPos, resToAtom), dIn);
      if p {
        protrudeCount := protrudeCount + 1;
      }
      allCount := allCount + 1;
    }
    assert residues[..|residues|] == residues;
    if allCount > 0 {
      r := Some(Share(protrudeCount, allCount));
    } else {
      r := None;
    }
  }

  /** A count out of a positive total, as a share: a number in [0, 1] that gives the count back. */
  function Share(part: nat, total: nat): (q: real)
    requires 0 < total && part <= total
    ensures q * total as real == part as real && 0.0 <= q <= 1.0
  {
    part as real / total as real
  }
}
