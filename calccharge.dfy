/**
 * Template charges for residue atoms (`main/calccharge.py`).
 *
 * The atoms of a residue form a graph through their bonds inside the
 * residue; it is matched against the template graph of the residue's
 * symbol, comparing atoms by (atomic number, number of bonds), and each atom
 * receives the charge of the template atom it is matched with.
 */
module CalcCharge {
  import opened Wrappers
  import opened Seqs
  import opened GraphMatch

  /** `res_atom_to_neighbors`: the neighbours that belong to the residue, in their order. */
  function InResidue(res: seq<int>, ns: seq<int>): (r: seq<int>)
    ensures forall k :: 0 <= k < |r| ==> r[k] in res && r[k] in ns
    ensures forall k :: 0 <= k < |ns| && ns[k] in res ==> ns[k] in r
  {
    if ns == [] then []
    else
      var init, n := ns[..|ns| - 1], ns[|ns| - 1];
      assert ns == init + [n];
      InResidue(res, init) + (if n in res then [n] else [])
  }

  /** The positions of `ns` that `InResidue` keeps, ascending. */
  function KeptAt(res: seq<int>, ns: seq<int>): (idx: seq<nat>)
    ensures forall k :: 0 <= k < |idx| ==> idx[k] < |ns| && ns[idx[k]] in res
    ensures forall k1, k2 :: 0 <= k1 < k2 < |idx| ==> idx[k1] < idx[k2]
    ensures forall j :: 0 <= j < |ns| && ns[j] in res ==> j in idx
  {
    if ns == [] then []
    else
      var init := ns[..|ns| - 1];
      var idx := KeptAt(res, init);
      assert forall k :: 0 <= k < |idx| ==> ns[idx[k]] == init[idx[k]];
      idx + (if ns[|ns| - 1] in res then [|ns| - 1] else [])
  }

  /** `InResidue` keeps the neighbours of the kept positions, in the order of those positions. */
  lemma {:induction false} InResidueOrder(res: seq<int>, ns: seq<int>)
    ensures |KeptAt(res, ns)| == |InResidue(res, ns)|
    ensures forall k :: 0 <= k < |KeptAt(res, ns)| ==> InResidue(res, ns)[k] == ns[KeptAt(res, ns)[k]]
  {
    if ns != [] {
      var init := ns[..|ns| - 1];
      InResidueOrder(res, init);
      var idx := KeptAt(res, init);
      assert forall k :: 0 <= k < |idx| ==> ns[idx[k]] == init[idx[k]];
    }
  }

  /** `InResidue` keeps every repetition of a neighbour in the residue and drops every other neighbour. */
  lemma {:induction false} InResidueCount(res: seq<int>, ns: seq<int>, x: int)
    ensures multiset(InResidue(res, ns))[x] == if x in res then multiset(ns)[x] else 0
  {
    if ns != [] {
      var init, n := ns[..|ns| - 1], ns[|ns| - 1];
      InResidueCount(res, init, x);
      assert ns == init + [n];
    }
  }

  /** The residue graph handed to `match_all`. */
  function ResidueEdges(res: seq<int>, neighbors: int -> seq<int>): int -> seq<int> {
    a => InResidue(res, neighbors(a))
  }

  /** `range(len(template_atom_charge))`. */
  function Range(n: nat): (r: seq<int>)
    ensures |r| == n && forall k :: 0 <= k < n ==> r[k] == k
  {
    if n == 0 then [] else Range(n - 1) + [n - 1]
  }

  /** Template bonds lead to template atoms, as the charge file loader builds them. */
  ghost predicate TemplateClosed(template: seq<(int, real)>, tn: int -> seq<int>) {
    forall a :: 0 <= a < |template| ==> forall j :: 0 <= j < |tn(a)| ==> 0 <= tn(a)[j] < |template|
  }

  /** `atom_to_cmp(r) == template_to_cmp(t)`: equal atomic numbers and equal numbers of bonds. */
  predicate SameAtom(res: seq<int>, atomicNumber: int -> int, neighbors: int -> seq<int>,
                     template: seq<(int, real)>, tn: int -> seq<int>, r: int, t: int)
  {
    0 <= t < |template| && atomicNumber(r) == template[t].0 && |InResidue(res, neighbors(r))| == |tn(t)|
  }

  function Cmp(res: seq<int>, atomicNumber: int -> int, neighbors: int -> seq<int>,
               template: seq<(int, real)>, tn: int -> seq<int>): (int, int) -> bool
  {
    (r, t) => SameAtom(res, atomicNumber, neighbors, template, tn, r, t)
  }

  /** The generator loop: every residue atom with the charge of its partner; an atom left unmatched is a `KeyError`. */
  function Yielded(atoms: seq<int>, template: seq<(int, real)>, m: map<int, int>): (r: Result<seq<(int, real)>>)
    requires forall a :: a in m ==> 0 <= m[a] < |template|
    ensures r.Ok? <==> forall k :: 0 <= k < |atoms| ==> atoms[k] in m
    ensures r.Ok? ==> |r.value| == |atoms| && forall k :: 0 <= k < |atoms| ==>
                        atoms[k] in m && r.value[k].0 == atoms[k] && r.value[k].1 == template[m[atoms[k]]].1
    ensures r.Err? ==> r.error == KeyError
  {
    if atoms == [] then Ok([])
    else
      var init, a := atoms[..|atoms| - 1], atoms[|atoms| - 1];
      var rest := Yielded(init, template, m);
      if rest.Err? then rest
      else if a !in m then Err(KeyError)
      else Ok(rest.value + [(a, template[m[a]].1)])
  }

  /**
   * `f` carries the residue onto its template: it is one-to-one on the
   * residue's atoms, maps the in-residue neighbours of each atom, in their
   * order, onto the template neighbours of its image, and each atom agrees
   * with its image in atomic number and in its number of in-residue bonds.
   */
  ghost predicate Isomorphic(res: seq<int>, atomicNumber: int -> int, neighbors: int -> seq<int>,
                             template: seq<(int, real)>, tn: int -> seq<int>, f: int -> int) {
    Isomorphism(f, Elements(res), ResidueEdges(res, neighbors), tn, Cmp(res, atomicNumber, neighbors, template, tn))
  }

  /** A lone atom without bonds is carried onto a one-atom template of its element by mapping it to position 0. */
  lemma LoneAtomIsomorphic(a: int, atomicNumber: int -> int, neighbors: int -> seq<int>, c: real, tn: int -> seq<int>)
    requires neighbors(a) == [] && tn(0) == []
    ensures Isomorphic([a], atomicNumber, neighbors, [(atomicNumber(a), c)], tn, _ => 0)
  {
    assert Elements([a]) == {a};
    assert InResidue([a], neighbors(a)) == [];
  }

  /**
   * `_calc_residue_atoms_charge`: matches the residue, starting from its
   * first atom, against the template; a residue without a match yields nothing.
   */
  method CalcResidueAtomsCharge(res: seq<int>, atomicNumber: int -> int, neighbors: int -> seq<int>,
                                template: seq<(int, real)>, tn: int -> seq<int>, ghost f: int -> int)
    returns (m: Option<map<int, int>>, out: Result<seq<(int, real)>>)
    requires res != [] && TemplateClosed(template, tn)
    ensures m.Some? ==> Matched(m.value, res[0], Range(|template|), ResidueEdges(res, neighbors), tn,
                                Cmp(res, atomicNumber, neighbors, template, tn))
    ensures m.Some? ==> InRange(m.value, |template|)
    ensures out == if m.None? then Ok([]) else Yielded(res, template, m.value)
    ensures (forall t :: 0 <= t < |template| ==> !SameAtom(res, atomicNumber, neighbors, template, tn, res[0], t)) ==> m.None?
    ensures |template| == 0 ==> out == Ok([])
    ensures Isomorphic(res, atomicNumber, neighbors, template, tn, f) ==> m.Some?
  {
    ghost var U := set t | t in Range(|template|);
    assert ClosedUnder(U, tn) by {
      forall t | t in U ensures Elements(tn(t)) <= U {
        forall x | x in tn(t) ensures x in U {
          var j :| 0 <= j < |tn(t)| && tn(t)[j] == x;
          assert 0 <= t < |template|;
          assert Range(|template|)[x] == x;
        }
      }
    }
    if Isomorphic(res, atomicNumber, neighbors, template, tn, f) {
      assert res[0] in Elements(res);
      assert SameAtom(res, atomicNumber, neighbors, template, tn, res[0], f(res[0]));
      assert Range(|template|)[f(res[0])] == f(res[0]);
    }
    m := MatchAll(res[0], ResidueEdges(res, neighbors), Range(|template|), tn, Cmp(res, atomicNumber, neighbors, template, tn),
                  U, Elements(res), f);
    if m.None? {
      out := Ok([]);
    } else {
      forall a | a in m.value ensures 0 <= m.value[a] < |template| {
        assert m.value[a] in m.value.Values;
      }
      out := Yielded(res, template, m.value);
    }
  }

  /** `predicate`: every value of `m` indexes a template of `n` atoms. */
  predicate InRange(m: map<int, int>, n: int) {
    forall a :: a in m ==> 0 <= m[a] < n
  }

  /** `atom_to_charge[atom_id] = charge` for every pair in turn. */
  function Stored(d: map<int, real>, pairs: seq<(int, real)>): map<int, real> {
    if pairs == [] then d
    else
      var init, p := pairs[..|pairs| - 1], pairs[|pairs| - 1];
      Stored(d, init)[p.0 := p.1]
  }

  /** Stored holds the old keys and the paired ones; a key takes the charge of its last pair, or keeps its old one. */
  lemma {:induction false} StoredMeaning(d: map<int, real>, pairs: seq<(int, real)>, k: int)
    ensures k in Stored(d, pairs) <==> k in d || exists j :: 0 <= j < |pairs| && pairs[j].0 == k
    ensures (forall j :: 0 <= j < |pairs| ==> pairs[j].0 != k) && k in d ==> Stored(d, pairs)[k] == d[k]
    ensures forall j :: 0 <= j < |pairs| && pairs[j].0 == k && (forall j' :: j < j' < |pairs| ==> pairs[j'].0 != k) ==>
                          k in Stored(d, pairs) && Stored(d, pairs)[k] == pairs[j].1
  {
    if pairs != [] {
      var init, p := pairs[..|pairs| - 1], pairs[|pairs| - 1];
      StoredMeaning(d, init, k);
      assert forall j :: 0 <= j < |init| ==> init[j] == pairs[j];
    }
  }

  /** The loop of `calc_atoms_charge` that copies a residue's pairs into the table. */
  method StorePairs(d0: map<int, real>, pairs: seq<(int, real)>) returns (d: map<int, real>)
    ensures d == Stored(d0, pairs)
  {
    d := d0;
    for j := 0 to |pairs|
      invariant d == Stored(d0, pairs[..j])
    {
      assert pairs[..j + 1][..j] == pairs[..j];
      d := d[pairs[j].0 := pairs[j].1];
    }
    assert pairs[..|pairs|] == pairs;
  }

  /**
   * The callables `calc_atoms_charge` receives: the atoms of a residue, the
   * atomic number and the neighbours of an atom, the residue symbol of an
   * atom, and the template (atomic number and charge of each template atom,
   * template bonds) of a residue symbol.
   */
  datatype Structure = Structure(resToAtoms: int -> seq<int>, atomicNumber: int -> int, neighbors: int -> seq<int>,
                                 residueSymbol: int -> string,
                                 resAtomsCharge: string -> (seq<(int, real)>, int -> seq<int>))

  /** The template of a residue, looked up by the symbol of its first atom. */
  function Template(st: Structure, atoms: seq<int>): (seq<(int, real)>, int -> seq<int>)
    requires atoms != []
  {
    st.resAtomsCharge(st.residueSymbol(atoms[0]))
  }

  /** Every template that can be looked up is closed under its bonds. */
  ghost predicate Closed(st: Structure) {
    forall s :: TemplateClosed(st.resAtomsCharge(s).0, st.resAtomsCharge(s).1)
  }

  /** `m` is what matching the residue `r` against its template can give. */
  ghost predicate ResidueMatch(st: Structure, r: int, m: map<int, int>) {
    var atoms := st.resToAtoms(r);
    && atoms != []
    && var (template, tn) := Template(st, atoms);
    && InRange(m, |template|)
    && Matched(m, atoms[0], Range(|template|), ResidueEdges(atoms, st.neighbors), tn,
               Cmp(atoms, st.atomicNumber, st.neighbors, template, tn))
  }

  /** Each recorded match belongs to its residue. */
  ghost predicate Fit(st: Structure, resIds: seq<int>, matches: seq<Option<map<int, int>>>) {
    && |matches| == |resIds|
    && forall i :: 0 <= i < |resIds| && matches[i].Some? ==> ResidueMatch(st, resIds[i], matches[i].value)
  }

  lemma FitPrefix(st: Structure, resIds: seq<int>, matches: seq<Option<map<int, int>>>, n: nat)
    requires Fit(st, resIds, matches) && n <= |resIds|
    ensures Fit(st, resIds[..n], matches[..n])
  {
    assert forall i :: 0 <= i < n ==> resIds[..n][i] == resIds[i] && matches[..n][i] == matches[i];
  }

  /**
   * One residue of `calc_atoms_charge`, given the table so far and the match
   * found for it (`None` where there is none): it either raises, adds
   * nothing, or stores its pairs. A residue without atoms is an `IndexError`
   * at `res_atoms[0]`; an atom the match leaves out is a `KeyError` while
   * its pairs are consumed.
   */
  function Next(st: Structure, r: int, mo: Option<map<int, int>>, prev: Result<map<int, real>>): Result<map<int, real>>
    requires mo.Some? ==> ResidueMatch(st, r, mo.value)
  {
    var atoms := st.resToAtoms(r);
    if prev.Err? then prev
    else if atoms == [] then Err(IndexError)
    else if mo.None? then prev
    else
      var y := Yielded(atoms, Template(st, atoms).0, mo.value);
      if y.Err? then Err(y.error) else Ok(Stored(prev.value, y.value))
  }

  /** What `calc_atoms_charge` computes: the residues in turn, starting from the empty table. */
  ghost function Assigned(st: Structure, resIds: seq<int>, matches: seq<Option<map<int, int>>>): Result<map<int, real>>
    requires Fit(st, resIds, matches)
  {
    if resIds == [] then Ok(map[])
    else
      var n := |resIds| - 1;
      FitPrefix(st, resIds, matches, n);
      Next(st, resIds[n], matches[n], Assigned(st, resIds[..n], matches[..n]))
  }

  /** Adding one more residue to the ones handled. */
  lemma AssignedNext(st: Structure, resIds: seq<int>, matches: seq<Option<map<int, int>>>, i: nat, mo: Option<map<int, int>>)
    requires i < |resIds| && Fit(st, resIds[..i], matches) && (mo.Some? ==> ResidueMatch(st, resIds[i], mo.value))
    ensures Fit(st, resIds[..i + 1], matches + [mo])
    ensures Assigned(st, resIds[..i + 1], matches + [mo]) == Next(st, resIds[i], mo, Assigned(st, resIds[..i], matches))
  {
    assert resIds[..i + 1] == resIds[..i] + [resIds[i]];
    FitSnoc(st, resIds[..i], matches, resIds[i], mo);
    assert resIds[..i + 1][..i] == resIds[..i];
    assert (matches + [mo])[..i] == matches;
  }

  /** Every pair of `pairs` with key `k` has charge `c`, so storing them leaves `c` at `k`. */
  lemma {:induction false} StoredAgree(d: map<int, real>, pairs: seq<(int, real)>, k: int, c: real, j: nat)
    requires j < |pairs| && pairs[j].0 == k
    requires forall i :: 0 <= i < |pairs| && pairs[i].0 == k ==> pairs[i].1 == c
    ensures k in Stored(d, pairs) && Stored(d, pairs)[k] == c
  {
    var init, p := pairs[..|pairs| - 1], pairs[|pairs| - 1];
    if p.0 != k {
      assert init[j] == pairs[j];
      StoredAgree(d, init, k, c, j);
    }
  }

  /** Residue `r` is not an error: it has atoms, and a match it has covers all of them. */
  ghost predicate Covered(st: Structure, r: int, mo: Option<map<int, int>>) {
    var atoms := st.resToAtoms(r);
    atoms != [] && (mo.Some? ==> forall k :: 0 <= k < |atoms| ==> atoms[k] in mo.value)
  }

  /** Every residue is covered. */
  ghost predicate AllCovered(st: Structure, resIds: seq<int>, matches: seq<Option<map<int, int>>>)
    requires |matches| == |resIds|
  {
    forall i :: 0 <= i < |resIds| ==> Covered(st, resIds[i], matches[i])
  }

  lemma AllCoveredSnoc(st: Structure, resIds: seq<int>, matches: seq<Option<map<int, int>>>)
    requires |matches| == |resIds| != 0
    ensures var n := |resIds| - 1;
            AllCovered(st, resIds, matches) <==> AllCovered(st, resIds[..n], matches[..n]) && Covered(st, resIds[n], matches[n])
  {
    var n := |resIds| - 1;
    assert forall i :: 0 <= i < n ==> resIds[..n][i] == resIds[i] && matches[..n][i] == matches[i];
  }

  /** One residue keeps the table exactly when it is covered. */
  lemma NextOk(st: Structure, r: int, mo: Option<map<int, int>>, prev: Result<map<int, real>>)
    requires mo.Some? ==> ResidueMatch(st, r, mo.value)
    ensures Next(st, r, mo, prev).Ok? <==> prev.Ok? && Covered(st, r, mo)
  {
  }

  /** The table is built exactly when every residue has atoms and every match covers its residue. */
  lemma {:induction false} AssignedOk(st: Structure, resIds: seq<int>, matches: seq<Option<map<int, int>>>)
    requires Fit(st, resIds, matches)
    ensures Assigned(st, resIds, matches).Ok? <==> AllCovered(st, resIds, matches)
  {
    if resIds != [] {
      var n := |resIds| - 1;
      FitPrefix(st, resIds, matches, n);
      AssignedOk(st, resIds[..n], matches[..n]);
      NextOk(st, resIds[n], matches[n], Assigned(st, resIds[..n], matches[..n]));
      AllCoveredSnoc(st, resIds, matches);
    }
  }

  /** The only errors are the `IndexError` of an empty residue and the `KeyError` of an unmatched atom. */
  lemma {:induction false} AssignedErrors(st: Structure, resIds: seq<int>, matches: seq<Option<map<int, int>>>)
    requires Fit(st, resIds, matches)
    ensures Assigned(st, resIds, matches).Err? ==> Assigned(st, resIds, matches).error in {IndexError, KeyError}
  {
    if resIds != [] {
      var n := |resIds| - 1;
      FitPrefix(st, resIds, matches, n);
      AssignedErrors(st, resIds[..n], matches[..n]);
    }
  }

  /** Once a residue raises, the later residues are not reached. */
  lemma {:induction false} AssignedErrStays(st: Structure, resIds: seq<int>, matches: seq<Option<map<int, int>>>, n: nat)
    requires Fit(st, resIds, matches) && n <= |resIds|
    requires (FitPrefix(st, resIds, matches, n); Assigned(st, resIds[..n], matches[..n]).Err?)
    ensures Assigned(st, resIds, matches) == Assigned(st, resIds[..n], matches[..n])
    decreases |resIds|
  {
    FitPrefix(st, resIds, matches, n);
    if n < |resIds| {
      var m := |resIds| - 1;
      FitPrefix(st, resIds, matches, m);
      assert resIds[..m][..n] == resIds[..n] && matches[..m][..n] == matches[..n];
      AssignedErrStays(st, resIds[..m], matches[..m], n);
    } else {
      assert resIds[..n] == resIds && matches[..n] == matches;
    }
  }

  /** Every atom of a matched residue is a key of `d`. */
  ghost predicate AllStored(st: Structure, resIds: seq<int>, matches: seq<Option<map<int, int>>>, d: map<int, real>)
    requires |matches| == |resIds|
  {
    forall i, k :: 0 <= i < |resIds| && matches[i].Some? && 0 <= k < |st.resToAtoms(resIds[i])| ==>
                     st.resToAtoms(resIds[i])[k] in d
  }

  lemma AllStoredSnoc(st: Structure, resIds: seq<int>, matches: seq<Option<map<int, int>>>, d: map<int, real>, d': map<int, real>)
    requires |matches| == |resIds| != 0
    requires AllStored(st, resIds[..|resIds| - 1], matches[..|resIds| - 1], d) && d.Keys <= d'.Keys
    requires var atoms := st.resToAtoms(resIds[|resIds| - 1]);
             matches[|resIds| - 1].Some? ==> forall k :: 0 <= k < |atoms| ==> atoms[k] in d'
    ensures AllStored(st, resIds, matches, d')
  {
    var n := |resIds| - 1;
    assert forall i :: 0 <= i < n ==> resIds[..n][i] == resIds[i] && matches[..n][i] == matches[i];
  }

  /** The pairs of a residue are stored on top of the table. */
  lemma StoredKeys(d: map<int, real>, atoms: seq<int>, template: seq<(int, real)>, m: map<int, int>)
    requires InRange(m, |template|) && Yielded(atoms, template, m).Ok?
    ensures var d' := Stored(d, Yielded(atoms, template, m).value);
            d.Keys <= d'.Keys && forall k :: 0 <= k < |atoms| ==> atoms[k] in d'
  {
    var y := Yielded(atoms, template, m).value;
    forall a | a in d ensures a in Stored(d, y) {
      StoredMeaning(d, y, a);
    }
    forall k | 0 <= k < |atoms| ensures atoms[k] in Stored(d, y) {
      StoredMeaning(d, y, atoms[k]);
      assert y[k].0 == atoms[k];
    }
  }

  /** Every atom of a matched residue is in the table. */
  lemma {:induction false} AssignedComplete(st: Structure, resIds: seq<int>, matches: seq<Option<map<int, int>>>)
    requires Fit(st, resIds, matches) && Assigned(st, resIds, matches).Ok?
    ensures AllStored(st, resIds, matches, Assigned(st, resIds, matches).value)
  {
    if resIds != [] {
      var n := |resIds| - 1;
      FitPrefix(st, resIds, matches, n);
      var prev := Assigned(st, resIds[..n], matches[..n]);
      AssignedComplete(st, resIds[..n], matches[..n]);
      if matches[n].Some? {
        var atoms := st.resToAtoms(resIds[n]);
        StoredKeys(prev.value, atoms, Template(st, atoms).0, matches[n].value);
      }
      AllStoredSnoc(st, resIds, matches, prev.value, Assigned(st, resIds, matches).value);
    }
  }

  /** Atom `a` of the matched residue `r` takes charge `c` from the template atom it is matched with. */
  ghost predicate ChargedBy(st: Structure, r: int, mo: Option<map<int, int>>, a: int, c: real) {
    && mo.Some? && ResidueMatch(st, r, mo.value)
    && a in st.resToAtoms(r) && a in mo.value
    && c == Template(st, st.resToAtoms(r)).0[mo.value[a]].1
  }

  /** Every entry of `d` is charged by one of the residues. */
  ghost predicate AllCharged(st: Structure, resIds: seq<int>, matches: seq<Option<map<int, int>>>, d: map<int, real>)
    requires |matches| == |resIds|
  {
    forall a :: a in d ==> exists i :: 0 <= i < |resIds| && ChargedBy(st, resIds[i], matches[i], a, d[a])
  }

  lemma AllChargedExtend(st: Structure, resIds: seq<int>, matches: seq<Option<map<int, int>>>, d: map<int, real>, n: nat)
    requires |matches| == |resIds| && n <= |resIds| && AllCharged(st, resIds[..n], matches[..n], d)
    ensures AllCharged(st, resIds, matches, d)
  {
    forall a | a in d ensures exists i :: 0 <= i < |resIds| && ChargedBy(st, resIds[i], matches[i], a, d[a]) {
      var i :| 0 <= i < n && ChargedBy(st, resIds[..n][i], matches[..n][i], a, d[a]);
      assert resIds[..n][i] == resIds[i] && matches[..n][i] == matches[i];
    }
  }

  /** An atom stored from the pairs of the matched residue `r` is charged by `r`. */
  lemma YieldedCharged(st: Structure, r: int, m: map<int, int>, d: map<int, real>, a: int, j: nat)
    requires ResidueMatch(st, r, m)
    requires Yielded(st.resToAtoms(r), Template(st, st.resToAtoms(r)).0, m).Ok?
    requires var y := Yielded(st.resToAtoms(r), Template(st, st.resToAtoms(r)).0, m).value;
             j < |y| && y[j].0 == a
    ensures var d' := Stored(d, Yielded(st.resToAtoms(r), Template(st, st.resToAtoms(r)).0, m).value);
            a in d' && ChargedBy(st, r, Some(m), a, d'[a])
  {
    var atoms := st.resToAtoms(r);
    var template := Template(st, atoms).0;
    var y := Yielded(atoms, template, m).value;
    StoredAgree(d, y, a, template[m[a]].1, j);
  }

  /** Every entry of the table is an atom of a matched residue with the charge of its template partner. */
  lemma {:induction false} AssignedCharges(st: Structure, resIds: seq<int>, matches: seq<Option<map<int, int>>>)
    requires Fit(st, resIds, matches) && Assigned(st, resIds, matches).Ok?
    ensures AllCharged(st, resIds, matches, Assigned(st, resIds, matches).value)
  {
    if resIds != [] {
      var n := |resIds| - 1;
      FitPrefix(st, resIds, matches, n);
      var prev := Assigned(st, resIds[..n], matches[..n]);
      AssignedCharges(st, resIds[..n], matches[..n]);
      AllChargedExtend(st, resIds, matches, prev.value, n);
      var d := Assigned(st, resIds, matches).value;
      if matches[n].Some? {
        var atoms := st.resToAtoms(resIds[n]);
        var m := matches[n].value;
        var y := Yielded(atoms, Template(st, atoms).0, m);
        forall a | a in d
          ensures exists i :: 0 <= i < |resIds| && ChargedBy(st, resIds[i], matches[i], a, d[a])
        {
          StoredMeaning(prev.value, y.value, a);
          if j :| 0 <= j < |y.value| && y.value[j].0 == a {
            YieldedCharged(st, resIds[n], m, prev.value, a, j);
          }
        }
      }
    }
  }

  /** The template partner agrees with the atom in atomic number and in its number of bonds inside the residue. */
  lemma ChargedBySame(st: Structure, r: int, mo: Option<map<int, int>>, a: int, c: real)
    requires ChargedBy(st, r, mo, a, c)
    ensures var atoms, m := st.resToAtoms(r), mo.value;
            var (template, tn) := Template(st, atoms);
            && 0 <= m[a] < |template| && template[m[a]] == (st.atomicNumber(a), c)
            && |InResidue(atoms, st.neighbors(a))| == |tn(m[a])|
  {
    var atoms, m := st.resToAtoms(r), mo.value;
    var (template, tn) := Template(st, atoms);
    assert Cmp(atoms, st.atomicNumber, st.neighbors, template, tn)(a, m[a]);
  }

  lemma FitSnoc(st: Structure, resIds: seq<int>, matches: seq<Option<map<int, int>>>, r: int, mo: Option<map<int, int>>)
    requires Fit(st, resIds, matches) && (mo.Some? ==> ResidueMatch(st, r, mo.value))
    ensures Fit(st, resIds + [r], matches + [mo])
  {
    assert forall i :: 0 <= i < |resIds| ==> (resIds + [r])[i] == resIds[i] && (matches + [mo])[i] == matches[i];
  }

  /** Residue `r` has atoms and `f` carries it onto the template of its symbol. */
  ghost predicate ResidueIsomorphic(st: Structure, r: int, f: int -> int) {
    var atoms := st.resToAtoms(r);
    && atoms != []
    && var (template, tn) := Template(st, atoms);
    && Isomorphic(atoms, st.atomicNumber, st.neighbors, template, tn, f)
  }

  /**
   * The body of the residue loop of `calc_atoms_charge`: `mo` is the match
   * found for residue `r`, and a residue that is a relabelled copy of its
   * template is matched.
   */
  method ChargeResidue(st: Structure, r: int, prev: Result<map<int, real>>, ghost f: int -> int)
    returns (ghost mo: Option<map<int, int>>, next: Result<map<int, real>>)
    requires Closed(st) && prev.Ok?
    ensures (mo.Some? ==> ResidueMatch(st, r, mo.value)) && next == Next(st, r, mo, prev)
    ensures ResidueIsomorphic(st, r, f) ==> mo.Some?
  {
    var atoms := st.resToAtoms(r);
    mo := None;
    if atoms == [] {
      next := Err(IndexError);
    } else {
      var (template, tn) := st.resAtomsCharge(st.residueSymbol(atoms[0]));
      var m, pairs := CalcResidueAtomsCharge(atoms, st.atomicNumber, st.neighbors, template, tn, f);
      mo := m;
      if pairs.Err? {
        next := Err(pairs.error);
      } else {
        var d := StorePairs(prev.value, pairs.value);
        next := Ok(d);
      }
    }
  }

  /** Every recorded residue whose position is in `iso` was matched. */
  ghost predicate MatchedAt(iso: set<int>, matches: seq<Option<map<int, int>>>) {
    forall j :: 0 <= j < |matches| && j in iso ==> matches[j].Some?
  }

  lemma MatchedAtSnoc(iso: set<int>, matches: seq<Option<map<int, int>>>, mo: Option<map<int, int>>)
    requires MatchedAt(iso, matches) && (|matches| in iso ==> mo.Some?)
    ensures MatchedAt(iso, matches + [mo])
  {
    assert forall j :: 0 <= j < |matches| ==> (matches + [mo])[j] == matches[j];
  }

  /**
   * `calc_atoms_charge`: matches every residue against the template of its
   * symbol and stores the charges of the matched atoms. `matches` records
   * the match found for each residue; after an error the residues left are
   * not visited and are recorded as `None`. When `fs(i)` carries residue
   * `i` onto its template, that residue is matched unless an error stopped
   * the loop, and on success every one of its atoms has a charge.
   */
  method CalcAtomsCharge(resIds: seq<int>, st: Structure, ghost fs: int -> int -> int)
    returns (out: Result<map<int, real>>, ghost matches: seq<Option<map<int, int>>>)
    requires Closed(st)
    ensures Fit(st, resIds, matches) && out == Assigned(st, resIds, matches)
    ensures forall i :: 0 <= i < |resIds| && ResidueIsomorphic(st, resIds[i], fs(i)) ==> matches[i].Some? || out.Err?
    ensures out.Ok? ==>
              forall i, k :: 0 <= i < |resIds| && ResidueIsomorphic(st, resIds[i], fs(i)) && 0 <= k < |st.resToAtoms(resIds[i])|
                             ==> st.resToAtoms(resIds[i])[k] in out.value
  {
    out := Ok(map[]);
    matches := [];
    ghost var iso := set j | 0 <= j < |resIds| && ResidueIsomorphic(st, resIds[j], fs(j));
    for i := 0 to |resIds|
      invariant Fit(st, resIds[..i], matches) && out == Assigned(st, resIds[..i], matches) && out.Ok?
      invariant MatchedAt(iso, matches)
    {
      var mo, next := ChargeResidue(st, resIds[i], out, fs(i));
      AssignedNext(st, resIds, matches, i, mo);
      MatchedAtSnoc(iso, matches, mo);
      matches, out := matches + [mo], next;
      if out.Err? {
        Abandon(st, resIds, matches, i + 1);
        matches := matches + seq(|resIds| - (i + 1), _ => None);
        return;
      }
    }
    assert resIds[..|resIds|] == resIds;
    AssignedComplete(st, resIds, matches);
  }

  /** Recording the unvisited residues as unmatched keeps the error already reached. */
  lemma Abandon(st: Structure, resIds: seq<int>, matches: seq<Option<map<int, int>>>, n: nat)
    requires n <= |resIds| && Fit(st, resIds[..n], matches)
    requires Assigned(st, resIds[..n], matches).Err?
    ensures var all := matches + seq(|resIds| - n, _ => None);
            Fit(st, resIds, all) && Assigned(st, resIds, all) == Assigned(st, resIds[..n], matches)
  {
    var all := matches + seq(|resIds| - n, _ => None);
    assert forall i :: 0 <= i < |resIds| ==> all[i] == if i < n then matches[i] else None;
    assert forall i :: 0 <= i < n ==> resIds[..n][i] == resIds[i];
    assert all[..n] == matches;
    AssignedErrStays(st, resIds, all, n);
  }
}
