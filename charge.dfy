/**
 * Charges and bond graphs of residues (`chem/charge.py`): the charge table of
 * the Lennard-Jones atom types, and the reader of GROMACS residue topology
 * text (`.rtp` style), where each residue `[ NAME ]` has an indented
 * `[ atoms ]` section (`name type charge ...`) and an indented `[ bonds ]`
 * section (`name name ...`), and `;` starts a comment.
 *
 * The text stream is the sequence of its lines. The reader functions share
 * one stream position: here a reader is given the index of the line it reads
 * first and returns the index of the line it stopped at, `|lines|` standing
 * for the end of the stream (Python's `None` or `''`). A line of a file is
 * never empty, so the end of the sequence is the only end of the stream.
 */
module Charge {
  import opened Wrappers
  import opened PyStr
  import opened Dicts
  import opened Seqs

  // ------------------------------------------------------------ helpers

  /** `_clip_comment`: the text before the first `;`, or the whole line. */
  function ClipComment(line: string): (r: string)
    ensures r <= line && ';' !in r
    ensures |r| < |line| ==> line[|r|] == ';'
  {
    var i := Find(line, ';');
    if i >= 0 then line[..i] else line
  }

  /** `_to_symbol`: the first character of an atom type, as a string. */
  function ToSymbol(atomType: string): (r: string)
    requires atomType != []
    ensures |r| == 1 && r[0] == atomType[0]
  {
    atomType[..1]
  }

  /** An atomic number. */
  type AtomicNumber = n: int | n >= 1 witness 1

  /** `_symbol_to_atomic_num`. */
  const SymbolToAtomicNum: map<string, AtomicNumber> := map[
    "H" := 1, "He" := 2, "Li" := 3, "Be" := 4, "B" := 5, "C" := 6, "N" := 7, "O" := 8,
    "F" := 9, "Ne" := 10, "Na" := 11, "Mg" := 12, "Al" := 13, "Si" := 14, "P" := 15,
    "S" := 16, "Cl" := 17, "Ar" := 18, "K" := 19, "Ca" := 20, "Sc" := 21, "Ti" := 22,
    "V" := 23, "Cr" := 24, "Mn" := 25, "Fe" := 26, "Co" := 27, "Ni" := 28, "Cu" := 29,
    "Zn" := 30, "Ga" := 31, "Ge" := 32, "As" := 33, "Se" := 34, "Br" := 35, "Kr" := 36,
    "Rb" := 37, "Sr" := 38, "Y" := 39, "Zr" := 40, "Nb" := 41]

  /** `symbols.get(_to_symbol(atom_type), -1)`. */
  function AtomicNumIn(symbols: map<string, AtomicNumber>, atomType: string): int
    requires atomType != []
  {
    var sym := ToSymbol(atomType);
    if sym in symbols then symbols[sym] else -1
  }

  /** `_symbol_to_atomic_num.get(_to_symbol(atom_type), -1)`. */
  function AtomicNum(atomType: string): int
    requires atomType != []
  {
    AtomicNumIn(SymbolToAtomicNum, atomType)
  }

  /** Only the first character of a type is looked up. */
  lemma AtomicNumFirstLetter(atomType: string)
    requires atomType != []
    ensures AtomicNum(atomType) == AtomicNum([atomType[0]])
  {
    assert ToSymbol(atomType) == [atomType[0]] == ToSymbol([atomType[0]]);
  }

  /**
   * So only the elements with a one-letter symbol are recognised: a
   * chlorine type `Cl` reads as carbon, a sodium type `Na` as nitrogen, and
   * a zinc type `Zn` as unknown; hydrogen is exactly the types starting with `H`.
   */
  lemma OneLetterSymbols(c: char)
    ensures AtomicNum([c]) != -1 <==> c in "HBCNOFPSKVY"
    ensures AtomicNum([c]) == 1 <==> c == 'H'
  {
    assert ToSymbol([c]) == [c];
  }

  // ------------------------------------------------- Lennard-Jones types

  /** A character `isdigit()` or `isspace()` accepts (ASCII digits only). */
  predicate DigitOrSpace(c: char) {
    IsDigit(c) || IsSpace(c)
  }

  /** The position the loop over 3, 2, 1 stops at: the first with another character, or 0 if none. */
  function BreakAt(atomType: string, i: nat): (b: nat)
    requires i < |atomType|
    ensures b <= i
  {
    if i == 0 then 0 else if !DigitOrSpace(atomType[i]) then i else BreakAt(atomType, i - 1)
  }

  /**
   * The four-character type looked up for an unknown type: the type up to
   * the last of its characters 1 to 3 that is neither a digit nor a space,
   * padded with spaces to four characters; `None` when characters 1 to 3
   * are all digits or spaces.
   */
  function Normalised(atomType: string): Option<string>
    requires |atomType| >= 4
  {
    var b := BreakAt(atomType, 3);
    if b == 0 then None else Some(atomType[..b + 1] + Spaces(3 - b))
  }

  /** Where the loop stops: every later position up to 3 holds a digit or a space. */
  lemma {:induction false} BreakAtMeaning(atomType: string, i: nat)
    requires i < |atomType|
    ensures var b := BreakAt(atomType, i);
            (b == 0 || !DigitOrSpace(atomType[b])) && forall j :: b < j <= i ==> DigitOrSpace(atomType[j])
  {
    if i > 0 && DigitOrSpace(atomType[i]) {
      BreakAtMeaning(atomType, i - 1);
    }
  }

  /**
   * The normalised type keeps the length 4 and the leading characters, and
   * turns the trailing digits and spaces of positions 1 to 3 into spaces.
   */
  lemma NormalisedMeaning(atomType: string)
    requires |atomType| >= 4
    ensures Normalised(atomType).None? <==> forall j :: 1 <= j <= 3 ==> DigitOrSpace(atomType[j])
    ensures Normalised(atomType).Some? ==>
              var t := Normalised(atomType).value;
              |t| == 4 && exists b :: 1 <= b <= 3 && !DigitOrSpace(atomType[b])
                                     && t[..b + 1] == atomType[..b + 1]
                                     && (forall j :: b < j <= 3 ==> DigitOrSpace(atomType[j]) && t[j] == ' ')
  {
    var b := BreakAt(atomType, 3);
    BreakAtMeaning(atomType, 3);
    if b > 0 {
      var t := atomType[..b + 1] + Spaces(3 - b);
      assert t[..b + 1] == atomType[..b + 1];
      assert forall j :: b < j <= 3 ==> t[j] == Spaces(3 - b)[j - b - 1];
    }
  }

  /** `LennardJonesCharge.__call__`: the charge of an atom type, `None` if the table has none. */
  function ChargeOf(table: map<string, PyFloat>, atomType: string): Result<Option<PyFloat>> {
    if atomType in table then Ok(Some(table[atomType]))
    else if |atomType| < 4 then Err(IndexError)
    else
      var t := Normalised(atomType);
      if t.None? then Ok(None)
      else Ok(if t.value in table then Some(table[t.value]) else None)
  }

  /**
   * `LennardJonesCharge`: the charge (column `e`) of each atom type (column
   * `AtomType`) of a CSV table. Reading the CSV file is not part of this
   * model; the constructor is given the table.
   */
  class LennardJonesCharge {
    const typeToCharge: map<string, PyFloat>

    constructor(table: map<string, PyFloat>)
      ensures typeToCharge == table
    {
      typeToCharge := table;
    }

    /**
     * `__call__`: a known type is looked up as it is; an unknown one is
     * normalised first. A type shorter than four characters that is not in
     * the table fails on `atom_type[3]` (`IndexError`).
     */
    method Call(atomType: string) returns (r: Result<Option<PyFloat>>)
      ensures r == ChargeOf(typeToCharge, atomType)
    {
      var t := atomType;
      if t !in typeToCharge {
        if |t| < 4 {
          return Err(IndexError);
        }
        var i := 3;
        while i > 0 && DigitOrSpace(t[i])
          invariant 0 <= i <= 3
          invariant BreakAt(t, 3) == BreakAt(t, i)
        {
          i := i - 1;
        }
        if i == 0 {
          return Ok(None);
        }
        t := t[..i + 1] + Spaces(3 - i);
      }
      r := Ok(if t in typeToCharge then Some(typeToCharge[t]) else None);
    }
  }

  // ---------------------------------------------------------------- atoms

  /** `(name, atomic number, charge)` of a kept atom line. */
  type AtomRow = (string, int, PyFloat)

  /** An atom `_load_atoms` keeps: a recognised element, and no hydrogen when hydrogens are removed. */
  predicate Kept(row: AtomRow, removesH: bool) {
    row.1 >= 1 && !(removesH && row.1 == 1)
  }

  /**
   * One non-blank line of an atoms section, stripped: the type is read from
   * the second word (`IndexError` without one); an unknown element or a
   * removed hydrogen is skipped; otherwise the charge is the third word
   * (`IndexError` without one, `ValueError` if `float()` refuses it).
   */
  function AtomLine(symbols: map<string, AtomicNumber>, line: string, removesH: bool): (r: Result<Option<AtomRow>>)
    ensures r.Ok? && r.value.Some? ==> Kept(r.value.value, removesH)
  {
    var sp := SplitWs(line);
    if |sp| < 2 then Err(IndexError)
    else
      var atomicNum := AtomicNumIn(symbols, sp[1]);
      if atomicNum == -1 || (removesH && atomicNum == 1) then Ok(None)
      else if |sp| < 3 then Err(IndexError)
      else
        var charge := ParseFloat(sp[2]);
        if charge.Err? then Err(charge.error) else Ok(Some((sp[0], atomicNum, charge.value)))
  }

  /**
   * A kept atom line has at least three words: the atom is named by the
   * first, its type is the second and its charge is what the third spells.
   */
  lemma AtomLineWords(symbols: map<string, AtomicNumber>, line: string, removesH: bool)
    ensures var sp := SplitWs(line);
            var r := AtomLine(symbols, line, removesH);
            r.Ok? && r.value.Some? ==>
              |sp| >= 3 && ParseFloat(sp[2]).Ok? && r.value.value == (sp[0], AtomicNumIn(symbols, sp[1]), ParseFloat(sp[2]).value)
  {
    var sp := SplitWs(line);
    if |sp| >= 3 {
      var n := AtomicNumIn(symbols, sp[1]);
      var c := ParseFloat(sp[2]);
      assert AtomLine(symbols, line, removesH)
          == if n == -1 || (removesH && n == 1) then Ok(None)
             else if c.Err? then Err(c.error) else Ok(Some((sp[0], n, c.value)));
    }
  }

  /** A section read: what it holds and the index of the `[` line that ended it, or `|lines|`. */
  datatype Section<T> = Section(value: T, end: nat)

  /** The text of a section line: without comment and white space. */
  function Body(line: string): string {
    Strip(ClipComment(line))
  }

  /**
   * The loop of `_load_atoms` from line `i`, with the atoms `acc` already
   * read: blank lines are skipped and a line starting with `[` ends it.
   */
  function AtomsFrom(symbols: map<string, AtomicNumber>, lines: seq<string>, i: nat, removesH: bool, acc: seq<AtomRow>): (r: Result<Section<seq<AtomRow>>>)
    requires i <= |lines|
    ensures r.Ok? ==> i <= r.value.end <= |lines|
    ensures r.Ok? && r.value.end < |lines| ==> StartsWith(Body(lines[r.value.end]), "[")
    decreases |lines| - i
  {
    if i == |lines| then Ok(Section(acc, i))
    else
      var line := Body(lines[i]);
      if |line| == 0 then AtomsFrom(symbols, lines, i + 1, removesH, acc)
      else if StartsWith(line, "[") then Ok(Section(acc, i))
      else
        var a := AtomLine(symbols, line, removesH);
        if a.Err? then Err(a.error)
        else AtomsFrom(symbols, lines, i + 1, removesH, acc + a.value.Items())
  }

  /** `_load_atoms`: the atoms of an atoms section that starts at line `i`. */
  method LoadAtoms(symbols: map<string, AtomicNumber>, lines: seq<string>, i: nat, removesH: bool) returns (r: Result<Section<seq<AtomRow>>>)
    requires i <= |lines|
    ensures r == AtomsFrom(symbols, lines, i, removesH, [])
  {
    var atoms: seq<AtomRow> := [];
    var k := i;
    ghost var spec := AtomsFrom(symbols, lines, i, removesH, []);
    while k < |lines|
      invariant i <= k <= |lines|
      invariant spec == AtomsFrom(symbols, lines, k, removesH, atoms)
    {
      var line := Body(lines[k]);
      AtomsFromAt(symbols, lines, k, removesH, atoms);
      if |line| == 0 {
        k := k + 1;
        continue;
      }
      if StartsWith(line, "[") {
        return Ok(Section(atoms, k));
      }
      var a := AtomLine(symbols, line, removesH);
      if a.Err? {
        return Err(a.error);
      }
      atoms := atoms + a.value.Items();
      k := k + 1;
    }
    r := Ok(Section(atoms, k));
  }

  /** One line read by the loop of `_load_atoms`. */
  lemma AtomsFromAt(symbols: map<string, AtomicNumber>, lines: seq<string>, i: nat, removesH: bool, acc: seq<AtomRow>)
    requires i < |lines|
    ensures var line := Body(lines[i]);
            var a := AtomLine(symbols, line, removesH);
            AtomsFrom(symbols, lines, i, removesH, acc)
            == if |line| == 0 then AtomsFrom(symbols, lines, i + 1, removesH, acc)
               else if StartsWith(line, "[") then Ok(Section(acc, i))
               else if a.Err? then Err(a.error)
               else AtomsFrom(symbols, lines, i + 1, removesH, acc + a.value.Items())
  {
  }

  /** Adding a kept atom, or none, to kept atoms. */
  lemma KeptAdded(acc: seq<AtomRow>, a: Option<AtomRow>, removesH: bool)
    requires forall k :: 0 <= k < |acc| ==> Kept(acc[k], removesH)
    requires a.Some? ==> Kept(a.value, removesH)
    ensures forall k :: 0 <= k < |acc + a.Items()| ==> Kept((acc + a.Items())[k], removesH)
  {
  }

  /** Every atom an atoms section yields is kept by the filter. */
  lemma {:induction false} AtomsFromKept(symbols: map<string, AtomicNumber>, lines: seq<string>, i: nat, removesH: bool, acc: seq<AtomRow>)
    requires i <= |lines| && forall k :: 0 <= k < |acc| ==> Kept(acc[k], removesH)
    requires AtomsFrom(symbols, lines, i, removesH, acc).Ok?
    ensures var rows := AtomsFrom(symbols, lines, i, removesH, acc).value.value;
            forall k :: 0 <= k < |rows| ==> Kept(rows[k], removesH)
    decreases |lines| - i
  {
    if i < |lines| && |Body(lines[i])| == 0 {
      AtomsFromKept(symbols, lines, i + 1, removesH, acc);
    } else if i < |lines| && !StartsWith(Body(lines[i]), "[") {
      AtomsFromAt(symbols, lines, i, removesH, acc);
      var a := AtomLine(symbols, Body(lines[i]), removesH);
      KeptAdded(acc, a.value, removesH);
      AtomsFromKept(symbols, lines, i + 1, removesH, acc + a.value.Items());
    } else {
      assert AtomsFrom(symbols, lines, i, removesH, acc) == Ok(Section(acc, i));
    }
  }

  /** The atom a line of an atoms section gives, if it gives one. */
  function LineRows(symbols: map<string, AtomicNumber>, line: string, removesH: bool): seq<AtomRow> {
    var a := AtomLine(symbols, Body(line), removesH);
    if a.Ok? then a.value.Items() else []
  }

  /** The atoms a line gives, as a function of the line. */
  function RowsOf(symbols: map<string, AtomicNumber>, removesH: bool): string -> seq<AtomRow> {
    line => LineRows(symbols, line, removesH)
  }

  /** The atoms that `rowsOf` gives for lines `i` to `j - 1`, in line order. */
  function Rows(rowsOf: string -> seq<AtomRow>, lines: seq<string>, i: nat, j: nat): seq<AtomRow>
    requires i <= j <= |lines|
    decreases j - i
  {
    if i == j then [] else rowsOf(lines[i]) + Rows(rowsOf, lines, i + 1, j)
  }

  /** A blank line gives no atom. */
  lemma BlankRows(symbols: map<string, AtomicNumber>, line: string, removesH: bool)
    requires |Body(line)| == 0
    ensures LineRows(symbols, line, removesH) == []
  {
    assert SplitWs(Body(line)) == [];
  }

  /**
   * An atoms section read from line `i` holds exactly the atoms its lines
   * give, in line order, after those already read.
   */
  lemma {:induction false} AtomsFromRows(symbols: map<string, AtomicNumber>, lines: seq<string>, i: nat, removesH: bool, acc: seq<AtomRow>)
    requires i <= |lines| && AtomsFrom(symbols, lines, i, removesH, acc).Ok?
    ensures var s := AtomsFrom(symbols, lines, i, removesH, acc).value;
            s.value == acc + Rows(RowsOf(symbols, removesH), lines, i, s.end)
    decreases |lines| - i
  {
    if i < |lines| && !StartsWith(Body(lines[i]), "[") {
      var items := RowsOf(symbols, removesH)(lines[i]);
      RowsStep(symbols, lines, i, removesH, acc);
      AtomsFromRows(symbols, lines, i + 1, removesH, acc + items);
    } else {
      SectionEnd(symbols, lines, i, removesH, acc);
    }
  }

  lemma Glue<T>(x: seq<T>, acc: seq<T>, items: seq<T>, rest: seq<T>, whole: seq<T>)
    requires x == acc + items + rest && whole == items + rest
    ensures x == acc + whole
  {
  }

  /** An atoms section ends at the end of the file or at a `[` line. */
  lemma SectionEnd(symbols: map<string, AtomicNumber>, lines: seq<string>, i: nat, removesH: bool, acc: seq<AtomRow>)
    requires i <= |lines| && !(i < |lines| && !StartsWith(Body(lines[i]), "["))
    ensures AtomsFrom(symbols, lines, i, removesH, acc) == Ok(Section(acc, i))
    ensures acc == acc + Rows(RowsOf(symbols, removesH), lines, i, i)
  {
    Glue(acc, acc, [], [], Rows(RowsOf(symbols, removesH), lines, i, i));
  }

  /** A line that does not end an atoms section adds its atom, if any, to those read. */
  lemma RowsStep(symbols: map<string, AtomicNumber>, lines: seq<string>, i: nat, removesH: bool, acc: seq<AtomRow>)
    requires i < |lines| && !StartsWith(Body(lines[i]), "[") && AtomsFrom(symbols, lines, i, removesH, acc).Ok?
    ensures AtomsFrom(symbols, lines, i, removesH, acc)
         == AtomsFrom(symbols, lines, i + 1, removesH, acc + RowsOf(symbols, removesH)(lines[i]))
    ensures var s := AtomsFrom(symbols, lines, i, removesH, acc).value;
            var rest := Rows(RowsOf(symbols, removesH), lines, i + 1, s.end);
            s.value == acc + RowsOf(symbols, removesH)(lines[i]) + rest ==> s.value == acc + Rows(RowsOf(symbols, removesH), lines, i, s.end)
  {
    AtomsFromAt(symbols, lines, i, removesH, acc);
    var a := AtomLine(symbols, Body(lines[i]), removesH);
    var items := RowsOf(symbols, removesH)(lines[i]);
    assert items == LineRows(symbols, lines[i], removesH);
    if |Body(lines[i])| == 0 {
      BlankRows(symbols, lines[i], removesH);
      assert acc + items == acc;
    } else {
      assert a.Ok?;
      assert items == a.value.Items();
    }
    var s := AtomsFrom(symbols, lines, i, removesH, acc).value;
    var rest := Rows(RowsOf(symbols, removesH), lines, i + 1, s.end);
    if s.value == acc + items + rest {
      Glue(s.value, acc, items, rest, Rows(RowsOf(symbols, removesH), lines, i, s.end));
    }
  }

  // ---------------------------------------------------------------- bonds

  /**
   * One non-blank line of a bonds section, stripped: the pair of atom
   * indices of its first two words, or `None` when either name is not an
   * atom of the residue; the second word is read only when the first names
   * an atom (`IndexError` without one).
   */
  function BondLine(line: string, atoms: seq<(string, int)>): (r: Result<Option<(int, int)>>)
    ensures var sp := SplitWs(line);
            r.Ok? && r.value.Some? <==>
              |sp| >= 2 && Get(atoms, sp[0]).Some? && Get(atoms, sp[1]).Some?
    ensures var sp := SplitWs(line);
            r.Ok? && r.value.Some? ==> r.value.value == (Get(atoms, sp[0]).value, Get(atoms, sp[1]).value)
  {
    var sp := SplitWs(line);
    if |sp| == 0 then Err(IndexError)
    else if Get(atoms, sp[0]).None? then Ok(None)
    else if |sp| < 2 then Err(IndexError)
    else if Get(atoms, sp[1]).None? then Ok(None)
    else Ok(Some((Get(atoms, sp[0]).value, Get(atoms, sp[1]).value)))
  }

  /** The loop of `_load_bonds` from line `i`: the bonds between known atoms, in line order. */
  function BondsFrom(lines: seq<string>, i: nat, atoms: seq<(string, int)>, acc: seq<(int, int)>): (r: Result<Section<seq<(int, int)>>>)
    requires i <= |lines|
    ensures r.Ok? ==> i <= r.value.end <= |lines|
    ensures r.Ok? && r.value.end < |lines| ==> StartsWith(Body(lines[r.value.end]), "[")
    decreases |lines| - i
  {
    if i == |lines| then Ok(Section(acc, i))
    else
      var line := Body(lines[i]);
      if |line| == 0 then BondsFrom(lines, i + 1, atoms, acc)
      else if StartsWith(line, "[") then Ok(Section(acc, i))
      else
        var b := BondLine(line, atoms);
        if b.Err? then Err(b.error)
        else BondsFrom(lines, i + 1, atoms, acc + b.value.Items())
  }

  /** A bond recorded in both directions: `bonds[n0].append(n1)` then `bonds[n1].append(n0)`. */
  function AddBond(bonds: seq<(int, seq<int>)>, n0: int, n1: int): seq<(int, seq<int>)> {
    Append(Append(bonds, n0, n1), n1, n0)
  }

  /** The adjacency lists of the bonds `pairs`, built in order. */
  function Adjacency(pairs: seq<(int, int)>): seq<(int, seq<int>)> {
    if pairs == [] then []
    else AddBond(Adjacency(pairs[..|pairs| - 1]), pairs[|pairs| - 1].0, pairs[|pairs| - 1].1)
  }

  /** One line of the bonds loop. */
  lemma BondsFromAt(lines: seq<string>, i: nat, atoms: seq<(string, int)>, acc: seq<(int, int)>)
    requires i < |lines|
    ensures var line := Body(lines[i]);
            var b := BondLine(line, atoms);
            BondsFrom(lines, i, atoms, acc)
            == if |line| == 0 then BondsFrom(lines, i + 1, atoms, acc)
               else if StartsWith(line, "[") then Ok(Section(acc, i))
               else if b.Err? then Err(b.error)
               else BondsFrom(lines, i + 1, atoms, acc + b.value.Items())
  {
  }

  /** One more bond adds it in both directions. */
  lemma AdjacencySnoc(pairs: seq<(int, int)>, p: (int, int))
    ensures Adjacency(pairs + [p]) == AddBond(Adjacency(pairs), p.0, p.1)
  {
    assert (pairs + [p])[..|pairs|] == pairs;
  }

  /** The lists after the bond of one line, if it has one, in both directions. */
  method AddBondOf(bonds: seq<(int, seq<int>)>, b: Option<(int, int)>, ghost pairs: seq<(int, int)>) returns (bonds': seq<(int, seq<int>)>)
    requires bonds == Adjacency(pairs)
    ensures bonds' == Adjacency(pairs + b.Items())
  {
    bonds' := bonds;
    if b.Some? {
      var n0, n1 := b.value.0, b.value.1;
      bonds' := Append(bonds', n0, n1);
      bonds' := Append(bonds', n1, n0);
      AdjacencySnoc(pairs, (n0, n1));
    } else {
      assert pairs + [] == pairs;
    }
  }

  /** `_load_bonds`: the adjacency lists of a bonds section that starts at line `i`. */
  method LoadBonds(lines: seq<string>, i: nat, atoms: seq<(string, int)>) returns (r: Result<Section<seq<(int, seq<int>)>>>)
    requires i <= |lines|
    ensures var s := BondsFrom(lines, i, atoms, []);
            r == if s.Err? then Err(s.error) else Ok(Section(Adjacency(s.value.value), s.value.end))
  {
    var bonds: seq<(int, seq<int>)> := [];
    ghost var pairs: seq<(int, int)> := [];
    var k := i;
    ghost var spec := BondsFrom(lines, i, atoms, []);
    while k < |lines|
      invariant i <= k <= |lines|
      invariant spec == BondsFrom(lines, k, atoms, pairs)
      invariant bonds == Adjacency(pairs)
    {
      BondsFromAt(lines, k, atoms, pairs);
      var line := Body(lines[k]);
      if |line| == 0 {
        k := k + 1;
        continue;
      }
      if StartsWith(line, "[") {
        return Ok(Section(bonds, k));
      }
      var b := BondLine(line, atoms);
      if b.Err? {
        return Err(b.error);
      }
      bonds := AddBondOf(bonds, b.value, pairs);
      pairs := pairs + b.value.Items();
      k := k + 1;
    }
    r := Ok(Section(bonds, k));
  }

  /** The neighbours of atom `a` in the bonds `pairs`: the other end of each bond at `a`, in order. */
  function NeighboursOf(pairs: seq<(int, int)>, a: int): seq<int> {
    if pairs == [] then []
    else
      var p := pairs[|pairs| - 1];
      NeighboursOf(pairs[..|pairs| - 1], a) + (if p.0 == a then [p.1] else []) + (if p.1 == a then [p.0] else [])
  }

  /** The adjacency list of `a` holds its neighbours in bond order, and there is none without one. */
  lemma {:induction false} AdjacencyGet(pairs: seq<(int, int)>, a: int)
    ensures Get(Adjacency(pairs), a) == Listed(NeighboursOf(pairs, a))
  {
    if pairs != [] {
      var init, p := pairs[..|pairs| - 1], pairs[|pairs| - 1];
      AdjacencyGet(init, a);
      var xs := NeighboursOf(init, a);
      var d1 := Append(Adjacency(init), p.0, p.1);
      AppendGet(Adjacency(init), p.0, p.1, a, xs);
      AppendGet(d1, p.1, p.0, a, xs + (if p.0 == a then [p.1] else []));
    }
  }

  /** How many bonds of `pairs` go from `a` to `b`. */
  function Count(pairs: seq<(int, int)>, a: int, b: int): nat {
    if pairs == [] then 0
    else Count(pairs[..|pairs| - 1], a, b) + if pairs[|pairs| - 1] == (a, b) then 1 else 0
  }

  /** `b` is a neighbour of `a` once per bond between them, in either direction. */
  lemma {:induction false} NeighboursCount(pairs: seq<(int, int)>, a: int, b: int)
    ensures multiset(NeighboursOf(pairs, a))[b] == Count(pairs, a, b) + Count(pairs, b, a)
  {
    if pairs != [] {
      NeighboursCount(pairs[..|pairs| - 1], a, b);
    }
  }

  /**
   * The adjacency is symmetric: `b` occurs in the list of `a` as often as
   * `a` occurs in the list of `b`.
   */
  lemma AdjacencySymmetric(pairs: seq<(int, int)>, a: int, b: int)
    ensures multiset(Neighbours(Adjacency(pairs), a))[b] == multiset(Neighbours(Adjacency(pairs), b))[a]
  {
    AdjacencyGet(pairs, a);
    AdjacencyGet(pairs, b);
    NeighboursCount(pairs, a, b);
    NeighboursCount(pairs, b, a);
  }

  /** The list of `a` in an adjacency dictionary, empty when `a` has none. */
  function Neighbours(bonds: seq<(int, seq<int>)>, a: int): seq<int> {
    var g := Get(bonds, a);
    if g.Some? then g.value else []
  }

  /** The bond graph is symmetric: `b` is listed under `a` as often as `a` under `b`. */
  ghost predicate Symmetric(bonds: seq<(int, seq<int>)>) {
    forall a: int, b: int :: multiset(Neighbours(bonds, a))[b] == multiset(Neighbours(bonds, b))[a]
  }

  /** Every adjacency `_load_bonds` builds is symmetric. */
  lemma AdjacencyIsSymmetric(pairs: seq<(int, int)>)
    ensures Symmetric(Adjacency(pairs))
  {
    forall a: int, b: int
      ensures multiset(Neighbours(Adjacency(pairs), a))[b] == multiset(Neighbours(Adjacency(pairs), b))[a]
    {
      AdjacencySymmetric(pairs, a, b);
    }
  }

  /** Every bond of `pairs` joins two atom positions below `n`. */
  ghost predicate PairsBelow(pairs: seq<(int, int)>, n: int) {
    forall k :: 0 <= k < |pairs| ==> 0 <= pairs[k].0 < n && 0 <= pairs[k].1 < n
  }

  /** Every atom position listed in the bond graph is below `n`. */
  ghost predicate BondsBelow(bonds: seq<(int, seq<int>)>, n: int) {
    forall a: int, j :: 0 <= j < |Neighbours(bonds, a)| ==> 0 <= Neighbours(bonds, a)[j] < n
  }

  /** The neighbours of an atom are atoms of the bonds. */
  lemma {:induction false} NeighboursBelow(pairs: seq<(int, int)>, a: int, n: int)
    requires PairsBelow(pairs, n)
    ensures forall j :: 0 <= j < |NeighboursOf(pairs, a)| ==> 0 <= NeighboursOf(pairs, a)[j] < n
  {
    if pairs != [] {
      NeighboursBelow(pairs[..|pairs| - 1], a, n);
    }
  }

  /** The bond graph of bonds between atoms below `n` lists only atoms below `n`. */
  lemma AdjacencyBelow(pairs: seq<(int, int)>, n: int)
    requires PairsBelow(pairs, n)
    ensures BondsBelow(Adjacency(pairs), n)
  {
    forall a: int
      ensures forall j :: 0 <= j < |Neighbours(Adjacency(pairs), a)| ==> 0 <= Neighbours(Adjacency(pairs), a)[j] < n
    {
      AdjacencyGet(pairs, a);
      NeighboursBelow(pairs, a, n);
    }
  }

  /** Every atom index that the dictionary `d` holds is below `n`. */
  ghost predicate IndicesBelow(d: seq<(string, int)>, n: int) {
    forall name :: Get(d, name).Some? ==> 0 <= Get(d, name).value < n
  }

  /**
   * A bonds section read from line `i` with atom indices below `n` has only
   * bonds between atoms below `n`.
   */
  lemma {:induction false} BondsFromBelow(lines: seq<string>, i: nat, atoms: seq<(string, int)>, acc: seq<(int, int)>, n: int)
    requires i <= |lines| && IndicesBelow(atoms, n) && PairsBelow(acc, n)
    requires BondsFrom(lines, i, atoms, acc).Ok?
    ensures PairsBelow(BondsFrom(lines, i, atoms, acc).value.value, n)
    decreases |lines| - i
  {
    if i < |lines| && !StartsWith(Body(lines[i]), "[") {
      BondsStep(lines, i, atoms, acc, n);
      BondsFromBelow(lines, i + 1, atoms, acc + LineBonds(lines[i], atoms), n);
    } else {
      BondsEnd(lines, i, atoms, acc);
    }
  }

  /** The bond a line of a bonds section gives, if it gives one. */
  function LineBonds(line: string, atoms: seq<(string, int)>): seq<(int, int)> {
    var b := BondLine(Body(line), atoms);
    if b.Ok? then b.value.Items() else []
  }

  /** A bonds section ends at the end of the file or at a `[` line. */
  lemma BondsEnd(lines: seq<string>, i: nat, atoms: seq<(string, int)>, acc: seq<(int, int)>)
    requires i <= |lines| && !(i < |lines| && !StartsWith(Body(lines[i]), "["))
    ensures BondsFrom(lines, i, atoms, acc) == Ok(Section(acc, i))
  {
  }

  /** A line that does not end a bonds section adds its bond, if any, between atoms below `n`. */
  lemma BondsStep(lines: seq<string>, i: nat, atoms: seq<(string, int)>, acc: seq<(int, int)>, n: int)
    requires i < |lines| && !StartsWith(Body(lines[i]), "[") && BondsFrom(lines, i, atoms, acc).Ok?
    requires IndicesBelow(atoms, n) && PairsBelow(acc, n)
    ensures BondsFrom(lines, i, atoms, acc) == BondsFrom(lines, i + 1, atoms, acc + LineBonds(lines[i], atoms))
    ensures PairsBelow(acc + LineBonds(lines[i], atoms), n)
  {
    BondsFromAt(lines, i, atoms, acc);
    var b := BondLine(Body(lines[i]), atoms);
    if |Body(lines[i])| == 0 {
      assert SplitWs(Body(lines[i])) == [];
      assert acc + LineBonds(lines[i], atoms) == acc;
    } else {
      assert b.Ok?;
      assert LineBonds(lines[i], atoms) == b.value.Items();
    }
  }

  // -------------------------------------------------------------- residues

  /** `(atomic number, charge)` of an atom of a residue. */
  function ChargeRow(row: AtomRow): (int, PyFloat) {
    (row.1, row.2)
  }

  /**
   * `dict_atoms[atom[0]] = i` for each `i, atom` of `enumerate(atoms)`: the
   * index of each atom of one atoms section by name, counted from 0 in that
   * section.
   */
  function Indexed(d: seq<(string, int)>, rows: seq<AtomRow>): seq<(string, int)> {
    if rows == [] then d
    else Put(Indexed(d, rows[..|rows| - 1]), rows[|rows| - 1].0, |rows| - 1)
  }

  /** A name of the section maps to the position of its last atom of that name. */
  lemma {:induction false} IndexedLast(d: seq<(string, int)>, rows: seq<AtomRow>, j: nat)
    requires j < |rows| && forall k :: j < k < |rows| ==> rows[k].0 != rows[j].0
    ensures Get(Indexed(d, rows), rows[j].0) == Some(j)
  {
    var init := rows[..|rows| - 1];
    if j == |rows| - 1 {
      PutGet(Indexed(d, init), rows[j].0, j);
    } else {
      assert init[j] == rows[j];
      IndexedLast(d, init, j);
      PutOther(Indexed(d, init), rows[|rows| - 1].0, |rows| - 1, rows[j].0);
    }
  }

  /** A name that no atom of the section has keeps its earlier index. */
  lemma {:induction false} IndexedOther(d: seq<(string, int)>, rows: seq<AtomRow>, n: string)
    requires forall k :: 0 <= k < |rows| ==> rows[k].0 != n
    ensures Get(Indexed(d, rows), n) == Get(d, n)
  {
    if rows != [] {
      var init := rows[..|rows| - 1];
      IndexedOther(d, init, n);
      PutOther(Indexed(d, init), rows[|rows| - 1].0, |rows| - 1, n);
    }
  }

  /**
   * The `enumerate` loop of `_load_amino`: the atoms of a section are
   * appended to the residue's atoms and indexed by name.
   */
  method AddAtoms(retAtoms: seq<(int, PyFloat)>, dictAtoms: seq<(string, int)>, rows: seq<AtomRow>)
    returns (retAtoms': seq<(int, PyFloat)>, dictAtoms': seq<(string, int)>)
    ensures retAtoms' == retAtoms + Map(rows, ChargeRow)
    ensures dictAtoms' == Indexed(dictAtoms, rows)
  {
    retAtoms', dictAtoms' := retAtoms, dictAtoms;
    for i := 0 to |rows|
      invariant retAtoms' == retAtoms + Map(rows[..i], ChargeRow)
      invariant dictAtoms' == Indexed(dictAtoms, rows[..i])
    {
      MapConcat(rows[..i], [rows[i]], ChargeRow);
      assert rows[..i + 1] == rows[..i] + [rows[i]];
      retAtoms' := retAtoms' + [(rows[i].1, rows[i].2)];
      dictAtoms' := Put(dictAtoms', rows[i].0, i);
    }
    assert rows[..|rows|] == rows;
  }

  /** A residue read by `_load_amino`: its atoms, its bonds if it has a bonds section, and where it stopped. */
  datatype Amino = Amino(atoms: seq<(int, PyFloat)>, bonds: Option<seq<(int, seq<int>)>>, end: nat)

  /**
   * The loop of `_load_amino` from line `at`: a line starting with `[`
   * before any white space ends the residue; an indented `[ atoms ]` or
   * `[ bonds ]` line starts a section, read from the next line; any other
   * line is skipped. A later atoms section adds to the atoms, and a later
   * bonds section replaces the bonds.
   */
  function AminoFrom(symbols: map<string, AtomicNumber>, lines: seq<string>, at: nat, removesH: bool,
                     retAtoms: seq<(int, PyFloat)>, dictAtoms: seq<(string, int)>,
                     bonds: Option<seq<(int, seq<int>)>>): (r: Result<Amino>)
    requires at <= |lines|
    ensures r.Ok? ==> at <= r.value.end <= |lines|
    ensures r.Ok? && r.value.end < |lines| ==> StartsWith(ClipComment(lines[r.value.end]), "[")
    decreases |lines| - at
  {
    if at == |lines| then Ok(Amino(retAtoms, bonds, at))
    else
      var line := ClipComment(lines[at]);
      if StartsWith(line, "[") then Ok(Amino(retAtoms, bonds, at))
      else if StartsWith(Strip(line), "[ atoms ]") then
        var s := AtomsFrom(symbols, lines, at + 1, removesH, []);
        if s.Err? then Err(s.error)
        else AminoFrom(symbols, lines, s.value.end, removesH, retAtoms + Map(s.value.value, ChargeRow),
                       Indexed(dictAtoms, s.value.value), bonds)
      else if StartsWith(Strip(line), "[ bonds ]") then
        var s := BondsFrom(lines, at + 1, dictAtoms, []);
        if s.Err? then Err(s.error)
        else AminoFrom(symbols, lines, s.value.end, removesH, retAtoms, dictAtoms, Some(Adjacency(s.value.value)))
      else AminoFrom(symbols, lines, at + 1, removesH, retAtoms, dictAtoms, bonds)
  }

  /** One line read by the loop of `_load_amino`. */
  lemma AminoFromAt(symbols: map<string, AtomicNumber>, lines: seq<string>, at: nat, removesH: bool,
                    retAtoms: seq<(int, PyFloat)>, dictAtoms: seq<(string, int)>,
                    bonds: Option<seq<(int, seq<int>)>>)
    requires at < |lines|
    ensures var line := ClipComment(lines[at]);
            var sa := AtomsFrom(symbols, lines, at + 1, removesH, []);
            var sb := BondsFrom(lines, at + 1, dictAtoms, []);
            AminoFrom(symbols, lines, at, removesH, retAtoms, dictAtoms, bonds)
            == if StartsWith(line, "[") then Ok(Amino(retAtoms, bonds, at))
               else if StartsWith(Strip(line), "[ atoms ]") then
                 (if sa.Err? then Err(sa.error)
                  else AminoFrom(symbols, lines, sa.value.end, removesH, retAtoms + Map(sa.value.value, ChargeRow),
                                 Indexed(dictAtoms, sa.value.value), bonds))
               else if StartsWith(Strip(line), "[ bonds ]") then
                 (if sb.Err? then Err(sb.error)
                  else AminoFrom(symbols, lines, sb.value.end, removesH, retAtoms, dictAtoms, Some(Adjacency(sb.value.value))))
               else AminoFrom(symbols, lines, at + 1, removesH, retAtoms, dictAtoms, bonds)
  {
  }

  /** `_load_amino`: the residue whose header is the line before `at`. */
  method LoadAmino(symbols: map<string, AtomicNumber>, lines: seq<string>, at: nat, removesH: bool)
    returns (r: Result<Amino>)
    requires at <= |lines|
    ensures r == AminoFrom(symbols, lines, at, removesH, [], [], None)
  {
    var retAtoms: seq<(int, PyFloat)> := [];
    var dictAtoms: seq<(string, int)> := [];
    var bonds: Option<seq<(int, seq<int>)>> := None;
    var k := at;
    ghost var spec := AminoFrom(symbols, lines, at, removesH, [], [], None);
    while k < |lines|
      invariant at <= k <= |lines|
      invariant spec == AminoFrom(symbols, lines, k, removesH, retAtoms, dictAtoms, bonds)
      decreases |lines| - k
    {
      AminoFromAt(symbols, lines, k, removesH, retAtoms, dictAtoms, bonds);
      var line := ClipComment(lines[k]);
      if StartsWith(line, "[") {
        return Ok(Amino(retAtoms, bonds, k));
      }
      var t := Strip(line);
      if StartsWith(t, "[ atoms ]") {
        var s := LoadAtoms(symbols, lines, k + 1, removesH);
        if s.Err? {
          return Err(s.error);
        }
        retAtoms, dictAtoms := AddAtoms(retAtoms, dictAtoms, s.value.value);
        k := s.value.end;
      } else if StartsWith(t, "[ bonds ]") {
        var s := LoadBonds(lines, k + 1, dictAtoms);
        if s.Err? {
          return Err(s.error);
        }
        bonds := Some(s.value.value);
        k := s.value.end;
      } else {
        k := k + 1;
      }
    }
    r := Ok(Amino(retAtoms, bonds, k));
  }

  /** An atom of a residue that `_load_atoms` keeps. */
  predicate KeptCharge(atom: (int, PyFloat), removesH: bool) {
    atom.0 >= 1 && !(removesH && atom.0 == 1)
  }

  /** The atoms of an atoms section, as the residue holds them, are kept ones. */
  lemma ChargeRowsKept(atoms: seq<(int, PyFloat)>, rows: seq<AtomRow>, removesH: bool)
    requires forall k :: 0 <= k < |atoms| ==> KeptCharge(atoms[k], removesH)
    requires forall k :: 0 <= k < |rows| ==> Kept(rows[k], removesH)
    ensures var all := atoms + Map(rows, ChargeRow);
            forall k :: 0 <= k < |all| ==> KeptCharge(all[k], removesH)
  {
  }

  /** Indexing the atoms of a section keeps every index below the number of atoms. */
  lemma {:induction false} IndexedBelow(d: seq<(string, int)>, rows: seq<AtomRow>, n: int)
    requires IndicesBelow(d, n) && |rows| <= n
    ensures IndicesBelow(Indexed(d, rows), n)
  {
    if rows != [] {
      var init := rows[..|rows| - 1];
      IndexedBelow(d, init, n);
      forall name | Get(Indexed(d, rows), name).Some?
        ensures 0 <= Get(Indexed(d, rows), name).value < n
      {
        if name == rows[|rows| - 1].0 {
          PutGet(Indexed(d, init), name, |rows| - 1);
        } else {
          PutOther(Indexed(d, init), rows[|rows| - 1].0, |rows| - 1, name);
        }
      }
    }
  }

  /**
   * Every atom of a residue's bond graph is one of its atoms: a bond names
   * atoms by their index, and every index is below the number of atoms read.
   */
  lemma {:induction false} AminoFromBonds(symbols: map<string, AtomicNumber>, lines: seq<string>, at: nat, removesH: bool,
                                          retAtoms: seq<(int, PyFloat)>, dictAtoms: seq<(string, int)>,
                                          bonds: Option<seq<(int, seq<int>)>>)
    requires at <= |lines|
    requires IndicesBelow(dictAtoms, |retAtoms|)
    requires bonds.Some? ==> BondsBelow(bonds.value, |retAtoms|)
    requires AminoFrom(symbols, lines, at, removesH, retAtoms, dictAtoms, bonds).Ok?
    ensures var am := AminoFrom(symbols, lines, at, removesH, retAtoms, dictAtoms, bonds).value;
            am.bonds.Some? ==> BondsBelow(am.bonds.value, |am.atoms|)
    decreases |lines| - at
  {
    if at < |lines| {
      AminoFromAt(symbols, lines, at, removesH, retAtoms, dictAtoms, bonds);
      var line := ClipComment(lines[at]);
      if StartsWith(line, "[") {
      } else if StartsWith(Strip(line), "[ atoms ]") {
        var rows := AtomsFrom(symbols, lines, at + 1, removesH, []).value;
        var atoms' := retAtoms + Map(rows.value, ChargeRow);
        IndexedBelow(dictAtoms, rows.value, |atoms'|);
        AminoFromBonds(symbols, lines, rows.end, removesH, atoms', Indexed(dictAtoms, rows.value), bonds);
      } else if StartsWith(Strip(line), "[ bonds ]") {
        var sb := BondsFrom(lines, at + 1, dictAtoms, []);
        BondsFromBelow(lines, at + 1, dictAtoms, [], |retAtoms|);
        AdjacencyBelow(sb.value.value, |retAtoms|);
        AminoFromBonds(symbols, lines, sb.value.end, removesH, retAtoms, dictAtoms, Some(Adjacency(sb.value.value)));
      } else {
        AminoFromBonds(symbols, lines, at + 1, removesH, retAtoms, dictAtoms, bonds);
      }
    }
  }

  /**
   * `atom` is what line `line` of an atoms section says: the atomic number
   * of the type in its second word and the charge its third word spells.
   */
  ghost predicate ReadAt(symbols: map<string, AtomicNumber>, line: string, atom: (int, PyFloat)) {
    var sp := SplitWs(Body(line));
    |sp| >= 3 && atom.0 == AtomicNumIn(symbols, sp[1]) && ParseFloat(sp[2]) == Ok(atom.1)
  }

  /** `ReadAt` as a relation between lines and atoms. */
  ghost function Says(symbols: map<string, AtomicNumber>): (string, (int, PyFloat)) -> bool {
    (line, atom) => ReadAt(symbols, line, atom)
  }

  /** `atom` is what one of lines `lo` to `hi - 1` says, by the relation `says`. */
  ghost predicate FromLine(says: (string, (int, PyFloat)) -> bool, lines: seq<string>, lo: nat, hi: nat, atom: (int, PyFloat)) {
    exists k :: lo <= k < hi && k < |lines| && says(lines[k], atom)
  }

  /** Every atom of `atoms` is what one of lines `lo` to `hi - 1` says. */
  ghost predicate FromLines(says: (string, (int, PyFloat)) -> bool, lines: seq<string>, lo: nat, hi: nat, atoms: seq<(int, PyFloat)>) {
    forall q :: 0 <= q < |atoms| ==> FromLine(says, lines, lo, hi, atoms[q])
  }

  /** Every line gives at most one atom, and `says` holds of the line and that atom. */
  ghost predicate SaysRows(says: (string, (int, PyFloat)) -> bool, rowsOf: string -> seq<AtomRow>) {
    forall line :: |rowsOf(line)| <= 1 && (rowsOf(line) != [] ==> says(line, ChargeRow(rowsOf(line)[0])))
  }

  /** A line gives at most one atom, and it is what the line says. */
  lemma LineRowRead(symbols: map<string, AtomicNumber>, line: string, removesH: bool)
    ensures var head := LineRows(symbols, line, removesH);
            |head| <= 1 && (head != [] ==> ReadAt(symbols, line, ChargeRow(head[0])))
  {
    var a := AtomLine(symbols, Body(line), removesH);
    assert LineRows(symbols, line, removesH) == if a.Ok? && a.value.Some? then [a.value.value] else [];
    AtomLineWords(symbols, Body(line), removesH);
  }

  /** `ReadAt` holds of every line and the atom it gives. */
  lemma SaysRead(symbols: map<string, AtomicNumber>, removesH: bool)
    ensures SaysRows(Says(symbols), RowsOf(symbols, removesH))
  {
    forall line: string
      ensures var head := RowsOf(symbols, removesH)(line);
              |head| <= 1 && (head != [] ==> Says(symbols)(line, ChargeRow(head[0])))
    {
      LineRowRead(symbols, line, removesH);
    }
  }

  /** The atoms of lines `i` to `j - 1` are what those lines say. */
  lemma {:induction false} RowsRead(says: (string, (int, PyFloat)) -> bool, rowsOf: string -> seq<AtomRow>,
                                    lines: seq<string>, i: nat, j: nat)
    requires i <= j <= |lines| && SaysRows(says, rowsOf)
    ensures FromLines(says, lines, i, j, Map(Rows(rowsOf, lines, i, j), ChargeRow))
    decreases j - i
  {
    if i < j {
      var head := rowsOf(lines[i]);
      var rest := Rows(rowsOf, lines, i + 1, j);
      RowsRead(says, rowsOf, lines, i + 1, j);
      FromLinesWiden(says, lines, i + 1, j, i, j, Map(rest, ChargeRow));
      if head != [] {
        assert FromLine(says, lines, i, j, Map(head, ChargeRow)[0]);
      }
      FromLinesAppend(says, lines, i, j, Map(head, ChargeRow), Map(rest, ChargeRow));
      MapConcat(head, rest, ChargeRow);
    }
  }

  /** Atoms read from lines `lo` to `hi - 1`, laid end to end. */
  lemma FromLinesAppend(says: (string, (int, PyFloat)) -> bool, lines: seq<string>, lo: nat, hi: nat,
                        a: seq<(int, PyFloat)>, b: seq<(int, PyFloat)>)
    requires FromLines(says, lines, lo, hi, a) && FromLines(says, lines, lo, hi, b)
    ensures FromLines(says, lines, lo, hi, a + b)
  {
    forall q | 0 <= q < |a + b|
      ensures FromLine(says, lines, lo, hi, (a + b)[q])
    {
      if q < |a| {
        assert (a + b)[q] == a[q];
      } else {
        assert (a + b)[q] == b[q - |a|];
      }
    }
  }

  /** Atoms read from fewer lines are read from more. */
  lemma FromLinesWiden(says: (string, (int, PyFloat)) -> bool, lines: seq<string>, lo: nat, hi: nat, lo': nat, hi': nat,
                       a: seq<(int, PyFloat)>)
    requires FromLines(says, lines, lo, hi, a) && lo' <= lo && hi <= hi'
    ensures FromLines(says, lines, lo', hi', a)
  {
    forall q | 0 <= q < |a|
      ensures FromLine(says, lines, lo', hi', a[q])
    {
      assert FromLine(says, lines, lo, hi, a[q]);
      var k :| lo <= k < hi && k < |lines| && says(lines[k], a[q]);
    }
  }

  /**
   * The atoms of a residue read from line `lo` on are what its lines say:
   * those already read, and those of each later atoms section.
   */
  lemma {:induction false} AminoFromRead(says: (string, (int, PyFloat)) -> bool, symbols: map<string, AtomicNumber>,
                                         lines: seq<string>, lo: nat, at: nat, removesH: bool,
                                         retAtoms: seq<(int, PyFloat)>, dictAtoms: seq<(string, int)>,
                                         bonds: Option<seq<(int, seq<int>)>>)
    requires lo <= at <= |lines| && SaysRows(says, RowsOf(symbols, removesH))
    requires FromLines(says, lines, lo, at, retAtoms)
    requires AminoFrom(symbols, lines, at, removesH, retAtoms, dictAtoms, bonds).Ok?
    ensures var am := AminoFrom(symbols, lines, at, removesH, retAtoms, dictAtoms, bonds).value;
            FromLines(says, lines, lo, am.end, am.atoms)
    decreases |lines| - at
  {
    if at < |lines| {
      AminoFromAt(symbols, lines, at, removesH, retAtoms, dictAtoms, bonds);
      var line := ClipComment(lines[at]);
      if StartsWith(line, "[") {
      } else if StartsWith(Strip(line), "[ atoms ]") {
        var s := AtomsFrom(symbols, lines, at + 1, removesH, []).value;
        AtomsFromRows(symbols, lines, at + 1, removesH, []);
        assert s.value == Rows(RowsOf(symbols, removesH), lines, at + 1, s.end);
        RowsRead(says, RowsOf(symbols, removesH), lines, at + 1, s.end);
        FromLinesWiden(says, lines, at + 1, s.end, lo, s.end, Map(s.value, ChargeRow));
        FromLinesWiden(says, lines, lo, at, lo, s.end, retAtoms);
        FromLinesAppend(says, lines, lo, s.end, retAtoms, Map(s.value, ChargeRow));
        AminoFromRead(says, symbols, lines, lo, s.end, removesH, retAtoms + Map(s.value, ChargeRow),
                      Indexed(dictAtoms, s.value), bonds);
      } else if StartsWith(Strip(line), "[ bonds ]") {
        var sb := BondsFrom(lines, at + 1, dictAtoms, []).value;
        FromLinesWiden(says, lines, lo, at, lo, sb.end, retAtoms);
        AminoFromRead(says, symbols, lines, lo, sb.end, removesH, retAtoms, dictAtoms, Some(Adjacency(sb.value)));
      } else {
        FromLinesWiden(says, lines, lo, at, lo, at + 1, retAtoms);
        AminoFromRead(says, symbols, lines, lo, at + 1, removesH, retAtoms, dictAtoms, bonds);
      }
    }
  }


  /**
   * A residue holds only atoms that are kept, and its bonds, when it has a
   * bonds section, are symmetric.
   */
  lemma {:induction false} AminoFromMeaning(symbols: map<string, AtomicNumber>, lines: seq<string>, at: nat, removesH: bool,
                                            retAtoms: seq<(int, PyFloat)>, dictAtoms: seq<(string, int)>,
                                            bonds: Option<seq<(int, seq<int>)>>)
    requires at <= |lines|
    requires forall k :: 0 <= k < |retAtoms| ==> KeptCharge(retAtoms[k], removesH)
    requires bonds.Some? ==> Symmetric(bonds.value)
    requires AminoFrom(symbols, lines, at, removesH, retAtoms, dictAtoms, bonds).Ok?
    ensures var am := AminoFrom(symbols, lines, at, removesH, retAtoms, dictAtoms, bonds).value;
            (forall k :: 0 <= k < |am.atoms| ==> KeptCharge(am.atoms[k], removesH))
            && (am.bonds.Some? ==> Symmetric(am.bonds.value))
    decreases |lines| - at
  {
    if at < |lines| {
      AminoFromAt(symbols, lines, at, removesH, retAtoms, dictAtoms, bonds);
      var line := ClipComment(lines[at]);
      if StartsWith(line, "[") {
      } else if StartsWith(Strip(line), "[ atoms ]") {
        var sa := AtomsFrom(symbols, lines, at + 1, removesH, []);
        AtomsFromKept(symbols, lines, at + 1, removesH, []);
        ChargeRowsKept(retAtoms, sa.value.value, removesH);
        AminoFromMeaning(symbols, lines, sa.value.end, removesH, retAtoms + Map(sa.value.value, ChargeRow),
                         Indexed(dictAtoms, sa.value.value), bonds);
      } else if StartsWith(Strip(line), "[ bonds ]") {
        var sb := BondsFrom(lines, at + 1, dictAtoms, []);
        AdjacencyIsSymmetric(sb.value.value);
        AminoFromMeaning(symbols, lines, sb.value.end, removesH, retAtoms, dictAtoms, Some(Adjacency(sb.value.value)));
      } else {
        AminoFromMeaning(symbols, lines, at + 1, removesH, retAtoms, dictAtoms, bonds);
      }
    }
  }

  // ------------------------------------------------------------ load_charge

  /** A residue of the topology: its name, its atoms `(atomic number, charge)` and its bond graph. */
  datatype Residue = Residue(name: string, atoms: seq<(int, PyFloat)>, bonds: seq<(int, seq<int>)>)

  /** `_GRO_TO_PDB_NAME`: the GROMACS names of the histidine forms and their PDB names. */
  const GroToPdbName: map<string, string> := map["HSD" := "HID", "HSE" := "HIE", "HSP" := "HIP"]

  /** `_GRO_TO_PDB_NAME.get(name, name)`. */
  function PdbName(name: string): (r: string)
    ensures r !in GroToPdbName
    ensures name !in GroToPdbName ==> r == name
  {
    if name in GroToPdbName then GroToPdbName[name] else name
  }

  /** `line[1:line.find(']')].strip()`: the name between the brackets of a header. */
  function HeaderName(line: string): string {
    Strip(Slice(line, 1, Find(line, ']')))
  }

  /** The output of a generator with `items` yielded before it. */
  function After(items: seq<Residue>, r: (seq<Residue>, Option<Error>)): (seq<Residue>, Option<Error>) {
    (items + r.0, r.1)
  }

  /** Yielding `ys` and then `items`' continuation. */
  lemma AfterAfter(items: seq<Residue>, ys: seq<Residue>, r: (seq<Residue>, Option<Error>))
    ensures After(items, After(ys, r)) == After(items + ys, r)
  {
    assert items + (ys + r.0) == items + ys + r.0;
  }

  /** The residue a header `line` yields: none when it has no bonds section. */
  function Yielded(line: string, am: Amino): seq<Residue> {
    if am.bonds.Some? then [Residue(PdbName(HeaderName(line)), am.atoms, am.bonds.value)] else []
  }

  /**
   * The loop of `load_charge` from line `at`: the residues yielded, and the
   * exception that ended the generator, if any. A line starting with `[`
   * after its comment is cut and its trailing space removed is a residue
   * header; a residue without a bonds section is not yielded.
   */
  function ChargeFrom(symbols: map<string, AtomicNumber>, lines: seq<string>, at: nat, removesH: bool)
    : (r: (seq<Residue>, Option<Error>))
    requires at <= |lines|
    decreases |lines| - at
  {
    if at == |lines| then ([], None)
    else
      var line := RStrip(ClipComment(lines[at]));
      if StartsWith(line, "[") then
        var am := AminoFrom(symbols, lines, at + 1, removesH, [], [], None);
        if am.Err? then ([], Some(am.error))
        else
          var rest := ChargeFrom(symbols, lines, am.value.end, removesH);
          (Yielded(line, am.value) + rest.0, rest.1)
      else ChargeFrom(symbols, lines, at + 1, removesH)
  }

  /** One header read by the loop of `load_charge`. */
  lemma ChargeFromAt(symbols: map<string, AtomicNumber>, lines: seq<string>, at: nat, removesH: bool)
    requires at < |lines|
    ensures var line := RStrip(ClipComment(lines[at]));
            var am := AminoFrom(symbols, lines, at + 1, removesH, [], [], None);
            ChargeFrom(symbols, lines, at, removesH)
            == if !StartsWith(line, "[") then ChargeFrom(symbols, lines, at + 1, removesH)
               else if am.Err? then ([], Some(am.error))
               else
                 var rest := ChargeFrom(symbols, lines, am.value.end, removesH);
                 (Yielded(line, am.value) + rest.0, rest.1)
  {
  }

  /** A header whose residue is read: what it yields comes first. */
  lemma ChargeFromHeader(symbols: map<string, AtomicNumber>, lines: seq<string>, at: nat, removesH: bool, am: Amino)
    requires at < |lines| && StartsWith(RStrip(ClipComment(lines[at])), "[")
    requires AminoFrom(symbols, lines, at + 1, removesH, [], [], None) == Ok(am)
    ensures at < am.end <= |lines|
    ensures var rest := ChargeFrom(symbols, lines, am.end, removesH);
            ChargeFrom(symbols, lines, at, removesH) == (Yielded(RStrip(ClipComment(lines[at])), am) + rest.0, rest.1)
  {
    ChargeFromAt(symbols, lines, at, removesH);
  }

  /**
   * One pass of the loop of `load_charge` at a header line: the residue
   * read, yielded when it has bonds, and the line to go on from.
   */
  method ReadResidue(symbols: map<string, AtomicNumber>, lines: seq<string>, at: nat, removesH: bool)
    returns (ys: seq<Residue>, next: nat, err: Option<Error>)
    requires at < |lines| && StartsWith(RStrip(ClipComment(lines[at])), "[")
    ensures err.Some? ==> ChargeFrom(symbols, lines, at, removesH) == ([], err)
    ensures err.None? ==> at < next <= |lines|
    ensures err.None? ==> ChargeFrom(symbols, lines, at, removesH) == After(ys, ChargeFrom(symbols, lines, next, removesH))
  {
    ChargeFromAt(symbols, lines, at, removesH);
    var am := LoadAmino(symbols, lines, at + 1, removesH);
    if am.Err? {
      return [], 0, Some(am.error);
    }
    ChargeFromHeader(symbols, lines, at, removesH, am.value);
    var line := RStrip(ClipComment(lines[at]));
    ys, next, err := Yielded(line, am.value), am.value.end, None;
  }

  /**
   * `load_charge`: the residues of a topology text, in order, and the
   * exception that stopped the generator, if any.
   */
  method LoadCharge(lines: seq<string>, removesH: bool) returns (items: seq<Residue>, err: Option<Error>)
    ensures (items, err) == ChargeFrom(SymbolToAtomicNum, lines, 0, removesH)
  {
    var symbols := SymbolToAtomicNum;
    items := [];
    var k := 0;
    ghost var spec := ChargeFrom(symbols, lines, 0, removesH);
    assert spec.0 == items + spec.0;
    while k < |lines|
      invariant k <= |lines|
      invariant spec == After(items, ChargeFrom(symbols, lines, k, removesH))
      decreases |lines| - k
    {
      var line := RStrip(ClipComment(lines[k]));
      if StartsWith(line, "[") {
        var ys, next, e := ReadResidue(symbols, lines, k, removesH);
        if e.Some? {
          assert items + [] == items;
          return items, e;
        }
        AfterAfter(items, ys, ChargeFrom(symbols, lines, next, removesH));
        items := items + ys;
        k := next;
      } else {
        assert ChargeFrom(symbols, lines, k, removesH) == ChargeFrom(symbols, lines, k + 1, removesH) by {
          ChargeFromAt(symbols, lines, k, removesH);
        }
        k := k + 1;
      }
    }
    assert items + [] == items;
    return items, None;
  }

  /** What a residue must be: see `ChargeFromMeaning`. */
  ghost predicate WellFormed(r: Residue, removesH: bool) {
    r.name !in GroToPdbName
    && (forall k :: 0 <= k < |r.atoms| ==> KeptCharge(r.atoms[k], removesH))
    && Symmetric(r.bonds)
    && BondsBelow(r.bonds, |r.atoms|)
  }

  /** Every residue of `rs` is well formed. */
  ghost predicate AllWellFormed(rs: seq<Residue>, removesH: bool) {
    forall i :: 0 <= i < |rs| ==> WellFormed(rs[i], removesH)
  }

  /** The residue of one header is well formed. */
  lemma YieldedMeaning(symbols: map<string, AtomicNumber>, lines: seq<string>, at: nat, removesH: bool, line: string)
    requires at <= |lines|
    requires AminoFrom(symbols, lines, at, removesH, [], [], None).Ok?
    ensures AllWellFormed(Yielded(line, AminoFrom(symbols, lines, at, removesH, [], [], None).value), removesH)
  {
    AminoFromMeaning(symbols, lines, at, removesH, [], [], None);
    AminoFromBonds(symbols, lines, at, removesH, [], [], None);
  }

  /**
   * What `load_charge` yields: no residue keeps a GROMACS histidine name,
   * every atom is a recognised element (and no hydrogen when hydrogens are
   * removed), and every bond graph is symmetric and joins atoms of the
   * residue.
   */
  lemma {:induction false} ChargeFromMeaning(symbols: map<string, AtomicNumber>, lines: seq<string>, at: nat, removesH: bool)
    requires at <= |lines|
    ensures AllWellFormed(ChargeFrom(symbols, lines, at, removesH).0, removesH)
    decreases |lines| - at
  {
    if at < |lines| {
      var line := RStrip(ClipComment(lines[at]));
      var am := AminoFrom(symbols, lines, at + 1, removesH, [], [], None);
      if !StartsWith(line, "[") {
        assert ChargeFrom(symbols, lines, at, removesH) == ChargeFrom(symbols, lines, at + 1, removesH) by {
          ChargeFromAt(symbols, lines, at, removesH);
        }
        ChargeFromMeaning(symbols, lines, at + 1, removesH);
      } else if am.Err? {
        assert ChargeFrom(symbols, lines, at, removesH).0 == [] by {
          ChargeFromAt(symbols, lines, at, removesH);
        }
      } else {
        var ys := Yielded(line, am.value);
        var rest := ChargeFrom(symbols, lines, am.value.end, removesH).0;
        assert ChargeFrom(symbols, lines, at, removesH).0 == ys + rest by {
          ChargeFromAt(symbols, lines, at, removesH);
        }
        YieldedMeaning(symbols, lines, at + 1, removesH, line);
        ChargeFromMeaning(symbols, lines, am.value.end, removesH);
        forall i | 0 <= i < |ys + rest| ensures WellFormed((ys + rest)[i], removesH) {
          if i < |ys| {
            assert (ys + rest)[i] == ys[i];
          } else {
            assert (ys + rest)[i] == rest[i - |ys|];
          }
        }
      }
    }
  }

  /**
   * Every atom of every residue `load_charge` yields from line `at` on is
   * what one of the lines after `at` says, by any `says` that holds of each
   * line and the atom it gives.
   */
  lemma {:induction false} ChargeFromRead(says: (string, (int, PyFloat)) -> bool, symbols: map<string, AtomicNumber>,
                                          lines: seq<string>, at: nat, removesH: bool)
    requires at <= |lines| && SaysRows(says, RowsOf(symbols, removesH))
    ensures var rs := ChargeFrom(symbols, lines, at, removesH).0;
            forall i :: 0 <= i < |rs| ==> FromLines(says, lines, at, |lines|, rs[i].atoms)
    decreases |lines| - at
  {
    if at < |lines| {
      var line := RStrip(ClipComment(lines[at]));
      var am := AminoFrom(symbols, lines, at + 1, removesH, [], [], None);
      ChargeFromAt(symbols, lines, at, removesH);
      if !StartsWith(line, "[") {
        ChargeFromRead(says, symbols, lines, at + 1, removesH);
        var rs := ChargeFrom(symbols, lines, at + 1, removesH).0;
        forall i | 0 <= i < |rs| ensures FromLines(says, lines, at, |lines|, rs[i].atoms) {
          FromLinesWiden(says, lines, at + 1, |lines|, at, |lines|, rs[i].atoms);
        }
      } else if am.Ok? {
        var ys: seq<Residue> := Yielded(line, am.value);
        var rest: seq<Residue> := ChargeFrom(symbols, lines, am.value.end, removesH).0;
        AminoFromRead(says, symbols, lines, at + 1, at + 1, removesH, [], [], None);
        FromLinesWiden(says, lines, at + 1, am.value.end, at, |lines|, am.value.atoms);
        ChargeFromRead(says, symbols, lines, am.value.end, removesH);
        forall i | 0 <= i < |ys + rest| ensures FromLines(says, lines, at, |lines|, (ys + rest)[i].atoms) {
          if i < |ys| {
            assert (ys + rest)[i] == ys[i];
          } else {
            assert (ys + rest)[i] == rest[i - |ys|];
            FromLinesWiden(says, lines, am.value.end, |lines|, at, |lines|, rest[i - |ys|].atoms);
          }
        }
      }
    }
  }

  /**
   * Every atom of every residue `load_charge` yields is read from a line of
   * the text: its atomic number is that of the type in the line's second
   * word and its charge is what the third word spells.
   */
  lemma ChargeFromAtoms(symbols: map<string, AtomicNumber>, lines: seq<string>, removesH: bool)
    ensures var rs := ChargeFrom(symbols, lines, 0, removesH).0;
            forall i :: 0 <= i < |rs| ==> FromLines(Says(symbols), lines, 0, |lines|, rs[i].atoms)
  {
    SaysRead(symbols, removesH);
    ChargeFromRead(Says(symbols), symbols, lines, 0, removesH);
  }
}
