/**
 * The trajectory PDB filter (`main/input.py`): from the lines of a
 * multi-frame PDB text in which each frame holds the protein, a `TER` line
 * and then the probe molecules, keep the protein of every frame and count
 * the heavy atoms of the probes of the first frame.
 *
 * The three readers share one line iterator. Here the iterator is the
 * sequence of lines and an index: each reader is given the index of the
 * first line it draws and returns the index of the first line it left.
 */
module Input {
  import opened Wrappers
  import opened PyStr
  import opened Seqs

  // ---------------------------------------------------------------- records

  /** An `ATOM  ` or `HETATM` record. */
  predicate IsAtom(line: string) {
    StartsWith(line, "ATOM  ") || StartsWith(line, "HETATM")
  }

  /** A record the first frame keeps for the protein: an atom or a `MODEL` line. */
  predicate IsProtein(line: string) {
    IsAtom(line) || StartsWith(line, "MODEL")
  }

  /** A line that starts with `p` starts with the first character of `p`. */
  lemma Head(line: string, p: string)
    requires p != [] && StartsWith(line, p)
    ensures line != [] && line[0] == p[0]
  {
    assert line[..|p|][0] == p[0];
  }

  /** The record kinds exclude each other. */
  lemma RecordKinds(line: string)
    ensures IsAtom(line) ==> !StartsWith(line, "TER") && !StartsWith(line, "MODEL") && !StartsWith(line, "ENDMDL")
    ensures StartsWith(line, "TER") ==> !StartsWith(line, "MODEL") && !StartsWith(line, "ENDMDL")
    ensures StartsWith(line, "MODEL") ==> !StartsWith(line, "ENDMDL")
  {
    if StartsWith(line, "ATOM  ") { Head(line, "ATOM  "); }
    if StartsWith(line, "HETATM") { Head(line, "HETATM"); }
    if StartsWith(line, "TER") { Head(line, "TER"); }
    if StartsWith(line, "MODEL") { Head(line, "MODEL"); }
    if StartsWith(line, "ENDMDL") { Head(line, "ENDMDL"); }
  }

  /** `int(line[6:11])`: the serial number of a record. */
  function Serial(line: string): Result<int> {
    ParseInt(Slice(line, 6, 11))
  }

  /** The serial of the `TER` line that ends the first frame's protein, the upper bound of the later frames' atom serials. */
  function TerId(line: string): (r: Result<Option<int>>)
    ensures r.Ok? ==> r.value.Some?
    ensures r.Err? ==> r.error == ValueError
  {
    var s := Serial(line);
    if s.Ok? then Ok(Some(s.value)) else Err(s.error)
  }

  /** The first line from `i` on that starts with `tag`, or `|lines|` if none does. */
  function FirstWith(lines: seq<string>, i: nat, tag: string): (t: nat)
    requires i <= |lines|
    ensures i <= t <= |lines|
    ensures t < |lines| ==> StartsWith(lines[t], tag)
    ensures forall k :: i <= k < t ==> !StartsWith(lines[k], tag)
    decreases |lines| - i
  {
    if i == |lines| || StartsWith(lines[i], tag) then i else FirstWith(lines, i + 1, tag)
  }

  /** No line from `i` on starts with `tag` exactly when the search runs to the end. */
  lemma FirstWithNone(lines: seq<string>, i: nat, tag: string)
    requires i <= |lines|
    ensures FirstWith(lines, i, tag) == |lines| <==> forall k :: i <= k < |lines| ==> !StartsWith(lines[k], tag)
  {
  }

  // ------------------------------------------------------ the first frame

  /** The protein records among `ls`, in order. */
  function ProteinLines(ls: seq<string>): seq<string> {
    if ls == [] then []
    else ProteinLines(ls[..|ls| - 1]) + if IsProtein(ls[|ls| - 1]) then [ls[|ls| - 1]] else []
  }

  /** The protein records are exactly the lines that are protein records. */
  lemma {:induction false} ProteinLinesMeaning(ls: seq<string>)
    ensures forall x :: x in ProteinLines(ls) <==> x in ls && IsProtein(x)
  {
    if ls != [] {
      var init := ls[..|ls| - 1];
      ProteinLinesMeaning(init);
      assert ls == init + [ls[|ls| - 1]];
    }
  }

  /** What the first-frame protein reader leaves: the lines it kept, where it stopped, and its result. */
  datatype FirstFrame = FirstFrame(kept: seq<string>, next: nat, maxId: Result<Option<int>>)

  /**
   * `_first_frame_protein_filter`: the protein records up to the first
   * `TER` line, that line itself, and the serial of that line; `None` and
   * every line drawn when there is no `TER` line. A serial that `int()`
   * refuses raises `ValueError`.
   */
  function ProteinOf(lines: seq<string>): (r: FirstFrame)
    ensures r.next <= |lines|
    ensures r.maxId == Ok(None) ==> r.next == |lines|
  {
    var t := FirstWith(lines, 0, "TER");
    if t == |lines| then FirstFrame(ProteinLines(lines), |lines|, Ok(None))
    else
      FirstFrame(ProteinLines(lines[..t]) + [lines[t]], t + 1, TerId(lines[t]))
  }

  /** The first frame copies protein records and its `TER` line, but never an `ENDMDL` line. */
  lemma ProteinOfKeepsNoEndmdl(lines: seq<string>)
    ensures var r := ProteinOf(lines);
            forall k :: 0 <= k < |r.kept| ==> !StartsWith(r.kept[k], "ENDMDL")
  {
    var t := FirstWith(lines, 0, "TER");
    var pre := if t == |lines| then lines else lines[..t];
    ProteinLinesMeaning(pre);
    var r := ProteinOf(lines);
    assert r.kept == ProteinLines(pre) + if t == |lines| then [] else [lines[t]];
    forall k | 0 <= k < |r.kept| ensures !StartsWith(r.kept[k], "ENDMDL") {
      var x := r.kept[k];
      RecordKinds(x);
      if k < |ProteinLines(pre)| {
        assert x in ProteinLines(pre);
      }
    }
  }

  /**
   * The first-frame reader stops right after the first `TER` line, or
   * draws every line when there is none.
   */
  lemma ProteinOfStops(lines: seq<string>)
    ensures var r := ProteinOf(lines);
            (r.maxId == Ok(None) <==> forall k :: 0 <= k < |lines| ==> !StartsWith(lines[k], "TER"))
            && (r.maxId != Ok(None) ==> 0 < r.next && StartsWith(lines[r.next - 1], "TER")
                                        && forall k :: 0 <= k < r.next - 1 ==> !StartsWith(lines[k], "TER"))
  {
    var t := FirstWith(lines, 0, "TER");
    FirstWithNone(lines, 0, "TER");
    var r := ProteinOf(lines);
    assert r.maxId == Ok(None) <==> t == |lines|;
  }

  /** The loop of `_first_frame_protein_filter`. */
  method FirstFrameProteinFilter(lines: seq<string>) returns (r: FirstFrame)
    ensures r == ProteinOf(lines)
  {
    var buf: seq<string> := [];
    var k := 0;
    while k < |lines|
      invariant k <= FirstWith(lines, 0, "TER")
      invariant buf == ProteinLines(lines[..k])
    {
      var line := lines[k];
      assert lines[..k + 1] == lines[..k] + [line];
      RecordKinds(line);
      if IsProtein(line) {
        buf := buf + [line];
      }
      if StartsWith(line, "TER") {
        buf := buf + [line];
        var s := Serial(line);
        if s.Err? {
          return FirstFrame(buf, k + 1, Err(s.error));
        }
        return FirstFrame(buf, k + 1, Ok(Some(s.value)));
      }
      k := k + 1;
    }
    assert lines[..k] == lines;
    r := FirstFrame(buf, k, Ok(None));
  }

  // -------------------------------------------------------------- probes

  /** A probe heavy atom after the first probe line: an atom record of the probe residue that is not a hydrogen. */
  predicate IsProbeAtom(line: string, probeName: string) {
    IsAtom(line) && Slice(line, 17, 20) == probeName && Slice(line, 76, 78) != " H"
  }

  /** How many lines of `ls` are probe heavy atoms. */
  function ProbeAtoms(ls: seq<string>, probeName: string): (n: nat)
    ensures n <= |ls|
  {
    if ls == [] then 0
    else ProbeAtoms(ls[..|ls| - 1], probeName) + if IsProbeAtom(ls[|ls| - 1], probeName) then 1 else 0
  }

  /** The count of probe heavy atoms and the index after the `ENDMDL` line that ended the count. */
  datatype Probes = Probes(count: nat, next: nat)

  /**
   * `_first_frame_probe_counter` from line `at`: the line drawn first names
   * the probe residue (columns 17-20) and counts unless columns 76-78 read
   * ` H`, whatever record it is; the later atom records of that residue
   * that are not hydrogens count, up to the first `ENDMDL` line, which is
   * drawn too. `next` on a spent iterator raises `StopIteration`.
   */
  function ProbeOf(lines: seq<string>, at: nat): (r: Result<Probes>)
    requires at <= |lines|
    ensures r.Err? <==> at == |lines|
    ensures r.Err? ==> r.error == StopIteration
    ensures r.Ok? ==> at < r.value.next <= |lines|
  {
    if at == |lines| then Err(StopIteration)
    else
      var first := lines[at];
      var probeName := Slice(first, 17, 20);
      var e := FirstWith(lines, at + 1, "ENDMDL");
      Ok(Probes((if Slice(first, 76, 78) != " H" then 1 else 0) + ProbeAtoms(lines[at + 1..e], probeName),
                if e < |lines| then e + 1 else |lines|))
  }

  /**
   * The count is at most the number of lines drawn, and the lines drawn
   * after the first hold no `ENDMDL` line but the last one.
   */
  lemma ProbeOfMeaning(lines: seq<string>, at: nat)
    requires at < |lines|
    ensures var p := ProbeOf(lines, at).value;
            p.count <= p.next - at
            && (forall k :: at < k < p.next - 1 ==> !StartsWith(lines[k], "ENDMDL"))
            && (p.next < |lines| ==> StartsWith(lines[p.next - 1], "ENDMDL"))
  {
  }

  /** The loop of `_first_frame_probe_counter`, drawing the line `lines[at]` first. */
  method FirstFrameProbeCounter(lines: seq<string>, at: nat) returns (r: Result<Probes>)
    requires at <= |lines|
    ensures r == ProbeOf(lines, at)
  {
    if at == |lines| {
      return Err(StopIteration);
    }
    var line := lines[at];
    var probeName := Slice(line, 17, 20);
    var n: nat := 0;
    if Slice(line, 76, 78) != " H" {
      n := n + 1;
    }
    var first := n;
    var k := at + 1;
    ghost var e := FirstWith(lines, at + 1, "ENDMDL");
    while k < |lines|
      invariant at + 1 <= k <= e
      invariant n == first + ProbeAtoms(lines[at + 1..k], probeName)
    {
      line := lines[k];
      assert lines[at + 1..k + 1] == lines[at + 1..k] + [line];
      RecordKinds(line);
      if IsAtom(line) {
        if Slice(line, 17, 20) == probeName && Slice(line, 76, 78) != " H" {
          n := n + 1;
        }
      } else if StartsWith(line, "ENDMDL") {
        assert k == e;
        return Ok(Probes(n, k + 1));
      }
      k := k + 1;
    }
    assert k == e == |lines|;
    r := Ok(Probes(n, k));
  }

  // ---------------------------------------------------------- later frames

  /**
   * Whether a line of a later frame is kept: an atom record iff its serial
   * is below the first frame's `TER` serial, a `TER` record iff its serial
   * is that serial, and every `MODEL` and `ENDMDL` line.
   */
  function KeepLater(line: string, maxId: int): (r: Result<bool>)
    ensures r.Err? ==> r.error == ValueError
  {
    if IsAtom(line) then
      var s := Serial(line);
      if s.Err? then Err(s.error) else Ok(s.value < maxId)
    else if StartsWith(line, "TER") then
      var s := Serial(line);
      if s.Err? then Err(s.error) else Ok(s.value == maxId)
    else Ok(StartsWith(line, "MODEL") || StartsWith(line, "ENDMDL"))
  }

  /** The kept lines of the later frames `ls`, or the error of the first serial `int()` refuses. */
  function LaterFrames(ls: seq<string>, maxId: int): (r: Result<seq<string>>)
    ensures r.Err? ==> r.error == ValueError
  {
    if ls == [] then Ok([])
    else
      var r := LaterFrames(ls[..|ls| - 1], maxId);
      var keep := KeepLater(ls[|ls| - 1], maxId);
      if r.Err? then r
      else if keep.Err? then Err(keep.error)
      else Ok(r.value + if keep.value then [ls[|ls| - 1]] else [])
  }

  /** The later frames fail exactly when one of their lines fails, and keep exactly the lines the rule keeps. */
  lemma LaterFramesMeaning(ls: seq<string>, maxId: int)
    ensures LaterFrames(ls, maxId).Ok? <==> forall k :: 0 <= k < |ls| ==> KeepLater(ls[k], maxId).Ok?
    ensures LaterFrames(ls, maxId).Ok? ==>
              forall x :: x in LaterFrames(ls, maxId).value <==> x in ls && KeepLater(x, maxId) == Ok(true)
  {
    var keep := x => KeepLater(x, maxId);
    LaterFramesFiltered(ls, maxId);
    FilterOkFails(ls, keep);
    if LaterFrames(ls, maxId).Ok? {
      FilterOkKept(ls, keep);
    }
  }

  /** The kept elements of `xs` by a rule that may fail: the error of the first failure, if any. */
  function FilterOk<T>(xs: seq<T>, keep: T -> Result<bool>): Result<seq<T>> {
    if xs == [] then Ok([])
    else
      var r := FilterOk(xs[..|xs| - 1], keep);
      var k := keep(xs[|xs| - 1]);
      if r.Err? then r
      else if k.Err? then Err(k.error)
      else Ok(r.value + if k.value then [xs[|xs| - 1]] else [])
  }

  /** `LaterFrames` is the filter by `KeepLater`. */
  lemma {:induction false} LaterFramesFiltered(ls: seq<string>, maxId: int)
    ensures LaterFrames(ls, maxId) == FilterOk(ls, x => KeepLater(x, maxId))
  {
    if ls != [] {
      LaterFramesFiltered(ls[..|ls| - 1], maxId);
    }
  }

  /** A filter fails exactly when the rule fails on one of the elements. */
  lemma {:induction false} FilterOkFails<T>(xs: seq<T>, keep: T -> Result<bool>)
    ensures FilterOk(xs, keep).Ok? <==> forall k :: 0 <= k < |xs| ==> keep(xs[k]).Ok?
  {
    if xs != [] {
      var init := xs[..|xs| - 1];
      FilterOkFails(init, keep);
      assert forall k :: 0 <= k < |init| ==> init[k] == xs[k];
    }
  }

  /** Without a failure, a filter keeps exactly the elements the rule accepts. */
  lemma {:induction false} FilterOkKept<T>(xs: seq<T>, keep: T -> Result<bool>)
    requires FilterOk(xs, keep).Ok?
    ensures forall x :: x in FilterOk(xs, keep).value <==> x in xs && keep(x) == Ok(true)
  {
    if xs != [] {
      var init, last := xs[..|xs| - 1], xs[|xs| - 1];
      FilterOkKept(init, keep);
      assert xs == init + [last];
    }
  }

  /** One more line: the kept lines grow by it when the rule keeps it, or its failure is the result. */
  lemma LaterFramesStep(ls: seq<string>, x: string, maxId: int)
    requires LaterFrames(ls, maxId).Ok?
    ensures var keep := KeepLater(x, maxId);
            LaterFrames(ls + [x], maxId)
            == if keep.Err? then Err(keep.error)
               else Ok(LaterFrames(ls, maxId).value + if keep.value then [x] else [])
  {
    assert (ls + [x])[..|ls|] == ls;
  }

  /** Once a serial has failed, the lines after it change nothing. */
  lemma {:induction false} LaterFramesErrStays(a: seq<string>, b: seq<string>, maxId: int)
    requires LaterFrames(a, maxId).Err?
    ensures LaterFrames(a + b, maxId) == LaterFrames(a, maxId)
  {
    if b != [] {
      var init := b[..|b| - 1];
      LaterFramesErrStays(a, init, maxId);
      assert (a + b)[..|a + b| - 1] == a + init;
    } else {
      assert a + b == a;
    }
  }

  /** The loop over the later frames of `trajectory_pdb_string_filter`, from line `at`. */
  method LaterFramesFilter(lines: seq<string>, at: nat, maxId: int) returns (r: Result<seq<string>>)
    requires at <= |lines|
    ensures r == LaterFrames(lines[at..], maxId)
  {
    var rest := lines[at..];
    var buf: seq<string> := [];
    var k := 0;
    while k < |rest|
      invariant k <= |rest|
      invariant LaterFrames(rest[..k], maxId) == Ok(buf)
    {
      var line := rest[k];
      assert rest[..k + 1] == rest[..k] + [line];
      LaterFramesStep(rest[..k], line, maxId);
      var keep := KeepLine(line, maxId);
      if keep.Err? {
        LaterFramesErrStays(rest[..k + 1], rest[k + 1..], maxId);
        assert rest[..k + 1] + rest[k + 1..] == rest;
        return Err(keep.error);
      }
      if keep.value {
        buf := buf + [line];
      } else {
        assert buf + [] == buf;
      }
      k := k + 1;
    }
    assert rest[..k] == rest;
    r := Ok(buf);
  }

  /** The body of the later-frames loop: the record tests on one line. */
  method KeepLine(line: string, maxId: int) returns (r: Result<bool>)
    ensures r == KeepLater(line, maxId)
  {
    RecordKinds(line);
    var keep := false;
    if IsAtom(line) {
      var s := Serial(line);
      if s.Err? {
        return Err(s.error);
      }
      keep := s.value < maxId;
    }
    if StartsWith(line, "TER") {
      var s := Serial(line);
      if s.Err? {
        return Err(s.error);
      }
      keep := s.value == maxId;
    } else if StartsWith(line, "MODEL") || StartsWith(line, "ENDMDL") {
      keep := true;
    }
    r := Ok(keep);
  }

  // -------------------------------------------------------------- the filter

  /** The text of the kept lines: the first frame, one `ENDMDL` line, the later frames, and `END`. */
  function Joined(first: seq<string>, later: seq<string>): string {
    Flatten(first + ["ENDMDL\n"] + later + ["END"])
  }

  /**
   * The inserted `ENDMDL` line is the first `ENDMDL` of the text: it closes
   * the first frame, whose own `ENDMDL` line the probe counter drew.
   */
  lemma FirstFrameClosed(lines: seq<string>)
    ensures var kept := ProteinOf(lines).kept;
            FirstWith(kept + ["ENDMDL\n"], 0, "ENDMDL") == |kept|
  {
    var kept := ProteinOf(lines).kept;
    ProteinOfKeepsNoEndmdl(lines);
    var out := kept + ["ENDMDL\n"];
    assert StartsWith(out[|kept|], "ENDMDL");
    assert forall k :: 0 <= k < |kept| ==> out[k] == kept[k];
  }

  /**
   * `trajectory_pdb_string_filter`: the protein of every frame as one PDB
   * text, and the number of heavy probe atoms of the first frame. Without a
   * `TER` line every line is drawn by the protein reader, so the probe
   * counter's `next` raises `StopIteration`.
   */
  function TrajectoryOf(lines: seq<string>): Result<(string, nat)> {
    var ff := ProteinOf(lines);
    if ff.maxId.Err? then Err(ff.maxId.error)
    else
      var pr := ProbeOf(lines, ff.next);
      if pr.Err? then Err(pr.error)
      else
        var later := LaterFrames(lines[pr.value.next..], ff.maxId.value.value);
        if later.Err? then Err(later.error)
        else Ok((Joined(ff.kept, later.value), pr.value.count))
  }

  /**
   * The filter fails with `StopIteration` exactly when there is no probe
   * line: no `TER` line, or nothing after the first one.
   */
  lemma TrajectoryStops(lines: seq<string>)
    ensures TrajectoryOf(lines) == Err(StopIteration) <==> ProteinOf(lines).maxId.Ok? && ProteinOf(lines).next == |lines|
  {
    var ff := ProteinOf(lines);
    if ff.maxId.Ok? && ff.next < |lines| {
      var pr := ProbeOf(lines, ff.next);
      var later := LaterFrames(lines[pr.value.next..], ff.maxId.value.value);
      assert later.Err? ==> later.error == ValueError;
    }
  }

  /** `trajectory_pdb_string_filter` over one shared iterator of `lines`. */
  method TrajectoryPdbStringFilter(lines: seq<string>) returns (r: Result<(string, nat)>)
    ensures r == TrajectoryOf(lines)
  {
    var ff := FirstFrameProteinFilter(lines);
    if ff.maxId.Err? {
      return Err(ff.maxId.error);
    }
    var pr := FirstFrameProbeCounter(lines, ff.next);
    if pr.Err? {
      return Err(pr.error);
    }
    var later := LaterFramesFilter(lines, pr.value.next, ff.maxId.value.value);
    if later.Err? {
      return Err(later.error);
    }
    r := Ok((Joined(ff.kept, later.value), pr.value.count));
  }
}
