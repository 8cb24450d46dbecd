/**
 * Readers for the output of the fpocket pocket finder (`fpocket/parser.py`):
 * the `_info.txt` file, a tree of `name : value` lines whose nesting is given
 * by leading tabs, and the `APOL` pseudo-atoms of the pocket PDB file.
 *
 * Streams are sequences of lines. A Python dictionary is an association
 * list in insertion order (module Dicts).
 */
module FpocketParser {
  import opened Wrappers
  import opened PyStr
  import opened Dicts
  import opened Seqs
  import Sorting

  // ---------------------------------------------------------------- lines

  /** The number of leading tab characters. */
  function TabIndent(line: string): (n: nat)
    ensures n <= |line| && forall k :: 0 <= k < n ==> line[k] == '\t'
    ensures n < |line| ==> line[n] != '\t'
  {
    if line == [] || line[0] != '\t' then 0 else 1 + TabIndent(line[1..])
  }

  /** `_count_tab_indent`: counts tabs until the first other character. */
  method CountTabIndent(line: string) returns (i: nat)
    ensures i <= |line| && forall k :: 0 <= k < i ==> line[k] == '\t'
    ensures i < |line| ==> line[i] != '\t'
    ensures i == TabIndent(line)
  {
    i := 0;
    while i < |line| && line[i] == '\t'
      invariant i <= |line| && forall k :: 0 <= k < i ==> line[k] == '\t'
    {
      i := i + 1;
    }
    TabIndentUnique(line, i);
  }

  /** The leading tab count is the only count with those two properties. */
  lemma {:induction false} TabIndentUnique(line: string, n: nat)
    requires n <= |line| && forall k :: 0 <= k < n ==> line[k] == '\t'
    requires n < |line| ==> line[n] != '\t'
    ensures n == TabIndent(line)
  {
    if n > 0 {
      TabIndentUnique(line[1..], n - 1);
    }
  }

  /**
   * `_parse_line`: the stripped text before the first `:` and the stripped
   * text between the first and the second `:`; a line without `:` has no
   * second field (`IndexError`).
   */
  function ParseLine(line: string): (r: Result<(string, string)>)
    ensures r.Err? <==> ':' !in Strip(line)
    ensures r.Err? ==> r.error == IndexError
  {
    var sp := Split(Strip(line), ':', 2);
    if |sp| < 2 then Err(IndexError) else Ok((Strip(sp[0]), Strip(sp[1])))
  }

  /** The two fields `_parse_line` returns, located by the colons of the stripped line. */
  lemma ParseLineFields(line: string)
    requires ':' in Strip(line)
    ensures var t := Strip(line);
            var i := Find(t, ':');
            var rest := t[i + 1..];
            ParseLine(line) == Ok((Strip(t[..i]), Strip(if ':' in rest then rest[..Find(rest, ':')] else rest)))
  {
    var t := Strip(line);
    var i := Find(t, ':');
    var rest := t[i + 1..];
    var sp := Split(t, ':', 2);
    assert sp == [t[..i]] + Split(rest, ':', 1);
    if ':' in rest {
      var j := Find(rest, ':');
      assert Split(rest, ':', 1) == [rest[..j]] + Split(rest[j + 1..], ':', 0);
    } else {
      assert Split(rest, ':', 1) == [rest];
    }
  }

  /** `len(line.strip()) == 0`. */
  predicate Blank(line: string) {
    |Strip(line)| == 0
  }

  // ------------------------------------------------------ the indent tree

  /** A value in the tree: the text after the colon, or a nested dictionary. */
  datatype Value = Text(text: string) | Nested(entries: seq<(string, Value)>)

  /**
   * One open dictionary of `dict_stack`, under the name it was opened with.
   * Python keeps every open dictionary linked into its parent by reference;
   * here a dictionary is written back into its parent when it is popped.
   * While it is open its parent holds it under the same name, and the
   * parent receives no other line, so the two views agree.
   */
  datatype Frame = Frame(name: string, entries: seq<(string, Value)>)

  /** `dict_stack` and `level`. */
  datatype State = State(stack: seq<Frame>, level: nat)

  /** `dict_stack = [dict()]`, `level = 0`. */
  const Start: State := State([Frame([], [])], 0)

  /**
   * `dict_stack.pop()`. Popping the outermost dictionary leaves the stack
   * empty, and the next `pop()` or `dict_stack[-1]` is an `IndexError`.
   */
  function Pop(stack: seq<Frame>): (r: Result<seq<Frame>>)
    ensures r.Ok? <==> |stack| >= 2
    ensures r.Err? ==> r.error == IndexError
    ensures r.Ok? ==> |r.value| == |stack| - 1 && r.value[..|stack| - 2] == stack[..|stack| - 2]
  {
    if |stack| < 2 then Err(IndexError)
    else
      var n := |stack|;
      var parent, top := stack[n - 2], stack[n - 1];
      Ok(stack[..n - 2] + [Frame(parent.name, Put(parent.entries, top.name, Nested(top.entries)))])
  }

  /** `k` pops. */
  function Pops(stack: seq<Frame>, k: nat): (r: Result<seq<Frame>>)
    ensures r.Ok? <==> k < |stack|
    ensures r.Err? ==> r.error == IndexError
    ensures r.Ok? ==> |r.value| == |stack| - k
    decreases k
  {
    if k == 0 then (if |stack| == 0 then Err(IndexError) else Ok(stack))
    else
      var p := Pop(stack);
      if p.Err? then Err(IndexError) else Pops(p.value, k - 1)
  }

  /** `dict_stack[-1][name] = v`. */
  function PutTop(stack: seq<Frame>, name: string, v: Value): (r: seq<Frame>)
    requires stack != []
    ensures |r| == |stack| && r[..|stack| - 1] == stack[..|stack| - 1]
  {
    var top := stack[|stack| - 1];
    stack[..|stack| - 1] + [Frame(top.name, Put(top.entries, name, v))]
  }

  /** One pass of the loop of `_parse_tab_indent`. */
  function Step(st: State, line: string): (r: Result<State>)
    ensures r.Ok? && st.stack != [] ==> r.value.stack != []
  {
    if Blank(line) then Ok(st) else StepAt(st, TabIndent(line), ParseLine(line))
  }

  /**
   * One pass of the loop for a line that is not blank, at indent
   * `lineLevel`, whose `_parse_line` result is `nv`: the deeper dictionaries
   * are closed first, then the line is stored.
   */
  function StepAt(st: State, lineLevel: nat, nv: Result<(string, string)>): (r: Result<State>)
    ensures r.Ok? && st.stack != [] ==> r.value.stack != []
  {
    var popped := Pops(st.stack, if st.level > lineLevel then st.level - lineLevel else 0);
    if popped.Err? then Err(popped.error)
    else if nv.Err? then Err(nv.error)
    else Ok(Store(popped.value, nv.value.0, nv.value.1, lineLevel))
  }

  /**
   * A parsed line at indent `lineLevel` once the deeper dictionaries are
   * closed: a value is stored under the name in the top dictionary; no value
   * opens a nested dictionary under the name, one level deeper.
   */
  function Store(stack: seq<Frame>, name: string, value: string, lineLevel: nat): (r: State)
    requires stack != []
    ensures r.stack != []
  {
    if |value| > 0 then State(PutTop(stack, name, Text(value)), lineLevel)
    else State(PutTop(stack, name, Nested([])) + [Frame(name, [])], lineLevel + 1)
  }

  /** The loop of `_parse_tab_indent` run from `st` over `lines`. */
  function RunFrom(st: State, lines: seq<string>): (r: Result<State>)
    ensures r.Ok? && st.stack != [] ==> r.value.stack != []
  {
    if lines == [] then Ok(st)
    else
      var prev := RunFrom(st, lines[..|lines| - 1]);
      if prev.Err? then prev else Step(prev.value, lines[|lines| - 1])
  }

  /** One more line of the loop. */
  lemma RunFromNext(st: State, lines: seq<string>, i: nat)
    requires i < |lines|
    ensures RunFrom(st, lines[..i + 1]) == if RunFrom(st, lines[..i]).Err? then RunFrom(st, lines[..i])
                                           else Step(RunFrom(st, lines[..i]).value, lines[i])
  {
    assert lines[..i + 1][..i] == lines[..i];
  }

  /** An error ends the loop: the remaining lines are not read. */
  lemma {:induction false} RunFromStops(st: State, lines: seq<string>, i: nat)
    requires i <= |lines| && RunFrom(st, lines[..i]).Err?
    ensures RunFrom(st, lines) == RunFrom(st, lines[..i])
    decreases |lines| - i
  {
    if i < |lines| {
      RunFromNext(st, lines, i);
      RunFromStops(st, lines, i + 1);
    } else {
      assert lines[..i] == lines;
    }
  }

  /** `dict_stack[0]` once every open dictionary is written back. */
  function Contents(stack: seq<Frame>): seq<(string, Value)>
    requires stack != []
    decreases |stack|
  {
    if |stack| == 1 then stack[0].entries else Contents(Pop(stack).value)
  }

  /** What `_parse_tab_indent` returns for `lines`. */
  function Parsed(lines: seq<string>): Result<seq<(string, Value)>> {
    var r := RunFrom(Start, lines);
    if r.Err? then Err(r.error) else Ok(Contents(r.value.stack))
  }

  /** `dict_stack.pop()` in place: the top dictionary goes back into its parent. */
  method PopFrame(stack: seq<Frame>) returns (r: Result<seq<Frame>>)
    ensures r == Pop(stack)
  {
    if |stack| < 2 {
      return Err(IndexError);
    }
    var n := |stack|;
    var parent, top := stack[n - 2], stack[n - 1];
    r := Ok(stack[..n - 2] + [Frame(parent.name, Put(parent.entries, top.name, Nested(top.entries)))]);
  }

  /** `for _ in range(line_level, level): dict_stack.pop()`. */
  method PopFrames(stack: seq<Frame>, k: nat) returns (r: Result<seq<Frame>>)
    ensures r == Pops(stack, k)
  {
    var s := stack;
    var j := 0;
    while j < k
      invariant j <= k && Pops(s, k - j) == Pops(stack, k)
    {
      var p := PopFrame(s);
      if p.Err? {
        return Err(IndexError);
      }
      s := p.value;
      j := j + 1;
    }
    if s == [] {
      return Err(IndexError);
    }
    r := Ok(s);
  }

  /** The body of the loop of `_parse_tab_indent` for one line. */
  method ParseStep(st: State, line: string) returns (r: Result<State>)
    ensures r == Step(st, line)
  {
    if Blank(line) {
      return Ok(st);
    }
    var lineLevel := CountTabIndent(line);
    r := StoreLine(st, lineLevel, line);
  }

  /** The body of the loop for a line that is not blank, once its indent is counted. */
  method StoreLine(st: State, lineLevel: nat, line: string) returns (r: Result<State>)
    ensures r == StepAt(st, lineLevel, ParseLine(line))
  {
    var popped := PopFrames(st.stack, if st.level > lineLevel then st.level - lineLevel else 0);
    if popped.Err? {
      return Err(popped.error);
    }
    var nv := ParseLine(line);
    if nv.Err? {
      return Err(nv.error);
    }
    r := Ok(Store(popped.value, nv.value.0, nv.value.1, lineLevel));
  }

  /**
   * `_parse_tab_indent`: blank lines are skipped; a line at a lower indent
   * closes the dictionaries opened deeper; a line with a value stores it in
   * the current dictionary, a line without one opens a nested dictionary.
   */
  method ParseTabIndent(lines: seq<string>) returns (r: Result<seq<(string, Value)>>)
    ensures r == Parsed(lines)
  {
    var st := Start;
    for i := 0 to |lines|
      invariant RunFrom(Start, lines[..i]) == Ok(st)
    {
      RunFromNext(Start, lines, i);
      var next := ParseStep(st, lines[i]);
      if next.Err? {
        RunFromStops(Start, lines, i + 1);
        return Err(next.error);
      }
      st := next.value;
    }
    assert lines[..|lines|] == lines;
    r := Ok(Contents(st.stack));
  }

  // ------------------------------------------------------ the written form

  /** A name or a text that the format carries unchanged: no colon, no white space at either end. */
  predicate Clean(s: string) {
    ':' !in s && (s == [] || (!IsSpace(s[0]) && !IsSpace(s[|s| - 1])))
  }

  /** A tree with distinct clean names in every dictionary and non-empty clean texts. */
  predicate WellFormed(es: seq<(string, Value)>)
    decreases Nested(es), 0
  {
    Distinct(Keys(es)) && forall i :: 0 <= i < |es| ==> Clean(es[i].0) && ValueOk(es[i].1)
  }

  predicate ValueOk(v: Value)
    decreases v, 1
  {
    match v
    case Text(s) => s != [] && Clean(s)
    case Nested(c) => WellFormed(c)
  }

  function Tabs(n: nat): (s: string)
    ensures |s| == n && forall i :: 0 <= i < n ==> s[i] == '\t'
  {
    if n == 0 then [] else ['\t'] + Tabs(n - 1)
  }

  /** The text of an entry line after its indent: the name and a colon, then a tab and the text of a text entry. */
  function EntryBody(name: string, v: Value): string {
    name + ":" + (if v.Text? then "\t" + v.text else "")
  }

  /** The line of one entry: its body indented by `depth` tabs. */
  function EntryLine(depth: nat, name: string, v: Value): string {
    Tabs(depth) + (EntryBody(name, v) + "\n")
  }

  /** The lines of the entries from position `i` on, at indent `depth`. */
  function RenderFrom(es: seq<(string, Value)>, i: nat, depth: nat): seq<string>
    requires i <= |es|
    decreases Nested(es), |es| - i
  {
    if i == |es| then [] else RenderEntry(es[i].0, es[i].1, depth) + RenderFrom(es, i + 1, depth)
  }

  /** The line of one entry followed, for a dictionary, by its entries one tab deeper. */
  function RenderEntry(name: string, v: Value, depth: nat): seq<string>
    decreases v, if v.Nested? then |v.entries| + 1 else 0
  {
    [EntryLine(depth, name, v)] + match v
      case Text(_) => []
      case Nested(c) => RenderFrom(c, 0, depth + 1)
  }

  /** A stripped line `name:rest` with no other colon splits into the two stripped parts. */
  lemma ParseLineOf(line: string, name: string, rest: string)
    requires Strip(line) == name + [':'] + rest && ':' !in name && ':' !in rest
    ensures ParseLine(line) == Ok((Strip(name), Strip(rest)))
  {
    var t := Strip(line);
    FindAfter(name, ':', rest);
    assert t[..|name|] == name && t[|name| + 1..] == rest;
    ParseLineFields(line);
  }

  /** Indent and line end are stripped from a body that starts and ends with something else. */
  lemma StripIndented(depth: nat, body: string)
    requires body != [] && !IsSpace(body[0]) && !IsSpace(body[|body| - 1])
    ensures Strip(Tabs(depth) + (body + "\n")) == body
  {
    var t := Tabs(depth);
    var b := body + "\n";
    assert LStripBy(t + b, IsSpace) == LStripBy(b, IsSpace) by {
      assert IsSpace('\t');
      LStripPrefix(t, b, IsSpace);
    }
    assert LStripBy(b, IsSpace) == b by {
      assert b[0] == body[0];
    }
    assert RStripBy(b, IsSpace) == body by {
      assert IsSpace('\n');
      RStripSuffix(body, "\n", IsSpace);
    }
  }

  /** A tab in front of a clean text is stripped. */
  lemma StripTabbed(text: string)
    requires text != [] && Clean(text)
    ensures Strip(['\t'] + text) == text
  {
    var s := ['\t'] + text;
    assert s[0] == '\t' && IsSpace('\t') && s[1..] == text;
    assert LStripBy(s, IsSpace) == text;
  }

  /** The depth of an indented line is its number of tabs. */
  lemma TabIndentOf(depth: nat, body: string)
    requires body != [] && body[0] != '\t'
    ensures TabIndent(Tabs(depth) + body) == depth
  {
    TabIndentUnique(Tabs(depth) + body, depth);
  }

  /** `_parse_line` and `_count_tab_indent` read the name, the text and the depth back from an entry line. */
  lemma EntryLineParses(depth: nat, name: string, v: Value)
    requires Clean(name) && (v.Text? ==> v.text != [] && Clean(v.text))
    ensures !Blank(EntryLine(depth, name, v))
    ensures TabIndent(EntryLine(depth, name, v)) == depth
    ensures ParseLine(EntryLine(depth, name, v)) == Ok((name, if v.Text? then v.text else []))
  {
    EntryLineStrip(depth, name, v);
    EntryLineIndent(depth, name, v);
    EntryLineFields(depth, name, v);
  }

  /** Stripping an entry line leaves its body: the name, the colon and any tab and text. */
  lemma EntryLineStrip(depth: nat, name: string, v: Value)
    requires Clean(name) && (v.Text? ==> v.text != [] && Clean(v.text))
    ensures Strip(EntryLine(depth, name, v)) == EntryBody(name, v) != []
  {
    var body := EntryBody(name, v);
    assert body[0] == if name == [] then ':' else name[0];
    assert body[|body| - 1] == if v.Text? then v.text[|v.text| - 1] else ':';
    StripIndented(depth, body);
  }

  /** The indent of an entry line is its depth. */
  lemma EntryLineIndent(depth: nat, name: string, v: Value)
    requires Clean(name)
    ensures TabIndent(EntryLine(depth, name, v)) == depth
  {
    var body := EntryBody(name, v);
    assert body[0] == if name == [] then ':' else name[0];
    assert IsSpace('\t');
    assert (body + "\n")[0] == body[0];
    TabIndentOf(depth, body + "\n");
  }

  /** `_parse_line` on an entry line gives its name and text. */
  lemma EntryLineFields(depth: nat, name: string, v: Value)
    requires Clean(name) && (v.Text? ==> v.text != [] && Clean(v.text))
    requires Strip(EntryLine(depth, name, v)) == EntryBody(name, v)
    ensures ParseLine(EntryLine(depth, name, v)) == Ok((name, if v.Text? then v.text else []))
  {
    var tail: string := if v.Text? then ['\t'] + v.text else [];
    assert EntryBody(name, v) == name + [':'] + tail;
    StripNothing(name);
    if v.Text? {
      StripTabbed(v.text);
    }
    ParseLineOf(EntryLine(depth, name, v), name, tail);
  }

  /** The lines of `a` and then those of `b`. */
  lemma {:induction false} RunFromAppend(st: State, a: seq<string>, b: seq<string>)
    ensures RunFrom(st, a + b) == if RunFrom(st, a).Err? then RunFrom(st, a) else RunFrom(RunFrom(st, a).value, b)
    decreases |b|
  {
    if b == [] {
      assert a + b == a;
    } else {
      var init := b[..|b| - 1];
      assert (a + b)[..|a + b| - 1] == a + init;
      RunFromAppend(st, a, init);
    }
  }

  /** `a + b` pops are `a` pops and then `b` more. */
  lemma {:induction false} PopsAdd(s: seq<Frame>, a: nat, b: nat)
    requires a + b < |s|
    ensures Pops(s, a).Ok? && Pops(s, a + b) == Pops(Pops(s, a).value, b)
    decreases a
  {
    if a > 0 {
      PopsAdd(Pop(s).value, a - 1, b);
    }
  }

  /** The level counts the dictionaries open above the outermost one. */
  predicate Consistent(st: State) {
    st.stack != [] && st.level == |st.stack| - 1
  }

  /** The stack once the dictionaries above height `h` are written back. */
  function Closed(s: seq<Frame>, h: nat): (r: seq<Frame>)
    requires 1 <= h <= |s|
    ensures |r| == h
  {
    Pops(s, |s| - h).value
  }

  /** The open dictionary on top of the stack. */
  function Top(s: seq<Frame>): Frame
    requires s != []
  {
    s[|s| - 1]
  }

  /** The top dictionary extended by new entries. */
  function AppendTop(s: seq<Frame>, es: seq<(string, Value)>): (r: seq<Frame>)
    requires s != []
    ensures |r| == |s|
  {
    s[..|s| - 1] + [Frame(Top(s).name, Top(s).entries + es)]
  }

  /** A new name in the top dictionary goes to its end. */
  lemma PutTopNew(s: seq<Frame>, name: string, v: Value)
    requires s != [] && name !in Keys(Top(s).entries)
    ensures PutTop(s, name, v) == AppendTop(s, [(name, v)])
  {
    PutNew(Top(s).entries, name, v);
  }

  /** A single line is a single pass of the loop. */
  lemma RunOne(st: State, line: string)
    ensures RunFrom(st, [line]) == Step(st, line)
  {
    assert [line][..0] == [];
  }

  /**
   * A non-blank line at indent `depth` closes the dictionaries deeper than
   * `depth` and stores its value in the dictionary then on top.
   */
  lemma StepEntry(st: State, line: string, depth: nat, name: string, text: string)
    requires Consistent(st) && depth < |st.stack|
    requires !Blank(line) && TabIndent(line) == depth && ParseLine(line) == Ok((name, text))
    ensures Step(st, line) == Ok(Store(Closed(st.stack, depth + 1), name, text, depth))
  {
    assert Step(st, line) == StepAt(st, depth, Ok((name, text)));
    StepAtEntry(st, depth, name, text);
  }

  /** A parsed line at indent `depth` closes the dictionaries deeper than `depth` and is stored in the one then on top. */
  lemma StepAtEntry(st: State, depth: nat, name: string, text: string)
    requires Consistent(st) && depth < |st.stack|
    ensures StepAt(st, depth, Ok((name, text))) == Ok(Store(Closed(st.stack, depth + 1), name, text, depth))
  {
    var k := if st.level > depth then st.level - depth else 0;
    assert k == |st.stack| - (depth + 1);
    var popped := Pops(st.stack, k);
    assert popped.Ok? && popped.value == Closed(st.stack, depth + 1);
  }

  /** The line of a text entry stores its text in the dictionary of its depth. */
  lemma TextEntryRuns(name: string, v: Value, depth: nat, st: State)
    requires Clean(name) && v.Text? && v.text != [] && Clean(v.text)
    requires Consistent(st) && depth < |st.stack|
    requires name !in Keys(Top(Closed(st.stack, depth + 1)).entries)
    ensures var r := RunFrom(st, RenderEntry(name, v, depth));
            r.Ok? && Consistent(r.value) && depth < |r.value.stack|
            && Closed(r.value.stack, depth + 1) == AppendTop(Closed(st.stack, depth + 1), [(name, v)])
  {
    var line := EntryLine(depth, name, v);
    var c := Closed(st.stack, depth + 1);
    var s1 := PutTop(c, name, v);
    assert RunFrom(st, RenderEntry(name, v, depth)) == Ok(State(s1, depth)) by {
      EntryLineParses(depth, name, v);
      StepEntry(st, line, depth, name, v.text);
      RunOne(st, line);
      assert RenderEntry(name, v, depth) == [line];
    }
    assert Closed(s1, depth + 1) == s1;
    PutTopNew(c, name, v);
  }

  /** The line of a dictionary entry and its entries build the dictionary in the one of its depth. */
  lemma {:induction false} NestedEntryRuns(name: string, v: Value, depth: nat, st: State)
    requires Clean(name) && v.Nested? && WellFormed(v.entries)
    requires Consistent(st) && depth < |st.stack|
    requires name !in Keys(Top(Closed(st.stack, depth + 1)).entries)
    ensures var r := RunFrom(st, RenderEntry(name, v, depth));
            r.Ok? && Consistent(r.value) && depth < |r.value.stack|
            && Closed(r.value.stack, depth + 1) == AppendTop(Closed(st.stack, depth + 1), [(name, v)])
    decreases v, |v.entries| + 1
  {
    var line := EntryLine(depth, name, v);
    var c := Closed(st.stack, depth + 1);
    var s1 := PutTop(c, name, Nested([])) + [Frame(name, [])];
    var st1 := State(s1, depth + 1);
    var rest := RenderFrom(v.entries, 0, depth + 1);
    assert RunFrom(st, RenderEntry(name, v, depth)) == RunFrom(st1, rest) by {
      assert RunFrom(st, [line]) == Ok(st1) by {
        EntryLineParses(depth, name, v);
        StepEntry(st, line, depth, name, []);
        RunOne(st, line);
      }
      assert RenderEntry(name, v, depth) == [line] + rest;
      RunFromAppend(st, [line], rest);
    }
    assert Closed(s1, depth + 2) == s1;
    assert Top(s1).entries == [];
    RenderRuns(v.entries, 0, depth + 1, st1);
    var st2 := RunFrom(st1, rest).value;
    var full := PutTop(c, name, Nested([])) + [Frame(name, v.entries)];
    assert Closed(st2.stack, depth + 2) == full by {
      assert v.entries[0..] == v.entries;
      assert AppendTop(s1, v.entries) == full by {
        assert s1[..|s1| - 1] == PutTop(c, name, Nested([]));
        assert [] + v.entries == v.entries;
      }
    }
    CloseNested(st2.stack, depth, c, name, v);
  }

  /**
   * Closing a nested dictionary that holds `v`'s entries writes it into the
   * dictionary below it, where its name was new.
   */
  lemma CloseNested(s: seq<Frame>, depth: nat, c: seq<Frame>, name: string, v: Value)
    requires depth + 2 <= |s| && c != [] && v.Nested? && name !in Keys(Top(c).entries)
    requires Closed(s, depth + 2) == PutTop(c, name, Nested([])) + [Frame(name, v.entries)]
    ensures Closed(s, depth + 1) == AppendTop(c, [(name, v)])
  {
    var full := PutTop(c, name, Nested([])) + [Frame(name, v.entries)];
    assert Closed(s, depth + 1) == Pop(full).value by {
      PopsAdd(s, |s| - (depth + 2), 1);
      assert Pops(full, 1) == Pop(full);
    }
    assert Pop(full).value == AppendTop(c, [(name, v)]) by {
      PutTwice(Top(c).entries, name, Nested([]), v);
      PutNew(Top(c).entries, name, v);
    }
  }

  /**
   * Run from a consistent state, the lines of the entries from position
   * `i` on, at depth `depth`, append those entries to the dictionary of that
   * depth, as seen once everything deeper is written back.
   */
  lemma {:induction false} RenderRuns(es: seq<(string, Value)>, i: nat, depth: nat, st: State)
    requires i <= |es| && WellFormed(es)
    requires Consistent(st) && depth < |st.stack|
    requires forall k :: i <= k < |es| ==> es[k].0 !in Keys(Top(Closed(st.stack, depth + 1)).entries)
    ensures var r := RunFrom(st, RenderFrom(es, i, depth));
            r.Ok? && Consistent(r.value) && depth < |r.value.stack|
            && Closed(r.value.stack, depth + 1) == AppendTop(Closed(st.stack, depth + 1), es[i..])
    decreases Nested(es), |es| - i
  {
    var c := Closed(st.stack, depth + 1);
    if i == |es| {
      assert c[..|c| - 1] + [Top(c)] == c;
      assert Top(c).entries + es[i..] == Top(c).entries;
    } else {
      EntryRuns(es[i].0, es[i].1, depth, st);
      assert [(es[i].0, es[i].1)] == [es[i]];
      var st1 := RunFrom(st, RenderEntry(es[i].0, es[i].1, depth)).value;
      FreshNext(es, i, depth, st, st1);
      RenderRuns(es, i + 1, depth, st1);
      RenderNext(es, i, depth, st, st1);
    }
  }

  /** After the first entry, the names of the later ones are still new to the dictionary of their depth. */
  lemma FreshNext(es: seq<(string, Value)>, i: nat, depth: nat, st: State, st1: State)
    requires i < |es| && Distinct(Keys(es)) && Consistent(st) && depth < |st.stack| && depth < |st1.stack|
    requires forall k :: i <= k < |es| ==> es[k].0 !in Keys(Top(Closed(st.stack, depth + 1)).entries)
    requires Closed(st1.stack, depth + 1) == AppendTop(Closed(st.stack, depth + 1), [es[i]])
    ensures forall k :: i + 1 <= k < |es| ==> es[k].0 !in Keys(Top(Closed(st1.stack, depth + 1)).entries)
  {
    var c := Closed(st.stack, depth + 1);
    assert Top(AppendTop(c, [es[i]])).entries == Top(c).entries + [es[i]];
    FreshAfter(es, i, Top(c).entries);
  }

  /** The first entry's lines and then the later entries' lines append all of them. */
  lemma RenderNext(es: seq<(string, Value)>, i: nat, depth: nat, st: State, st1: State)
    requires i < |es| && Consistent(st) && depth < |st.stack|
    requires RunFrom(st, RenderEntry(es[i].0, es[i].1, depth)) == Ok(st1)
    requires Consistent(st1) && depth < |st1.stack|
    requires Closed(st1.stack, depth + 1) == AppendTop(Closed(st.stack, depth + 1), [es[i]])
    requires var r := RunFrom(st1, RenderFrom(es, i + 1, depth));
             r.Ok? && Consistent(r.value) && depth < |r.value.stack|
             && Closed(r.value.stack, depth + 1) == AppendTop(Closed(st1.stack, depth + 1), es[i + 1..])
    ensures var r := RunFrom(st, RenderFrom(es, i, depth));
            r.Ok? && Consistent(r.value) && depth < |r.value.stack|
            && Closed(r.value.stack, depth + 1) == AppendTop(Closed(st.stack, depth + 1), es[i..])
  {
    var first := RenderEntry(es[i].0, es[i].1, depth);
    var more := RenderFrom(es, i + 1, depth);
    assert RunFrom(st, RenderFrom(es, i, depth)) == RunFrom(st1, more) by {
      assert RenderFrom(es, i, depth) == first + more;
      RunFromAppend(st, first, more);
    }
    AppendTopNext(Closed(st.stack, depth + 1), es, i);
  }

  /** Appending the entry at `i` and then those after it appends all from `i` on. */
  lemma AppendTopNext(s: seq<Frame>, es: seq<(string, Value)>, i: nat)
    requires s != [] && i < |es|
    ensures AppendTop(AppendTop(s, [es[i]]), es[i + 1..]) == AppendTop(s, es[i..])
  {
    assert es[i..] == [es[i]] + es[i + 1..];
    AppendTopTwice(s, [es[i]], es[i + 1..]);
  }

  /** The lines of one entry of a well-formed tree add it to the dictionary of its depth. */
  lemma {:induction false} EntryRuns(name: string, v: Value, depth: nat, st: State)
    requires Clean(name) && ValueOk(v)
    requires Consistent(st) && depth < |st.stack|
    requires name !in Keys(Top(Closed(st.stack, depth + 1)).entries)
    ensures var r := RunFrom(st, RenderEntry(name, v, depth));
            r.Ok? && Consistent(r.value) && depth < |r.value.stack|
            && Closed(r.value.stack, depth + 1) == AppendTop(Closed(st.stack, depth + 1), [(name, v)])
    decreases v, if v.Nested? then |v.entries| + 2 else 0
  {
    if v.Text? {
      TextEntryRuns(name, v, depth, st);
    } else {
      NestedEntryRuns(name, v, depth, st);
    }
  }

  /** Names that are new to a dictionary stay new once an earlier, different name is added. */
  lemma FreshAfter(es: seq<(string, Value)>, i: nat, t: seq<(string, Value)>)
    requires i < |es| && Distinct(Keys(es))
    requires forall k :: i <= k < |es| ==> es[k].0 !in Keys(t)
    ensures forall k :: i + 1 <= k < |es| ==> es[k].0 !in Keys(t + [es[i]])
  {
    KeysAppend(t, [es[i]]);
    forall k | i + 1 <= k < |es| ensures es[k].0 !in Keys(t + [es[i]]) {
      assert Keys(es)[k] != Keys(es)[i];
    }
  }

  /** Entries appended to the top dictionary in two goes. */
  lemma AppendTopTwice(s: seq<Frame>, a: seq<(string, Value)>, b: seq<(string, Value)>)
    requires s != []
    ensures AppendTop(AppendTop(s, a), b) == AppendTop(s, a + b)
  {
    var s1 := AppendTop(s, a);
    assert s1[..|s1| - 1] == s[..|s| - 1];
    assert Top(s1).entries + b == Top(s).entries + (a + b);
  }

  /** Writing back `k` dictionaries does not change what `dict_stack[0]` ends up holding. */
  lemma {:induction false} ContentsPops(s: seq<Frame>, k: nat)
    requires k < |s|
    ensures Contents(s) == Contents(Pops(s, k).value)
    decreases k
  {
    if k > 0 {
      ContentsPops(Pop(s).value, k - 1);
    }
  }

  /**
   * The written form of a well-formed tree parses back to that tree: names
   * and texts, the nesting given by the tabs, and the order of the entries.
   */
  lemma ParsedRendered(es: seq<(string, Value)>)
    requires WellFormed(es)
    ensures Parsed(RenderFrom(es, 0, 0)) == Ok(es)
  {
    var lines := RenderFrom(es, 0, 0);
    assert Closed(Start.stack, 1) == Start.stack;
    assert Keys(Top(Start.stack).entries) == [];
    RenderRuns(es, 0, 0, Start);
    var st := RunFrom(Start, lines).value;
    assert Closed(st.stack, 1) == [Frame([], es)] by {
      assert AppendTop(Start.stack, es[0..]) == [Frame([], es)] by {
        assert es[0..] == es && [] + es == es;
      }
    }
    ContentsClosed(st.stack, es);
  }

  /** A stack that closes down to one dictionary holding `es` has contents `es`. */
  lemma ContentsClosed(s: seq<Frame>, es: seq<(string, Value)>)
    requires s != [] && Closed(s, 1) == [Frame([], es)]
    ensures Contents(s) == es
  {
    ContentsPops(s, |s| - 1);
  }

  // ------------------------------------------------------------- scores

  /** `v['Score']`: a text is not indexable by a name (`TypeError`), a dictionary may lack the name (`KeyError`). */
  function Score(v: Value): (r: Result<Value>)
    ensures r.Err? <==> v.Text? || "Score" !in Keys(v.entries)
    ensures r.Err? ==> r.error == if v.Text? then TypeError else KeyError
  {
    match v
    case Text(_) => Err(TypeError)
    case Nested(es) =>
      var g := Get(es, "Score");
      if g.None? then Err(KeyError) else Ok(g.value)
  }

  /** The pocket number of a key `Pocket<int>`; any other key is skipped. */
  function PocketNumber(key: string): Option<int> {
    if !StartsWith(key, "Pocket") then None
    else
      var n := ParseInt(From(key, 6));
      if n.Err? then None else Some(n.value)
  }

  /** The key fpocket writes for pocket `n` names that pocket. */
  lemma PocketNumberOf(n: int)
    ensures PocketNumber("Pocket" + IntToStr(n)) == Some(n)
  {
    var key := "Pocket" + IntToStr(n);
    assert key[..6] == "Pocket";
    assert From(key, 6) == Spaces(0) + IntToStr(n);
    ParseIntOfStr(n, 0);
  }

  /** One pass of the loop of `parse_score_from_info`. */
  function AddScore(scores: seq<(int, Value)>, entry: (string, Value)): Result<seq<(int, Value)>> {
    var n := PocketNumber(entry.0);
    if n.None? then Ok(scores)
    else
      var sc := Score(entry.1);
      if sc.Err? then Err(sc.error) else Ok(Put(scores, n.value, sc.value))
  }

  /** The loop of `parse_score_from_info` over the entries of the parsed tree. */
  function ScoresFrom(info: seq<(string, Value)>): Result<seq<(int, Value)>> {
    if info == [] then Ok([])
    else
      var prev := ScoresFrom(info[..|info| - 1]);
      if prev.Err? then prev else AddScore(prev.value, info[|info| - 1])
  }

  /** What `parse_score_from_info` returns for the lines of an `_info.txt` file. */
  function ScoresOf(lines: seq<string>): Result<seq<(int, Value)>> {
    var info := Parsed(lines);
    if info.Err? then Err(info.error) else ScoresFrom(info.value)
  }

  /** One more entry of the loop. */
  lemma ScoresFromNext(info: seq<(string, Value)>, i: nat)
    requires i < |info|
    ensures ScoresFrom(info[..i + 1]) == if ScoresFrom(info[..i]).Err? then ScoresFrom(info[..i])
                                        else AddScore(ScoresFrom(info[..i]).value, info[i])
  {
    assert info[..i + 1][..i] == info[..i];
  }

  /** An error ends the loop. */
  lemma {:induction false} ScoresFromStops(info: seq<(string, Value)>, i: nat)
    requires i <= |info| && ScoresFrom(info[..i]).Err?
    ensures ScoresFrom(info) == ScoresFrom(info[..i])
    decreases |info| - i
  {
    if i < |info| {
      ScoresFromNext(info, i);
      ScoresFromStops(info, i + 1);
    } else {
      assert info[..i] == info;
    }
  }

  /**
   * `parse_score_from_info`: the entries named `Pocket<int>` of the parsed
   * tree, each number mapped to the entry's `Score` value as read (a text is
   * not converted); other entries are skipped.
   */
  method ParseScoreFromInfo(lines: seq<string>) returns (r: Result<seq<(int, Value)>>)
    ensures r == ScoresOf(lines)
  {
    var info := ParseTabIndent(lines);
    if info.Err? {
      return Err(info.error);
    }
    var es := info.value;
    var scores: seq<(int, Value)> := [];
    for i := 0 to |es|
      invariant ScoresFrom(es[..i]) == Ok(scores)
    {
      ScoresFromNext(es, i);
      var pocket, v := es[i].0, es[i].1;
      if !StartsWith(pocket, "Pocket") {
        continue;
      }
      var n := ParseInt(From(pocket, 6));
      if n.Err? {
        continue;
      }
      var sc := Score(v);
      if sc.Err? {
        ScoresFromStops(es, i + 1);
        return Err(sc.error);
      }
      scores := Put(scores, n.value, sc.value);
    }
    assert es[..|es|] == es;
    r := Ok(scores);
  }

  /** The value of the last entry of `info` that names pocket `n`. */
  function LastPocket(info: seq<(string, Value)>, n: int): Option<Value> {
    if info == [] then None
    else if PocketNumber(info[|info| - 1].0) == Some(n) then Some(info[|info| - 1].1)
    else LastPocket(info[..|info| - 1], n)
  }

  /**
   * Pocket `n` has a score exactly when some entry names it, and the score
   * is that of the last such entry (`Pocket1` and `Pocket01` name the same
   * pocket, and the later one wins).
   */
  lemma {:induction false} ScoresFromGet(info: seq<(string, Value)>, n: int)
    requires ScoresFrom(info).Ok?
    ensures var g := Get(ScoresFrom(info).value, n);
            (g.Some? <==> LastPocket(info, n).Some?)
            && (g.Some? ==> Score(LastPocket(info, n).value) == Ok(g.value))
  {
    if info != [] {
      var init, e := info[..|info| - 1], info[|info| - 1];
      ScoresFromGet(init, n);
      var prev := ScoresFrom(init).value;
      var m := PocketNumber(e.0);
      if m == Some(n) {
        PutGet(prev, n, Score(e.1).value);
      } else if m.Some? {
        PutOther(prev, m.value, Score(e.1).value, n);
      }
    }
  }

  /** An entry that names a pocket but has no readable `Score`. */
  predicate BadEntry(e: (string, Value)) {
    PocketNumber(e.0).Some? && Score(e.1).Err?
  }

  /** The loop succeeds exactly when every entry that names a pocket has a readable `Score`. */
  lemma {:induction false} ScoresFromOk(info: seq<(string, Value)>)
    ensures ScoresFrom(info).Ok? <==> forall i :: 0 <= i < |info| ==> !BadEntry(info[i])
  {
    if info != [] {
      var init, e := info[..|info| - 1], info[|info| - 1];
      ScoresFromOk(init);
      ScoresFromLast(info);
      assert info == init + [e];
      NoneBadSnoc(init, e);
    }
  }

  lemma ScoresFromLast(info: seq<(string, Value)>)
    requires info != []
    ensures ScoresFrom(info).Ok? <==> ScoresFrom(info[..|info| - 1]).Ok? && !BadEntry(info[|info| - 1])
  {
  }

  lemma NoneBadSnoc(init: seq<(string, Value)>, e: (string, Value))
    ensures (forall i :: 0 <= i < |init + [e]| ==> !BadEntry((init + [e])[i]))
            <==> (forall i :: 0 <= i < |init| ==> !BadEntry(init[i])) && !BadEntry(e)
  {
    assert forall i :: 0 <= i < |init| ==> (init + [e])[i] == init[i];
    assert (init + [e])[|init|] == e;
  }

  /** A failing `Score` is a `TypeError` (a text) or a `KeyError` (no such name). */
  lemma {:induction false} ScoresFromErr(info: seq<(string, Value)>)
    requires ScoresFrom(info).Err?
    ensures ScoresFrom(info).error in {TypeError, KeyError}
  {
    var init := info[..|info| - 1];
    if ScoresFrom(init).Err? {
      ScoresFromErr(init);
    }
  }

  /** The scores map each pocket number once. */
  lemma {:induction false} ScoresFromDistinct(info: seq<(string, Value)>)
    requires ScoresFrom(info).Ok?
    ensures Distinct(Keys(ScoresFrom(info).value))
  {
    if info != [] {
      var init, e := info[..|info| - 1], info[|info| - 1];
      ScoresFromDistinct(init);
      var m := PocketNumber(e.0);
      if m.Some? {
        PutDistinct(ScoresFrom(init).value, m.value, Score(e.1).value);
      }
    }
  }

  // ---------------------------------------------------------- positions

  /** A coordinate triple as `float()` reads it. */
  type Point = (PyFloat, PyFloat, PyFloat)

  /** A `HETATM` line of an `APOL` pseudo-atom (atom name in columns 12 to 16). */
  predicate IsApol(line: string) {
    StartsWith(line, "HETATM") && |line| >= 16 && Slice(line, 12, 16) == "APOL"
  }

  /**
   * `_read_pdb_atom_line`: the residue number (columns 22 to 26) and the
   * coordinates (columns 30 to 38, 38 to 46, 46 to 54). A malformed residue
   * number is a `ValueError` raised to the caller; a malformed coordinate
   * gives `None`.
   */
  function ReadPdbAtomLine(line: string): (r: Result<Option<(int, Point)>>)
    ensures r.Err? <==> ParseInt(Slice(line, 22, 26)).Err?
    ensures r.Err? ==> r.error == ValueError
    ensures r.Ok? ==> (r.value.None? <==> ParseFloat(Slice(line, 30, 38)).Err? || ParseFloat(Slice(line, 38, 46)).Err?
                                          || ParseFloat(Slice(line, 46, 54)).Err?)
  {
    var resId := ParseInt(Slice(line, 22, 26));
    if resId.Err? then Err(resId.error)
    else
      var x, y, z := ParseFloat(Slice(line, 30, 38)), ParseFloat(Slice(line, 38, 46)), ParseFloat(Slice(line, 46, 54));
      if x.Err? || y.Err? || z.Err? then Ok(None)
      else Ok(Some((resId.value, (x.value, y.value, z.value))))
  }

  /**
   * A line with a right-aligned integer residue number and right-aligned
   * integer coordinates in their columns is read as those numbers.
   */
  lemma ReadPdbAtomLineOf(line: string, n: int, x: int, y: int, z: int, kn: nat, kx: nat, ky: nat, kz: nat)
    requires Slice(line, 22, 26) == Spaces(kn) + IntToStr(n)
    requires Slice(line, 30, 38) == Spaces(kx) + IntToStr(x)
    requires Slice(line, 38, 46) == Spaces(ky) + IntToStr(y)
    requires Slice(line, 46, 54) == Spaces(kz) + IntToStr(z)
    ensures ReadPdbAtomLine(line) == Ok(Some((n, (Finite(x as real), Finite(y as real), Finite(z as real)))))
  {
    ParseIntOfStr(n, kn);
    ParseFloatOfStr(x, kx);
    ParseFloatOfStr(y, ky);
    ParseFloatOfStr(z, kz);
  }

  /** One pass of the loop of `parse_pocket_position_from_pdb`. */
  function AddLine(d: seq<(int, seq<Point>)>, line: string): Result<seq<(int, seq<Point>)>> {
    if !IsApol(line) then Ok(d)
    else
      var a := ReadPdbAtomLine(line);
      if a.Err? then Err(a.error)
      else if a.value.None? then Ok(d)
      else Ok(Append(d, a.value.value.0, a.value.value.1))
  }

  /** The loop of `parse_pocket_position_from_pdb`. */
  function PositionsFrom(lines: seq<string>): Result<seq<(int, seq<Point>)>> {
    if lines == [] then Ok([])
    else
      var prev := PositionsFrom(lines[..|lines| - 1]);
      if prev.Err? then prev else AddLine(prev.value, lines[|lines| - 1])
  }

  lemma PositionsFromNext(lines: seq<string>, i: nat)
    requires i < |lines|
    ensures PositionsFrom(lines[..i + 1]) == if PositionsFrom(lines[..i]).Err? then PositionsFrom(lines[..i])
                                             else AddLine(PositionsFrom(lines[..i]).value, lines[i])
  {
    assert lines[..i + 1][..i] == lines[..i];
  }

  lemma {:induction false} PositionsFromStops(lines: seq<string>, i: nat)
    requires i <= |lines| && PositionsFrom(lines[..i]).Err?
    ensures PositionsFrom(lines) == PositionsFrom(lines[..i])
    decreases |lines| - i
  {
    if i < |lines| {
      PositionsFromNext(lines, i);
      PositionsFromStops(lines, i + 1);
    } else {
      assert lines[..i] == lines;
    }
  }

  /**
   * `parse_pocket_position_from_pdb`: the coordinates of the `APOL`
   * pseudo-atoms, grouped by residue number.
   */
  method ParsePocketPositionFromPdb(lines: seq<string>) returns (r: Result<seq<(int, seq<Point>)>>)
    ensures r == PositionsFrom(lines)
  {
    var resPockets: seq<(int, seq<Point>)> := [];
    for i := 0 to |lines|
      invariant PositionsFrom(lines[..i]) == Ok(resPockets)
    {
      PositionsFromNext(lines, i);
      var line := lines[i];
      if !(StartsWith(line, "HETATM") && |line| >= 16 && Slice(line, 12, 16) == "APOL") {
        continue;
      }
      var ret := ReadPdbAtomLine(line);
      if ret.Err? {
        PositionsFromStops(lines, i + 1);
        return Err(ret.error);
      }
      if ret.value.None? {
        continue;
      }
      var pocketN, pos := ret.value.value.0, ret.value.value.1;
      var g := Get(resPockets, pocketN);
      if g.Some? {
        resPockets := Put(resPockets, pocketN, g.value + [pos]);
      } else {
        resPockets := Put(resPockets, pocketN, [pos]);
      }
    }
    assert lines[..|lines|] == lines;
    r := Ok(resPockets);
  }

  /** The residue number and coordinates of an `APOL` line that reads without error. */
  function Atom(line: string): Option<(int, Point)> {
    var a := ReadPdbAtomLine(line);
    if IsApol(line) && a.Ok? then a.value else None
  }

  /** A line that passes stores its atom, if any. */
  lemma AddLineAtom(d: seq<(int, seq<Point>)>, line: string)
    requires AddLine(d, line).Ok?
    ensures AddLine(d, line).value == if Atom(line).Some? then Append(d, Atom(line).value.0, Atom(line).value.1) else d
  {
  }

  /** The coordinates one line gives for residue `n`: none, or one point. */
  function PointOf(line: string, n: int): seq<Point> {
    var a := Atom(line);
    if a.Some? && a.value.0 == n then [a.value.1] else []
  }

  /** The coordinates `lines` give for residue `n`, in line order. */
  function PointsOf(lines: seq<string>, n: int): seq<Point> {
    if lines == [] then [] else PointsOf(lines[..|lines| - 1], n) + PointOf(lines[|lines| - 1], n)
  }

  /** One line adds its point, if any, to the list of its residue and to no other. */
  lemma AddLineGet(d: seq<(int, seq<Point>)>, line: string, n: int, ps: seq<Point>)
    requires AddLine(d, line).Ok? && Get(d, n) == Listed(ps)
    ensures Get(AddLine(d, line).value, n) == Listed(ps + PointOf(line, n))
  {
    AddLineAtom(d, line);
    var a := Atom(line);
    if a.Some? {
      AppendGet(d, a.value.0, a.value.1, n, ps);
    } else {
      assert ps + PointOf(line, n) == ps;
    }
  }

  /**
   * Residue `n` is a key exactly when some `APOL` line gives coordinates for
   * it, and its list holds the coordinates of those lines in line order.
   */
  lemma {:induction false} PositionsFromGet(lines: seq<string>, n: int)
    requires PositionsFrom(lines).Ok?
    ensures Get(PositionsFrom(lines).value, n) == Listed(PointsOf(lines, n))
  {
    if lines != [] {
      var init, line := lines[..|lines| - 1], lines[|lines| - 1];
      PositionsFromGet(init, n);
      AddLineGet(PositionsFrom(init).value, line, n, PointsOf(init, n));
    }
  }

  /** The loop fails exactly when an `APOL` line has a malformed residue number. */
  lemma {:induction false} PositionsFromOk(lines: seq<string>)
    ensures PositionsFrom(lines).Ok? <==> forall i :: 0 <= i < |lines| ==> !BadApol(lines[i])
  {
    if lines != [] {
      var init, line := lines[..|lines| - 1], lines[|lines| - 1];
      PositionsFromOk(init);
      PositionsFromLast(lines);
      NoneBadApolLast(lines, init);
    }
  }

  /** An `APOL` line whose residue number `int()` refuses. */
  predicate BadApol(line: string) {
    IsApol(line) && ParseInt(Slice(line, 22, 26)).Err?
  }

  lemma PositionsFromLast(lines: seq<string>)
    requires lines != []
    ensures PositionsFrom(lines).Ok? <==> PositionsFrom(lines[..|lines| - 1]).Ok? && !BadApol(lines[|lines| - 1])
  {
  }

  lemma NoneBadApolLast(lines: seq<string>, init: seq<string>)
    requires lines != [] && init == lines[..|lines| - 1]
    ensures (forall i :: 0 <= i < |lines| ==> !BadApol(lines[i]))
            <==> (forall i :: 0 <= i < |init| ==> !BadApol(init[i])) && !BadApol(lines[|lines| - 1])
  {
    assert forall i :: 0 <= i < |init| ==> init[i] == lines[i];
  }

  // ------------------------------------------------------ parse_fpocket

  /** The sort key of a pocket number. */
  function IdKey(n: int): real {
    n as real
  }

  /** `pocket_ids = list(scores.keys())` then `pocket_ids.sort()`. */
  function PocketIds(scores: seq<(int, Value)>): seq<int> {
    Sorting.SortBy(Keys(scores), IdKey)
  }

  /** The pocket numbers in strictly ascending order, each once. */
  lemma PocketIdsAscending(scores: seq<(int, Value)>)
    requires Distinct(Keys(scores))
    ensures multiset(PocketIds(scores)) == multiset(Keys(scores))
    ensures forall i, j :: 0 <= i < j < |PocketIds(scores)| ==> PocketIds(scores)[i] < PocketIds(scores)[j]
  {
    var ids := PocketIds(scores);
    Sorting.SortByFacts(Keys(scores), IdKey);
    DistinctPerm(Keys(scores), ids);
    forall i, j | 0 <= i < j < |ids| ensures ids[i] < ids[j] {
      assert IdKey(ids[i]) <= IdKey(ids[j]);
      assert ids[i] != ids[j];
    }
  }

  /**
   * The loop of `parse_fpocket` over `ids`: `(scores[id], pos[id])` for each
   * number in turn, until a number is missing from one of the two
   * dictionaries (`KeyError`).
   */
  function Pairs(scores: seq<(int, Value)>, pos: seq<(int, seq<Point>)>, ids: seq<int>): (seq<(Value, seq<Point>)>, Option<Error>) {
    if ids == [] then ([], None)
    else
      var sc, p := Get(scores, ids[0]), Get(pos, ids[0]);
      if sc.None? || p.None? then ([], Some(KeyError))
      else
        var rest := Pairs(scores, pos, ids[1..]);
        ([(sc.value, p.value)] + rest.0, rest.1)
  }

  /**
   * The pairs follow `ids` one for one and stop, with a `KeyError`, at the
   * first number missing from either dictionary.
   */
  lemma {:induction false} PairsMeaning(scores: seq<(int, Value)>, pos: seq<(int, seq<Point>)>, ids: seq<int>)
    ensures var (items, err) := Pairs(scores, pos, ids);
            && |items| <= |ids|
            && (forall j :: 0 <= j < |items| ==>
                  Get(scores, ids[j]).Some? && Get(pos, ids[j]).Some?
                  && items[j].0 == Get(scores, ids[j]).value && items[j].1 == Get(pos, ids[j]).value)
            && (err.None? <==> |items| == |ids|)
            && (err.Some? ==> err.value == KeyError && (Get(scores, ids[|items|]).None? || Get(pos, ids[|items|]).None?))
  {
    if ids != [] && Get(scores, ids[0]).Some? && Get(pos, ids[0]).Some? {
      PairsMeaning(scores, pos, ids[1..]);
    }
  }

  /** What `parse_fpocket` yields, consumed to the end, and the exception that ends it, if any. */
  function FpocketOf(pdb: seq<string>, info: seq<string>): (seq<(Value, seq<Point>)>, Option<Error>) {
    var sc := ScoresOf(info);
    if sc.Err? then ([], Some(sc.error))
    else
      var pos := PositionsFrom(pdb);
      if pos.Err? then ([], Some(pos.error))
      else Pairs(sc.value, pos.value, PocketIds(sc.value))
  }

  /** The pairs from position `i` on. */
  lemma PairsFrom(scores: seq<(int, Value)>, pos: seq<(int, seq<Point>)>, ids: seq<int>, i: nat)
    requires i < |ids| && Get(scores, ids[i]).Some? && Get(pos, ids[i]).Some?
    ensures var rest := Pairs(scores, pos, ids[i + 1..]);
            Pairs(scores, pos, ids[i..]) == ([(Get(scores, ids[i]).value, Get(pos, ids[i]).value)] + rest.0, rest.1)
  {
    assert ids[i..][1..] == ids[i + 1..];
  }

  /**
   * `parse_fpocket`: the score and the `APOL` coordinates of each pocket of
   * `_info.txt`, in ascending pocket number.
   */
  method ParseFpocket(pdb: seq<string>, info: seq<string>) returns (items: seq<(Value, seq<Point>)>, err: Option<Error>)
    ensures (items, err) == FpocketOf(pdb, info)
  {
    var scores := ParseScoreFromInfo(info);
    if scores.Err? {
      return [], Some(scores.error);
    }
    var pocketIds := PocketIds(scores.value);
    var pos := ParsePocketPositionFromPdb(pdb);
    if pos.Err? {
      return [], Some(pos.error);
    }
    items, err := YieldPairs(scores.value, pos.value, pocketIds);
  }

  /** The loop of `parse_fpocket`: `yield (scores[pocket_id], pos[pocket_id])` for each number. */
  method YieldPairs(scores: seq<(int, Value)>, pos: seq<(int, seq<Point>)>, ids: seq<int>)
    returns (items: seq<(Value, seq<Point>)>, err: Option<Error>)
    ensures (items, err) == Pairs(scores, pos, ids)
  {
    items := [];
    assert ids[0..] == ids;
    assert [] + Pairs(scores, pos, ids).0 == Pairs(scores, pos, ids).0;
    for i := 0 to |ids|
      invariant Pairs(scores, pos, ids) == (items + Pairs(scores, pos, ids[i..]).0, Pairs(scores, pos, ids[i..]).1)
    {
      var sc, p := Get(scores, ids[i]), Get(pos, ids[i]);
      if sc.None? || p.None? {
        assert ids[i..][0] == ids[i];
        assert Pairs(scores, pos, ids[i..]) == ([], Some(KeyError));
        assert items + [] == items;
        return items, Some(KeyError);
      }
      PairsFrom(scores, pos, ids, i);
      ghost var rest := Pairs(scores, pos, ids[i + 1..]).0;
      assert items + ([(sc.value, p.value)] + rest) == items + [(sc.value, p.value)] + rest;
      items := items + [(sc.value, p.value)];
    }
    assert ids[|ids|..] == [];
    assert items + [] == items;
    err := None;
  }

  /** The pocket numbers are those the tree names, in strictly ascending order. */
  lemma PocketIdsMeaning(tree: seq<(string, Value)>, scores: seq<(int, Value)>)
    requires ScoresFrom(tree) == Ok(scores)
    ensures var ids := PocketIds(scores);
            && (forall i, j :: 0 <= i < j < |ids| ==> ids[i] < ids[j])
            && (forall n :: n in ids <==> LastPocket(tree, n).Some?)
  {
    var ids := PocketIds(scores);
    ScoresFromDistinct(tree);
    PocketIdsAscending(scores);
    forall n ensures n in ids <==> LastPocket(tree, n).Some? {
      ScoresFromGet(tree, n);
      assert n in multiset(ids) <==> n in multiset(Keys(scores));
    }
  }

  /** What one yielded pair holds: the last `Score` read for the pocket and its atoms' coordinates. */
  lemma PairMeaning(tree: seq<(string, Value)>, pdb: seq<string>, scores: seq<(int, Value)>, pos: seq<(int, seq<Point>)>,
                    n: int, item: (Value, seq<Point>))
    requires ScoresFrom(tree) == Ok(scores) && PositionsFrom(pdb) == Ok(pos)
    requires Get(scores, n) == Some(item.0) && Get(pos, n) == Some(item.1)
    ensures LastPocket(tree, n).Some? && Score(LastPocket(tree, n).value) == Ok(item.0)
    ensures item.1 == PointsOf(pdb, n) && item.1 != []
  {
    ScoresFromGet(tree, n);
    PositionsFromGet(pdb, n);
  }

  /** The pairs in order, and the `KeyError` at the first pocket without atoms. */
  lemma PairsFound(tree: seq<(string, Value)>, pdb: seq<string>, scores: seq<(int, Value)>, pos: seq<(int, seq<Point>)>)
    requires ScoresFrom(tree) == Ok(scores) && PositionsFrom(pdb) == Ok(pos)
    ensures var ids := PocketIds(scores);
            var (items, err) := Pairs(scores, pos, ids);
            && |items| <= |ids|
            && (forall j :: 0 <= j < |items| ==>
                  LastPocket(tree, ids[j]).Some? && Score(LastPocket(tree, ids[j]).value) == Ok(items[j].0)
                  && items[j].1 == PointsOf(pdb, ids[j]) && items[j].1 != [])
            && (err.None? <==> |items| == |ids|)
            && (err.Some? ==> err.value == KeyError && PointsOf(pdb, ids[|items|]) == [])
  {
    var ids := PocketIds(scores);
    var items, err := Pairs(scores, pos, ids).0, Pairs(scores, pos, ids).1;
    PairsMeaning(scores, pos, ids);
    forall j | 0 <= j < |items|
      ensures LastPocket(tree, ids[j]).Some? && Score(LastPocket(tree, ids[j]).value) == Ok(items[j].0)
              && items[j].1 == PointsOf(pdb, ids[j]) && items[j].1 != []
    {
      PairMeaning(tree, pdb, scores, pos, ids[j], items[j]);
    }
    if err.Some? {
      var n := ids[|items|];
      PositionsFromGet(pdb, n);
      assert Get(scores, n).Some? by {
        ScoresFromDistinct(tree);
        PocketIdsAscending(scores);
        assert n in multiset(Keys(scores));
      }
    }
  }

  /**
   * End to end: the pockets come in strictly ascending number; each carries
   * the `Score` of the last `_info.txt` entry naming it and the coordinates
   * of its `APOL` atoms in line order; the sequence ends early, with a
   * `KeyError`, at the first pocket that has a score but no atom.
   */
  lemma FpocketMeaning(pdb: seq<string>, info: seq<string>)
    requires ScoresOf(info).Ok? && PositionsFrom(pdb).Ok?
    ensures var tree := Parsed(info).value;
            var ids := PocketIds(ScoresOf(info).value);
            var (items, err) := FpocketOf(pdb, info);
            && (forall i, j :: 0 <= i < j < |ids| ==> ids[i] < ids[j])
            && (forall n :: n in ids <==> LastPocket(tree, n).Some?)
            && |items| <= |ids|
            && (forall j :: 0 <= j < |items| ==>
                  LastPocket(tree, ids[j]).Some? && Score(LastPocket(tree, ids[j]).value) == Ok(items[j].0)
                  && items[j].1 == PointsOf(pdb, ids[j]) && items[j].1 != [])
            && (err.None? <==> |items| == |ids|)
            && (err.Some? ==> err.value == KeyError && PointsOf(pdb, ids[|items|]) == [])
  {
    var tree := Parsed(info).value;
    var scores := ScoresOf(info).value;
    var pos := PositionsFrom(pdb).value;
    assert FpocketOf(pdb, info) == Pairs(scores, pos, PocketIds(scores));
    PocketIdsMeaning(tree, scores);
    PairsFound(tree, pdb, scores, pos);
  }
}
