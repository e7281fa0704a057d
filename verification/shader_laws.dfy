/** How the splitter behaves on composed files: independence of line numbering, of the
    text already accumulated and of the section in force, and the consequences for
    concatenated files, inert headers, block order and output size. */
module ShaderLaws {
  import opened Wrappers
  import opened Shader
  import opened ShaderSpec

  /** A failed run names a line inside the range it read. */
  lemma {:induction false} FoldErrorInRange(st: ParserState, lines: seq<string>, offset: nat)
    ensures Fold(st, lines, offset).Err? ==>
      offset <= Fold(st, lines, offset).error.line < offset + |lines|
    decreases |lines|
  {
    if |lines| > 0 {
      match Step(st, lines[0], offset)
      case Err(e) =>
      case Ok(next) => FoldErrorInRange(next, lines[1..], offset + 1);
    }
  }

  /** Line numbering only affects which line an error names, never whether the run
      succeeds, what it produces, or the failing line's position relative to the start. */
  lemma {:induction false} FoldOffset(st: ParserState, lines: seq<string>, o1: nat, o2: nat)
    ensures Fold(st, lines, o1).Ok? <==> Fold(st, lines, o2).Ok?
    ensures Fold(st, lines, o1).Ok? ==> Fold(st, lines, o1) == Fold(st, lines, o2)
    ensures Fold(st, lines, o1).Err? ==>
      Fold(st, lines, o1).error.line - o1 == Fold(st, lines, o2).error.line - o2
    decreases |lines|
  {
    if |lines| > 0 {
      match Step(st, lines[0], o1)
      case Err(e) =>
      case Ok(next) => FoldOffset(next, lines[1..], o1 + 1, o2 + 1);
    }
  }

  /** Text already in the streams is kept as a prefix: the run succeeds exactly when it does
      from empty streams, and then appends exactly what it appends from empty streams. */
  lemma {:induction false} FoldKeepsText(sec: Section, v: string, f: string, lines: seq<string>, offset: nat)
    ensures Fold(ParserState(sec, v, f), lines, offset).Ok? <==>
      Fold(ParserState(sec, "", ""), lines, offset).Ok?
    ensures Fold(ParserState(sec, "", ""), lines, offset).Ok? ==>
      var r := Fold(ParserState(sec, "", ""), lines, offset).value;
      Fold(ParserState(sec, v, f), lines, offset) == Ok(ParserState(r.section, v + r.vertex, f + r.fragment))
    decreases |lines|
  {
    if |lines| == 0 {
      assert v + "" == v && f + "" == f;
    } else {
      var line := lines[0];
      var rest := lines[1..];
      match Classify(line)
      case VertexMarker =>
        FoldKeepsText(Vertex, v, f, rest, offset + 1);
      case FragmentMarker =>
        FoldKeepsText(Fragment, v, f, rest, offset + 1);
      case InertMarker =>
        FoldKeepsText(sec, v, f, rest, offset + 1);
      case Content =>
        var t := line + "\n";
        var e := ParserState(sec, "", "");
        if sec == Vertex {
          assert v + line + "\n" == v + t;
          assert Fold(ParserState(sec, v, f), lines, offset) == Fold(ParserState(sec, v + t, f), rest, offset + 1);
          assert e.vertex + line + "\n" == t;
          assert Fold(e, lines, offset) == Fold(ParserState(sec, t, ""), rest, offset + 1);
          FoldKeepsText(sec, t, "", rest, offset + 1);
          FoldKeepsText(sec, v + t, f, rest, offset + 1);
          if Fold(e, rest, offset + 1).Ok? {
            var r' := Fold(e, rest, offset + 1).value;
            assert "" + r'.fragment == r'.fragment;
            assert v + t + r'.vertex == v + (t + r'.vertex);
          }
        } else if sec == Fragment {
          assert f + line + "\n" == f + t;
          assert Fold(ParserState(sec, v, f), lines, offset) == Fold(ParserState(sec, v, f + t), rest, offset + 1);
          assert e.fragment + line + "\n" == t;
          assert Fold(e, lines, offset) == Fold(ParserState(sec, "", t), rest, offset + 1);
          FoldKeepsText(sec, "", t, rest, offset + 1);
          FoldKeepsText(sec, v, f + t, rest, offset + 1);
          if Fold(e, rest, offset + 1).Ok? {
            var r' := Fold(e, rest, offset + 1).value;
            assert "" + r'.vertex == r'.vertex;
            assert f + t + r'.fragment == f + (t + r'.fragment);
          }
        }
    }
  }

  /** Once a section is selected, no line deselects it: headers only switch between sections. */
  lemma {:induction false} FoldKeepsSelection(st: ParserState, lines: seq<string>, offset: nat)
    requires st.section != NoSection
    ensures Fold(st, lines, offset).Ok? && Fold(st, lines, offset).value.section != NoSection
    decreases |lines|
  {
    if |lines| > 0 {
      FoldKeepsSelection(Step(st, lines[0], offset).value, lines[1..], offset + 1);
    }
  }

  /** A run that succeeds with no section selected at the start never reads a content line
      before its first selecting header, so starting it inside some section changes nothing
      but the section it ends in when it selects none itself. */
  lemma {:induction false} FoldSectionCarries(sec: Section, v: string, f: string, lines: seq<string>, offset: nat)
    requires Fold(ParserState(NoSection, v, f), lines, offset).Ok?
    ensures
      var r := Fold(ParserState(NoSection, v, f), lines, offset).value;
      Fold(ParserState(sec, v, f), lines, offset) == Ok(if r.section == NoSection then r.(section := sec) else r)
    decreases |lines|
  {
    if |lines| > 0 {
      match Classify(lines[0])
      case VertexMarker => FoldKeepsSelection(ParserState(Vertex, v, f), lines[1..], offset + 1);
      case FragmentMarker => FoldKeepsSelection(ParserState(Fragment, v, f), lines[1..], offset + 1);
      case InertMarker => FoldSectionCarries(sec, v, f, lines[1..], offset + 1);
      case Content => assert false;
    }
  }

  /** Appending any lines to a file that fails leaves the failure, and the line it names,
      unchanged: the splitter stops at the first content line read outside a section. */
  lemma ParseStopsAtFirstError(a: seq<string>, b: seq<string>)
    requires Parse(a).Err?
    ensures Parse(a + b) == Parse(a)
  {
    FoldAppend(Initial, a, b, 0);
  }

  /** Concatenating two files that each parse yields, per section, the first file's text
      followed by the second's: repeated blocks of one kind are joined in file order. */
  lemma ParseConcat(a: seq<string>, b: seq<string>)
    requires Parse(a).Ok? && Parse(b).Ok?
    ensures Parse(a + b) == Ok(ShaderProgramSource(
      Parse(a).value.vertexSource + Parse(b).value.vertexSource,
      Parse(a).value.fragmentSource + Parse(b).value.fragmentSource))
  {
    FoldAppend(Initial, a, b, 0);
    var sa := Fold(Initial, a, 0).value;
    FoldOffset(Initial, b, 0, |a|);
    var sb := Fold(Initial, b, |a|).value;
    FoldSectionCarries(sa.section, "", "", b, |a|);
    FoldKeepsText(sa.section, sa.vertex, sa.fragment, b, |a|);
  }

  /** Swapping a vertex-only file and a fragment-only file gives the same result: routing
      depends on the headers, not on which section is declared first. */
  lemma ParseBlockOrder(vs: seq<string>, fs: seq<string>)
    requires Parse(vs).Ok? && Parse(vs).value.fragmentSource == ""
    requires Parse(fs).Ok? && Parse(fs).value.vertexSource == ""
    ensures Parse(vs + fs) == Parse(fs + vs)
    ensures Parse(fs + vs) == Ok(ShaderProgramSource(Parse(vs).value.vertexSource, Parse(fs).value.fragmentSource))
  {
    ParseConcat(vs, fs);
    ParseConcat(fs, vs);
    var v := Parse(vs).value.vertexSource;
    var f := Parse(fs).value.fragmentSource;
    assert v + "" == v && "" + v == v;
    assert f + "" == f && "" + f == f;
  }

  /** A header naming neither section can be inserted anywhere without effect, except that
      an error found after it names a line one further down. */
  lemma InertMarkerInvisible(a: seq<string>, m: string, b: seq<string>)
    requires Classify(m) == InertMarker
    ensures Parse(a + [m] + b).Ok? <==> Parse(a + b).Ok?
    ensures Parse(a + b).Ok? ==> Parse(a + [m] + b) == Parse(a + b)
    ensures Parse(a + b).Err? ==>
      var k := Parse(a + b).error.line;
      Parse(a + [m] + b).error.line == if k < |a| then k else k + 1
  {
    assert a + [m] + b == a + ([m] + b);
    FoldAppend(Initial, a, [m] + b, 0);
    FoldAppend(Initial, a, b, 0);
    FoldErrorInRange(Initial, a, 0);
    match Fold(Initial, a, 0)
    case Err(e) =>
    case Ok(sa) =>
      assert ([m] + b)[0] == m && ([m] + b)[1..] == b;
      assert Fold(sa, [m] + b, |a|) == Fold(sa, b, |a| + 1);
      FoldOffset(sa, b, |a|, |a| + 1);
      FoldErrorInRange(sa, b, |a|);
  }

  /** Header lines alone never fail and never produce text. */
  lemma {:induction false} FoldMarkersOnly(st: ParserState, lines: seq<string>, offset: nat)
    requires forall i :: 0 <= i < |lines| ==> Classify(lines[i]) != Content
    ensures Fold(st, lines, offset).Ok?
    ensures Fold(st, lines, offset).value.vertex == st.vertex
    ensures Fold(st, lines, offset).value.fragment == st.fragment
    decreases |lines|
  {
    if |lines| > 0 {
      FoldMarkersOnly(Step(st, lines[0], offset).value, lines[1..], offset + 1);
    }
  }

  /** An empty file, or one made only of header lines, yields two empty sources. */
  lemma ParseMarkersOnly(lines: seq<string>)
    requires forall i :: 0 <= i < |lines| ==> Classify(lines[i]) != Content
    ensures Parse(lines) == Ok(ShaderProgramSource("", ""))
  {
    FoldMarkersOnly(Initial, lines, 0);
  }
}
