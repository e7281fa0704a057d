/** The shader-file splitter: a single pass over the lines of a dual-section text file
    that routes every non-marker line to the vertex or the fragment source. */
module Shader {
  import opened Wrappers
  import opened Strings

  /** The marker token that makes a line a section header. */
  const ShaderTag: string := "#shader"
  const VertexWord: string := "vertex"
  const FragmentWord: string := "fragment"

  /** The parser's current section (`ShaderType`): `NONE`, `VERTEX` or `FRAGMENT`. */
  datatype Section = NoSection | Vertex | Fragment

  /** The enumerator values, which double as indices into the two output streams. */
  function Slot(s: Section): int
  {
    match s
    case NoSection => -1
    case Vertex => 0
    case Fragment => 1
  }

  /** The two accumulated source texts (`ShaderProgramSource`). */
  datatype ShaderProgramSource = ShaderProgramSource(vertexSource: string, fragmentSource: string)

  /** A content line was read while no section had been selected: the original indexes
      stream `-1` at this point. `line` is the zero-based line number. */
  datatype ParseError = ContentBeforeSection(line: nat)

  /** How a single line is treated. */
  datatype LineKind =
    | Content          // no `#shader`: appended to the current section
    | VertexMarker     // `#shader` and `vertex`
    | FragmentMarker   // `#shader` and `fragment`, but not `vertex`
    | InertMarker      // `#shader` with neither keyword

  /** Classifies a line by the nested `find` tests; `vertex` is tested first. */
  function Classify(line: string): LineKind
  {
    if !Contains(line, ShaderTag) then Content
    else if Contains(line, VertexWord) then VertexMarker
    else if Contains(line, FragmentWord) then FragmentMarker
    else InertMarker
  }

  /** What each kind means in terms of substring occurrence: a line is a header exactly when
      it holds `#shader`; `vertex` wins over `fragment`; a header with neither is inert. */
  lemma ClassifyMeaning(line: string)
    ensures Classify(line) == Content <==> !Occurs(line, ShaderTag)
    ensures Classify(line) == VertexMarker <==> Occurs(line, ShaderTag) && Occurs(line, VertexWord)
    ensures Classify(line) == FragmentMarker <==>
      Occurs(line, ShaderTag) && !Occurs(line, VertexWord) && Occurs(line, FragmentWord)
    ensures Classify(line) == InertMarker <==>
      Occurs(line, ShaderTag) && !Occurs(line, VertexWord) && !Occurs(line, FragmentWord)
  {
    ContainsMeaning(line, ShaderTag);
    ContainsMeaning(line, VertexWord);
    ContainsMeaning(line, FragmentWord);
  }

  /** The parser state between two lines: the current section and both stream contents. */
  datatype ParserState = ParserState(section: Section, vertex: string, fragment: string)

  const Initial := ParserState(NoSection, "", "")

  /** One iteration of the read loop on line number `index`. */
  function Step(st: ParserState, line: string, index: nat): Result<ParserState, ParseError>
  {
    match Classify(line)
    case VertexMarker => Ok(st.(section := Vertex))
    case FragmentMarker => Ok(st.(section := Fragment))
    case InertMarker => Ok(st)
    case Content =>
      match st.section
      case NoSection => Err(ContentBeforeSection(index))
      case Vertex => Ok(st.(vertex := st.vertex + line + "\n"))
      case Fragment => Ok(st.(fragment := st.fragment + line + "\n"))
  }

  /** One line fails exactly when it is content read with no section selected; otherwise
      the streams only grow, a header adds nothing to them, and a content line adds as many
      characters as it has plus one for the newline. */
  lemma StepOutcome(st: ParserState, line: string, index: nat)
    ensures Step(st, line, index).Err? <==> Classify(line) == Content && st.section == NoSection
    ensures Step(st, line, index).Err? ==> Step(st, line, index).error.line == index
    ensures Step(st, line, index).Ok? ==>
      var r := Step(st, line, index).value;
      st.vertex <= r.vertex && st.fragment <= r.fragment &&
      |r.vertex| + |r.fragment| == |st.vertex| + |st.fragment| + (if Classify(line) == Content then |line| + 1 else 0)
  {
  }

  /** The read loop from state `st` over `lines`, the first of which has number `offset`.
      It stops at the first line that cannot be routed. */
  function Fold(st: ParserState, lines: seq<string>, offset: nat): Result<ParserState, ParseError>
    decreases |lines|
  {
    if |lines| == 0 then Ok(st)
    else
      match Step(st, lines[0], offset)
      case Err(e) => Err(e)
      case Ok(next) => Fold(next, lines[1..], offset + 1)
  }

  /** `ParseShader` on the file whose lines (newlines stripped) are `lines`. */
  function Parse(lines: seq<string>): Result<ShaderProgramSource, ParseError>
  {
    match Fold(Initial, lines, 0)
    case Err(e) => Err(e)
    case Ok(st) => Ok(ShaderProgramSource(st.vertex, st.fragment))
  }

  /** Running over `a + b` is running over `a` and then, unless that failed, over `b`. */
  lemma {:induction false} FoldAppend(st: ParserState, a: seq<string>, b: seq<string>, offset: nat)
    ensures Fold(st, a + b, offset) ==
      match Fold(st, a, offset)
      case Err(e) => Err(e)
      case Ok(mid) => Fold(mid, b, offset + |a|)
    decreases |a|
  {
    if |a| == 0 {
      assert a + b == b;
    } else {
      assert (a + b)[0] == a[0];
      assert (a + b)[1..] == a[1..] + b;
      match Step(st, a[0], offset)
      case Err(e) =>
      case Ok(next) => FoldAppend(next, a[1..], b, offset + 1);
    }
  }

  /** The imperative loop of `ParseShader`: two streams indexed by the section's
      enumerator value, and a section variable switched by marker lines. */
  method ParseShader(lines: seq<string>) returns (r: Result<ShaderProgramSource, ParseError>)
    ensures r == Parse(lines)
  {
    var ss := ["", ""];
    var kind := NoSection;
    var i := 0;
    while i < |lines|
      invariant 0 <= i <= |lines|
      invariant |ss| == 2
      invariant Fold(ParserState(kind, ss[0], ss[1]), lines[i..], i) == Fold(Initial, lines, 0)
    {
      var line := lines[i];
      assert lines[i..][0] == line && lines[i..][1..] == lines[i + 1..];
      if Contains(line, ShaderTag) {
        if Contains(line, VertexWord) {
          kind := Vertex;
        } else if Contains(line, FragmentWord) {
          kind := Fragment;
        }
      } else {
        var slot := Slot(kind);
        if slot < 0 {
          return Err(ContentBeforeSection(i));
        }
        ss := ss[slot := ss[slot] + line + "\n"];
      }
      i := i + 1;
    }
    assert lines[i..] == [];
    r := Ok(ShaderProgramSource(ss[0], ss[1]));
  }
}
