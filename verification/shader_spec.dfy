/** A reference description of what the splitter produces, stated line by line rather than
    as a loop, and the theorem that the loop meets it. */
module ShaderSpec {
  import opened Wrappers
  import opened Strings
  import opened Shader

  /** The kind of every line of the file. */
  function Kinds(lines: seq<string>): (ks: seq<LineKind>)
  {
    seq(|lines|, i requires 0 <= i < |lines| => Classify(lines[i]))
  }

  /** The section a line of this kind selects: `Vertex` or `Fragment` for those headers,
      `NoSection` for content and inert headers. */
  function Selected(k: LineKind): Section
  {
    match k
    case VertexMarker => Vertex
    case FragmentMarker => Fragment
    case _ => NoSection
  }

  /** The section in force when line `i` is read: the one chosen by the last selecting
      header among the lines before it, or `NoSection` if there is none. */
  function ActiveSection(ks: seq<LineKind>, i: nat): Section
    requires i <= |ks|
    decreases i
  {
    if i == 0 then NoSection
    else if Selected(ks[i - 1]) != NoSection then Selected(ks[i - 1])
    else ActiveSection(ks, i - 1)
  }

  /** No line with index in `[lo, hi)` selects a section. */
  predicate NoSelection(ks: seq<LineKind>, lo: int, hi: int)
    requires 0 <= lo && hi <= |ks|
  {
    forall k :: lo <= k < hi ==> Selected(ks[k]) == NoSection
  }

  /** The active section is `NoSection` exactly when no earlier line selects a section;
      otherwise it is the section chosen by some earlier line after which no line selects. */
  lemma {:induction false} ActiveSectionMeaning(ks: seq<LineKind>, i: nat)
    requires i <= |ks|
    ensures ActiveSection(ks, i) == NoSection <==> NoSelection(ks, 0, i)
    ensures ActiveSection(ks, i) != NoSection ==>
      exists j :: 0 <= j < i && Selected(ks[j]) == ActiveSection(ks, i) && NoSelection(ks, j + 1, i)
    decreases i
  {
    if i > 0 {
      if Selected(ks[i - 1]) != NoSection {
        assert NoSelection(ks, i, i);
      } else {
        ActiveSectionMeaning(ks, i - 1);
        if ActiveSection(ks, i) != NoSection {
          var j :| 0 <= j < i - 1 && Selected(ks[j]) == ActiveSection(ks, i) && NoSelection(ks, j + 1, i - 1);
          assert NoSelection(ks, j + 1, i);
        }
      }
    }
  }

  /** Line `i` is content read before any section was selected. */
  predicate Orphan(ks: seq<LineKind>, i: nat)
    requires i < |ks|
  {
    ks[i] == Content && ActiveSection(ks, i) == NoSection
  }

  /** Every content line comes after some selecting header. */
  predicate WellSectioned(ks: seq<LineKind>)
  {
    forall i :: 0 <= i < |ks| ==> !Orphan(ks, i)
  }

  /** The first orphan among the first `n` lines, if any. */
  function FirstOrphan(ks: seq<LineKind>, n: nat): Option<nat>
    requires n <= |ks|
    decreases n
  {
    if n == 0 then None
    else match FirstOrphan(ks, n - 1)
      case Some(k) => Some(k)
      case None => if Orphan(ks, n - 1) then Some(n - 1) else None
  }

  /** `FirstOrphan` finds nothing exactly when there is no orphan, and otherwise the
      orphan with the smallest index. */
  lemma {:induction false} FirstOrphanMeaning(ks: seq<LineKind>, n: nat)
    requires n <= |ks|
    ensures FirstOrphan(ks, n).None? <==> forall i :: 0 <= i < n ==> !Orphan(ks, i)
    ensures FirstOrphan(ks, n).Some? ==>
      var k := FirstOrphan(ks, n).value;
      k < n && Orphan(ks, k) && forall i :: 0 <= i < k ==> !Orphan(ks, i)
    decreases n
  {
    if n > 0 {
      FirstOrphanMeaning(ks, n - 1);
    }
  }

  /** The content lines among the first `n` whose active section is `sec`, in file order. */
  function Emitted(lines: seq<string>, n: nat, sec: Section): seq<string>
    requires n <= |lines|
    decreases n
  {
    var ks := Kinds(lines);
    if n == 0 then []
    else if ks[n - 1] == Content && ActiveSection(ks, n - 1) == sec
    then Emitted(lines, n - 1, sec) + [lines[n - 1]]
    else Emitted(lines, n - 1, sec)
  }

  /** Only content lines are ever emitted. */
  lemma {:induction false} EmittedAreContent(lines: seq<string>, n: nat, sec: Section)
    requires n <= |lines|
    ensures forall k :: 0 <= k < |Emitted(lines, n, sec)| ==> Classify(Emitted(lines, n, sec)[k]) == Content
    decreases n
  {
    if n > 0 {
      EmittedAreContent(lines, n - 1, sec);
      assert Kinds(lines)[n - 1] == Classify(lines[n - 1]);
    }
  }

  /** The expected result: each section's content lines, each ended by a newline. */
  function Reference(lines: seq<string>): ShaderProgramSource
  {
    ShaderProgramSource(
      Join(Emitted(lines, |lines|, Vertex)),
      Join(Emitted(lines, |lines|, Fragment)))
  }

  /** The state the loop holds after the first `n` lines when none of them is an orphan. */
  function ExpectedState(lines: seq<string>, n: nat): ParserState
    requires n <= |lines|
  {
    ParserState(
      ActiveSection(Kinds(lines), n),
      Join(Emitted(lines, n, Vertex)),
      Join(Emitted(lines, n, Fragment)))
  }

  /** The loop after the first `n` lines. */
  function Run(lines: seq<string>, n: nat): Result<ParserState, ParseError>
    requires n <= |lines|
  {
    Fold(Initial, lines[..n], 0)
  }

  /** Reading one more line extends the run over a prefix by one step. */
  lemma PrefixStep(lines: seq<string>, n: nat)
    requires n < |lines|
    ensures Run(lines, n + 1) ==
      match Run(lines, n)
      case Err(e) => Err(e)
      case Ok(st) => Step(st, lines[n], n)
  {
    assert lines[..n + 1] == lines[..n] + [lines[n]];
    FoldAppend(Initial, lines[..n], [lines[n]], 0);
    match Fold(Initial, lines[..n], 0)
    case Err(e) =>
    case Ok(st) =>
      assert [lines[n]][1..] == [];
  }

  /** One line read in the expected state leads to the expected state for one more line,
      or fails exactly when that line is an orphan. */
  lemma StepMeaning(lines: seq<string>, m: nat)
    requires m < |lines|
    ensures
      var r := Step(ExpectedState(lines, m), lines[m], m);
      (r.Ok? <==> !Orphan(Kinds(lines), m)) &&
      (r.Ok? ==> r.value == ExpectedState(lines, m + 1)) &&
      (r.Err? ==> r.error.line == m)
  {
    var line := lines[m];
    var ks := Kinds(lines);
    var sec := ActiveSection(ks, m);
    assert ks[m] == Classify(line);
    if ks[m] == Content && sec != NoSection {
      assert Emitted(lines, m + 1, sec) == Emitted(lines, m, sec) + [line];
      JoinAppend(Emitted(lines, m, sec), [line]);
      assert Join([line]) == Join([]) + line + "\n";
    }
  }

  /** The loop invariant, stated on prefixes: the run over the first `n` lines fails at the
      first orphan among them, if there is one, and otherwise holds the expected state. */
  lemma {:induction false} PrefixMeaning(lines: seq<string>, n: nat)
    requires n <= |lines|
    ensures Run(lines, n) ==
      match FirstOrphan(Kinds(lines), n)
      case Some(k) => Err(ContentBeforeSection(k))
      case None => Ok(ExpectedState(lines, n))
    decreases n
  {
    if n == 0 {
      assert lines[..0] == [];
    } else {
      var m := n - 1;
      PrefixMeaning(lines, m);
      PrefixStep(lines, m);
      if Run(lines, m).Ok? {
        StepMeaning(lines, m);
      }
    }
  }

  /** The splitter fails exactly when some content line precedes every selecting marker,
      and then names the first such line; otherwise it yields the reference result. */
  lemma ParseCorrect(lines: seq<string>)
    ensures Parse(lines).Ok? <==> WellSectioned(Kinds(lines))
    ensures WellSectioned(Kinds(lines)) ==> Parse(lines) == Ok(Reference(lines))
    ensures Parse(lines).Err? ==>
      var k := Parse(lines).error.line;
      k < |lines| && Orphan(Kinds(lines), k) && forall i :: 0 <= i < k ==> !Orphan(Kinds(lines), i)
  {
    PrefixMeaning(lines, |lines|);
    FirstOrphanMeaning(Kinds(lines), |lines|);
    assert lines[..|lines|] == lines;
    assert Parse(lines) == match Run(lines, |lines|)
      case Err(e) => Err(e)
      case Ok(st) => Ok(ShaderProgramSource(st.vertex, st.fragment));
  }

  /** The content lines among the first `n`, in file order, whatever their section. */
  function ContentLines(lines: seq<string>, n: nat): seq<string>
    requires n <= |lines|
    decreases n
  {
    if n == 0 then []
    else if Kinds(lines)[n - 1] == Content then ContentLines(lines, n - 1) + [lines[n - 1]]
    else ContentLines(lines, n - 1)
  }

  lemma TerminatedLengthSnoc(ls: seq<string>, l: string)
    ensures TerminatedLength(ls + [l]) == TerminatedLength(ls) + |l| + 1
  {
    assert (ls + [l])[..|ls|] == ls;
  }

  /** Without orphans, every content line is emitted to exactly one of the two sections:
      the two sections' lines together are the content lines, each as often as it occurs. */
  lemma {:induction false} EmittedSplitsContent(lines: seq<string>, n: nat)
    requires n <= |lines|
    requires FirstOrphan(Kinds(lines), n).None?
    ensures multiset(ContentLines(lines, n)) ==
      multiset(Emitted(lines, n, Vertex)) + multiset(Emitted(lines, n, Fragment))
    decreases n
  {
    if n > 0 {
      EmittedSplitsContent(lines, n - 1);
      if Kinds(lines)[n - 1] == Content {
        assert !Orphan(Kinds(lines), n - 1);
      }
    }
  }

  /** Without orphans, the newline-terminated lengths of the two sections' lines add up to
      that of the content lines. */
  lemma {:induction false} EmittedLengths(lines: seq<string>, n: nat)
    requires n <= |lines|
    requires FirstOrphan(Kinds(lines), n).None?
    ensures TerminatedLength(Emitted(lines, n, Vertex)) + TerminatedLength(Emitted(lines, n, Fragment)) ==
      TerminatedLength(ContentLines(lines, n))
    decreases n
  {
    if n > 0 {
      var m := n - 1;
      var line := lines[m];
      var ks := Kinds(lines);
      var vs, fs, cs := Emitted(lines, m, Vertex), Emitted(lines, m, Fragment), ContentLines(lines, m);
      EmittedLengths(lines, m);
      if ks[m] == Content {
        assert !Orphan(ks, m);
        assert ContentLines(lines, n) == cs + [line];
        TerminatedLengthSnoc(cs, line);
        if ActiveSection(ks, m) == Vertex {
          assert Emitted(lines, n, Vertex) == vs + [line];
          assert Emitted(lines, n, Fragment) == fs;
          TerminatedLengthSnoc(vs, line);
        } else {
          assert Emitted(lines, n, Vertex) == vs;
          assert Emitted(lines, n, Fragment) == fs + [line];
          TerminatedLengthSnoc(fs, line);
        }
      } else {
        assert ContentLines(lines, n) == cs;
        assert Emitted(lines, n, Vertex) == vs;
        assert Emitted(lines, n, Fragment) == fs;
      }
    }
  }

  /** The two sources together are exactly as long as all content lines with one newline
      each: their newline-terminated lengths add up. */
  lemma LengthAccounting(lines: seq<string>)
    ensures Parse(lines).Ok? ==>
      |Parse(lines).value.vertexSource| + |Parse(lines).value.fragmentSource| ==
        TerminatedLength(ContentLines(lines, |lines|))
  {
    ParseCorrect(lines);
    if Parse(lines).Ok? {
      FirstOrphanMeaning(Kinds(lines), |lines|);
      EmittedLengths(lines, |lines|);
      JoinLength(Emitted(lines, |lines|, Vertex));
      JoinLength(Emitted(lines, |lines|, Fragment));
    }
  }

  /** No header line leaks into either source: `#shader` occurs in neither output. */
  lemma NoMarkerInOutput(lines: seq<string>)
    ensures Parse(lines).Ok? ==>
      !Occurs(Parse(lines).value.vertexSource, ShaderTag) &&
      !Occurs(Parse(lines).value.fragmentSource, ShaderTag)
  {
    ParseCorrect(lines);
    if Parse(lines).Ok? {
      assert '\n' !in ShaderTag;
      var vs := Emitted(lines, |lines|, Vertex);
      var fs := Emitted(lines, |lines|, Fragment);
      EmittedAreContent(lines, |lines|, Vertex);
      EmittedAreContent(lines, |lines|, Fragment);
      forall k | 0 <= k < |vs| ensures !Occurs(vs[k], ShaderTag) {
        ClassifyMeaning(vs[k]);
      }
      forall k | 0 <= k < |fs| ensures !Occurs(fs[k], ShaderTag) {
        ClassifyMeaning(fs[k]);
      }
      JoinAvoids(vs, ShaderTag);
      JoinAvoids(fs, ShaderTag);
    }
  }

  /** When the parse succeeds (by `ParseCorrect`, exactly when the file is well sectioned),
      every content line goes to exactly one source: the lines behind the two sources are,
      together, the file's content lines. */
  lemma ContentPartition(lines: seq<string>)
    ensures WellSectioned(Kinds(lines)) ==>
      multiset(ContentLines(lines, |lines|)) ==
        multiset(Emitted(lines, |lines|, Vertex)) + multiset(Emitted(lines, |lines|, Fragment))
  {
    FirstOrphanMeaning(Kinds(lines), |lines|);
    if WellSectioned(Kinds(lines)) {
      EmittedSplitsContent(lines, |lines|);
    }
  }
}
