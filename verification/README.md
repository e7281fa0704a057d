# Shader-source splitter

A Dafny model of `ParseShader`, the routine of the OpenGL sample application that reads a
dual-section shader file and splits it into a vertex-stage source and a fragment-stage
source (`ShaderProgramSource`). The file is read line by line. A line holding `#shader` is a
header: it selects the vertex stage if it also holds `vertex`, otherwise the fragment stage
if it holds `fragment`, and otherwise changes nothing. Every other line is appended, followed
by a newline, to the stream of the currently selected stage.

Modules:

- `Wrappers` (`wrappers.dfy`): `Option` and `Result`.
- `Strings` (`strings.dfy`): `Find`, the model of `std::string::find` (leftmost occurrence,
  `None` for `npos`), `Contains`, and `Join`, the newline-terminated concatenation that a
  `stringstream` accumulates.
- `Shader` (`shader.dfy`): the section state (`NONE`/`VERTEX`/`FRAGMENT`, with the enumerator
  values `-1`/`0`/`1` as `Slot`), the line classifier, one loop iteration `Step`, the loop
  `Fold`, the functional `Parse`, and the imperative `ParseShader` that mirrors the `while`
  loop with its two-element stream array, proved equal to `Parse`.
- `ShaderSpec` (`shader_spec.dfy`): an independent, line-by-line description of the
  result (the section active at each line, the lines each section receives) and the theorem
  `ParseCorrect` that the loop meets it, with its consequences for output size and for
  header lines.
- `ShaderLaws` (`shader_laws.dfy`): behaviour on composed files: concatenation, block order,
  inert headers, header-only files, and the independence lemmas they rest on.
- `ShaderExamples` (`shader_examples.dfy`): concrete files.

The input is the file as a sequence of lines with the newline already removed, as
`getline` delivers them. Line numbers in errors are zero-based.

**Content before the first header.** In the original, a content line read while the state is
still `NONE` writes to `ss[(int)type]` with `type == -1`, outside the two-element array: the
behaviour is undefined. The model does not guess what happens; it makes this the one error
outcome, `ContentBeforeSection(k)` naming the first such line, and stops there.
`ParseCorrect` shows that the error occurs exactly when some content line precedes every
selecting header, and `FoldKeepsSelection` that the run cannot fail once a section has been
selected.

## Model

| member | source | states |
|---|---|---|
| Strings.Find | src/Application.cpp:34-43 | `std::string::find`: specified by `Strings.FindMeaning` |
| Strings.Contains | src/Application.cpp:34-43 | the test `find(..) != npos`: specified by `Strings.ContainsMeaning` |
| Strings.Join | src/Application.cpp:46 | the text accumulated by `ss[..] << line << '\n'`: ends with a newline whenever a line was written, and is empty when none was |
| Strings.FindFromMeaning | src/Application.cpp:34-43 | the search from a position returns an occurrence at or after it with none in between, or reports that none exists at or after it |
| Strings.FindMeaning | src/Application.cpp:34-43 | `find` returns the leftmost occurrence, and `npos` exactly when the pattern does not occur |
| Strings.ContainsMeaning | src/Application.cpp:34-43 | the test `find(..) != npos` holds exactly when the pattern occurs in the line |
| Strings.JoinAvoids | src/Application.cpp:46 | lines each free of a newline-free pattern, written one per line, do not contain the pattern |
| Strings.JoinAppend | src/Application.cpp:46 | writing two batches of lines to a stream gives the two texts one after the other |
| Strings.JoinLength | src/Application.cpp:46 | the accumulated text is as long as its lines plus one newline each |
| Shader.Slot | src/Application.cpp:25-27 | the enumerator values `-1`, `0`, `1` used as stream indices; used by `Shader.ParseShader` |
| Shader.Classify | src/Application.cpp:34-43 | the nested `find` tests: specified by `Shader.ClassifyMeaning` |
| Shader.Step | src/Application.cpp:34-47 | one loop iteration: specified by `Shader.StepOutcome` and `ShaderSpec.StepMeaning` |
| Shader.Fold | src/Application.cpp:33-48 | the loop: specified by `Shader.FoldAppend`, `ShaderSpec.PrefixMeaning` and the `ShaderLaws` lemmas |
| Shader.Parse | src/Application.cpp:22-51 | `ParseShader`: specified by `ShaderSpec.ParseCorrect` |
| Shader.ClassifyMeaning | src/Application.cpp:34-43 | a line is a header exactly when it holds `#shader`; a header holding `vertex` selects the vertex stage even if it holds `fragment`; one holding `fragment` but not `vertex` selects the fragment stage; one holding neither selects nothing |
| Shader.StepOutcome | src/Application.cpp:34-47 | one line fails, naming itself, exactly when it is content read with no section selected; otherwise the streams only grow, a header adds nothing, and a content line adds its length plus one |
| Shader.FoldAppend | src/Application.cpp:33-48 | reading `a + b` is reading `a` and then, unless that failed, reading `b` from where `a` left off |
| Shader.ParseShader | src/Application.cpp:22-51 | the imperative loop with the two-stream array and the `-1`/`0`/`1` stream index computes exactly `Parse` |
| ShaderSpec.ActiveSectionMeaning | src/Application.cpp:32-43 | the section in force at a line is none exactly when no earlier header selects one, and otherwise the section of an earlier selecting header followed by no other selecting header |
| ShaderSpec.FirstOrphanMeaning | src/Application.cpp:32-46 | the first orphan (content read while no section is selected) is found exactly when one exists, and is the one with the smallest line number |
| ShaderSpec.EmittedAreContent | src/Application.cpp:44-47 | every line routed to a section is a content line |
| ShaderSpec.StepMeaning | src/Application.cpp:34-47 | reading one line in the state the reference description predicts fails exactly on an orphan, naming it, and otherwise leads to the predicted state one line further |
| ShaderSpec.PrefixMeaning | src/Application.cpp:33-48 | after any prefix of the file the loop has failed at the first orphan content line of the prefix if there is one, and otherwise holds the active section and, per section, the prefix's content lines of that section each followed by a newline |
| ShaderSpec.ParseCorrect | src/Application.cpp:22-51 | the parse succeeds exactly when every content line follows a selecting header, and then each source is that section's content lines, in file order, each followed by a newline; on failure it names the first content line read before any selecting header |
| ShaderSpec.EmittedSplitsContent | src/Application.cpp:45-47 | without orphans, the lines of the two sections together are the content lines, each as often as it occurs (as multisets) |
| ShaderSpec.EmittedLengths | src/Application.cpp:45-47 | without orphans, the newline-terminated lengths of the two sections' lines add up to that of the content lines |
| ShaderSpec.ContentPartition | src/Application.cpp:44-49 | for a file on which the parse succeeds (no content line before every selecting header, by `ShaderSpec.ParseCorrect`), the lines of both sections, whose newline-terminated joins are the two sources, are together exactly the file's content lines, as multisets |
| ShaderSpec.LengthAccounting | src/Application.cpp:45-49 | the two sources' lengths add up to the sum over content lines of the line length plus one |
| ShaderSpec.NoMarkerInOutput | src/Application.cpp:34-47 | `#shader` occurs in neither source |
| ShaderLaws.FoldErrorInRange | src/Application.cpp:33-47 | a failure names one of the lines that were read |
| ShaderLaws.FoldOffset | src/Application.cpp:33-48 | line numbering changes only the number an error names, not the outcome or the output |
| ShaderLaws.FoldKeepsText | src/Application.cpp:45-47 | text already in the streams is kept in front of what the remaining lines add, and does not affect whether they fail |
| ShaderLaws.FoldKeepsSelection | src/Application.cpp:34-47 | once a section is selected the run cannot fail, and it ends with some section selected |
| ShaderLaws.FoldSectionCarries | src/Application.cpp:32-47 | a run that succeeds starting from no section gives the same text starting from any section |
| ShaderLaws.ParseStopsAtFirstError | src/Application.cpp:32-47 | lines after the first orphan content line do not change the failure |
| ShaderLaws.ParseConcat | src/Application.cpp:33-49 | the parse of two concatenated valid files is, per section, the first file's text followed by the second's, so repeated blocks of one stage are joined in file order |
| ShaderLaws.ParseBlockOrder | src/Application.cpp:32-47 | a vertex-only file and a fragment-only file give the same result in either order |
| ShaderLaws.InertMarkerInvisible | src/Application.cpp:34-43 | inserting a header that names neither stage anywhere changes nothing but the number of a later failing line |
| ShaderLaws.FoldMarkersOnly | src/Application.cpp:34-43 | header lines alone never fail and never add text |
| ShaderLaws.ParseMarkersOnly | src/Application.cpp:31-49 | an empty file, or one of header lines only, gives two empty sources |
| ShaderExamples.ShortLineIsContent | src/Application.cpp:34 | a line shorter than `#shader` is content |
| ShaderExamples.BothWordsHeader | src/Application.cpp:35-42 | `#shader fragment vertex` selects the vertex stage |
| ShaderExamples.VertexThenFragment | src/Application.cpp:22-51 | `#shader vertex`, `out;`, `#shader fragment`, `out2;` gives `out;\n` and `out2;\n` |
| ShaderExamples.FragmentThenVertex | src/Application.cpp:22-51 | the same file with the fragment block first routes each block to its own stage |
| ShaderExamples.ContentFirst | src/Application.cpp:32-46 | a content line before any header is the error case, reported at line 0 |

## Left out

- Reading the file (`ifstream`, `getline`): the model starts from the sequence of lines with
  newlines removed; a missing or unreadable file, which the original treats as an empty one,
  is the empty sequence.
- Content before the first header: the original's out-of-bounds stream access has no defined
  outcome; the model reports `ContentBeforeSection` instead of modelling what the memory
  access would do.
- `CompileShader` and `CreateShader` (src/Application.cpp:55-95): sequences of OpenGL driver
  calls whose outcome is decided by the driver.
- `main` (src/Application.cpp:97-228): window and context setup, buffer uploads, the render
  loop and its floating-point colour animation are input/output glue.
- `GLCall` and `ASSERT`: defined in `Renderer.h`, which is not part of this model.
- The vertex array, vertex buffer, index buffer and vertex buffer layout wrappers:
  src/VertexArray.h only declares the class, and the bodies of `AddBuffer` and of the layout
  are not part of this model.
