/** Concrete files and what the splitter makes of them. */
module ShaderExamples {
  import opened Wrappers
  import opened Strings
  import opened Shader

  /** A line shorter than `#shader` cannot hold it, so it is content. */
  lemma ShortLineIsContent(line: string)
    requires |line| < |ShaderTag|
    ensures Classify(line) == Content
  {
    ContainsMeaning(line, ShaderTag);
  }

  lemma VertexHeader()
    ensures Classify("#shader vertex") == VertexMarker
  {
    var h := "#shader vertex";
    assert h == ShaderTag + " " + VertexWord;
    assert OccursAt(h, ShaderTag, 0);
    assert OccursAt(h, VertexWord, 8);
    ContainsMeaning(h, ShaderTag);
    ContainsMeaning(h, VertexWord);
  }

  lemma FragmentHeader()
    ensures Classify("#shader fragment") == FragmentMarker
  {
    var h := "#shader fragment";
    assert h == ShaderTag + " " + FragmentWord;
    assert OccursAt(h, ShaderTag, 0);
    assert OccursAt(h, FragmentWord, 8);
    assert 'v' !in h;
    MissingCharacter(h, VertexWord, 'v');
    ContainsMeaning(h, ShaderTag);
    ContainsMeaning(h, VertexWord);
    ContainsMeaning(h, FragmentWord);
  }

  /** A header naming both stages selects the vertex stage, whatever the word order. */
  lemma BothWordsHeader()
    ensures Classify("#shader fragment vertex") == VertexMarker
  {
    var h := "#shader fragment vertex";
    assert h == ShaderTag + " " + FragmentWord + " " + VertexWord;
    assert OccursAt(h, ShaderTag, 0);
    assert OccursAt(h, VertexWord, 17);
    ContainsMeaning(h, ShaderTag);
    ContainsMeaning(h, VertexWord);
  }

  /** A vertex block followed by a fragment block. */
  lemma VertexThenFragment()
    ensures Parse(["#shader vertex", "out;", "#shader fragment", "out2;"]) ==
      Ok(ShaderProgramSource("out;\n", "out2;\n"))
  {
    var lines := ["#shader vertex", "out;", "#shader fragment", "out2;"];
    VertexHeader();
    FragmentHeader();
    ShortLineIsContent("out;");
    ShortLineIsContent("out2;");
    assert "" + "out;" + "\n" == "out;\n";
    assert "" + "out2;" + "\n" == "out2;\n";
    var s1 := ParserState(Vertex, "", "");
    var s2 := ParserState(Vertex, "out;\n", "");
    var s3 := ParserState(Fragment, "out;\n", "");
    var s4 := ParserState(Fragment, "out;\n", "out2;\n");
    assert Fold(Initial, lines, 0) == Fold(s1, lines[1..], 1);
    assert Fold(s1, lines[1..], 1) == Fold(s2, lines[2..], 2);
    assert Fold(s2, lines[2..], 2) == Fold(s3, lines[3..], 3);
    assert Fold(s3, lines[3..], 3) == Fold(s4, lines[4..], 4);
  }

  /** Declaring the fragment stage first still routes each block to its own stage. */
  lemma FragmentThenVertex()
    ensures Parse(["#shader fragment", "f;", "#shader vertex", "v;"]) ==
      Ok(ShaderProgramSource("v;\n", "f;\n"))
  {
    var lines := ["#shader fragment", "f;", "#shader vertex", "v;"];
    VertexHeader();
    FragmentHeader();
    ShortLineIsContent("f;");
    ShortLineIsContent("v;");
    assert "" + "f;" + "\n" == "f;\n";
    assert "" + "v;" + "\n" == "v;\n";
    var s1 := ParserState(Fragment, "", "");
    var s2 := ParserState(Fragment, "", "f;\n");
    var s3 := ParserState(Vertex, "", "f;\n");
    var s4 := ParserState(Vertex, "v;\n", "f;\n");
    assert Fold(Initial, lines, 0) == Fold(s1, lines[1..], 1);
    assert Fold(s1, lines[1..], 1) == Fold(s2, lines[2..], 2);
    assert Fold(s2, lines[2..], 2) == Fold(s3, lines[3..], 3);
    assert Fold(s3, lines[3..], 3) == Fold(s4, lines[4..], 4);
  }

  /** A content line before any header is the error case, reported at line 0. */
  lemma ContentFirst()
    ensures Parse(["x;", "#shader vertex"]) == Err(ContentBeforeSection(0))
  {
    ShortLineIsContent("x;");
  }
}
