/**
  The unit tests of the library, stated as lemmas over the model, with an
  ASCII-only lowering standing in for `str::to_lowercase`; and examples of
  the `str::lines` split the searches rest on.
 */
module MinigrepTests {
  import opened Strings
  import opened LineSplit
  import opened Minigrep

  function LowerAsciiChar(c: char): char
  {
    if 'A' <= c <= 'Z' then (c as int - 'A' as int + 'a' as int) as char else c
  }

  /** Lowers the letters `A` to `Z` and leaves every other character alone. */
  function AsciiLower(s: string): (r: string)
    ensures |r| == |s|
    ensures forall i :: 0 <= i < |s| ==> r[i] == LowerAsciiChar(s[i])
  {
    seq(|s|, i requires 0 <= i < |s| => LowerAsciiChar(s[i]))
  }

  /** ASCII lowering works character by character. */
  lemma AsciiLowerDistributes()
    ensures DistributesOverConcat(AsciiLower)
  {
  }

  /** The three-line document of the tests, written line by line. */
  const TestDocs: string := "Rust:" + "\n" + "safe, fast, productive." + "\n" + "Pick three."

  const TestLines: seq<string> := ["Rust:", "safe, fast, productive.", "Pick three."]

  const TestEndings: seq<LineEnd> := [Lf, Lf, Eof]

  lemma TestDocsRendered()
    ensures Render(TestLines, TestEndings) == TestDocs
  {
    var ls, es := TestLines, TestEndings;
    RenderCons(ls, es);
    RenderCons(ls[1..], es[1..]);
    RenderCons(ls[2..], es[2..]);
    assert ls[1..][1..] == ls[2..] && es[1..][1..] == es[2..];
    assert Render(ls[2..], es[2..]) == ls[2] + "" + "";
  }

  lemma TestLinesWellFormed()
    ensures WellFormed(TestLines, TestEndings)
  {
  }

  /** The test document has three lines, split at its two newlines. */
  lemma TestDocsLines()
    ensures Lines(TestDocs) == TestLines
  {
    TestDocsRendered();
    TestLinesWellFormed();
    SplitRender(TestLines, TestEndings);
  }

  /** A three-element selection where only the middle element passes. */
  lemma FilterKeepsMiddle(a: string, b: string, c: string, p: string -> bool)
    requires !p(a) && p(b) && !p(c)
    ensures Seqs.Filter([a, b, c], p) == [b]
  {
  }

  /** A three-element selection where nothing passes. */
  lemma FilterKeepsNone(a: string, b: string, c: string, p: string -> bool)
    requires !p(a) && !p(b) && !p(c)
    ensures Seqs.Filter([a, b, c], p) == []
  {
  }

  /** A line with no `d` and no `D` has no `d` after lowering. */
  lemma NoDAfterLowering(line: string)
    requires 'd' !in line && 'D' !in line
    ensures 'd' !in AsciiLower(line)
  {
  }

  /** A line with neither `d` nor `D` holds "duct" neither as it is nor lowered. */
  lemma NoDuct(line: string)
    requires 'd' !in line && 'D' !in line
    ensures !Contains(line, "duct") && !Contains(AsciiLower(line), "duct")
  {
    NotContainedWithoutFirstChar(line, "duct");
    NoDAfterLowering(line);
    NotContainedWithoutFirstChar(AsciiLower(line), "duct");
  }

  lemma DuctNotInFirstLine()
    ensures !Contains(TestLines[0], "duct") && !Contains(AsciiLower(TestLines[0]), "duct")
  {
    assert 'd' !in TestLines[0] && 'D' !in TestLines[0];
    NoDuct(TestLines[0]);
  }

  lemma DuctInMiddleLine()
    ensures Contains(TestLines[1], "duct") && AsciiLower(TestLines[1]) == TestLines[1]
  {
    assert TestLines[1] == "safe, fast, pro" + "duct" + "ive.";
    ContainsMiddle("safe, fast, pro", "duct", "ive.");
  }

  lemma DuctNotInLastLine()
    ensures !Contains(TestLines[2], "duct") && !Contains(AsciiLower(TestLines[2]), "duct")
  {
    assert 'd' !in TestLines[2] && 'D' !in TestLines[2];
    NoDuct(TestLines[2]);
  }

  /** `test_search_lines`: the case-sensitive search for "duct" finds the middle line only. */
  lemma TestSearchLines()
    ensures SearchLines("duct", TestDocs) == ["safe, fast, productive."]
  {
    TestDocsLines();
    DuctNotInFirstLine();
    DuctInMiddleLine();
    DuctNotInLastLine();
    FilterKeepsMiddle(TestLines[0], TestLines[1], TestLines[2], ContainsQuery("duct"));
  }

  lemma UppercaseDuctNowhere()
    ensures !Contains(TestLines[0], "DUCT")
    ensures !Contains(TestLines[1], "DUCT")
    ensures !Contains(TestLines[2], "DUCT")
  {
    NoCapitalD(TestLines[0]);
    NoCapitalD(TestLines[1]);
    NoCapitalD(TestLines[2]);
  }

  lemma NoCapitalD(line: string)
    requires line in TestLines
    ensures !Contains(line, "DUCT")
  {
    assert 'D' !in line;
    NotContainedWithoutFirstChar(line, "DUCT");
  }

  lemma LoweredQuery()
    ensures AsciiLower("DUCT") == "duct"
  {
  }

  /** Case-sensitively, "DUCT" is found nowhere: no line has a `D`. */
  lemma TestSearchLinesUppercaseQuery()
    ensures SearchLines("DUCT", TestDocs) == []
  {
    TestDocsLines();
    UppercaseDuctNowhere();
    FilterKeepsNone(TestLines[0], TestLines[1], TestLines[2], ContainsQuery("DUCT"));
  }

  /** `test_search_lines_case_insensitive`: "DUCT", lowered, finds the middle line only. */
  lemma TestSearchLinesCaseInsensitive()
    ensures SearchLinesCaseInsensitive("DUCT", TestDocs, AsciiLower) == ["safe, fast, productive."]
  {
    LoweredQuery();
    TestDocsLines();
    DuctNotInFirstLine();
    DuctInMiddleLine();
    DuctNotInLastLine();
    FilterKeepsMiddle(TestLines[0], TestLines[1], TestLines[2], ContainsQueryFolded("DUCT", AsciiLower));
  }

  /** `\r\n` ends a line like `\n`, and the final line ending adds no empty line. */
  lemma LinesOfCrLfText()
    ensures Lines("a\r\nb\n") == ["a", "b"]
  {
    assert Render(["a", "b"], [CrLf, Lf]) == "a\r\nb\n";
    SplitRender(["a", "b"], [CrLf, Lf]);
  }

  /** Consecutive newlines give an empty line; a lone newline is one empty line. */
  lemma LinesOfEmptyLines()
    ensures Lines("a\n\nb") == ["a", "", "b"]
    ensures Lines("\n") == [""]
  {
    assert Render(["a", "", "b"], [Lf, Lf, Eof]) == "a\n\nb";
    SplitRender(["a", "", "b"], [Lf, Lf, Eof]);
    assert Render([""], [Lf]) == "\n";
    SplitRender([""], [Lf]);
  }

  /** A `\r` not followed by `\n` stays in the line, at the end of the text too. */
  lemma LinesKeepLoneCr()
    ensures Lines("a\rb\r") == ["a\rb\r"]
  {
    assert Render(["a\rb\r"], [Eof]) == "a\rb\r";
    SplitRender(["a\rb\r"], [Eof]);
  }
}
