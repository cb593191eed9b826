/** Lines of a text, as the editing functions of LightAnalysis.cpp take texts apart and put them together. */
module TextLines {

  /** Complete lines and the unfinished one after reading a text from left to right. */
  function Cut(text: string): (r: (seq<string>, string)) {
    if text == "" then ([], "")
    else
      var (lines, rest) := Cut(text[..|text| - 1]);
      var c := text[|text| - 1];
      if c == '\n' then (lines + [rest], "") else (lines, rest + [c])
  }

  /** What repeated std::getline yields: an unfinished last line counts, an empty one does not. */
  function Lines(text: string): seq<string> {
    var (lines, rest) := Cut(text);
    if rest == "" then lines else lines + [rest]
  }

  function Join(lines: seq<string>): string {
    if lines == [] then "" else Join(lines[..|lines| - 1]) + lines[|lines| - 1] + "\n"
  }

  /** No line spans several. */
  predicate Single(lines: seq<string>) {
    forall i | 0 <= i < |lines| :: '\n' !in lines[i]
  }

  lemma {:induction false} LinesAreSingle(text: string)
    ensures Single(Cut(text).0) && '\n' !in Cut(text).1 && Single(Lines(text))
  {
    if text != "" {
      LinesAreSingle(text[..|text| - 1]);
    }
  }

  lemma {:induction false} CutOf(text: string, line: string)
    requires '\n' !in line
    ensures Cut(text + line) == (Cut(text).0, Cut(text).1 + line)
  {
    if line == "" {
      assert text + line == text && Cut(text).1 + line == Cut(text).1;
    } else {
      var n := |line| - 1;
      assert (text + line)[..|text + line| - 1] == text + line[..n];
      assert (text + line)[|text + line| - 1] == line[n] != '\n' by {
        assert line[n] in line;
      }
      CutOf(text, line[..n]);
      assert Cut(text).1 + line == Cut(text).1 + line[..n] + [line[n]];
    }
  }

  lemma EndLine(text: string)
    ensures Cut(text + "\n") == (Cut(text).0 + [Cut(text).1], "")
  {
    assert (text + "\n")[..|text|] == text;
  }

  /** Round trip: putting single lines together and taking the text apart again gives the same lines. */
  lemma {:induction false} LinesOfJoin(lines: seq<string>)
    requires Single(lines)
    ensures Cut(Join(lines)) == (lines, "") && Lines(Join(lines)) == lines
  {
    if lines != [] {
      var n := |lines| - 1;
      LinesOfJoin(lines[..n]);
      CutOf(Join(lines[..n]), lines[n]);
      assert "" + lines[n] == lines[n];
      EndLine(Join(lines[..n]) + lines[n]);
      assert lines == lines[..n] + [lines[n]];
    }
  }

  /** The number of line breaks. */
  function Breaks(text: string): nat {
    if text == "" then 0 else Breaks(text[..|text| - 1]) + if text[|text| - 1] == '\n' then 1 else 0
  }

  lemma {:induction false} BreaksOfConcat(a: string, b: string)
    ensures Breaks(a + b) == Breaks(a) + Breaks(b)
  {
    if b == "" {
      assert a + b == a;
    } else {
      assert (a + b)[..|a + b| - 1] == a + b[..|b| - 1];
      BreaksOfConcat(a, b[..|b| - 1]);
    }
  }

  lemma {:induction false} NoBreaksMeans(text: string)
    ensures Breaks(text) == 0 <==> '\n' !in text
  {
    if text != "" {
      var n := |text| - 1;
      NoBreaksMeans(text[..n]);
      assert text == text[..n] + [text[n]];
    }
  }

  lemma {:induction false} BreaksAreLines(text: string)
    ensures |Cut(text).0| == Breaks(text)
  {
    if text != "" {
      BreaksAreLines(text[..|text| - 1]);
    }
  }

  /** Writing lines that may span several back and taking the text apart again. */
  lemma LinesOfAnyJoin(lines: seq<string>)
    ensures |Lines(Join(lines))| == Breaks(Join(lines)) && Cut(Join(lines)).1 == ""
  {
    BreaksAreLines(Join(lines));
    if lines != [] {
      EndLine(Join(lines[..|lines| - 1]) + lines[|lines| - 1]);
    }
  }

  lemma {:induction false} BreaksOfJoin(lines: seq<string>, k: nat)
    requires k < |lines| && forall i | 0 <= i < |lines| && i != k :: '\n' !in lines[i]
    ensures Breaks(Join(lines)) == |lines| + Breaks(lines[k])
  {
    var n := |lines| - 1;
    BreaksOfConcat(Join(lines[..n]) + lines[n], "\n");
    BreaksOfConcat(Join(lines[..n]), lines[n]);
    if k < n {
      BreaksOfJoin(lines[..n], k);
      NoBreaksMeans(lines[n]);
    } else {
      LinesOfJoin(lines[..n]);
      LinesOfAnyJoin(lines[..n]);
    }
    assert Breaks("\n") == 1 by { assert "\n"[..0] == ""; }
  }

  /** The std::getline loop. */
  method SplitLines(text: string) returns (lines: seq<string>)
    ensures lines == Lines(text)
  {
    lines := [];
    var line := "";
    for i := 0 to |text|
      invariant (lines, line) == Cut(text[..i])
    {
      assert text[..i + 1][..i] == text[..i];
      if text[i] == '\n' {
        lines := lines + [line];
        line := "";
      } else {
        line := line + [text[i]];
      }
    }
    assert text[..|text|] == text;
    if line != "" {
      lines := lines + [line];
    }
  }

  /** The loop that writes the lines back, each followed by a newline. */
  method JoinLines(lines: seq<string>) returns (text: string)
    ensures text == Join(lines)
  {
    text := "";
    for i := 0 to |lines|
      invariant text == Join(lines[..i])
    {
      assert lines[..i + 1][..i] == lines[..i];
      text := text + lines[i] + "\n";
    }
    assert lines[..|lines|] == lines;
  }
}
