/** Text files as the converter reads and writes them: File.ReadAllLines, and the
    lines joined back with StringBuilder.AppendLine. The newline is '\n'. */
module TextFiles {
  import opened Strings

  const NewLine: char := '\n'

  /** File.ReadAllLines: the lines between newlines; a final newline ends the last
      line rather than starting an empty one, and an empty file has no lines. */
  function ReadAllLines(text: string): (lines: seq<string>)
    ensures forall k :: 0 <= k < |lines| ==> NewLine !in lines[k]
  {
    if text == [] then []
    else
      var parts := SplitOn(text, NewLine);
      if parts[|parts| - 1] == "" then parts[..|parts| - 1] else parts
  }

  /** Every line followed by a newline, as the AppendLine fold builds it. */
  function JoinLines(lines: seq<string>): (text: string)
    ensures |text| >= |lines|
  {
    if lines == [] then "" else lines[0] + [NewLine] + JoinLines(lines[1..])
  }

  /** The joined text is the lines, with an empty last piece, joined by newlines. */
  lemma {:induction false} JoinLinesOn(lines: seq<string>)
    requires lines != []
    ensures JoinLines(lines) == JoinOn(lines + [""], NewLine)
  {
    var ls := lines + [""];
    assert ls[0] == lines[0] && ls[1..] == lines[1..] + [""];
    if |lines| > 1 {
      JoinLinesOn(lines[1..]);
    } else {
      assert ls[1..] == [""];
    }
  }

  /** Reading back what was written gives the same lines, as long as no line holds a
      newline of its own. */
  lemma ReadJoinedLines(lines: seq<string>)
    requires forall k :: 0 <= k < |lines| ==> NewLine !in lines[k]
    ensures ReadAllLines(JoinLines(lines)) == lines
  {
    if lines != [] {
      var ls := lines + [""];
      JoinLinesOn(lines);
      SplitJoin(ls, NewLine);
      assert JoinLines(lines) != [];
      assert ls[..|ls| - 1] == lines;
    }
  }

  /** Writing what was read gives the text back, up to a newline at its end. */
  lemma JoinReadLines(text: string)
    requires text != [] && text[|text| - 1] == NewLine
    ensures JoinLines(ReadAllLines(text)) == text
  {
    var parts := SplitOn(text, NewLine);
    JoinSplit(text, NewLine);
    LastPieceEnds(text);
    var lines := parts[..|parts| - 1];
    assert lines != [];
    assert lines + [""] == parts;
    JoinLinesOn(lines);
  }

  /** The last piece of a split is what follows the last separator. */
  lemma {:induction false} LastPieceEnds(text: string)
    requires text != [] && text[|text| - 1] == NewLine
    ensures SplitOn(text, NewLine)[|SplitOn(text, NewLine)| - 1] == ""
  {
    if |text| > 1 {
      var rest := SplitOn(text[1..], NewLine);
      LastPieceEnds(text[1..]);
      if text[0] != NewLine {
        assert |rest| > 1 || rest[0] == "";
        if |rest| == 1 {
          assert false by {
            JoinSplit(text[1..], NewLine);
          }
        }
      }
    }
  }
}
