/** The line pass of CleaningAndFormatting: it drops leading blank lines, suppresses
    the converter's attribution banner, isolates headings with blank lines, collapses
    runs of blank lines, replaces tabs and trims trailing white space. */
module LineCleaning {
  import opened Strings

  /** The attribution text the converter writes into its banner. */
  const AttributionText := "Aspose.Words"

  /** A bold line naming the converter library. */
  predicate IsBanner(line: string) {
    StartsWith(line, "**") && EndsWith(line, "**") && ContainsIgnoreCase(line, AttributionText)
  }

  /** StartsWith('#') */
  predicate IsHeading(line: string) {
    |line| > 0 && line[0] == '#'
  }

  /** A line as it is emitted: tabs become two spaces, trailing white space is trimmed. */
  predicate Tidy(line: string) {
    '\t' !in line && (line == [] || !IsWhiteSpace(line[|line| - 1]))
  }

  /** line.Replace("\t", "  ").TrimEnd() */
  function Normalize(line: string): (r: string)
    ensures Tidy(r)
    ensures r == [] <==> IsBlank(line)
    ensures IsHeading(line) ==> IsHeading(r)
  {
    var t := ReplaceTabs(line);
    var r := TrimEnd(t);
    assert forall i :: 0 <= i < |r| ==> r[i] == t[i];
    assert IsBlank(t) ==> r == [];
    assert r == [] ==> IsBlank(t);
    assert IsHeading(line) ==> t[0] == '#' && r != [] && r[0] == '#';
    r
  }

  /** The two values the loop carries: the banner flag and the previous kept line
      (None before the first kept line). */
  datatype Cleaner = Cleaner(ignore: bool, prev: Option<string>)

  const Start := Cleaner(false, None)

  /** The new banner flag after `line` has been read. */
  predicate Suppressed(ignore: bool, line: string) {
    IsBanner(line) || (ignore && IsBlank(line))
  }

  /** A heading is neither blank nor a banner. */
  lemma HeadingIsNotBlank(line: string)
    ensures IsHeading(line) ==> !IsBlank(line) && !IsBanner(line)
  {
    if IsHeading(line) {
      assert !IsWhiteSpace(line[0]);
      assert |line| >= 2 ==> line[..2] != "**";
    }
  }

  /** What a kept `line` appends, given the previous kept line `prev`: the line itself,
      normalized, possibly preceded by an empty line, or nothing for a blank line
      after a blank line. An empty line is only ever emitted after a non-blank one. */
  function Emit(prev: string, line: string): (r: seq<string>)
    ensures |r| <= 2
    ensures r == [] <==> IsBlank(line) && IsBlank(prev)
    ensures r != [] ==> r[|r| - 1] == Normalize(line)
    ensures |r| == 2 ==> r[0] == "" && !IsBlank(line)
    ensures r != [] && r[0] == "" ==> !IsBlank(prev)
  {
    HeadingIsNotBlank(prev);
    HeadingIsNotBlank(line);
    if IsHeading(line) then
      (if !IsBlank(prev) then [""] else []) + [Normalize(line)]
    else if !IsBlank(line) || !IsBlank(prev) then
      (if IsHeading(prev) && !IsBlank(line) then [""] else []) + [Normalize(line)]
    else []
  }

  /** The state after `line`: a suppressed line leaves the previous line alone. */
  function Next(st: Cleaner, line: string): Cleaner {
    if Suppressed(st.ignore, line) then Cleaner(true, st.prev) else Cleaner(false, Some(line))
  }

  /** The lines appended for `line`; the previous line is seeded with `line` itself
      when nothing has been kept yet. */
  function Emitted(st: Cleaner, line: string): seq<string> {
    if Suppressed(st.ignore, line) then []
    else Emit(if st.prev.Some? then st.prev.value else line, line)
  }

  /** The lines the loop appends when it starts in state `st` on `lines`. */
  function CleanFrom(st: Cleaner, lines: seq<string>): (r: seq<string>)
    decreases |lines|
  {
    if lines == [] then []
    else Emitted(st, lines[0]) + CleanFrom(Next(st, lines[0]), lines[1..])
  }

  lemma CleanFromStep(st: Cleaner, lines: seq<string>)
    requires lines != []
    ensures CleanFrom(st, lines) == Emitted(st, lines[0]) + CleanFrom(Next(st, lines[0]), lines[1..])
  {
  }

  /** SkipWhile(string.IsNullOrWhiteSpace) */
  function SkipBlank(lines: seq<string>): (r: seq<string>)
    ensures |r| <= |lines| && r == lines[|lines| - |r|..]
    ensures r == [] || !IsBlank(r[0])
    ensures forall i :: 0 <= i < |lines| - |r| ==> IsBlank(lines[i])
  {
    if lines != [] && IsBlank(lines[0]) then SkipBlank(lines[1..]) else lines
  }

  /** The output of the line pass on the lines of a file. */
  function Clean(lines: seq<string>): seq<string> {
    CleanFrom(Start, SkipBlank(lines))
  }

  /** The body of the line loop: reads one line, updates the banner flag and the
      previous line, and appends what the line contributes to `newLines`. */
  method CleanLine(ignoreLine: bool, prevLine: Option<string>, line: string, newLines: seq<string>)
    returns (ignoreLine': bool, prevLine': Option<string>, newLines': seq<string>)
    ensures Cleaner(ignoreLine', prevLine') == Next(Cleaner(ignoreLine, prevLine), line)
    ensures newLines' == newLines + Emitted(Cleaner(ignoreLine, prevLine), line)
  {
    if IsBanner(line) {
      ignoreLine' := true;
    } else if ignoreLine && IsBlank(line) {
      ignoreLine' := true;
    } else {
      ignoreLine' := false;
    }
    assert ignoreLine' == Suppressed(ignoreLine, line);
    prevLine', newLines' := prevLine, newLines;
    if !ignoreLine' {
      if prevLine'.None? {
        prevLine' := Some(line);
      }
      var prev := prevLine'.value;
      ghost var emitted: seq<string> := [];
      if IsHeading(line) {
        if !IsBlank(prev) {
          newLines' := newLines' + [""];
          emitted := [""];
        }
        Associative(newLines, emitted, [Normalize(line)]);
        newLines' := newLines' + [Normalize(line)];
        emitted := emitted + [Normalize(line)];
      } else if !IsBlank(line) || !IsBlank(prev) {
        if IsHeading(prev) && !IsBlank(line) {
          newLines' := newLines' + [""];
          emitted := [""];
        }
        Associative(newLines, emitted, [Normalize(line)]);
        newLines' := newLines' + [Normalize(line)];
        emitted := emitted + [Normalize(line)];
      }
      assert emitted == Emit(prev, line);
      prevLine' := Some(line);
    }
  }

  /** The line loop of CleaningAndFormatting: leading blank lines are skipped, then
      every line goes through the loop body with the flag and previous-line variables. */
  method CleanLines(lines: seq<string>) returns (newLines: seq<string>)
    ensures newLines == Clean(lines)
  {
    var start := 0;
    while start < |lines| && IsBlank(lines[start])
      invariant 0 <= start <= |lines|
      invariant SkipBlank(lines[start..]) == SkipBlank(lines)
    {
      assert lines[start..][1..] == lines[start + 1..];
      start := start + 1;
    }
    var oldLines := lines[start..];
    assert oldLines == SkipBlank(lines);
    newLines := CleanKept(oldLines);
  }

  /** The main loop of CleaningAndFormatting over the lines left after the leading
      blank ones: the banner flag starts off and no line has been kept yet. */
  method CleanKept(oldLines: seq<string>) returns (newLines: seq<string>)
    ensures newLines == CleanFrom(Start, oldLines)
  {
    var ignoreLine := false;
    var prevLine: Option<string> := None;
    newLines := [];
    for i := 0 to |oldLines|
      invariant newLines + CleanFrom(Cleaner(ignoreLine, prevLine), oldLines[i..]) == CleanFrom(Start, oldLines)
    {
      ghost var before, appended := Cleaner(ignoreLine, prevLine), newLines;
      CleanFromStep(before, oldLines[i..]);
      assert oldLines[i..][0] == oldLines[i] && oldLines[i..][1..] == oldLines[i + 1..];
      ignoreLine, prevLine, newLines := CleanLine(ignoreLine, prevLine, oldLines[i], newLines);
      Associative(appended, Emitted(before, oldLines[i]), CleanFrom(Cleaner(ignoreLine, prevLine), oldLines[i + 1..]));
    }
    assert oldLines[|oldLines|..] == [];
  }

  // ---------------------------------------------------------------------------
  // Properties of the line pass

  /** Blank lines in front of the first non-blank line make no difference. */
  lemma {:induction false} LeadingBlanksDropped(blanks: seq<string>, lines: seq<string>)
    requires forall i :: 0 <= i < |blanks| ==> IsBlank(blanks[i])
    ensures Clean(blanks + lines) == Clean(lines)
  {
    if blanks != [] {
      assert (blanks + lines)[0] == blanks[0];
      assert (blanks + lines)[1..] == blanks[1..] + lines;
      LeadingBlanksDropped(blanks[1..], lines);
    } else {
      assert blanks + lines == lines;
    }
  }

  /** While the banner flag is set, blank lines are dropped without touching the state. */
  lemma {:induction false} BlanksAfterBannerDropped(prev: Option<string>, blanks: seq<string>, rest: seq<string>)
    requires forall i :: 0 <= i < |blanks| ==> IsBlank(blanks[i])
    ensures CleanFrom(Cleaner(true, prev), blanks + rest) == CleanFrom(Cleaner(true, prev), rest)
  {
    if blanks != [] {
      assert (blanks + rest)[0] == blanks[0];
      assert (blanks + rest)[1..] == blanks[1..] + rest;
      BlanksAfterBannerDropped(prev, blanks[1..], rest);
    } else {
      assert blanks + rest == rest;
    }
  }

  /** The banner and the blank lines right after it vanish; the previous line is
      not updated by them and the next non-blank line is processed as usual. */
  lemma {:induction false} BannerSuppressed(st: Cleaner, banner: string, blanks: seq<string>, rest: seq<string>)
    requires IsBanner(banner)
    requires forall i :: 0 <= i < |blanks| ==> IsBlank(blanks[i])
    requires rest == [] || !IsBlank(rest[0])
    ensures CleanFrom(st, [banner] + blanks + rest) == CleanFrom(Cleaner(false, st.prev), rest)
  {
    var all := [banner] + blanks + rest;
    assert all[0] == banner && all[1..] == blanks + rest;
    BlanksAfterBannerDropped(st.prev, blanks, rest);
    if rest != [] {
      assert Suppressed(true, rest[0]) == Suppressed(false, rest[0]);
    }
  }

  /** A heading kept after a non-blank line, or as the first kept line (the previous
      line is seeded with the heading itself), gets an empty line in front of it. */
  lemma HeadingSeparatedAbove(st: Cleaner, heading: string, rest: seq<string>)
    requires IsHeading(heading)
    requires st.prev.None? || !IsBlank(st.prev.value)
    ensures CleanFrom(st, [heading] + rest)
         == ["", Normalize(heading)] + CleanFrom(Cleaner(false, Some(heading)), rest)
  {
    HeadingIsNotBlank(heading);
    assert !Suppressed(st.ignore, heading);
    assert Emitted(st, heading) == ["", Normalize(heading)];
    assert ([heading] + rest)[0] == heading && ([heading] + rest)[1..] == rest;
  }

  /** A non-blank, non-heading line after a heading gets an empty line in front of it. */
  lemma LineAfterHeadingSeparated(ignore: bool, heading: string, line: string, rest: seq<string>)
    requires IsHeading(heading)
    requires !IsBlank(line) && !IsHeading(line) && !IsBanner(line)
    ensures CleanFrom(Cleaner(ignore, Some(heading)), [line] + rest)
         == ["", Normalize(line)] + CleanFrom(Cleaner(false, Some(line)), rest)
  {
    assert ([line] + rest)[1..] == rest;
  }

  /** A kept blank line is emitted (as an empty line) only after a non-blank line. */
  lemma BlankLineCollapsed(prev: string, blank: string, rest: seq<string>)
    requires IsBlank(blank)
    ensures CleanFrom(Cleaner(false, Some(prev)), [blank] + rest)
         == (if IsBlank(prev) then [] else [""]) + CleanFrom(Cleaner(false, Some(blank)), rest)
  {
    var lines := [blank] + rest;
    assert lines[0] == blank && lines[1..] == rest;
    CleanFromStep(Cleaner(false, Some(prev)), lines);
    BlankEmitted(prev, blank);
  }

  /** A blank line after a kept line is kept, as one empty line or none. */
  lemma BlankEmitted(prev: string, blank: string)
    requires IsBlank(blank)
    ensures Next(Cleaner(false, Some(prev)), blank) == Cleaner(false, Some(blank))
    ensures Emitted(Cleaner(false, Some(prev)), blank) == if IsBlank(prev) then [] else [""]
  {
    BlankIsNotBanner(blank);
    HeadingIsNotBlank(blank);
    assert Normalize(blank) == [];
  }

  /** A banner starts with "**", so it is not blank. */
  lemma BlankIsNotBanner(line: string)
    requires IsBlank(line)
    ensures !IsBanner(line)
  {
    assert !IsWhiteSpace('*');
    if |line| >= 2 {
      assert line[..2][0] == line[0];
    }
  }

  /** No two adjacent empty lines. */
  predicate NoDoubleBlank(out: seq<string>) {
    forall i :: 0 <= i < |out| - 1 ==> !(out[i] == "" && out[i + 1] == "")
  }

  /** What the state says about the output so far: the last line emitted is empty
      exactly when the previous kept line is blank. */
  predicate InStep(st: Cleaner, out: seq<string>) {
    (st.prev.None? ==> out == []) &&
    (out != [] ==> (out[|out| - 1] == "" <==> IsBlank(st.prev.value)))
  }

  /** Appending what one line emits keeps the output free of double empty lines and
      keeps the last emitted line empty exactly when the line just read is blank. */
  lemma AppendKeepsNoDoubleBlank(out: seq<string>, e: seq<string>, prevBlank: bool, lineBlank: bool)
    requires NoDoubleBlank(out)
    requires out != [] ==> (out[|out| - 1] == "" <==> prevBlank)
    requires |e| <= 2
    requires e == [] <==> lineBlank && prevBlank
    requires e != [] ==> (e[|e| - 1] == "" <==> lineBlank)
    requires |e| == 2 ==> e[0] == "" && !lineBlank
    requires e != [] && e[0] == "" ==> !prevBlank
    ensures NoDoubleBlank(out + e)
    ensures out + e != [] ==> ((out + e)[|out + e| - 1] == "" <==> lineBlank)
  {
    var o := out + e;
    forall i | 0 <= i < |o| - 1 ensures !(o[i] == "" && o[i + 1] == "") {
      if i + 1 < |out| {
        assert o[i] == out[i] && o[i + 1] == out[i + 1];
      } else if i + 1 == |out| {
        assert o[i] == out[i] && o[i + 1] == e[0];
      } else {
        assert o[i] == e[0] && o[i + 1] == e[1];
      }
    }
    if e == [] {
      assert o == out;
    } else {
      assert o[|o| - 1] == e[|e| - 1];
    }
  }

  lemma {:induction false} NoDoubleBlankFrom(st: Cleaner, out: seq<string>, lines: seq<string>)
    requires InStep(st, out) && NoDoubleBlank(out)
    ensures NoDoubleBlank(out + CleanFrom(st, lines))
    decreases |lines|
  {
    if lines == [] {
      assert out + CleanFrom(st, lines) == out;
    } else {
      var line := lines[0];
      var next, emitted := Next(st, line), Emitted(st, line);
      var out' := out + emitted;
      if !Suppressed(st.ignore, line) {
        var prev := if st.prev.Some? then st.prev.value else line;
        assert emitted == Emit(prev, line);
        AppendKeepsNoDoubleBlank(out, emitted, IsBlank(prev), IsBlank(line));
        assert next.prev == Some(line);
      } else {
        assert out' == out;
      }
      NoDoubleBlankFrom(next, out', lines[1..]);
      Associative(out, emitted, CleanFrom(next, lines[1..]));
    }
  }

  /** Every emitted line is tidy: no tab and no trailing white space. */
  lemma {:induction false} CleanFromTidy(st: Cleaner, lines: seq<string>)
    ensures forall k :: 0 <= k < |CleanFrom(st, lines)| ==> Tidy(CleanFrom(st, lines)[k])
    decreases |lines|
  {
    if lines != [] {
      var next, emitted := Next(st, lines[0]), Emitted(st, lines[0]);
      CleanFromStep(st, lines);
      CleanFromTidy(next, lines[1..]);
      EmittedTidy(st, lines[0]);
      TidyAppend(emitted, CleanFrom(next, lines[1..]));
    }
  }

  /** What one line emits is tidy. */
  lemma EmittedTidy(st: Cleaner, line: string)
    ensures forall k :: 0 <= k < |Emitted(st, line)| ==> Tidy(Emitted(st, line)[k])
  {
    var e := Emitted(st, line);
    forall k | 0 <= k < |e| ensures Tidy(e[k]) {
      assert e[k] == "" || e[k] == Normalize(line);
    }
  }

  lemma TidyAppend(a: seq<string>, b: seq<string>)
    requires forall k :: 0 <= k < |a| ==> Tidy(a[k])
    requires forall k :: 0 <= k < |b| ==> Tidy(b[k])
    ensures forall k :: 0 <= k < |a + b| ==> Tidy((a + b)[k])
  {
    forall k | 0 <= k < |a + b| ensures Tidy((a + b)[k]) {
      if k >= |a| {
        assert (a + b)[k] == b[k - |a|];
      } else {
        assert (a + b)[k] == a[k];
      }
    }
  }

  /** Every line the pass emits has its tabs replaced and no trailing white space. */
  lemma CleanTidy(lines: seq<string>)
    ensures forall k :: 0 <= k < |Clean(lines)| ==> Tidy(Clean(lines)[k])
  {
    CleanFromTidy(Start, SkipBlank(lines));
  }

  /** The line pass never emits two empty lines in a row. */
  lemma CleanNoDoubleBlank(lines: seq<string>)
    ensures NoDoubleBlank(Clean(lines))
  {
    NoDoubleBlankFrom(Start, [], SkipBlank(lines));
    assert [] + Clean(lines) == Clean(lines);
  }

  /** The non-empty lines of an output. */
  function NonEmpty(out: seq<string>): seq<string> {
    if out == [] then [] else (if out[0] == "" then [] else [out[0]]) + NonEmpty(out[1..])
  }

  lemma {:induction false} NonEmptyAppend(a: seq<string>, b: seq<string>)
    ensures NonEmpty(a + b) == NonEmpty(a) + NonEmpty(b)
  {
    if a == [] {
      assert a + b == b;
    } else {
      assert (a + b)[0] == a[0] && (a + b)[1..] == a[1..] + b;
      NonEmptyAppend(a[1..], b);
    }
  }

  /** Reference definition of the content the pass keeps: every non-blank line that
      is not a banner, normalized, in input order. */
  function Content(lines: seq<string>): seq<string> {
    if lines == [] then []
    else (if !IsBlank(lines[0]) && !IsBanner(lines[0]) then [Normalize(lines[0])] else [])
         + Content(lines[1..])
  }

  lemma {:induction false} CleanFromContent(st: Cleaner, lines: seq<string>)
    ensures NonEmpty(CleanFrom(st, lines)) == Content(lines)
    decreases |lines|
  {
    if lines != [] {
      var line := lines[0];
      var next, emitted := Next(st, line), Emitted(st, line);
      CleanFromContent(next, lines[1..]);
      NonEmptyAppend(emitted, CleanFrom(next, lines[1..]));
      if !Suppressed(st.ignore, line) {
        var prev := if st.prev.Some? then st.prev.value else line;
        var pre := if |emitted| == 2 then [""] else [];
        assert emitted == [] || emitted == pre + [Normalize(line)];
        if emitted != [] {
          NonEmptyAppend(pre, [Normalize(line)]);
        }
      }
    }
  }

  lemma {:induction false} ContentSkipsBlank(lines: seq<string>)
    ensures Content(SkipBlank(lines)) == Content(lines)
  {
    if lines != [] && IsBlank(lines[0]) {
      ContentSkipsBlank(lines[1..]);
    }
  }

  /** Only empty lines are added and only banners and blank lines are removed:
      the non-empty output lines are the normalized non-blank, non-banner input
      lines, in their original order. */
  lemma CleanKeepsContent(lines: seq<string>)
    ensures NonEmpty(Clean(lines)) == Content(lines)
  {
    CleanFromContent(Start, SkipBlank(lines));
    ContentSkipsBlank(lines);
  }
}
