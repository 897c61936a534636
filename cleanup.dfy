/** CleaningAndFormatting on a file, and the ConversionTo dispatch shared by both
    MarkdownConverter copies. The file system is a map from paths to file texts. */
module MarkdownCleanup {
  import opened Strings
  import opened Paths
  import opened TextFiles
  import opened LineCleaning
  import opened TableFormatting
  import opened ImagePlaceholder

  type FileSystem = map<string, string>

  /** The lines of `text` go through the pass without a ragged table, which would make
      FormatMarkdownTable index out of range. */
  predicate Formattable(text: string) {
    TablesWellFormed(Clean(ReadAllLines(text)))
  }

  /** The lines CleaningAndFormatting writes, before they are joined. */
  function CleanedLines(text: string): (lines: seq<string>)
    ensures |lines| == |Clean(ReadAllLines(text))|
  {
    FormatTables(Clean(ReadAllLines(text)))
  }

  /** The text CleaningAndFormatting writes back: the cleaned lines, joined, with every
      image's alt text replaced. */
  function CleanedText(text: string): string {
    ReplaceImages(JoinLines(CleanedLines(text)))
  }

  /** CleaningAndFormatting: `file` is the file's text, or None when it does not exist;
      the result is the text written back, or None when nothing is written. */
  method CleaningAndFormatting(file: Option<string>) returns (written: Option<string>)
    requires file.Some? ==> Formattable(file.value)
    ensures file.None? ==> written.None?
    ensures file.Some? ==> written == Some(CleanedText(file.value))
  {
    if file.Some? {
      var newLines := CleanLines(ReadAllLines(file.value));
      var formatedTableLines := FormatMarkdownTables(newLines);
      var text := JoinLines(formatedTableLines);
      var result := RewriteImages(text);
      written := Some(result);
    } else {
      written := None;
    }
  }

  /** Table formatting adds no empty line, so the cleaned lines still never hold two
      empty lines in a row. */
  lemma CleanedLinesNoDoubleBlank(text: string)
    ensures NoDoubleBlank(CleanedLines(text))
  {
    var lines := Clean(ReadAllLines(text));
    CleanNoDoubleBlank(ReadAllLines(text));
    forall i | 0 <= i < |lines| - 1
      ensures !(FormatTables(lines)[i] == "" && FormatTables(lines)[i + 1] == "")
    {
      BlankLinesKept(lines, i);
      BlankLinesKept(lines, i + 1);
    }
  }

  /** Cleaning is not idempotent: a banner followed by a space escapes the banner test,
      which looks at the raw line, and trimming then turns it into a banner that the
      next run suppresses. */
  lemma CleaningNotIdempotent()
    ensures var t := "**Aspose.Words** \n";
            CleanedText(t) == "**Aspose.Words**\n" && CleanedText(CleanedText(t)) == "" &&
            CleanedText(CleanedText(t)) != CleanedText(t)
  {
    SpacedBannerText();
    BannerText();
  }

  /** The first run keeps the spaced banner, trimmed. */
  lemma SpacedBannerText()
    ensures CleanedText("**Aspose.Words** \n") == "**Aspose.Words**\n"
  {
    var banner := "**Aspose.Words**";
    assert banner + " " + "\n" == "**Aspose.Words** \n";
    assert banner + "\n" == "**Aspose.Words**\n";
    BannerSpacedCleaned(banner, banner + " ");
  }

  /** The second run suppresses the banner. */
  lemma BannerText()
    ensures CleanedText("**Aspose.Words**\n") == ""
  {
    var banner := "**Aspose.Words**";
    assert banner + "\n" == "**Aspose.Words**\n";
    BannerCleaned(banner);
  }

  /** The spaced banner is kept, trimmed, as the only line. */
  lemma BannerSpacedCleaned(banner: string, spaced: string)
    requires banner == "**Aspose.Words**" && spaced == banner + " "
    ensures CleanedText(spaced + "\n") == banner + "\n"
  {
    BannerPlain(banner);
    SingleLineRead(spaced);
    SpacedBannerKept(banner, spaced);
    SingleLineWritten(banner);
  }

  /** The banner is no table row and holds no '!' and no newline. */
  lemma BannerPlain(banner: string)
    requires banner == "**Aspose.Words**"
    ensures !IsTableRow(banner) && '!' !in banner && NewLine !in banner && NewLine !in banner + " "
  {
    assert banner[0] == '*';
    forall k | 0 <= k < |banner| ensures banner[k] != '!' && banner[k] != NewLine { }
    var spaced := banner + " ";
    forall k | 0 <= k < |spaced| ensures spaced[k] != NewLine {
      if k < |banner| { assert spaced[k] == banner[k]; }
    }
  }

  /** A line without a newline, followed by one, reads back as that single line. */
  lemma SingleLineRead(line: string)
    requires NewLine !in line
    ensures ReadAllLines(line + "\n") == [line]
  {
    assert JoinLines([line]) == line + [NewLine] + JoinLines([]);
    assert line + [NewLine] + JoinLines([]) == line + "\n";
    ReadJoinedLines([line]);
  }

  /** A single line that is not a table row and holds no '!' is written as it is. */
  lemma SingleLineWritten(line: string)
    requires !IsTableRow(line) && '!' !in line && NewLine !in line
    ensures ReplaceImages(JoinLines(FormatTables([line]))) == line + "\n"
  {
    assert FormatTables([line]) == [line] + FormatTables([]);
    assert JoinLines([line]) == line + [NewLine] + JoinLines([]);
    assert NewLine == '\n';
    PlainPrefixKept(line + "\n", "");
  }

  /** The line pass keeps the spaced banner and trims it. */
  lemma SpacedBannerKept(banner: string, spaced: string)
    requires banner == "**Aspose.Words**" && spaced == banner + " "
    ensures Clean([spaced]) == [banner]
  {
    assert !IsBlank(spaced) by { assert !IsWhiteSpace(spaced[0]); }
    assert !IsBanner(spaced) by {
      assert spaced[|spaced| - 2..][1] == ' ';
      assert !EndsWith(spaced, "**");
    }
    assert !IsHeading(spaced);
    assert Normalize(spaced) == banner by { SpacedBannerTrimmed(banner, spaced); }
    assert SkipBlank([spaced]) == [spaced];
    assert Emitted(Start, spaced) == [banner];
    assert CleanFrom(Start, [spaced]) == Emitted(Start, spaced) + CleanFrom(Next(Start, spaced), []);
  }

  /** Trimming the spaced banner gives the banner. */
  lemma SpacedBannerTrimmed(banner: string, spaced: string)
    requires banner == "**Aspose.Words**" && spaced == banner + " "
    ensures TrimEnd(ReplaceTabs(spaced)) == banner
  {
    assert '\t' !in spaced;
    var r := TrimEnd(spaced);
    assert IsWhiteSpace(spaced[16]) && !IsWhiteSpace(spaced[15]);
    assert |r| == 16;
  }

  /** The banner on its own is suppressed, so nothing is left. */
  lemma BannerCleaned(banner: string)
    requires banner == "**Aspose.Words**"
    ensures CleanedText(banner + "\n") == ""
  {
    assert JoinLines([banner]) == banner + "\n";
    ReadJoinedLines([banner]);
    assert IsBanner(banner) by {
      assert banner[2..2 + |AttributionText|] == AttributionText;
      assert MatchesAt(banner, AttributionText, 2);
    }
    assert !IsBlank(banner) by { assert !IsWhiteSpace(banner[0]); }
    assert Clean([banner]) == [] by {
      assert SkipBlank([banner]) == [banner];
      assert CleanFrom(Start, [banner]) == Emitted(Start, banner) + CleanFrom(Next(Start, banner), []);
    }
  }

  // ---------------------------------------------------------------------------
  // ConversionTo

  /** What ConversionTo does: clean an existing Markdown file, convert the source into
      `file` inside the fresh directory `dir` and clean the result, or nothing. */
  datatype Step = CleanInPlace(file: string) | Convert(dir: string, file: string) | Nothing

  /** The order of ConversionTo's checks: an existing Markdown target is cleaned
      again, else an existing Markdown source is cleaned in place, else an existing
      source is converted. */
  function Dispatch(fs: FileSystem, sourceFile: string, conversionPath: string,
                    conversionFile: string, targetExtension: string): (step: Step)
    ensures step.Convert? ==> step.dir == conversionPath && step.file == conversionFile
    ensures step.CleanInPlace? ==> step.file == conversionFile || step.file == sourceFile
    ensures step.Nothing? <==> sourceFile !in fs && !(conversionFile in fs && EqualsIgnoreCase(targetExtension, ".md"))
  {
    if conversionFile in fs && EqualsIgnoreCase(targetExtension, ".md") then CleanInPlace(conversionFile)
    else if sourceFile in fs && EqualsIgnoreCase(GetExtension(sourceFile), ".md") then CleanInPlace(sourceFile)
    else if sourceFile in fs then Convert(conversionPath, conversionFile)
    else Nothing
  }

  /** The directory a path names, as the directory operations resolve it: trailing
      separators are dropped, but not the root. */
  function DirectoryPath(dir: string): (d: string)
    ensures StartsWith(dir, d) && RootLength(dir) <= |d|
    ensures d == [] || d == [Separator] || d[|d| - 1] != Separator
    ensures forall k :: |d| <= k < |dir| ==> dir[k] == Separator
  {
    dir[..TrimSeparators(dir, RootLength(dir), |dir|)]
  }

  /** What every path inside `dir` starts with: the directory and one separator, or
      the root itself. */
  function DirectoryPrefix(dir: string): (prefix: string)
    ensures prefix != [] && prefix[|prefix| - 1] == Separator
  {
    var d := DirectoryPath(dir);
    if d == [Separator] then d else d + [Separator]
  }

  /** `path` lies inside the directory `dir`. */
  predicate InDirectory(path: string, dir: string) {
    StartsWith(path, DirectoryPrefix(dir))
  }

  /** A name joined onto a directory that does not end in a separator lies inside it. */
  lemma JoinedInDirectory(dir: string, name: string)
    requires dir == [] || dir[|dir| - 1] != Separator
    ensures InDirectory(dir + [Separator] + name, dir)
  {
    assert DirectoryPath(dir) == dir;
    assert (dir + [Separator] + name)[..|dir| + 1] == dir + [Separator];
  }

  /** The directory cannot be made: its path is empty (an ArgumentException), or a file
      occupies the directory's own path or the path of one of its ancestors
      (Directory.Delete on a file, or Directory.CreateDirectory, throws). */
  predicate Blocked(fs: FileSystem, dir: string) {
    dir == [] || exists p :: p in fs && (p == DirectoryPath(dir) || InDirectory(dir, p))
  }

  /** Directory.Delete(dir, true): every file inside `dir` is removed. */
  function DeleteDirectory(fs: FileSystem, dir: string): (r: FileSystem)
    ensures forall p :: p in r <==> p in fs && !InDirectory(p, dir)
    ensures forall p :: p in r ==> r[p] == fs[p]
  {
    map p | p in fs && !InDirectory(p, dir) :: fs[p]
  }

  /** The files after the directory is recreated and the converter has saved what it
      saves (`converted`: the Markdown file and whatever else it writes, nothing when
      it fails). */
  function Saved(fs: FileSystem, dir: string, converted: FileSystem): FileSystem {
    DeleteDirectory(fs, dir) + converted
  }

  /** The file at `file`, if any. */
  function Lookup(fs: FileSystem, file: string): (r: Option<string>)
    ensures r.Some? <==> file in fs
  {
    if file in fs then Some(fs[file]) else None
  }

  /** CleaningAndFormatting(file) can run without a ragged table. */
  predicate CanClean(fs: FileSystem, file: string) {
    file in fs ==> Formattable(fs[file])
  }

  /** The file system after CleaningAndFormatting(file): the file, if it exists, is
      replaced by its cleaned text. */
  function CleanFile(fs: FileSystem, file: string): FileSystem
    requires CanClean(fs, file)
  {
    if file in fs then fs[file := CleanedText(fs[file])] else fs
  }

  /** CleaningAndFormatting changes its own file only, and a missing file not at all. */
  lemma CleanFileTouchesOnlyItsFile(fs: FileSystem, file: string)
    requires CanClean(fs, file)
    ensures CleanFile(fs, file).Keys == fs.Keys
    ensures forall p :: p in fs && p != file ==> CleanFile(fs, file)[p] == fs[p]
  {
  }

  /** How ConversionTo ends: with the files it leaves, or with an exception thrown
      before any file has changed. */
  datatype Outcome = Completed(files: FileSystem) | Threw

  /** The conversion step cannot make its directory. */
  predicate Fails(fs: FileSystem, step: Step) {
    step.Convert? && Blocked(fs, step.dir)
  }

  /** The files just before CleaningAndFormatting runs: for a conversion, the
      directory has been emptied and the converter's output saved, where `converted`
      is that output (an opaque library call whose failure is caught). */
  function Prepared(fs: FileSystem, step: Step, converted: FileSystem): FileSystem {
    if step.Convert? then Saved(fs, step.dir, converted) else fs
  }

  /** The file a step cleans can be cleaned. */
  predicate Ready(fs: FileSystem, step: Step, converted: FileSystem) {
    step.Nothing? || Fails(fs, step) || CanClean(Prepared(fs, step, converted), step.file)
  }

  /** How a step ends. */
  function Effect(fs: FileSystem, step: Step, converted: FileSystem): Outcome
    requires Ready(fs, step, converted)
  {
    if step.Nothing? then Completed(fs)
    else if Fails(fs, step) then Threw
    else Completed(CleanFile(Prepared(fs, step, converted), step.file))
  }

  /** The directory and converter part of a step. */
  method Prepare(fs: FileSystem, step: Step, converted: FileSystem) returns (fs': FileSystem)
    ensures fs' == Prepared(fs, step, converted)
  {
    fs' := fs;
    if step.Convert? {
      fs' := DeleteDirectory(fs', step.dir);
      fs' := fs' + converted;
    }
  }

  /** The file operations of a step, in the order ConversionTo performs them. */
  method Perform(fs: FileSystem, step: Step, converted: FileSystem) returns (out: Outcome)
    requires Ready(fs, step, converted)
    ensures out == Effect(fs, step, converted)
  {
    if Fails(fs, step) {
      return Threw;
    }
    var fs' := Prepare(fs, step, converted);
    if !step.Nothing? {
      fs' := CleanFileAt(fs', step.file);
    }
    out := Completed(fs');
  }

  /** CleaningAndFormatting(file) with the file read from, and written back to, `fs`. */
  method CleanFileAt(fs: FileSystem, file: string) returns (fs': FileSystem)
    requires CanClean(fs, file)
    ensures fs' == CleanFile(fs, file)
  {
    fs' := fs;
    var written := CleaningAndFormatting(Lookup(fs, file));
    if written.Some? {
      fs' := fs[file := written.value];
    }
  }

  /** An existing Markdown target is cleaned again and never reconverted: before the
      cleaning nothing has changed, whatever the converter would produce. */
  lemma MarkdownTargetRecleaned(fs: FileSystem, sourceFile: string, conversionPath: string,
                                conversionFile: string, targetExtension: string,
                                converted: FileSystem)
    requires conversionFile in fs && EqualsIgnoreCase(targetExtension, ".md")
    ensures var step := Dispatch(fs, sourceFile, conversionPath, conversionFile, targetExtension);
            step == CleanInPlace(conversionFile) && !Fails(fs, step) && Prepared(fs, step, converted) == fs
  {
  }

  /** With no Markdown target, an existing Markdown source is cleaned in place. */
  lemma MarkdownSourceCleaned(fs: FileSystem, sourceFile: string, conversionPath: string,
                              conversionFile: string, targetExtension: string,
                              converted: FileSystem)
    requires !(conversionFile in fs && EqualsIgnoreCase(targetExtension, ".md"))
    requires sourceFile in fs && EqualsIgnoreCase(GetExtension(sourceFile), ".md")
    ensures var step := Dispatch(fs, sourceFile, conversionPath, conversionFile, targetExtension);
            step == CleanInPlace(sourceFile) && !Fails(fs, step) && Prepared(fs, step, converted) == fs
  {
  }

  /** Otherwise an existing source is converted into a fresh directory: every file that
      was in it and that the converter does not write again is gone, what the
      converter writes is there, and every other file it does not write is left alone;
      then the target is cleaned. */
  lemma SourceConverted(fs: FileSystem, sourceFile: string, conversionPath: string,
                        conversionFile: string, targetExtension: string,
                        converted: FileSystem)
    requires !(conversionFile in fs && EqualsIgnoreCase(targetExtension, ".md"))
    requires sourceFile in fs && !EqualsIgnoreCase(GetExtension(sourceFile), ".md")
    requires !Blocked(fs, conversionPath)
    ensures var step := Dispatch(fs, sourceFile, conversionPath, conversionFile, targetExtension);
            var r := Prepared(fs, step, converted);
            step == Convert(conversionPath, conversionFile) && !Fails(fs, step) &&
            (forall p :: p in converted ==> p in r && r[p] == converted[p]) &&
            (forall p :: p in fs && InDirectory(p, conversionPath) && p !in converted ==> p !in r) &&
            (forall p :: p !in converted && !InDirectory(p, conversionPath) ==> (p in r <==> p in fs)) &&
            (forall p :: p in fs && p !in converted && !InDirectory(p, conversionPath) ==> r[p] == fs[p])
  {
  }

  /** When the converter saves only into the fresh directory, as it saves the Markdown
      file and its images beside the target, every file outside that directory keeps
      its presence and its text. */
  lemma SavedInsideLeavesRestAlone(fs: FileSystem, sourceFile: string, conversionPath: string,
                                   conversionFile: string, targetExtension: string,
                                   converted: FileSystem)
    requires !(conversionFile in fs && EqualsIgnoreCase(targetExtension, ".md"))
    requires sourceFile in fs && !EqualsIgnoreCase(GetExtension(sourceFile), ".md")
    requires !Blocked(fs, conversionPath)
    requires forall p :: p in converted ==> InDirectory(p, conversionPath)
    ensures var step := Dispatch(fs, sourceFile, conversionPath, conversionFile, targetExtension);
            var r := Prepared(fs, step, converted);
            forall p :: !InDirectory(p, conversionPath) ==> (p in r <==> p in fs) && (p in fs ==> r[p] == fs[p])
  {
    SourceConverted(fs, sourceFile, conversionPath, conversionFile, targetExtension, converted);
  }

  /** A file where the conversion directory, or one of its ancestors, should be makes
      ConversionTo throw, and nothing changes. */
  lemma BlockedConversionThrows(fs: FileSystem, sourceFile: string, conversionPath: string,
                                conversionFile: string, targetExtension: string,
                                converted: FileSystem)
    requires !(conversionFile in fs && EqualsIgnoreCase(targetExtension, ".md"))
    requires sourceFile in fs && !EqualsIgnoreCase(GetExtension(sourceFile), ".md")
    requires Blocked(fs, conversionPath)
    ensures var step := Dispatch(fs, sourceFile, conversionPath, conversionFile, targetExtension);
            step == Convert(conversionPath, conversionFile) && Ready(fs, step, converted) &&
            Effect(fs, step, converted) == Threw
  {
  }

  /** A missing source, with no Markdown target to clean, changes nothing. */
  lemma MissingSourceNoop(fs: FileSystem, sourceFile: string, conversionPath: string,
                          conversionFile: string, targetExtension: string,
                          converted: FileSystem)
    requires !(conversionFile in fs && EqualsIgnoreCase(targetExtension, ".md"))
    requires sourceFile !in fs
    ensures var step := Dispatch(fs, sourceFile, conversionPath, conversionFile, targetExtension);
            step == Nothing && Effect(fs, step, converted) == Completed(fs)
  {
  }
}
