/** ConversionTo of DocConversion.Logic's MarkdownConverter: the caller names the
    target file; it goes into a directory named after the source. */
module ConverterLogic {
  import opened Strings
  import opened Paths
  import opened MarkdownCleanup

  /** <targetPath>/<source file name without extension> */
  function ConversionPath(sourceFile: string, targetPath: string): string {
    Combine(targetPath, GetFileNameWithoutExtension(sourceFile))
  }

  /** <conversion path>/<targetFileName> */
  function ConversionFile(sourceFile: string, targetPath: string, targetFileName: string): string {
    Combine(ConversionPath(sourceFile, targetPath), targetFileName)
  }

  /** The step ConversionTo takes; the Markdown check is on the target file's extension. */
  function ConversionStep(fs: FileSystem, sourceFile: string, targetPath: string,
                          targetFileName: string): Step
  {
    Dispatch(fs, sourceFile, ConversionPath(sourceFile, targetPath),
             ConversionFile(sourceFile, targetPath, targetFileName), GetExtension(targetFileName))
  }

  /** ConversionTo(sourceFile, targetPath, targetFileName); `converted` is what the
      converter library saves (nothing when it fails). */
  method ConversionTo(fs: FileSystem, sourceFile: string, targetPath: string,
                      targetFileName: string, converted: FileSystem) returns (out: Outcome)
    requires Ready(fs, ConversionStep(fs, sourceFile, targetPath, targetFileName), converted)
    ensures out == Effect(fs, ConversionStep(fs, sourceFile, targetPath, targetFileName), converted)
  {
    var step := ConversionStep(fs, sourceFile, targetPath, targetFileName);
    out := Perform(fs, step, converted);
  }

  /** The converted file is <targetPath>/<source stem>/<targetFileName>, inside the
      directory ConversionTo empties first. */
  lemma ConversionFileShape(sourceFile: string, targetPath: string, targetFileName: string)
    requires targetPath != [] && targetPath[|targetPath| - 1] != Separator
    requires GetFileNameWithoutExtension(sourceFile) != []
    requires targetFileName != [] && targetFileName[0] != Separator
    ensures var stem := GetFileNameWithoutExtension(sourceFile);
            ConversionPath(sourceFile, targetPath) == targetPath + [Separator] + stem &&
            ConversionFile(sourceFile, targetPath, targetFileName)
              == targetPath + [Separator] + stem + [Separator] + targetFileName
    ensures InDirectory(ConversionFile(sourceFile, targetPath, targetFileName),
                        ConversionPath(sourceFile, targetPath))
  {
    var stem := GetFileNameWithoutExtension(sourceFile);
    var dir := targetPath + [Separator] + stem;
    assert stem[0] != Separator && stem[|stem| - 1] != Separator;
    CombineJoins(targetPath, stem);
    CombineJoins(dir, targetFileName);
    JoinedInDirectory(dir, targetFileName);
  }

  /** A source whose stem is empty, with an empty target path: the conversion path is
      "", so Directory.CreateDirectory throws and no file changes. */
  lemma EmptyConversionPathThrows()
    ensures var fs := map["/in/.docx" := "doc", "/keep/y" := "y"];
            var step := ConversionStep(fs, "/in/.docx", "", "x.md");
            step == Convert("", "x.md") && Ready(fs, step, map[]) && Effect(fs, step, map[]) == Threw
  {
    var fs := map["/in/.docx" := "doc", "/keep/y" := "y"];
    assert "x.md" !in fs by { assert "x.md"[0] != "/in/.docx"[0] && "x.md"[0] != "/keep/y"[0]; }
    EmptyStemStep(fs, "", "x.md");
  }

  /** A source whose stem is empty, with the target path "/out/": the conversion path is
      "/out/" itself, and Directory.Delete removes the files under /out. */
  lemma TrailingSeparatorDirectoryEmptied()
    ensures var fs := map["/in/.docx" := "doc", "/out/old.md" := "old"];
            var step := ConversionStep(fs, "/in/.docx", "/out/", "x.md");
            step == Convert("/out/", "/out/x.md") && Ready(fs, step, map[]) &&
            Effect(fs, step, map[]) == Completed(map["/in/.docx" := "doc"])
  {
    var fs := map["/in/.docx" := "doc", "/out/old.md" := "old"];
    var rest := map["/in/.docx" := "doc"];
    var step := Convert("/out/", "/out/x.md");
    assert "/out/x.md" !in rest by { assert "/out/x.md"[1] != "/in/.docx"[1]; }
    TrailingStep();
    OutEmptied();
    OutNotBlocked();
    NothingToClean(fs, step, rest);
  }

  /** A conversion that can make its directory, where the converter saves nothing,
      leaves the emptied files: there is no Markdown file to clean. */
  lemma NothingToClean(fs: FileSystem, step: Step, rest: FileSystem)
    requires step.Convert? && !Blocked(fs, step.dir)
    requires DeleteDirectory(fs, step.dir) == rest && step.file !in rest
    ensures Ready(fs, step, map[]) && Effect(fs, step, map[]) == Completed(rest)
  {
    assert Prepared(fs, step, map[]) == rest;
  }

  /** With "/in/.docx" present and no Markdown target, "/in/.docx" is converted into the
      target path itself. */
  lemma EmptyStemStep(fs: FileSystem, targetPath: string, file: string)
    requires "/in/.docx" in fs
    requires Combine(targetPath, "x.md") == file && file !in fs
    ensures ConversionStep(fs, "/in/.docx", targetPath, "x.md") == Convert(targetPath, file)
  {
    EmptyStem();
    MarkdownName();
    assert ConversionPath("/in/.docx", targetPath) == targetPath;
    assert !EqualsIgnoreCase(".docx", ".md");
  }

  /** The "/out/" case takes the conversion branch. */
  lemma TrailingStep()
    ensures ConversionStep(map["/in/.docx" := "doc", "/out/old.md" := "old"], "/in/.docx", "/out/", "x.md")
            == Convert("/out/", "/out/x.md")
  {
    var fs := map["/in/.docx" := "doc", "/out/old.md" := "old"];
    assert "/out/x.md" !in fs by { assert "/out/x.md"[1] != "/in/.docx"[1] && "/out/x.md"[5] != "/out/old.md"[5]; }
    EmptyStemStep(fs, "/out/", "/out/x.md");
  }

  /** No file stands where /out should be. */
  lemma OutNotBlocked()
    ensures !Blocked(map["/in/.docx" := "doc", "/out/old.md" := "old"], "/out/")
  {
    var fs := map["/in/.docx" := "doc", "/out/old.md" := "old"];
    assert TrimSeparators("/out/", 1, 4) == 4;
    assert DirectoryPath("/out/") == "/out";
    forall p | p in fs
      ensures p != "/out" && !InDirectory("/out/", p)
    {
      assert DirectoryPath(p) == p;
    }
  }

  /** Directory.Delete("/out/", true) removes /out/old.md and keeps /in/.docx. */
  lemma OutEmptied()
    ensures DeleteDirectory(map["/in/.docx" := "doc", "/out/old.md" := "old"], "/out/") == map["/in/.docx" := "doc"]
  {
    assert TrimSeparators("/out/", 1, 4) == 4;
    assert DirectoryPath("/out/") == "/out";
    assert DirectoryPrefix("/out/") == "/out/";
    assert InDirectory("/out/old.md", "/out/");
    assert !InDirectory("/in/.docx", "/out/");
  }

  /** "/in/.docx" has the file name ".docx", an empty stem and the extension ".docx". */
  lemma EmptyStem()
    ensures GetFileNameWithoutExtension("/in/.docx") == []
    ensures GetExtension("/in/.docx") == ".docx"
  {
    LastIndexOfExact("/in/.docx", Separator, 3);
    assert GetFileName("/in/.docx") == ".docx";
    LastIndexOfExact(".docx", '.', 0);
  }

  /** "x.md" is its own file name, with the extension ".md". */
  lemma MarkdownName()
    ensures GetFileName("x.md") == "x.md" && GetExtension("x.md") == ".md"
  {
    LastIndexOfExact("x.md", Separator, -1);
    LastIndexOfExact("x.md", '.', 1);
  }
}
