/** ConversionTo of the DocConversion console's MarkdownConverter: the caller names
    the target extension; the target file is named after the source. */
module ConverterApp {
  import opened Strings
  import opened Paths
  import opened MarkdownCleanup

  /** <source file name without extension><targetExtension> */
  function TargetFileName(sourceFile: string, targetExtension: string): string {
    GetFileNameWithoutExtension(sourceFile) + targetExtension
  }

  /** <targetPath>/<target file name without extension> */
  function TargetDirectory(sourceFile: string, targetPath: string, targetExtension: string): string {
    Combine(targetPath, GetFileNameWithoutExtension(TargetFileName(sourceFile, targetExtension)))
  }

  /** <target directory>/<target file name> */
  function TargetFile(sourceFile: string, targetPath: string, targetExtension: string): string {
    Combine(TargetDirectory(sourceFile, targetPath, targetExtension),
            TargetFileName(sourceFile, targetExtension))
  }

  /** The step ConversionTo takes; the Markdown check is on the target extension itself. */
  function ConversionStep(fs: FileSystem, sourceFile: string, targetPath: string,
                          targetExtension: string): Step
  {
    Dispatch(fs, sourceFile, TargetDirectory(sourceFile, targetPath, targetExtension),
             TargetFile(sourceFile, targetPath, targetExtension), targetExtension)
  }

  /** ConversionTo(sourceFile, targetPath, targetExtension); `converted` is what the
      converter library saves (nothing when it fails). */
  method ConversionTo(fs: FileSystem, sourceFile: string, targetPath: string,
                      targetExtension: string, converted: FileSystem) returns (out: Outcome)
    requires Ready(fs, ConversionStep(fs, sourceFile, targetPath, targetExtension), converted)
    ensures out == Effect(fs, ConversionStep(fs, sourceFile, targetPath, targetExtension), converted)
  {
    var step := ConversionStep(fs, sourceFile, targetPath, targetExtension);
    out := Perform(fs, step, converted);
  }

  /** With an extension such as ".md", the target is
      <targetPath>/<source stem>/<source stem><targetExtension>, inside the directory
      ConversionTo empties first. */
  lemma TargetFileShape(sourceFile: string, targetPath: string, targetExtension: string, x: string)
    requires targetPath != [] && targetPath[|targetPath| - 1] != Separator
    requires GetFileNameWithoutExtension(sourceFile) != []
    requires targetExtension == "." + x && x != [] && '.' !in x && Separator !in x
    ensures var stem := GetFileNameWithoutExtension(sourceFile);
            TargetDirectory(sourceFile, targetPath, targetExtension) == targetPath + [Separator] + stem &&
            TargetFile(sourceFile, targetPath, targetExtension)
              == targetPath + [Separator] + stem + [Separator] + (stem + targetExtension)
    ensures InDirectory(TargetFile(sourceFile, targetPath, targetExtension),
                        TargetDirectory(sourceFile, targetPath, targetExtension))
  {
    var stem := GetFileNameWithoutExtension(sourceFile);
    var name := stem + targetExtension;
    var dir := targetPath + [Separator] + stem;
    TargetDirectoryShape(sourceFile, targetPath, targetExtension, x);
    assert name[0] == stem[0];
    CombineJoins(dir, name);
    JoinedInDirectory(dir, name);
  }

  /** The target directory is named after the source's stem. */
  lemma TargetDirectoryShape(sourceFile: string, targetPath: string, targetExtension: string, x: string)
    requires targetPath != [] && targetPath[|targetPath| - 1] != Separator
    requires GetFileNameWithoutExtension(sourceFile) != []
    requires targetExtension == "." + x && x != [] && '.' !in x && Separator !in x
    ensures var stem := GetFileNameWithoutExtension(sourceFile);
            stem[0] != Separator &&
            TargetDirectory(sourceFile, targetPath, targetExtension) == targetPath + [Separator] + stem
  {
    var stem := GetFileNameWithoutExtension(sourceFile);
    TargetStem(sourceFile, targetExtension, x);
    assert stem[0] != Separator;
    CombineJoins(targetPath, stem);
  }

  /** The target file name has the source's stem. */
  lemma TargetStem(sourceFile: string, targetExtension: string, x: string)
    requires targetExtension == "." + x && x != [] && '.' !in x && Separator !in x
    ensures GetFileNameWithoutExtension(TargetFileName(sourceFile, targetExtension))
         == GetFileNameWithoutExtension(sourceFile)
  {
    var stem := GetFileNameWithoutExtension(sourceFile);
    NameParts([], stem, x);
    assert [] + (stem + targetExtension) == stem + targetExtension;
  }
}
