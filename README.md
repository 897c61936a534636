# DocConversion Markdown cleanup, modelled in Dafny

DocConversion converts Word and PDF documents into Markdown with an external converter
library. It then cleans the Markdown it gets back. `MarkdownConverter.CleaningAndFormatting`
reads the file's lines and drops the blank lines at the start. It suppresses the library's
bold attribution banner (a `**…**` line naming "Aspose.Words") and the blank lines after it.
Its line pass puts an empty line above and below every heading (the image rewrite that
follows can remove one again), collapses runs of blank lines, turns tabs into two spaces
and trims trailing white space. It then realigns every Markdown pipe
table (`FormatMarkdownTables` / `FormatMarkdownTable`). Finally it joins the lines and
replaces the alt text of every image with `Illustration`. `MarkdownConverter.ConversionTo`
decides what to do with a source file:

- re-clean an existing Markdown target;
- clean a Markdown source in place;
- or convert the source into a fresh directory named after it, then clean the result.

There are two copies of `MarkdownConverter`, in `DocConversion.Logic` and in `DocConversion`.
They are identical except for `ConversionTo`. The Logic copy takes a target file name. The
console copy takes a target extension and names the file after the source.

The console application's ReadMe creator (`ReadMeCreatorApp.CreateReadMe`) copies a template
line by line:

- an `[insert_file]` line is replaced by another Markdown file whose headings are moved down
  `level` places, and the images that file shows are copied next to the template
  (`IncludeReadMe`);
- an `[insert_acinfo]` line is replaced by a list of activity-diagram entries
  (`IncludeActivityDiagrams`);
- the ReadMe is written next to the template, unless one exists and `force` is not set.

The model is organised as follows:

- `Strings`: the .NET string operations used, written over `seq<char>`.
- `TextFiles`: `File.ReadAllLines`, and lines joined with `AppendLine`.
- `Paths`: `System.IO.Path` with `/` as the only separator.
- `LineCleaning`: the line loop, as a state machine `Cleaner(ignore, prev)`. The loop is also
  a method proved equal to it.
- `TableFormatting`: tables, as specification functions. The source's loops are methods
  proved against them, and the column widths are an `array<int>` as in the source.
- `ImagePlaceholder`: the regular expression `!\[[^\]]*\]`, as a left-to-right scanner.
- `MarkdownCleanup`: the file-level pass and the shared `ConversionTo` dispatch, over a file
  system that maps paths to file texts.
- `ConverterLogic` and `ConverterApp`: the two `ConversionTo` variants.
- `ReadMeCreator`: the ReadMe assembly.

Behaviour of the code worth noting:

- Only a banner naming "Aspose.Words" is suppressed, not any bold attribution line.
- A suppressed line does not become the previous line.
- The first kept line seeds the previous line with itself (`prevLine ??= line`), so a
  heading kept first gets an empty line above it.
- Table cells are not trimmed. A cell keeps the spaces around it, and those spaces count
  towards the column width.
- A table row is a line whose text, after leading spaces and tabs, starts with `|`.
- Running CleaningAndFormatting on its own output can change it again:
  - The banner test looks at the raw line. A banner followed by a space is kept and trimmed,
    and the next run suppresses it (`MarkdownCleanup.CleaningNotIdempotent`).
  - The image pattern's alt text `[^\]]*` matches newlines. An image span can therefore
    join lines and swallow the empty line below a heading.
  - A `|` inside alt text is removed by the rewrite, which can leave a formatted table
    ragged, so that a second run throws.

## Model

| member | source | states |
|---|---|---|
| Strings.TrimEnd | DocConversion.Logic/MarkdownConverter.cs:92 | the result is a prefix of the line that does not end in white space, and everything cut off is white space |
| Strings.TrimStartOf | DocConversion.Logic/MarkdownConverter.cs:129 | the result is a suffix of the line that does not start with a trimmed character, and everything cut off is one |
| Strings.ReplaceTabs | DocConversion.Logic/MarkdownConverter.cs:92 | no tab is left, a line is blank exactly when it was blank before, a line without tabs is unchanged, and a first character that is not a tab stays first |
| Strings.PadRight | DocConversion.Logic/MarkdownConverter.cs:169 | the cell is kept as a prefix and filled with spaces up to the width; a cell wider than the width is kept whole |
| Strings.SplitOn | DocConversion.Logic/MarkdownConverter.cs:154 | splitting gives at least one piece, and no piece contains the separator |
| Strings.JoinSplit | DocConversion.Logic/MarkdownConverter.cs:154 | joining the pieces of a split with the separator gives back the original string |
| Strings.SplitJoin | DocConversion.Logic/MarkdownConverter.cs:154 | splitting a join of separator-free pieces gives back the pieces |
| Strings.RemoveEmpty | DocConversion.Logic/MarkdownConverter.cs:154 | RemoveEmptyEntries keeps only non-empty pieces, taken from the input |
| Strings.RemoveEmptyAppend | DocConversion.Logic/MarkdownConverter.cs:154 | dropping empty pieces distributes over concatenation |
| Strings.RemoveEmptyKeeps | DocConversion.Logic/MarkdownConverter.cs:154 | pieces that are all non-empty are kept unchanged |
| Strings.Repeat | DocConversion.ConApp/ReadMeCreatorApp.cs:197 | `new string('#', n)` has length n and holds only that character |
| Strings.RepeatAdd | DocConversion.ConApp/ReadMeCreatorApp.cs:197 | a run of a characters followed by a run of b is a run of a + b |
| TextFiles.ReadAllLines | DocConversion.Logic/MarkdownConverter.cs:66 | no line read from a file contains a newline |
| TextFiles.JoinLines | DocConversion.Logic/MarkdownConverter.cs:108 | joining with AppendLine adds at least one character per line |
| TextFiles.ReadJoinedLines | DocConversion.Logic/MarkdownConverter.cs:108 | reading back the text the lines were joined into gives the same lines (round trip) |
| TextFiles.JoinReadLines | DocConversion.Logic/MarkdownConverter.cs:66 | writing the lines read from a newline-terminated text gives that text back (round trip) |
| Paths.LastIndexOf | DocConversion.Logic/MarkdownConverter.cs:17-19 | the index found holds the character and none comes after it; -1 means it is absent |
| Paths.GetFileName | DocConversion.Logic/MarkdownConverter.cs:19 | the file name is a separator-free suffix of the path, preceded by a separator when it is not the whole path |
| Paths.GetExtension | DocConversion.Logic/MarkdownConverter.cs:17-18 | an extension is empty or a '.' followed by at least one character |
| Paths.GetFileNameWithoutExtension | DocConversion.Logic/MarkdownConverter.cs:19 | the stem is a separator-free prefix of the file name |
| Paths.GetDirectoryName | DocConversion.ConApp/ReadMeCreatorApp.cs:124 | a path without a separator has no directory; the directory never holds two separators in a row, and ends in one only when it is the root |
| Paths.CollapseSeparators | DocConversion.ConApp/ReadMeCreatorApp.cs:124 | the result has no two separators in a row, is empty exactly when the input is, keeps the first and last character, and leaves a string without doubled separators unchanged |
| Paths.TrimSeparators | DocConversion.ConApp/ReadMeCreatorApp.cs:124 | the cut moves back over separators only, and stops at the root or after a character that is not a separator |
| Paths.Combine | DocConversion.Logic/MarkdownConverter.cs:20-21 | combining with a relative part keeps the first part as a prefix |
| Paths.StemAndExtension | DocConversion.Logic/MarkdownConverter.cs:17-19 | the file name is the stem followed by the extension, except that a name ending in '.' loses that '.' from both |
| Paths.NameParts | DocConversion/MarkdownConverter.cs:18-20 | a name `stem.x` in a directory has file name `stem.x`, extension `.x` and stem `stem` |
| Paths.CombineJoins | DocConversion.Logic/MarkdownConverter.cs:20-21 | combining a directory and a relative name puts exactly one separator between them |
| Paths.DirectoryOfFile | DocConversion.ConApp/ReadMeCreatorApp.cs:124 | the directory of `dir/name` is `dir` with doubled separators collapsed, and `dir` itself when it has none (the inverse of joining) |
| Paths.SiblingPath | DocConversion.ConApp/ReadMeCreatorApp.cs:124-125 | a name combined with the directory of `dir/name` lies next to `name`, in `dir` with doubled separators collapsed |
| Paths.DirectoryOfFileAfterRun | DocConversion.ConApp/ReadMeCreatorApp.cs:124 | the directory of `dir`, any run of separators and a name is `dir` with doubled separators collapsed |
| Paths.TrailingSeparatorsTrimmed | DocConversion.ConApp/ReadMeCreatorApp.cs:124 | the directory of `a//b` is `a` |
| Paths.InnerSeparatorsCollapsed | DocConversion.ConApp/ReadMeCreatorApp.cs:124 | the directory of `a//b/c` is `a/b` |
| LineCleaning.Normalize | DocConversion.Logic/MarkdownConverter.cs:92 | a normalised line has no tab and no trailing white space; it is empty exactly when the line was blank, and a heading stays a heading |
| LineCleaning.HeadingIsNotBlank | DocConversion.Logic/MarkdownConverter.cs:71-86 | a heading is neither blank nor a banner, so the heading branch is reached for every heading |
| LineCleaning.Emit | DocConversion.Logic/MarkdownConverter.cs:86-102 | a kept line adds nothing exactly when it and the previous line are blank; otherwise it adds its normalised form, preceded by at most one empty line, and only after a non-blank previous line |
| LineCleaning.SkipBlank | DocConversion.Logic/MarkdownConverter.cs:66-67 | SkipWhile drops exactly the leading blank lines: the rest is a suffix that starts with a non-blank line |
| LineCleaning.CleanLine | DocConversion.Logic/MarkdownConverter.cs:71-103 | one loop iteration sets the banner flag and the previous line to the state machine's next state, and appends exactly what the line emits |
| LineCleaning.CleanKept | DocConversion.Logic/MarkdownConverter.cs:69-105 | the loop's output equals the state machine run from its start state |
| LineCleaning.CleanLines | DocConversion.Logic/MarkdownConverter.cs:63-105 | the line pass (skip leading blanks, then the loop) computes the clean-up specification |
| LineCleaning.LeadingBlanksDropped | DocConversion.Logic/MarkdownConverter.cs:66-67 | blank lines added before the input do not change the output |
| LineCleaning.BlanksAfterBannerDropped | DocConversion.Logic/MarkdownConverter.cs:75-78 | while suppressing, any number of blank lines produce no output and leave the state alone |
| LineCleaning.BannerSuppressed | DocConversion.Logic/MarkdownConverter.cs:71-78 | a banner and the blank lines after it produce nothing; the output continues as if they were absent, with the suppression flag cleared |
| LineCleaning.HeadingSeparatedAbove | DocConversion.Logic/MarkdownConverter.cs:86-92 | a heading after a non-blank line is emitted with exactly one empty line above it |
| LineCleaning.LineAfterHeadingSeparated | DocConversion.Logic/MarkdownConverter.cs:97-101 | a non-blank line after a heading is emitted with exactly one empty line above it |
| LineCleaning.BlankLineCollapsed | DocConversion.Logic/MarkdownConverter.cs:94-102 | a blank line emits one empty line after a non-blank line and nothing after a blank one |
| LineCleaning.NoDoubleBlankFrom | DocConversion.Logic/MarkdownConverter.cs:83-104 | from any reachable state, the loop never appends two consecutive empty lines |
| LineCleaning.CleanNoDoubleBlank | DocConversion.Logic/MarkdownConverter.cs:63-105 | the cleaned lines never contain two consecutive empty lines |
| LineCleaning.CleanFromTidy | DocConversion.Logic/MarkdownConverter.cs:92-101 | from any state, every emitted line is tab-free with no trailing white space |
| LineCleaning.CleanTidy | DocConversion.Logic/MarkdownConverter.cs:63-105 | every cleaned line is tab-free with no trailing white space |
| LineCleaning.CleanFromContent | DocConversion.Logic/MarkdownConverter.cs:69-105 | from any state, the non-empty output lines are exactly the normalised non-blank, non-suppressed input lines, in order |
| LineCleaning.ContentSkipsBlank | DocConversion.Logic/MarkdownConverter.cs:66-67 | skipping leading blank lines loses no content |
| LineCleaning.CleanKeepsContent | DocConversion.Logic/MarkdownConverter.cs:63-105 | the pass keeps all content: its non-empty lines are the input's non-blank, non-banner lines, normalised, in order |
| ImagePlaceholder.PlaceholderIsSpan | DocConversion.Logic/MarkdownConverter.cs:109-110 | the replacement `![Illustration]` is itself a match of the pattern |
| ImagePlaceholder.UntilClose | DocConversion.Logic/MarkdownConverter.cs:109 | `[^\]]*` stops at the first ']' and reaches the end only when there is none |
| ImagePlaceholder.SpanLength | DocConversion.Logic/MarkdownConverter.cs:109 | a match is at least `![]` long and ends with ']' |
| ImagePlaceholder.FindClose | DocConversion.Logic/MarkdownConverter.cs:109 | the scan for ']' finds the first one after `![` (or the end) |
| ImagePlaceholder.ScanStep | DocConversion.Logic/MarkdownConverter.cs:111 | each step consumes at least one character and emits what the replacement makes of it |
| ImagePlaceholder.RewriteImages | DocConversion.Logic/MarkdownConverter.cs:109-111 | the scanning loop computes Regex.Replace of the pattern with the placeholder |
| ImagePlaceholder.SpanReplaced | DocConversion.Logic/MarkdownConverter.cs:109-111 | `![alt]` with any ']'-free alt text becomes the placeholder, and the rest (the link target) is kept |
| ImagePlaceholder.PlainPrefixKept | DocConversion.Logic/MarkdownConverter.cs:111 | text without '!' is copied unchanged |
| ImagePlaceholder.UnclosedKept | DocConversion.Logic/MarkdownConverter.cs:109 | without a ']' nothing matches, and the text is unchanged |
| ImagePlaceholder.NoOpeningKept | DocConversion.Logic/MarkdownConverter.cs:109 | without `![` the text is unchanged |
| ImagePlaceholder.CloseKept | DocConversion.Logic/MarkdownConverter.cs:111 | the replacement contains a ']' exactly when the text does |
| ImagePlaceholder.ReplaceIdempotent | DocConversion.Logic/MarkdownConverter.cs:109-111 | replacing twice is the same as replacing once |
| TableFormatting.IsTableRowTrimmed | DocConversion.Logic/MarkdownConverter.cs:129 | a line is a table row exactly when it starts with the pipe character after leading spaces and tabs are trimmed |
| TableFormatting.Cells | DocConversion.Logic/MarkdownConverter.cs:154 | a row's cells are non-empty and contain no pipe character |
| TableFormatting.CellTable | DocConversion.Logic/MarkdownConverter.cs:154 | the table has one cell list per row |
| TableFormatting.MaxWidth | DocConversion.Logic/MarkdownConverter.cs:161 | a column's width is at least every cell's length in it and equals one of them |
| TableFormatting.WidthsUpTo | DocConversion.Logic/MarkdownConverter.cs:158-162 | the first n widths are n entries |
| TableFormatting.Widths | DocConversion.Logic/MarkdownConverter.cs:158 | there is one width per column of the first row |
| TableFormatting.WidthIsColumnMax | DocConversion.Logic/MarkdownConverter.cs:158-162 | each width is the maximum cell length of its column |
| TableFormatting.Padded | DocConversion.Logic/MarkdownConverter.cs:169 | every padded cell starts with its cell and, when the cell fits, is exactly its column's width |
| TableFormatting.RenderRow | DocConversion.Logic/MarkdownConverter.cs:165-170 | a rendered row starts with the pipe character |
| TableFormatting.RenderRows | DocConversion.Logic/MarkdownConverter.cs:163-172 | one rendered line per row |
| TableFormatting.FormattedTable | DocConversion.Logic/MarkdownConverter.cs:151-179 | a table keeps its number of rows |
| TableFormatting.FormatRow | DocConversion.Logic/MarkdownConverter.cs:165-171 | the cell loop builds exactly the rendered row (a pipe, then each padded cell followed by a pipe) |
| TableFormatting.MeasureColumns | DocConversion.Logic/MarkdownConverter.cs:158-162 | the widths array is fresh and holds each column's maximum cell length |
| TableFormatting.FormatMarkdownTable | DocConversion.Logic/MarkdownConverter.cs:151-179 | the method computes the table specification; an empty table stays empty |
| TableFormatting.RowLength | DocConversion.Logic/MarkdownConverter.cs:165-170 | a row whose cells fit is 1 + (sum of widths) + (number of columns) characters long |
| TableFormatting.FormattedRowLength | DocConversion.Logic/MarkdownConverter.cs:163-172 | every formatted row has the length fixed by the column widths |
| TableFormatting.FormattedRowsEqualLength | DocConversion.Logic/MarkdownConverter.cs:163-172 | all rows of a formatted table have the same length, so the columns line up |
| TableFormatting.CellsOfRenderedRow | DocConversion.Logic/MarkdownConverter.cs:154-170 | splitting a rendered row gives back its padded cells (render and split are inverses) |
| TableFormatting.FormattedCells | DocConversion.Logic/MarkdownConverter.cs:154-172 | the cells of a formatted row are the original cells padded to the column widths |
| TableFormatting.RepaddedRow | DocConversion.Logic/MarkdownConverter.cs:169 | rendering already-padded cells gives the same row |
| TableFormatting.FormattedTableIdempotent | DocConversion.Logic/MarkdownConverter.cs:151-179 | a formatted table is well-formed, and formatting it again changes nothing |
| TableFormatting.TableRun | DocConversion.Logic/MarkdownConverter.cs:127-132 | the buffered run is the longest prefix of table rows |
| TableFormatting.FormatRun | DocConversion.Logic/MarkdownConverter.cs:135 | formatting a run keeps its number of lines |
| TableFormatting.FormatTables | DocConversion.Logic/MarkdownConverter.cs:122-145 | table formatting keeps the number of lines |
| TableFormatting.NonTableLineKept | DocConversion.Logic/MarkdownConverter.cs:133-137 | every line that is not a table row passes through unchanged, at its own position |
| TableFormatting.TableRowStaysRow | DocConversion.Logic/MarkdownConverter.cs:129-142 | a table row is still a table row after formatting |
| TableFormatting.BlankLinesKept | DocConversion.Logic/MarkdownConverter.cs:127-139 | a line is empty after formatting exactly when it was empty before |
| TableFormatting.RunFormattedInPlace | DocConversion.Logic/MarkdownConverter.cs:127-143 | each maximal run of table rows is replaced, at its position, by its formatted form |
| TableFormatting.TableReplacedInPlace | DocConversion.Logic/MarkdownConverter.cs:127-143 | each maximal run becomes its formatted table, and its rows all have one length |
| TableFormatting.FormatFromTables | DocConversion.Logic/MarkdownConverter.cs:122-145 | the buffering pass (buffer rows, flush at a non-row, flush at the end) equals run-wise formatting |
| TableFormatting.BufferRow | DocConversion.Logic/MarkdownConverter.cs:129-132 | buffering a row keeps the loop invariant and the remaining output |
| TableFormatting.FlushAt | DocConversion.Logic/MarkdownConverter.cs:133-138 | a non-row flushes the buffered run formatted, then the line, and empties the buffer |
| TableFormatting.FlushEnd | DocConversion.Logic/MarkdownConverter.cs:140-143 | the rows left at the end are flushed formatted, completing the output |
| TableFormatting.FormatMarkdownTables | DocConversion.Logic/MarkdownConverter.cs:122-145 | the loop computes run-wise table formatting |
| MarkdownCleanup.CleanedLines | DocConversion.Logic/MarkdownConverter.cs:63-107 | table formatting keeps the number of cleaned lines |
| MarkdownCleanup.CleaningAndFormatting | DocConversion.Logic/MarkdownConverter.cs:57-115 | a missing file is not written; an existing one is rewritten as its cleaned, table-formatted, joined and image-rewritten text |
| MarkdownCleanup.CleanedLinesNoDoubleBlank | DocConversion.Logic/MarkdownConverter.cs:83-107 | after table formatting there are still no two consecutive empty lines |
| MarkdownCleanup.CleaningNotIdempotent | DocConversion.Logic/MarkdownConverter.cs:71-113 | cleaning is not idempotent: `**Aspose.Words** ` followed by a newline is written as `**Aspose.Words**` and a newline, which a second run empties |
| MarkdownCleanup.Dispatch | DocConversion.Logic/MarkdownConverter.cs:23-51 | no step applies exactly when the source is missing and there is no Markdown target to clean; a conversion goes to the conversion file in the conversion directory; cleaning in place targets the conversion file or the source |
| MarkdownCleanup.DirectoryPath | DocConversion.Logic/MarkdownConverter.cs:33-37 | the directory a path names is the path without its trailing separators (but keeping the root), and nothing but separators is dropped |
| MarkdownCleanup.DeleteDirectory | DocConversion.Logic/MarkdownConverter.cs:33-36 | exactly the files under the directory are removed, whether or not its path ends in a separator; the others keep their contents |
| MarkdownCleanup.Lookup | DocConversion.Logic/MarkdownConverter.cs:61 | the file is found exactly when it exists |
| MarkdownCleanup.CleanFileTouchesOnlyItsFile | DocConversion.Logic/MarkdownConverter.cs:113 | cleaning a file creates or deletes nothing and changes no other file |
| MarkdownCleanup.Prepare | DocConversion.Logic/MarkdownConverter.cs:33-48 | the directory step removes the files under the conversion directory (a trailing separator in its path included) and adds the files the converter saves |
| MarkdownCleanup.Perform | DocConversion.Logic/MarkdownConverter.cs:23-51 | the file operations of a step give the step's outcome: an exception when the conversion directory's path is empty or a file is in its way, otherwise the files after the step |
| MarkdownCleanup.CleanFileAt | DocConversion.Logic/MarkdownConverter.cs:61-113 | reading, cleaning and writing back the file gives the cleaned file system |
| MarkdownCleanup.MarkdownTargetRecleaned | DocConversion.Logic/MarkdownConverter.cs:23-26 | an existing Markdown target is cleaned again and never reconverted, whatever the converter would produce |
| MarkdownCleanup.MarkdownSourceCleaned | DocConversion.Logic/MarkdownConverter.cs:27-30 | otherwise an existing Markdown source is cleaned in place without conversion |
| MarkdownCleanup.SourceConverted | DocConversion.Logic/MarkdownConverter.cs:31-51 | otherwise, with nothing in the directory's way, the conversion is chosen and does not throw; old files in the directory are deleted unless the converter writes them again, every file the converter saves is there with its content, and files outside the directory that the converter does not save keep their presence and content |
| MarkdownCleanup.SavedInsideLeavesRestAlone | DocConversion.Logic/MarkdownConverter.cs:31-48 | when the converter saves only into the conversion directory, every file outside it keeps its presence and content |
| MarkdownCleanup.BlockedConversionThrows | DocConversion.Logic/MarkdownConverter.cs:31-37 | an empty conversion path, or a file at the conversion directory's path or at one of its ancestors', makes the conversion throw, and nothing changes |
| MarkdownCleanup.MissingSourceNoop | DocConversion.Logic/MarkdownConverter.cs:23-51 | with no Markdown target and no source, nothing changes |
| ConverterLogic.ConversionTo | DocConversion.Logic/MarkdownConverter.cs:15-52 | the outcome of the call is the effect of the step chosen from the target file name's extension: an exception when the conversion path is empty or a file is in its way, otherwise the files after the step |
| ConverterLogic.EmptyConversionPathThrows | DocConversion.Logic/MarkdownConverter.cs:19-37 | `/in/.docx` with target path "" gives the conversion path "", and the call throws with no file changed |
| ConverterLogic.TrailingSeparatorDirectoryEmptied | DocConversion.Logic/MarkdownConverter.cs:19-48 | `/in/.docx` with target path `/out/` converts into `/out/` itself, and `/out/old.md` is deleted |
| ConverterLogic.ConversionFileShape | DocConversion.Logic/MarkdownConverter.cs:19-21 | the converted file is `targetPath/stem/targetFileName`, inside the directory that is emptied |
| ConverterApp.ConversionTo | DocConversion/MarkdownConverter.cs:15-53 | the outcome of the call is the effect of the step chosen from the target extension: an exception when the conversion path is empty or a file is in its way, otherwise the files after the step |
| ConverterApp.TargetFileShape | DocConversion/MarkdownConverter.cs:18-22 | the target is `targetPath/stem/stem.ext`, inside the directory that is emptied |
| ConverterApp.TargetDirectoryShape | DocConversion/MarkdownConverter.cs:20 | the target directory is named after the source's stem |
| ConverterApp.TargetStem | DocConversion/MarkdownConverter.cs:18-20 | the target file name's stem is the source's stem |
| ReadMeCreator.ImageIsNotHeading | DocConversion.ConApp/ReadMeCreatorApp.cs:179-195 | an image line never reaches the heading branch |
| ReadMeCreator.ShiftHeadingsAt | DocConversion.ConApp/ReadMeCreatorApp.cs:177-203 | the line count is kept; each heading gets `level` more '#' and every other line (images included) is copied |
| ReadMeCreator.ShiftByZero | DocConversion.ConApp/ReadMeCreatorApp.cs:195-198 | level 0 leaves the file unchanged |
| ReadMeCreator.ShiftedHeading | DocConversion.ConApp/ReadMeCreatorApp.cs:197 | a shifted heading is still a heading and not an image |
| ReadMeCreator.ShiftTwice | DocConversion.ConApp/ReadMeCreatorApp.cs:197 | shifting by a and then by b is shifting by a + b |
| ReadMeCreator.ShiftOne | DocConversion.ConApp/ReadMeCreatorApp.cs:179-202 | one iteration produces the shifted line |
| ReadMeCreator.IncludeReadMe | DocConversion.ConApp/ReadMeCreatorApp.cs:171-205 | the loop returns the included lines with headings shifted, and leaves the files as the image copies, made in order, leave them |
| ReadMeCreator.CopyImageOf | DocConversion.ConApp/ReadMeCreatorApp.cs:179-192 | one iteration's copy extends the copies of the lines before it by that line's copy |
| ReadMeCreator.CopyImages | DocConversion.ConApp/ReadMeCreatorApp.cs:179-192 | the copies only create or change files at image destinations, and never remove a file |
| ReadMeCreator.NoImagesNoCopies | DocConversion.ConApp/ReadMeCreatorApp.cs:179-192 | an included file without image lines copies nothing |
| ReadMeCreator.SelfCopiesNoop | DocConversion.ConApp/ReadMeCreatorApp.cs:179-192 | when the included file lies in the template's own directory, every image is copied onto itself and no file changes |
| ReadMeCreator.CopiedFromSources | DocConversion.ConApp/ReadMeCreatorApp.cs:179-192 | when no destination is also an image source, every file the copies create or change holds the content of the image of an image line, taken from the included file's directory |
| ReadMeCreator.Fields | DocConversion.ConApp/ReadMeCreatorApp.cs:224 | Split(':') gives at least one field |
| ReadMeCreator.RenderLength | DocConversion.ConApp/ReadMeCreatorApp.cs:230-238 | k entries give 4k - 1 lines, and none give none |
| ReadMeCreator.RenderBlocks | DocConversion.ConApp/ReadMeCreatorApp.cs:230-238 | entry j is at lines 4j..4j+2 (heading, empty line, image) and is followed by an empty separator unless it is last |
| ReadMeCreator.UntitledList | DocConversion.ConApp/ReadMeCreatorApp.cs:217-227 | without `title` lines every entry has the empty title |
| ReadMeCreator.OtherLineIgnored | DocConversion.ConApp/ReadMeCreatorApp.cs:226-228 | a line that is neither `title` nor `fileName` changes neither the title nor the entries |
| ReadMeCreator.IncludeActivityDiagrams | DocConversion.ConApp/ReadMeCreatorApp.cs:214-242 | a missing list gives no lines; otherwise one block per `fileName` line, titled with the last title above it |
| ReadMeCreator.DiagramList | DocConversion.ConApp/ReadMeCreatorApp.cs:219-220 | the list is read exactly when the combined path exists |
| ReadMeCreator.ExpandLine | DocConversion.ConApp/ReadMeCreatorApp.cs:131-156 | one template line becomes the included file (with its images copied), the diagram list, or itself |
| ReadMeCreator.Expand | DocConversion.ConApp/ReadMeCreatorApp.cs:131-156 | a line other than `[insert_file]` changes no file |
| ReadMeCreator.ExpandFrame | DocConversion.ConApp/ReadMeCreatorApp.cs:131-156 | expanding a line only adds or changes files, and only at an included file's image destinations |
| ReadMeCreator.AssembleLines | DocConversion.ConApp/ReadMeCreatorApp.cs:129-157 | the loop concatenates every line's expansion in order, each made on the files the lines before it leave |
| ReadMeCreator.AssembledFrame | DocConversion.ConApp/ReadMeCreatorApp.cs:129-157 | assembling only adds or changes files, and only at the directives' image destinations |
| ReadMeCreator.CreateReadMe | DocConversion.ConApp/ReadMeCreatorApp.cs:122-163 | the files after the call are those after the image copies, with the ReadMe written under the gate |
| ReadMeCreator.AssembledAppend | DocConversion.ConApp/ReadMeCreatorApp.cs:129-157 | assembling two template parts is assembling the first, then the second on the files the first leaves, with their lines concatenated |
| ReadMeCreator.PlainLineCopied | DocConversion.ConApp/ReadMeCreatorApp.cs:153-156 | a line that is not a directive is copied as is, and no file changes |
| ReadMeCreator.PlainTemplateCopied | DocConversion.ConApp/ReadMeCreatorApp.cs:129-157 | a template without directives is copied unchanged, and no file changes |
| ReadMeCreator.WriteGate | DocConversion.ConApp/ReadMeCreatorApp.cs:159-162 | the gate looks at the files after the copies: the ReadMe is written with the assembled lines exactly when it is missing or `force` is set; otherwise those files are kept, and no other file changes |
| ReadMeCreator.CreatedFrame | DocConversion.ConApp/ReadMeCreatorApp.cs:122-163 | apart from the ReadMe, only image destinations are created or changed, and no file is removed |
| ReadMeCreator.PlainReadMe | DocConversion.ConApp/ReadMeCreatorApp.cs:122-163 | with no directives, the written ReadMe reads back as the template's lines |
| ReadMeCreator.ReadMeBesideTemplate | DocConversion.ConApp/ReadMeCreatorApp.cs:124-125 | the ReadMe is `ReadMe.md` in the template's directory, with doubled separators collapsed |

## Left out

- File I/O is modelled by a file system that maps paths to texts. `ReadAllLines` splits on
  '\n' only, and `AppendLine` writes '\n'; '\r' and `Environment.NewLine` are not modelled.
- Paths are modelled with '/' as the only separator. Windows separators, drive roots and
  `ConvertFilePath` (line 248 of `DocConversion.ConApp/ReadMeCreatorApp.cs`), which is the
  identity when the separator is '/', are not modelled. `GetDirectoryName` of an empty or root path
  (null in .NET) is modelled as the empty string.
- White space and case folding are the ASCII subset; culture-dependent comparison and Unicode
  white space are not modelled.
- The conversion by the external library (`new Document`, `Save`, lines 39-48) is a
  parameter `converted`: the files it saves, and none when it fails, whose exception is
  swallowed. The console message is not modelled.
- `Directory.Delete` and `Directory.CreateDirectory` (lines 33-37 of
  `DocConversion.Logic/MarkdownConverter.cs`) throw in the model only
  when the directory's path is empty or a file is in the way of the conversion directory;
  other I/O failures (access rights, files in use, invalid characters) are not modelled.
- File paths are compared as written, except that the conversion directory's trailing
  separators are dropped. Doubled separators inside a path, `.` and `..` segments, and a
  relative path that names the same file as an absolute one are not resolved.
- The unused `Path.GetDirectoryName` at the start of `CleaningAndFormatting` (line 59) has
  no effect and is not modelled.
- MarkdownCleanup.CleaningAndFormatting: requires that the cleaned lines have no ragged table.
  A table run in which some row has fewer cells than the first makes the source throw, and
  a row with more cells also makes it throw. TableFormatting.FormatRun leaves such a run
  unchanged, but callers never reach that case.
- TableFormatting.FormatMarkdownTables: requires every maximal run to be uniform, for the
  same reason; TableFormatting.FormatMarkdownTable requires the rows it gets to be uniform.
- ReadMeCreator.IncludeReadMe: the image argument of each line
  (`ConvertFilePath(line.Betweenstring("(", ")"))`, line 181) is the parameter `images`. A
  copy whose source is missing changes nothing, as its exception is swallowed. Other
  `File.Copy` failures (a missing destination directory, a directory at either path, access
  rights) are swallowed too in the source but are not modelled: the model makes those
  copies. The method requires a non-negative level whenever the
  file has a heading, because `new string('#', level)` throws for a negative level.
- ReadMeCreator.IncludeActivityDiagrams: takes the list's lines (or None when the file does
  not exist) and a `nat` level. The only caller passes 3, and a negative level would throw.
  It requires every `title` and `fileName` line to have a field after the key, because
  `data[1]` throws otherwise.
- ReadMeCreator.CreateReadMe: the arguments of each directive line are given as a
  `Directive` value. That value stands for the results of `Betweenstring` (an extension
  method of another library) and `int.TryParse`, with 0 when parsing fails. The method
  requires every included file to exist and to be shiftable, because a missing include
  file makes the source throw, and one image argument per line of an included file.
- ReadMeCreator.CreateReadMe: the image copies made while assembling are in the resulting
  file system, including the copies that would fail for a reason other than a missing
  source (see IncludeReadMe above).
- The menu and console parts of `ReadMeCreatorApp`, and the other console applications, are
  not part of this model.
