/** The ReadMe assembler of the console application: a template's lines are copied,
    `[insert_file]` lines are replaced by another Markdown file with its headings moved
    down, and `[insert_acinfo]` lines by a list of activity diagrams. */
module ReadMeCreator {
  import opened Strings
  import opened Paths
  import opened TextFiles
  import opened MarkdownCleanup

  // ---------------------------------------------------------------------------
  // IncludeReadMe

  /** The trimmed line starts with "![": an image. */
  predicate IsImageLine(line: string) {
    var t := Trim(line);
    |t| >= 2 && t[0] == '!' && t[1] == '['
  }

  /** The trimmed line starts with "#": a heading. */
  predicate IsHeadingLine(line: string) {
    var t := Trim(line);
    |t| >= 1 && t[0] == '#'
  }

  /** No line is a heading. */
  predicate NoHeadings(lines: seq<string>) {
    lines != [] ==> !IsHeadingLine(lines[0]) && NoHeadings(lines[1..])
  }

  /** new string('#', level) fails for a negative level, once a heading needs it. */
  predicate CanShift(lines: seq<string>, level: int) {
    level >= 0 || NoHeadings(lines)
  }

  /** One line of an included file: images first, then headings get `level` more '#'. */
  function ShiftLine(line: string, level: int): string
    requires level >= 0 || IsImageLine(line) || !IsHeadingLine(line)
  {
    if IsImageLine(line) then line
    else if IsHeadingLine(line) then Repeat('#', level) + line
    else line
  }

  /** The lines IncludeReadMe returns for the included file's lines. */
  function ShiftHeadings(lines: seq<string>, level: int): (r: seq<string>)
    requires CanShift(lines, level)
  {
    if lines == [] then []
    else [ShiftLine(lines[0], level)] + ShiftHeadings(lines[1..], level)
  }

  /** An image line is never a heading line. */
  lemma ImageIsNotHeading(line: string)
    ensures IsImageLine(line) ==> !IsHeadingLine(line)
  {
  }

  /** One output line per input line, in order: a heading line gets exactly `level`
      '#' in front of the untrimmed line, every other line (images included) is kept. */
  lemma {:induction false} ShiftHeadingsAt(lines: seq<string>, level: int, k: nat)
    requires CanShift(lines, level) && k < |lines|
    ensures |ShiftHeadings(lines, level)| == |lines|
    ensures IsHeadingLine(lines[k]) ==>
              level >= 0 && ShiftHeadings(lines, level)[k] == Repeat('#', level) + lines[k]
    ensures !IsHeadingLine(lines[k]) ==> ShiftHeadings(lines, level)[k] == lines[k]
  {
    ImageIsNotHeading(lines[k]);
    if k > 0 {
      assert lines[1..][k - 1] == lines[k];
      ShiftHeadingsAt(lines[1..], level, k - 1);
    } else if |lines| > 1 {
      ShiftHeadingsAt(lines[1..], level, 0);
    }
  }

  /** Level 0 leaves the file as it is. */
  lemma {:induction false} ShiftByZero(lines: seq<string>)
    ensures ShiftHeadings(lines, 0) == lines
  {
    if lines != [] {
      ShiftByZero(lines[1..]);
      assert ShiftLine(lines[0], 0) == lines[0] by {
        assert Repeat('#', 0) + lines[0] == lines[0];
      }
      assert [lines[0]] + lines[1..] == lines;
    }
  }

  /** Trimming keeps a leading character that is not white space. */
  lemma TrimKeepsHead(s: string)
    requires s != [] && !IsWhiteSpace(s[0])
    ensures Trim(s) != [] && Trim(s)[0] == s[0]
  {
    assert TrimStartOf(s, WhiteSpace) == s;
  }

  /** Moving a heading down keeps it a heading, and does not make it an image. */
  lemma ShiftedHeading(line: string, a: nat)
    requires IsHeadingLine(line)
    ensures IsHeadingLine(Repeat('#', a) + line) && !IsImageLine(Repeat('#', a) + line)
  {
    var s := Repeat('#', a) + line;
    if a == 0 {
      assert s == line;
      ImageIsNotHeading(line);
    } else {
      assert s[0] == '#';
      assert !IsWhiteSpace('#');
      TrimKeepsHead(s);
    }
  }

  /** Including an included file again adds the levels. */
  lemma {:induction false} ShiftTwice(lines: seq<string>, a: nat, b: nat)
    ensures ShiftHeadings(ShiftHeadings(lines, a), b) == ShiftHeadings(lines, a + b)
  {
    if lines != [] {
      var line := lines[0];
      ImageIsNotHeading(line);
      if IsHeadingLine(line) {
        ShiftedHeading(line, a);
        RepeatAdd('#', b, a);
        Associative(Repeat('#', b), Repeat('#', a), line);
      }
      ShiftTwice(lines[1..], a, b);
      var once := ShiftHeadings(lines, a);
      assert once[0] == ShiftLine(line, a) && once[1..] == ShiftHeadings(lines[1..], a);
    }
  }

  /** The suffix from `i` is one shifted line and the suffix after it. */
  lemma ShiftStep(lines: seq<string>, level: int, i: nat)
    requires i < |lines| && CanShift(lines[i..], level)
    ensures level >= 0 || !IsHeadingLine(lines[i])
    ensures CanShift(lines[i + 1..], level)
    ensures ShiftHeadings(lines[i..], level)
            == [ShiftLine(lines[i], level)] + ShiftHeadings(lines[i + 1..], level)
  {
    assert lines[i..][0] == lines[i] && lines[i..][1..] == lines[i + 1..];
  }

  /** The body of IncludeReadMe's loop: one line of the included file. */
  method ShiftOne(line: string, level: int) returns (shifted: string)
    requires level >= 0 || !IsHeadingLine(line)
    ensures shifted == ShiftLine(line, level)
  {
    shifted := line;
    if IsImageLine(line) {
      shifted := line;
    } else if IsHeadingLine(line) {
      shifted := Repeat('#', level) + line;
    }
  }

  /** The paths the images of `images` are copied to in the directory `path`. */
  function ImageTargets(path: string, images: seq<string>): set<string> {
    if images == [] then {}
    else ImageTargets(path, images[..|images| - 1]) + {Combine(path, images[|images| - 1])}
  }

  /** The files after IncludeReadMe's copies: for every image line, in order, the image
      named by its argument in `images` is copied from `sourcePath` to `path`
      (File.Copy with overwrite); a missing source throws, and the exception is ignored.
      Only image destinations are created or changed, and no file is removed. */
  function CopyImages(fs: FileSystem, sourcePath: string, path: string, lines: seq<string>,
                      images: seq<string>): (r: FileSystem)
    requires |images| == |lines|
    ensures fs.Keys <= r.Keys <= fs.Keys + ImageTargets(path, images)
    ensures forall q :: q in fs && q !in ImageTargets(path, images) ==> r[q] == fs[q]
    decreases |lines|
  {
    if lines == [] then fs
    else
      var n := |lines| - 1;
      var before := CopyImages(fs, sourcePath, path, lines[..n], images[..n]);
      var source := Combine(sourcePath, images[n]);
      if IsImageLine(lines[n]) && source in before then before[Combine(path, images[n]) := before[source]]
      else before
  }

  /** IncludeReadMe(path, filePath, level) on the files `fs`, with `images` the image
      argument of each line of the included file: it returns the included lines with
      their headings shifted, and copies the images. */
  method IncludeReadMe(fs: FileSystem, path: string, filePath: string, level: int, images: seq<string>)
    returns (result: seq<string>, fs': FileSystem)
    requires filePath in fs
    requires CanShift(ReadAllLines(fs[filePath]), level) && |images| == |ReadAllLines(fs[filePath])|
    ensures result == ShiftHeadings(ReadAllLines(fs[filePath]), level)
    ensures fs' == CopyImages(fs, GetDirectoryName(filePath), path, ReadAllLines(fs[filePath]), images)
  {
    result := [];
    fs' := fs;
    var sourcePath := GetDirectoryName(filePath);
    var lines := ReadAllLines(fs[filePath]);
    var i := 0;
    assert lines[0..] == lines;
    while i < |lines|
      invariant 0 <= i <= |lines|
      invariant CanShift(lines[i..], level)
      invariant result + ShiftHeadings(lines[i..], level) == ShiftHeadings(lines, level)
      invariant fs' == CopyImages(fs, sourcePath, path, lines[..i], images[..i])
    {
      ShiftStep(lines, level, i);
      fs' := CopyImageOf(fs, sourcePath, path, lines, images, i, fs');
      var shifted := ShiftOne(lines[i], level);
      Associative(result, [shifted], ShiftHeadings(lines[i + 1..], level));
      result := result + [shifted];
      i := i + 1;
    }
    assert lines[i..] == [];
    assert lines[..i] == lines && images[..i] == images;
  }

  /** The copy IncludeReadMe makes for line i, after those for the lines before it:
      File.Copy(source, destination, true) inside a try whose exception is ignored. */
  method CopyImageOf(fs: FileSystem, sourcePath: string, path: string, lines: seq<string>,
                     images: seq<string>, i: nat, files: FileSystem) returns (files': FileSystem)
    requires |images| == |lines| && i < |lines|
    requires files == CopyImages(fs, sourcePath, path, lines[..i], images[..i])
    ensures files' == CopyImages(fs, sourcePath, path, lines[..i + 1], images[..i + 1])
  {
    CopyStep(fs, sourcePath, path, lines, images, i);
    files' := files;
    if IsImageLine(lines[i]) {
      var sourceFilePath := Combine(sourcePath, images[i]);
      if sourceFilePath in files {
        files' := files[Combine(path, images[i]) := files[sourceFilePath]];
      }
    }
  }

  /** The copies of the first i + 1 lines: those of the first i, then line i's. */
  lemma CopyStep(fs: FileSystem, sourcePath: string, path: string, lines: seq<string>,
                 images: seq<string>, i: nat)
    requires |images| == |lines| && i < |lines|
    ensures var before := CopyImages(fs, sourcePath, path, lines[..i], images[..i]);
            var source := Combine(sourcePath, images[i]);
            CopyImages(fs, sourcePath, path, lines[..i + 1], images[..i + 1])
            == if IsImageLine(lines[i]) && source in before then before[Combine(path, images[i]) := before[source]]
               else before
  {
    assert lines[..i + 1][..i] == lines[..i] && images[..i + 1][..i] == images[..i];
    assert lines[..i + 1][i] == lines[i] && images[..i + 1][i] == images[i];
  }

  /** Without image lines nothing is copied. */
  lemma {:induction false} NoImagesNoCopies(fs: FileSystem, sourcePath: string, path: string,
                                            lines: seq<string>, images: seq<string>)
    requires |images| == |lines|
    requires forall k :: 0 <= k < |lines| ==> !IsImageLine(lines[k])
    ensures CopyImages(fs, sourcePath, path, lines, images) == fs
    decreases |lines|
  {
    if lines != [] {
      var n := |lines| - 1;
      NoImagesPrefix(lines, n);
      NoImagesNoCopies(fs, sourcePath, path, lines[..n], images[..n]);
    }
  }

  /** When the included file lies in the template's own directory, every image is
      copied onto itself, and no file changes. */
  lemma {:induction false} SelfCopiesNoop(fs: FileSystem, path: string, lines: seq<string>,
                                          images: seq<string>)
    requires |images| == |lines|
    ensures CopyImages(fs, path, path, lines, images) == fs
    decreases |lines|
  {
    if lines != [] {
      var n := |lines| - 1;
      SelfCopiesNoop(fs, path, lines[..n], images[..n]);
      var target := Combine(path, images[n]);
      if target in fs {
        assert fs[target := fs[target]] == fs;
      }
    }
  }

  /** A prefix of lines without image lines has none. */
  lemma NoImagesPrefix(lines: seq<string>, n: nat)
    requires n <= |lines|
    requires forall k :: 0 <= k < |lines| ==> !IsImageLine(lines[k])
    ensures forall k :: 0 <= k < n ==> !IsImageLine(lines[..n][k])
  {
    forall k | 0 <= k < n ensures !IsImageLine(lines[..n][k]) {
      assert lines[..n][k] == lines[k];
    }
  }

  /** Every file that `r` has created or changed from `fs` holds the content, in `fs`, of
      the image of an image line, taken from `sourcePath`. */
  predicate FromSources(fs: FileSystem, r: FileSystem, sourcePath: string, path: string,
                        lines: seq<string>, images: seq<string>)
    requires |images| == |lines|
  {
    forall q :: q in r && (q !in fs || r[q] != fs[q]) ==> CopiedTo(fs, r, sourcePath, path, lines, images, q)
  }

  /** `q` in `r` is the destination of an image line whose source in `fs` it holds. */
  predicate CopiedTo(fs: FileSystem, r: FileSystem, sourcePath: string, path: string,
                     lines: seq<string>, images: seq<string>, q: string)
    requires |images| == |lines| && q in r
  {
    exists j :: 0 <= j < |lines| && IsImageLine(lines[j]) && q == Combine(path, images[j]) &&
                Combine(sourcePath, images[j]) in fs && r[q] == fs[Combine(sourcePath, images[j])]
  }

  /** When no image is copied onto an image source, every file the copies create or
      change holds the content of the image of an image line, taken from `sourcePath`. */
  lemma {:induction false} CopiedFromSources(fs: FileSystem, sourcePath: string, path: string,
                                             lines: seq<string>, images: seq<string>)
    requires |images| == |lines|
    requires ImageTargets(path, images) !! ImageTargets(sourcePath, images)
    ensures FromSources(fs, CopyImages(fs, sourcePath, path, lines, images), sourcePath, path, lines, images)
    decreases |lines|
  {
    if lines != [] {
      var n := |lines| - 1;
      CopiedFromSources(fs, sourcePath, path, lines[..n], images[..n]);
      CopiedFromLast(fs, sourcePath, path, lines, images);
    }
  }

  /** The induction step of CopiedFromSources: the copy of the last line. */
  lemma CopiedFromLast(fs: FileSystem, sourcePath: string, path: string, lines: seq<string>, images: seq<string>)
    requires |images| == |lines| && lines != []
    requires ImageTargets(path, images) !! ImageTargets(sourcePath, images)
    requires FromSources(fs, CopyImages(fs, sourcePath, path, lines[..|lines| - 1], images[..|lines| - 1]),
                         sourcePath, path, lines[..|lines| - 1], images[..|lines| - 1])
    ensures FromSources(fs, CopyImages(fs, sourcePath, path, lines, images), sourcePath, path, lines, images)
  {
    var n := |lines| - 1;
    var before := CopyImages(fs, sourcePath, path, lines[..n], images[..n]);
    var r := CopyImages(fs, sourcePath, path, lines, images);
    var source, target := Combine(sourcePath, images[n]), Combine(path, images[n]);
    assert source !in ImageTargets(path, images);
    forall q | q in r && (q !in fs || r[q] != fs[q])
      ensures CopiedTo(fs, r, sourcePath, path, lines, images, q)
    {
      if IsImageLine(lines[n]) && source in before && q == target {
        assert r[q] == fs[source];
      } else {
        CopiedEarlier(fs, before, r, sourcePath, path, lines, images, q);
      }
    }
  }

  /** A file a copy before the last line made, and the last line's copy kept, was made by
      one of those lines. */
  lemma CopiedEarlier(fs: FileSystem, before: FileSystem, r: FileSystem, sourcePath: string, path: string,
                      lines: seq<string>, images: seq<string>, q: string)
    requires |images| == |lines| && lines != []
    requires q in before && q in r && r[q] == before[q]
    requires CopiedTo(fs, before, sourcePath, path, lines[..|lines| - 1], images[..|lines| - 1], q)
    ensures CopiedTo(fs, r, sourcePath, path, lines, images, q)
  {
    var n := |lines| - 1;
    var j :| 0 <= j < n && IsImageLine(lines[..n][j]) && q == Combine(path, images[..n][j]) &&
             Combine(sourcePath, images[..n][j]) in fs && before[q] == fs[Combine(sourcePath, images[..n][j])];
    assert lines[..n][j] == lines[j] && images[..n][j] == images[j];
  }

  // ---------------------------------------------------------------------------
  // IncludeActivityDiagrams

  /** line.Split(':') */
  function Fields(line: string): (data: seq<string>)
    ensures |data| >= 1
  {
    SplitOn(line, ':')
  }

  predicate IsTitle(line: string) {
    Fields(line)[0] == "title"
  }

  predicate IsFileName(line: string) {
    Fields(line)[0] == "fileName"
  }

  /** Every `title` and `fileName` line has a field after its key (data[1] fails
      otherwise). */
  predicate Keyed(lines: seq<string>) {
    forall k :: 0 <= k < |lines| ==> (IsTitle(lines[k]) || IsFileName(lines[k])) ==> |Fields(lines[k])| >= 2
  }

  /** data[1] */
  function Value(line: string): string
    requires |Fields(line)| >= 2
  {
    Fields(line)[1]
  }

  /** One entry of the list: the title in force and the diagram's file name. */
  datatype Diagram = Diagram(title: string, fileName: string)

  /** Field 1 of the last `title` line, or "" when there is none. */
  function LastTitle(lines: seq<string>): string
    requires Keyed(lines)
  {
    if lines == [] then ""
    else
      var last := lines[|lines| - 1];
      if IsTitle(last) then Value(last) else LastTitle(lines[..|lines| - 1])
  }

  /** The entries: one per `fileName` line, with the title in force above it. */
  function Diagrams(lines: seq<string>): seq<Diagram>
    requires Keyed(lines)
  {
    if lines == [] then []
    else
      var init := lines[..|lines| - 1];
      var last := lines[|lines| - 1];
      Diagrams(init) + (if IsFileName(last) then [Diagram(LastTitle(init), Value(last))] else [])
  }

  /** The Markdown of one entry: a heading, an empty line, the image. */
  function Block(d: Diagram, url: string, level: nat): seq<string> {
    [Repeat('#', level) + " " + d.title, "", "![" + d.title + "](" + url + "/" + d.fileName + ")"]
  }

  /** The entries' blocks, separated by empty lines. */
  function Render(ds: seq<Diagram>, url: string, level: nat): seq<string> {
    if ds == [] then []
    else
      var init := ds[..|ds| - 1];
      Render(init, url, level) + (if init == [] then [] else [""]) + Block(ds[|ds| - 1], url, level)
  }

  /** k entries give 4k-1 lines, and none give none. */
  lemma {:induction false} RenderLength(ds: seq<Diagram>, url: string, level: nat)
    ensures |Render(ds, url, level)| == if ds == [] then 0 else 4 * |ds| - 1
  {
    if ds != [] {
      RenderLength(ds[..|ds| - 1], url, level);
    }
  }

  /** Entry j is at lines 4j..4j+3, and an empty line follows it unless it is last. */
  lemma {:induction false} RenderBlocks(ds: seq<Diagram>, url: string, level: nat, j: nat)
    requires j < |ds|
    ensures 4 * j + 3 <= |Render(ds, url, level)|
    ensures Render(ds, url, level)[4 * j..4 * j + 3] == Block(ds[j], url, level)
    ensures j < |ds| - 1 ==> 4 * j + 3 < |Render(ds, url, level)| && Render(ds, url, level)[4 * j + 3] == ""
  {
    var init := ds[..|ds| - 1];
    var r := Render(ds, url, level);
    RenderLength(ds, url, level);
    RenderLength(init, url, level);
    var head := Render(init, url, level) + (if init == [] then [] else [""]);
    assert r == head + Block(ds[|ds| - 1], url, level);
    if j < |ds| - 1 {
      RenderBlocks(init, url, level, j);
      assert r[..|head|] == head;
      assert r[4 * j..4 * j + 3] == head[4 * j..4 * j + 3];
      if j < |ds| - 2 {
        RenderBlocks(init, url, level, j + 1);
      } else {
        assert r[4 * j + 3] == head[4 * j + 3];
      }
    } else {
      assert |head| == 4 * j;
      assert r[4 * j..] == Block(ds[j], url, level);
    }
  }

  /** Without a `title` line every entry's title is empty. */
  lemma {:induction false} UntitledList(lines: seq<string>)
    requires Keyed(lines)
    requires forall k :: 0 <= k < |lines| ==> !IsTitle(lines[k])
    ensures LastTitle(lines) == ""
    ensures forall j :: 0 <= j < |Diagrams(lines)| ==> Diagrams(lines)[j].title == ""
  {
    if lines != [] {
      UntitledList(lines[..|lines| - 1]);
    }
  }

  /** Inserting a line that is neither `title` nor `fileName` keeps the list keyed. */
  lemma KeyedInsert(a: seq<string>, line: string, b: seq<string>)
    requires Keyed(a + b) && !IsTitle(line) && !IsFileName(line)
    ensures Keyed(a + [line] + b)
  {
    var s, t := a + [line] + b, a + b;
    forall k | 0 <= k < |s| && (IsTitle(s[k]) || IsFileName(s[k])) ensures |Fields(s[k])| >= 2 {
      if k < |a| {
        assert s[k] == t[k];
      } else if k > |a| {
        assert s[k] == t[k - 1];
      }
    }
  }

  /** A line that is neither `title` nor `fileName` may be dropped: it changes nothing. */
  lemma {:induction false} OtherLineIgnored(a: seq<string>, line: string, b: seq<string>)
    requires Keyed(a + b) && !IsTitle(line) && !IsFileName(line)
    ensures Keyed(a + [line] + b)
    ensures LastTitle(a + [line] + b) == LastTitle(a + b)
    ensures Diagrams(a + [line] + b) == Diagrams(a + b)
    decreases |b|
  {
    KeyedInsert(a, line, b);
    var s, t := a + [line] + b, a + b;
    if b == [] {
      assert s[..|s| - 1] == a && s[|s| - 1] == line && t == a;
    } else {
      var b' := b[..|b| - 1];
      assert s[..|s| - 1] == a + [line] + b' && s[|s| - 1] == b[|b| - 1];
      assert t[..|t| - 1] == a + b' && t[|t| - 1] == b[|b| - 1];
      assert Keyed(a + b');
      OtherLineIgnored(a, line, b');
    }
  }

  /** The loop state after line i, from the state before it. */
  lemma DiagramsStep(lines: seq<string>, i: nat)
    requires Keyed(lines) && i < |lines|
    ensures Keyed(lines[..i]) && Keyed(lines[..i + 1])
    ensures LastTitle(lines[..i + 1])
            == if IsTitle(lines[i]) then Value(lines[i]) else LastTitle(lines[..i])
    ensures Diagrams(lines[..i + 1])
            == Diagrams(lines[..i])
               + (if IsFileName(lines[i]) then [Diagram(LastTitle(lines[..i]), Value(lines[i]))] else [])
  {
    assert lines[..i + 1][..i] == lines[..i];
  }

  /** Rendering one more entry. */
  lemma RenderStep(ds: seq<Diagram>, d: Diagram, url: string, level: nat)
    ensures Render(ds + [d], url, level)
            == Render(ds, url, level) + (if ds == [] then [] else [""]) + Block(d, url, level)
  {
    assert (ds + [d])[..|ds|] == ds;
  }

  /** IncludeActivityDiagrams on the list file's lines, None when the file is missing. */
  method IncludeActivityDiagrams(list: Option<seq<string>>, url: string, level: nat)
    returns (result: seq<string>)
    requires list.Some? ==> Keyed(list.value)
    ensures list.None? ==> result == []
    ensures list.Some? ==> result == Render(Diagrams(list.value), url, level)
  {
    var first := false;
    var title := "";
    result := [];
    var lines := if list.Some? then list.value else [];
    assert lines[..0] == [];
    for i := 0 to |lines|
      invariant Keyed(lines[..i])
      invariant title == LastTitle(lines[..i])
      invariant first <==> Diagrams(lines[..i]) != []
      invariant result == Render(Diagrams(lines[..i]), url, level)
    {
      var data := Fields(lines[i]);
      DiagramsStep(lines, i);
      if data[0] == "title" {
        title := data[1];
      } else if data[0] == "fileName" {
        var d := Diagram(title, data[1]);
        RenderStep(Diagrams(lines[..i]), d, url, level);
        assert Block(d, url, level)
               == [Repeat('#', level) + " " + title, "", "![" + title + "](" + url + "/" + data[1] + ")"];
        if first {
          result := result + [""];
        }
        result := result + [Repeat('#', level) + " " + title, "", "![" + title + "](" + url + "/" + data[1] + ")"];
        first := true;
        assert result == Render(Diagrams(lines[..i + 1]), url, level);
      } else {
        assert Diagrams(lines[..i + 1]) == Diagrams(lines[..i]);
      }
    }
    assert lines[..|lines|] == lines;
  }

  // ---------------------------------------------------------------------------
  // CreateReadMe

  const ReadMeName: string := "ReadMe.md"

  /** The heading level of every activity-diagram entry. */
  const DiagramLevel: nat := 3

  /** The ReadMe is written next to the template. */
  function ReadMePath(filePath: string): string {
    Combine(GetDirectoryName(filePath), ReadMeName)
  }

  predicate IsInsertFile(line: string) {
    StartsWithIgnoreCase(line, "[insert_file]")
  }

  predicate IsInsertAcinfo(line: string) {
    StartsWithIgnoreCase(line, "[insert_acinfo]")
  }

  /** What a directive line's arguments come to: the file to include and its level
      (0 when the level does not parse), the image argument of each line of the included
      file, the diagram url and the diagram list file. A line only uses the fields of its
      own directive. */
  datatype Directive = Directive(fileArg: string, level: int, images: seq<string>, url: string, listArg: string)

  /** The lines produced so far and the files as they are after the copies made so far. */
  datatype Assembly = Assembly(lines: seq<string>, files: FileSystem)

  /** A file argument without a directory is taken from the template's directory. */
  function IncludePath(path: string, fileArg: string): string {
    if GetDirectoryName(fileArg) == [] then Combine(path, fileArg) else fileArg
  }

  /** The lines of the diagram list, or None when the file is missing. */
  function DiagramList(fs: FileSystem, path: string, listArg: string): (list: Option<seq<string>>)
    ensures list.Some? <==> Combine(path, listArg) in fs
  {
    var file := Combine(path, listArg);
    if file in fs then Some(ReadAllLines(fs[file])) else None
  }

  /** A line can be expanded: an included file exists, can be shifted and has an image
      argument per line; a diagram list has a field after every key. */
  predicate Expandable(fs: FileSystem, path: string, line: string, d: Directive) {
    if IsInsertFile(line) then
      var file := IncludePath(path, d.fileArg);
      file in fs && CanShift(ReadAllLines(fs[file]), d.level) && |d.images| == |ReadAllLines(fs[file])|
    else if IsInsertAcinfo(line) then
      var list := DiagramList(fs, path, d.listArg);
      list.Some? ==> Keyed(list.value)
    else true
  }

  /** The lines that replace one template line, and the files after the image copies of
      an included file. */
  function Expand(fs: FileSystem, path: string, line: string, d: Directive): (e: Assembly)
    requires Expandable(fs, path, line, d)
    ensures !IsInsertFile(line) ==> e.files == fs
  {
    if IsInsertFile(line) then
      var file := IncludePath(path, d.fileArg);
      var lines := ReadAllLines(fs[file]);
      Assembly(ShiftHeadings(lines, d.level), CopyImages(fs, GetDirectoryName(file), path, lines, d.images))
    else if IsInsertAcinfo(line) then
      var list := DiagramList(fs, path, d.listArg);
      Assembly(if list.Some? then Render(Diagrams(list.value), d.url, DiagramLevel) else [], fs)
    else Assembly([line], fs)
  }

  /** One more template line expanded on the files as the lines before it left them. */
  function ExpandNext(a: Assembly, path: string, line: string, d: Directive): Assembly
    requires Expandable(a.files, path, line, d)
  {
    var e := Expand(a.files, path, line, d);
    Assembly(a.lines + e.lines, e.files)
  }

  /** The paths the directives' images may be copied to, in the template's directory `path`. */
  function Targets(path: string, ds: seq<Directive>): set<string> {
    if ds == [] then {} else Targets(path, ds[..|ds| - 1]) + ImageTargets(path, ds[|ds| - 1].images)
  }

  /** One directive per template line, every line expandable on the files the lines
      before it leave. */
  predicate AllExpandable(fs: FileSystem, path: string, lines: seq<string>, ds: seq<Directive>)
    decreases |lines|, 0
  {
    |ds| == |lines| &&
    (lines != [] ==>
       var n := |lines| - 1;
       AllExpandable(fs, path, lines[..n], ds[..n]) &&
       Expandable(Assembled(fs, path, lines[..n], ds[..n]).files, path, lines[n], ds[n]))
  }

  /** The ReadMe's lines, every template line expanded in order, and the files after the
      copies. */
  function Assembled(fs: FileSystem, path: string, lines: seq<string>, ds: seq<Directive>): Assembly
    requires AllExpandable(fs, path, lines, ds)
    decreases |lines|, 1
  {
    if lines == [] then Assembly([], fs)
    else
      var n := |lines| - 1;
      ExpandNext(Assembled(fs, path, lines[..n], ds[..n]), path, lines[n], ds[n])
  }

  /** Expanding a line only adds or changes files, and only at an included file's image
      destinations. */
  lemma ExpandFrame(fs: FileSystem, path: string, line: string, d: Directive)
    requires Expandable(fs, path, line, d)
    ensures var e := Expand(fs, path, line, d);
            fs.Keys <= e.files.Keys <= fs.Keys + ImageTargets(path, d.images) &&
            forall q :: q in fs && q !in ImageTargets(path, d.images) ==> e.files[q] == fs[q]
  {
  }

  /** Assembling only adds or changes files, and only at the directives' image
      destinations. */
  lemma {:induction false} AssembledFrame(fs: FileSystem, path: string, lines: seq<string>, ds: seq<Directive>)
    requires AllExpandable(fs, path, lines, ds)
    ensures var a := Assembled(fs, path, lines, ds);
            fs.Keys <= a.files.Keys <= fs.Keys + Targets(path, ds) &&
            forall q :: q in fs && q !in Targets(path, ds) ==> a.files[q] == fs[q]
    decreases |lines|
  {
    if lines != [] {
      var n := |lines| - 1;
      AssembledFrame(fs, path, lines[..n], ds[..n]);
      var prev := Assembled(fs, path, lines[..n], ds[..n]);
      ExpandFrame(prev.files, path, lines[n], ds[n]);
      assert Targets(path, ds) == Targets(path, ds[..n]) + ImageTargets(path, ds[n].images);
    }
  }

  /** The files after CreateReadMe(filePath, force): the ReadMe is written when, after
      the copies, it does not exist or `force` is set. */
  function Created(fs: FileSystem, filePath: string, ds: seq<Directive>, force: bool): FileSystem
    requires filePath in fs && AllExpandable(fs, GetDirectoryName(filePath), ReadAllLines(fs[filePath]), ds)
  {
    Written(Assembled(fs, GetDirectoryName(filePath), ReadAllLines(fs[filePath]), ds), ReadMePath(filePath), force)
  }

  /** The files after the write gate, on the assembled lines and files. */
  function Written(a: Assembly, readMe: string, force: bool): FileSystem {
    if readMe !in a.files || force then a.files[readMe := JoinLines(a.lines)] else a.files
  }

  /** The body of the loop: one template line expanded. */
  method ExpandLine(fs: FileSystem, path: string, line: string, d: Directive)
    returns (more: seq<string>, fs': FileSystem)
    requires Expandable(fs, path, line, d)
    ensures Assembly(more, fs') == Expand(fs, path, line, d)
  {
    fs' := fs;
    if IsInsertFile(line) {
      var includeFilePath := IncludePath(path, d.fileArg);
      more, fs' := IncludeReadMe(fs, path, includeFilePath, d.level, d.images);
    } else if IsInsertAcinfo(line) {
      more := IncludeActivityDiagrams(DiagramList(fs, path, d.listArg), d.url, DiagramLevel);
    } else {
      more := [line];
    }
  }

  /** The template's first i + 1 lines, from its first i lines. */
  lemma AssembledStep(fs: FileSystem, path: string, lines: seq<string>, ds: seq<Directive>, i: nat)
    requires AllExpandable(fs, path, lines, ds) && i < |lines|
    ensures AllExpandable(fs, path, lines[..i], ds[..i])
    ensures Expandable(Assembled(fs, path, lines[..i], ds[..i]).files, path, lines[i], ds[i])
    ensures AllExpandable(fs, path, lines[..i + 1], ds[..i + 1])
    ensures Assembled(fs, path, lines[..i + 1], ds[..i + 1])
            == ExpandNext(Assembled(fs, path, lines[..i], ds[..i]), path, lines[i], ds[i])
  {
    AllExpandablePrefix(fs, path, lines, ds, i + 1);
    assert lines[..i + 1][..i] == lines[..i] && ds[..i + 1][..i] == ds[..i];
    assert lines[..i + 1][i] == lines[i] && ds[..i + 1][i] == ds[i];
  }

  /** A prefix of an expandable template is expandable. */
  lemma {:induction false} AllExpandablePrefix(fs: FileSystem, path: string, lines: seq<string>,
                                               ds: seq<Directive>, n: nat)
    requires AllExpandable(fs, path, lines, ds) && n <= |lines|
    ensures AllExpandable(fs, path, lines[..n], ds[..n])
    decreases |lines|
  {
    if n == |lines| {
      assert lines[..n] == lines && ds[..n] == ds;
    } else {
      var m := |lines| - 1;
      AllExpandablePrefix(fs, path, lines[..m], ds[..m], n);
      assert lines[..m][..n] == lines[..n] && ds[..m][..n] == ds[..n];
    }
  }

  /** The lines the ReadMe is assembled from, and the files after the image copies. */
  method AssembleLines(fs: FileSystem, path: string, lines: seq<string>, ds: seq<Directive>)
    returns (result: seq<string>, files: FileSystem)
    requires AllExpandable(fs, path, lines, ds)
    ensures Assembly(result, files) == Assembled(fs, path, lines, ds)
  {
    result := [];
    files := fs;
    for i := 0 to |lines|
      invariant AllExpandable(fs, path, lines[..i], ds[..i])
      invariant Assembly(result, files) == Assembled(fs, path, lines[..i], ds[..i])
    {
      AssembledStep(fs, path, lines, ds, i);
      var more, files' := ExpandLine(files, path, lines[i], ds[i]);
      result := result + more;
      files := files';
    }
    assert lines[..|lines|] == lines && ds[..|ds|] == ds;
  }

  /** CreateReadMe(filePath, force), with `ds` the arguments of the template's lines. */
  method CreateReadMe(fs: FileSystem, filePath: string, ds: seq<Directive>, force: bool)
    returns (fs': FileSystem)
    requires filePath in fs && AllExpandable(fs, GetDirectoryName(filePath), ReadAllLines(fs[filePath]), ds)
    ensures fs' == Created(fs, filePath, ds, force)
  {
    var path := GetDirectoryName(filePath);
    var readMeFilePath := Combine(path, ReadMeName);
    var lines := ReadAllLines(fs[filePath]);
    var result, files := AssembleLines(fs, path, lines, ds);
    fs' := files;
    if readMeFilePath !in files || force {
      fs' := files[readMeFilePath := JoinLines(result)];
    }
  }

  /** A template of two parts: the second part is expanded on the files the first leaves,
      and the ReadMe lines are the two parts' lines one after the other. */
  lemma {:induction false} AssembledAppend(fs: FileSystem, path: string, a: seq<string>, da: seq<Directive>,
                                           b: seq<string>, db: seq<Directive>)
    requires AllExpandable(fs, path, a, da)
    requires AllExpandable(Assembled(fs, path, a, da).files, path, b, db)
    ensures AllExpandable(fs, path, a + b, da + db)
    ensures var first := Assembled(fs, path, a, da);
            var second := Assembled(first.files, path, b, db);
            Assembled(fs, path, a + b, da + db) == Assembly(first.lines + second.lines, second.files)
    decreases |b|
  {
    var first := Assembled(fs, path, a, da);
    if b == [] {
      assert a + b == a && da + db == da;
      assert first.lines + [] == first.lines;
    } else {
      var n := |b| - 1;
      AssembledLast(first.files, path, b, db);
      AssembledAppend(fs, path, a, da, b[..n], db[..n]);
      AppendTail(fs, path, a, da, b, db, first);
    }
  }

  /** AssembledAppend for `b`, from AssembledAppend for all of `b` but its last line. */
  lemma AppendTail(fs: FileSystem, path: string, a: seq<string>, da: seq<Directive>,
                   b: seq<string>, db: seq<Directive>, first: Assembly)
    requires b != [] && AllExpandable(fs, path, a, da) && first == Assembled(fs, path, a, da)
    requires AllExpandable(first.files, path, b, db)
    requires AllExpandable(fs, path, a + b[..|b| - 1], da + db[..|b| - 1])
    requires AllExpandable(first.files, path, b[..|b| - 1], db[..|b| - 1])
    requires Assembled(fs, path, a + b[..|b| - 1], da + db[..|b| - 1])
             == Assembly(first.lines + Assembled(first.files, path, b[..|b| - 1], db[..|b| - 1]).lines,
                         Assembled(first.files, path, b[..|b| - 1], db[..|b| - 1]).files)
    ensures AllExpandable(fs, path, a + b, da + db)
    ensures Assembled(fs, path, a + b, da + db)
            == Assembly(first.lines + Assembled(first.files, path, b, db).lines, Assembled(first.files, path, b, db).files)
  {
    var n := |b| - 1;
    AssembledLast(first.files, path, b, db);
    AppendLast(a, da, b, db);
    var second := Assembled(first.files, path, b[..n], db[..n]);
    AppendStep(fs, path, a + b, da + db, a + b[..n], da + db[..n], first.lines, second, b[n], db[n]);
  }

  /** The induction step of AssembledAppend: `ab` is `init` and then `line`, and `init`
      assembles to the first part's lines followed by those of `second`. */
  lemma AppendStep(fs: FileSystem, path: string, ab: seq<string>, dab: seq<Directive>,
                   init: seq<string>, dinit: seq<Directive>, front: seq<string>, second: Assembly,
                   line: string, d: Directive)
    requires |ab| == |dab| && ab != []
    requires ab[..|ab| - 1] == init && dab[..|dab| - 1] == dinit
    requires ab[|ab| - 1] == line && dab[|dab| - 1] == d
    requires AllExpandable(fs, path, init, dinit)
    requires Assembled(fs, path, init, dinit) == Assembly(front + second.lines, second.files)
    requires Expandable(second.files, path, line, d)
    ensures AllExpandable(fs, path, ab, dab)
    ensures Assembled(fs, path, ab, dab)
            == Assembly(front + ExpandNext(second, path, line, d).lines, ExpandNext(second, path, line, d).files)
  {
    AssembledFromLast(fs, path, ab, dab, Assembly(front + second.lines, second.files));
    ExpandNextAfter(front, second, path, line, d);
  }

  /** Assembled, unfolded at the last line. */
  lemma AssembledLast(fs: FileSystem, path: string, lines: seq<string>, ds: seq<Directive>)
    requires AllExpandable(fs, path, lines, ds) && lines != []
    ensures AllExpandable(fs, path, lines[..|lines| - 1], ds[..|lines| - 1])
    ensures Expandable(Assembled(fs, path, lines[..|lines| - 1], ds[..|lines| - 1]).files,
                       path, lines[|lines| - 1], ds[|lines| - 1])
    ensures Assembled(fs, path, lines, ds)
            == ExpandNext(Assembled(fs, path, lines[..|lines| - 1], ds[..|lines| - 1]), path, lines[|lines| - 1], ds[|lines| - 1])
  {
  }

  /** A template whose lines before the last assemble to `prefix`, and whose last line
      can be expanded on prefix's files, is expandable and assembles to one more line. */
  lemma AssembledFromLast(fs: FileSystem, path: string, lines: seq<string>, ds: seq<Directive>, prefix: Assembly)
    requires lines != [] && |ds| == |lines|
    requires AllExpandable(fs, path, lines[..|lines| - 1], ds[..|lines| - 1])
    requires Assembled(fs, path, lines[..|lines| - 1], ds[..|lines| - 1]) == prefix
    requires Expandable(prefix.files, path, lines[|lines| - 1], ds[|lines| - 1])
    ensures AllExpandable(fs, path, lines, ds)
    ensures Assembled(fs, path, lines, ds) == ExpandNext(prefix, path, lines[|lines| - 1], ds[|lines| - 1])
  {
  }

  /** Expanding one more line after a part with lines in front of it. */
  lemma ExpandNextAfter(front: seq<string>, second: Assembly, path: string, line: string, d: Directive)
    requires Expandable(second.files, path, line, d)
    ensures ExpandNext(Assembly(front + second.lines, second.files), path, line, d)
            == Assembly(front + ExpandNext(second, path, line, d).lines, ExpandNext(second, path, line, d).files)
  {
    Associative(front, second.lines, Expand(second.files, path, line, d).lines);
  }

  /** Two parts, split before the last line of the second. */
  lemma AppendLast<T, U>(a: seq<T>, da: seq<U>, b: seq<T>, db: seq<U>)
    requires b != [] && |db| == |b|
    ensures (a + b)[..|a + b| - 1] == a + b[..|b| - 1] && (a + b)[|a + b| - 1] == b[|b| - 1]
    ensures (da + db)[..|da + db| - 1] == da + db[..|b| - 1] && (da + db)[|da + db| - 1] == db[|b| - 1]
  {
    assert (a + b)[..|a + b| - 1] == a + b[..|b| - 1];
    assert (da + db)[..|da + db| - 1] == da + db[..|b| - 1];
  }

  /** A line that is no directive is copied as it is, and no file changes. */
  lemma PlainLineCopied(fs: FileSystem, path: string, line: string, d: Directive)
    requires !IsInsertFile(line) && !IsInsertAcinfo(line)
    ensures Expandable(fs, path, line, d)
    ensures Assembled(fs, path, [line], [d]) == Assembly([line], fs)
  {
    assert [line][..0] == [];
  }

  /** A template without directives is copied line for line, and no file changes. */
  lemma {:induction false} PlainTemplateCopied(fs: FileSystem, path: string, lines: seq<string>, ds: seq<Directive>)
    requires |ds| == |lines|
    requires forall k :: 0 <= k < |lines| ==> !IsInsertFile(lines[k]) && !IsInsertAcinfo(lines[k])
    ensures AllExpandable(fs, path, lines, ds)
    ensures Assembled(fs, path, lines, ds) == Assembly(lines, fs)
  {
    if lines != [] {
      var n := |lines| - 1;
      NoDirectivesPrefix(lines, n);
      PlainTemplateCopied(fs, path, lines[..n], ds[..n]);
      PlainLast(fs, path, lines, ds);
    }
  }

  /** After the copies, the ReadMe is written with the assembled lines only when it is
      missing or `force` is set; no other file changes. */
  lemma WriteGate(fs: FileSystem, filePath: string, ds: seq<Directive>, force: bool)
    requires filePath in fs && AllExpandable(fs, GetDirectoryName(filePath), ReadAllLines(fs[filePath]), ds)
    ensures var a := Assembled(fs, GetDirectoryName(filePath), ReadAllLines(fs[filePath]), ds);
            var r := Created(fs, filePath, ds, force);
            var readMe := ReadMePath(filePath);
            (readMe in a.files && !force ==> r == a.files) &&
            (readMe !in a.files || force ==> readMe in r && r[readMe] == JoinLines(a.lines)) &&
            r.Keys == (if readMe !in a.files || force then a.files.Keys + {readMe} else a.files.Keys) &&
            (forall p :: p in a.files && p != readMe ==> r[p] == a.files[p])
  {
    var a := Assembled(fs, GetDirectoryName(filePath), ReadAllLines(fs[filePath]), ds);
    GateOn(a, ReadMePath(filePath), force);
  }

  /** The write gate on assembled lines and files. */
  lemma GateOn(a: Assembly, readMe: string, force: bool)
    ensures var r := Written(a, readMe, force);
            (readMe in a.files && !force ==> r == a.files) &&
            (readMe !in a.files || force ==> readMe in r && r[readMe] == JoinLines(a.lines)) &&
            r.Keys == (if readMe !in a.files || force then a.files.Keys + {readMe} else a.files.Keys) &&
            (forall p :: p in a.files && p != readMe ==> r[p] == a.files[p])
  {
  }

  /** CreateReadMe creates or changes only the ReadMe and image destinations, and
      removes no file. */
  lemma CreatedFrame(fs: FileSystem, filePath: string, ds: seq<Directive>, force: bool)
    requires filePath in fs && AllExpandable(fs, GetDirectoryName(filePath), ReadAllLines(fs[filePath]), ds)
    ensures var r := Created(fs, filePath, ds, force);
            var targets := Targets(GetDirectoryName(filePath), ds) + {ReadMePath(filePath)};
            fs.Keys <= r.Keys <= fs.Keys + targets &&
            (forall p :: p in fs && p !in targets ==> r[p] == fs[p])
  {
    AssembledFrame(fs, GetDirectoryName(filePath), ReadAllLines(fs[filePath]), ds);
  }

  /** A prefix of a template without directives has none. */
  lemma NoDirectivesPrefix(lines: seq<string>, n: nat)
    requires n <= |lines|
    requires forall k :: 0 <= k < |lines| ==> !IsInsertFile(lines[k]) && !IsInsertAcinfo(lines[k])
    ensures forall k :: 0 <= k < n ==> !IsInsertFile(lines[..n][k]) && !IsInsertAcinfo(lines[..n][k])
  {
    forall k | 0 <= k < n ensures !IsInsertFile(lines[..n][k]) && !IsInsertAcinfo(lines[..n][k]) {
      assert lines[..n][k] == lines[k];
    }
  }

  /** The last line of a template, when it is no directive, is copied after the rest. */
  lemma PlainLast(fs: FileSystem, path: string, lines: seq<string>, ds: seq<Directive>)
    requires lines != [] && |ds| == |lines|
    requires AllExpandable(fs, path, lines[..|lines| - 1], ds[..|lines| - 1])
    requires Assembled(fs, path, lines[..|lines| - 1], ds[..|lines| - 1]) == Assembly(lines[..|lines| - 1], fs)
    requires !IsInsertFile(lines[|lines| - 1]) && !IsInsertAcinfo(lines[|lines| - 1])
    ensures AllExpandable(fs, path, lines, ds)
    ensures Assembled(fs, path, lines, ds) == Assembly(lines, fs)
  {
    var n := |lines| - 1;
    PlainExpand(fs, path, lines[n], ds[n]);
    SplitLast(lines);
  }

  /** A line that is no directive expands to itself and changes no file. */
  lemma PlainExpand(fs: FileSystem, path: string, line: string, d: Directive)
    requires !IsInsertFile(line) && !IsInsertAcinfo(line)
    ensures Expandable(fs, path, line, d) && Expand(fs, path, line, d) == Assembly([line], fs)
  {
  }

  /** Read back, the ReadMe written from a template without directives has the
      template's lines. */
  lemma PlainReadMe(fs: FileSystem, filePath: string, ds: seq<Directive>, force: bool)
    requires filePath in fs && |ds| == |ReadAllLines(fs[filePath])|
    requires ReadMePath(filePath) !in fs || force
    requires forall k :: 0 <= k < |ReadAllLines(fs[filePath])| ==>
               !IsInsertFile(ReadAllLines(fs[filePath])[k]) && !IsInsertAcinfo(ReadAllLines(fs[filePath])[k])
    ensures AllExpandable(fs, GetDirectoryName(filePath), ReadAllLines(fs[filePath]), ds)
    ensures ReadAllLines(Created(fs, filePath, ds, force)[ReadMePath(filePath)]) == ReadAllLines(fs[filePath])
  {
    var lines := ReadAllLines(fs[filePath]);
    PlainTemplateCopied(fs, GetDirectoryName(filePath), lines, ds);
    ReadJoinedLines(lines);
  }

  /** The ReadMe of a template inside a directory is ReadMe.md in that directory, with
      doubled separators collapsed. */
  lemma ReadMeBesideTemplate(dir: string, name: string)
    requires dir != [] && dir[|dir| - 1] != Separator
    requires Separator !in name
    ensures ReadMePath(dir + [Separator] + name) == CollapseSeparators(dir) + [Separator] + ReadMeName
  {
    SiblingPath(dir, name, ReadMeName);
  }
}
