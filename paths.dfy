/** The System.IO.Path operations ConversionTo uses, with '/' as the only separator. */
module Paths {

  const Separator: char := '/'

  /** The index of the last `c` in `s`, or -1. */
  function LastIndexOf(s: string, c: char): (i: int)
    ensures -1 <= i < |s|
    ensures i >= 0 ==> s[i] == c
    ensures forall k :: i < k < |s| ==> s[k] != c
  {
    if s == [] then -1
    else if s[|s| - 1] == c then |s| - 1
    else LastIndexOf(s[..|s| - 1], c)
  }

  /** Path.GetFileName: what follows the last separator. */
  function GetFileName(path: string): (name: string)
    ensures |name| <= |path| && name == path[|path| - |name|..]
    ensures Separator !in name
    ensures |name| < |path| ==> path[|path| - |name| - 1] == Separator
  {
    path[LastIndexOf(path, Separator) + 1..]
  }

  /** Path.GetExtension: the file name from its last '.', or "" when the name has no
      '.' or ends with it. */
  function GetExtension(path: string): (ext: string)
    ensures ext == [] || (|ext| >= 2 && ext[0] == '.')
  {
    var name := GetFileName(path);
    var d := LastIndexOf(name, '.');
    if d < 0 || d == |name| - 1 then [] else name[d..]
  }

  /** Path.GetFileNameWithoutExtension: the file name up to its last '.'. */
  function GetFileNameWithoutExtension(path: string): (stem: string)
    ensures |stem| <= |GetFileName(path)| && stem == GetFileName(path)[..|stem|]
    ensures Separator !in stem
  {
    var name := GetFileName(path);
    var d := LastIndexOf(name, '.');
    if d < 0 then name else name[..d]
  }

  /** The length of the path's root: 1 for a rooted path, 0 otherwise. */
  function RootLength(path: string): (n: nat)
    ensures n <= |path|
  {
    if path != [] && path[0] == Separator then 1 else 0
  }

  /** No two separators are next to each other. */
  predicate SingleSeparators(s: string) {
    forall i :: 0 <= i < |s| - 1 ==> !(s[i] == Separator && s[i + 1] == Separator)
  }

  /** Every run of separators shortened to one separator. */
  function CollapseSeparators(s: string): (r: string)
    ensures |r| <= |s| && (r == [] <==> s == [])
    ensures SingleSeparators(r)
    ensures s != [] ==> r[0] == s[0] && r[|r| - 1] == s[|s| - 1]
    ensures SingleSeparators(s) ==> r == s
  {
    if s == [] then []
    else if |s| >= 2 && s[0] == Separator && s[1] == Separator then CollapseSeparators(s[1..])
    else
      var rest := CollapseSeparators(s[1..]);
      assert SingleSeparators(s) ==> SingleSeparators(s[1..]);
      [s[0]] + rest
  }

  /** `end` moved back over the separators before it, but not into the root. */
  function TrimSeparators(path: string, root: nat, end: nat): (e: nat)
    requires root <= end <= |path|
    ensures root <= e <= end
    ensures e == root || path[e - 1] != Separator
    ensures forall k :: e <= k < end ==> path[k] == Separator
    decreases end
  {
    if end > root && path[end - 1] == Separator then TrimSeparators(path, root, end - 1) else end
  }

  /** Path.GetDirectoryName: the path up to its last separator, with the separators
      before that one trimmed away (but not the root), and every run of separators
      shortened to one. A path without a separator after its root gives its root:
      "" when it is relative, the root when it is rooted. A path that is only a root
      (or empty) has no directory (null in .NET), written "". */
  function GetDirectoryName(path: string): (dir: string)
    ensures Separator !in path ==> dir == []
    ensures SingleSeparators(dir)
    ensures dir == [] || dir == [Separator] || dir[|dir| - 1] != Separator
  {
    var root := RootLength(path);
    if |path| <= root then []
    else
      var i := LastIndexOf(path, Separator);
      var end := if i < root then root else TrimSeparators(path, root, i);
      CollapseSeparators(path[..end])
  }

  /** Path.Combine of two parts: the second wins when rooted, an empty part gives
      way to the other, and one separator goes between. */
  function Combine(path1: string, path2: string): (r: string)
    ensures path1 != [] && path2 != [] && path2[0] != Separator ==> StartsWithPart(r, path1)
  {
    if path2 == [] then path1
    else if path1 == [] then path2
    else if path2[0] == Separator then path2
    else if path1[|path1| - 1] == Separator then path1 + path2
    else path1 + [Separator] + path2
  }

  /** `r` lies in the directory `dir` (or is it). */
  predicate StartsWithPart(r: string, dir: string) {
    |dir| <= |r| && r[..|dir|] == dir
  }

  /** The file name is split into the stem and the extension, except that a name
      ending with '.' loses that '.' from both. */
  lemma StemAndExtension(path: string)
    ensures var name := GetFileName(path);
            var stem := GetFileNameWithoutExtension(path);
            var ext := GetExtension(path);
            name == stem + ext || (ext == [] && name == stem + ".")
  {
    var name := GetFileName(path);
    var d := LastIndexOf(name, '.');
    if d >= 0 {
      assert name == name[..d] + name[d..];
      if d == |name| - 1 {
        assert name[d..] == ".";
      }
    }
  }

  /** LastIndexOf is determined by where the last `c` is. */
  lemma {:induction false} LastIndexOfExact(s: string, c: char, i: int)
    requires -1 <= i < |s|
    requires i >= 0 ==> s[i] == c
    requires forall k :: i < k < |s| ==> s[k] != c
    ensures LastIndexOf(s, c) == i
  {
    if i < |s| - 1 {
      LastIndexOfExact(s[..|s| - 1], c, i);
    }
  }

  /** A name without separators, inside a directory, is the file name. */
  lemma FileNameInDirectory(dir: string, name: string)
    requires Separator !in name
    requires dir == [] || dir[|dir| - 1] == Separator
    ensures GetFileName(dir + name) == name
  {
    var p := dir + name;
    forall k | |dir| <= k < |p| ensures p[k] != Separator {
      assert p[k] == name[k - |dir|];
    }
    if dir == [] {
      LastIndexOfExact(p, Separator, -1);
      assert p == name;
    } else {
      assert p[|dir| - 1] == Separator;
      LastIndexOfExact(p, Separator, |dir| - 1);
      assert p[|dir|..] == name;
    }
  }

  /** A name made of a stem and an extension without further dots has that stem and
      that extension. */
  lemma NameParts(dir: string, stem: string, x: string)
    requires Separator !in stem && Separator !in x && '.' !in x && x != []
    requires dir == [] || dir[|dir| - 1] == Separator
    ensures GetFileName(dir + (stem + ("." + x))) == stem + ("." + x)
    ensures GetExtension(dir + (stem + ("." + x))) == "." + x
    ensures GetFileNameWithoutExtension(dir + (stem + ("." + x))) == stem
  {
    DottedName(stem, x);
    FileNameInDirectory(dir, stem + ("." + x));
  }

  /** The last '.' of `stem.x` is the one before `x`. */
  lemma DottedName(stem: string, x: string)
    requires Separator !in stem && Separator !in x && '.' !in x
    ensures Separator !in stem + ("." + x)
    ensures LastIndexOf(stem + ("." + x), '.') == |stem|
    ensures (stem + ("." + x))[..|stem|] == stem && (stem + ("." + x))[|stem|..] == "." + x
  {
    var ext := "." + x;
    var name := stem + ext;
    ExtensionParts(x);
    forall k | 0 <= k < |name| ensures name[k] != Separator {
      if k >= |stem| { assert name[k] == ext[k - |stem|]; }
      else { assert name[k] == stem[k]; }
    }
    forall k | |stem| < k < |name| ensures name[k] != '.' {
      assert name[k] == ext[k - |stem|];
    }
    LastIndexOfExact(name, '.', |stem|);
  }

  lemma ExtensionParts(x: string)
    requires Separator !in x && '.' !in x
    ensures ("." + x)[0] == '.'
    ensures forall k :: 1 <= k < |"." + x| ==> ("." + x)[k] != '.' && ("." + x)[k] != Separator
  {
    forall k | 1 <= k < |"." + x| ensures ("." + x)[k] == x[k - 1] {
    }
  }

  /** Combining a directory that does not end with a separator and a relative name
      puts exactly one separator between them. */
  lemma CombineJoins(dir: string, name: string)
    requires dir != [] && dir[|dir| - 1] != Separator
    requires name != [] && name[0] != Separator
    ensures Combine(dir, name) == dir + [Separator] + name
  {
  }

  /** The directory of a file named after a directory and a run of separators is that
      directory, with its own runs of separators shortened to one. */
  lemma DirectoryOfFileAfterRun(dir: string, seps: string, name: string)
    requires dir != [] && dir[|dir| - 1] != Separator
    requires seps != [] && forall k :: 0 <= k < |seps| ==> seps[k] == Separator
    requires Separator !in name
    ensures GetDirectoryName(dir + seps + name) == CollapseSeparators(dir)
  {
    LastSeparatorInRun(dir, seps, name);
    RunAfterDirectory(dir, seps, name);
    DirectoryAt(dir + seps + name, |dir|, |dir| + |seps| - 1);
  }

  /** The last separator of `dir`, a run of separators and a name is the run's last. */
  lemma LastSeparatorInRun(dir: string, seps: string, name: string)
    requires seps != [] && seps[|seps| - 1] == Separator
    requires Separator !in name
    ensures LastIndexOf(dir + seps + name, Separator) == |dir| + |seps| - 1
  {
    var p := dir + seps + name;
    forall k | |dir| + |seps| <= k < |p| ensures p[k] != Separator {
      assert p[k] == name[k - |dir| - |seps|];
    }
    LastIndexOfExact(p, Separator, |dir| + |seps| - 1);
  }

  /** `dir`, a run of separators and a name: `dir` comes first, then the run. */
  lemma RunAfterDirectory(dir: string, seps: string, name: string)
    requires forall k :: 0 <= k < |seps| ==> seps[k] == Separator
    ensures (dir + seps + name)[..|dir|] == dir
    ensures forall k :: |dir| <= k < |dir| + |seps| ==> (dir + seps + name)[k] == Separator
  {
    var p := dir + seps + name;
    forall k | |dir| <= k < |dir| + |seps| ensures p[k] == Separator {
      assert p[k] == seps[k - |dir|];
    }
    assert p[..|dir|] == dir;
  }

  /** The directory of a path whose last separator is at `i`, preceded by separators
      back to `d`, is its first `d` characters with their runs of separators shortened. */
  lemma DirectoryAt(p: string, d: nat, i: nat)
    requires 0 < d <= i < |p| && p[d - 1] != Separator
    requires LastIndexOf(p, Separator) == i
    requires forall k :: d <= k < i ==> p[k] == Separator
    ensures GetDirectoryName(p) == CollapseSeparators(p[..d])
  {
    TrimmedToDirectory(p, RootLength(p), d, i);
  }

  lemma {:induction false} TrimmedToDirectory(p: string, root: nat, d: nat, end: nat)
    requires root < d <= end <= |p|
    requires p[d - 1] != Separator
    requires forall k :: d <= k < end ==> p[k] == Separator
    ensures TrimSeparators(p, root, end) == d
    decreases end
  {
    if end > d {
      TrimmedToDirectory(p, root, d, end - 1);
    }
  }

  /** The directory of `dir/name` is `dir`, once its runs of separators are shortened. */
  lemma DirectoryOfFile(dir: string, name: string)
    requires dir != [] && dir[|dir| - 1] != Separator
    requires Separator !in name
    ensures GetDirectoryName(dir + [Separator] + name) == CollapseSeparators(dir)
    ensures SingleSeparators(dir) ==> GetDirectoryName(dir + [Separator] + name) == dir
  {
    DirectoryOfFileAfterRun(dir, [Separator], name);
  }

  /** A file joined onto the directory of `dir/name` lies next to `name`. */
  lemma SiblingPath(dir: string, name: string, other: string)
    requires dir != [] && dir[|dir| - 1] != Separator
    requires Separator !in name
    requires other != [] && other[0] != Separator
    ensures Combine(GetDirectoryName(dir + [Separator] + name), other)
            == CollapseSeparators(dir) + [Separator] + other
  {
    DirectoryOfFile(dir, name);
    CombineJoins(CollapseSeparators(dir), other);
  }

  /** A concrete path: the separators before the file name are trimmed. */
  lemma TrailingSeparatorsTrimmed()
    ensures GetDirectoryName("a//b") == "a"
  {
    assert "a" + "//" + "b" == "a//b";
    DirectoryOfFileAfterRun("a", "//", "b");
    assert CollapseSeparators("a") == "a";
  }

  /** A concrete path: a doubled separator inside the directory is shortened. */
  lemma InnerSeparatorsCollapsed()
    ensures GetDirectoryName("a//b/c") == "a/b"
  {
    assert "a//b" + "/" + "c" == "a//b/c";
    DirectoryOfFileAfterRun("a//b", "/", "c");
    assert "a//b"[1..] == "//b" && "//b"[1..] == "/b";
    assert CollapseSeparators("/b") == "/b";
  }
}
