/** The `Path` helpers of the web server: joining two paths, giving a folder
    path a trailing `/`, telling whether a path names a file, and taking the
    file name and the extension out of a path.

    The model follows the code as it is written, which is simpler than the
    doc comments and the TODO notes beside it suggest: joining turns no `\`
    into `/` and normalises neither part, any `.` (a trailing one included)
    marks a file, and the file name is what follows the last `\`, whether or
    not it names a file. */
module Path {
  import opened ArduinoString

  /** True when the last character of `p` is a `/`. */
  predicate EndsInSlash(p: string)
  {
    |p| > 0 && p[|p| - 1] == '/'
  }

  /** `combinePaths`: appends `path2` to `path1`, putting a `/` between them
      only when `path1` does not already end with one. Nothing else is
      touched: a leading `/` of `path2`, a `\` anywhere and an empty
      `path1` all pass through. */
  function CombinePaths(path1: string, path2: string): (r: string)
    ensures |r| == |path1| + |path2| + (if EndsInSlash(path1) then 0 else 1)
    ensures path1 <= r
    ensures IsSuffix(path2, r)
    ensures !EndsInSlash(path1) ==> r[|path1|] == '/'
  {
    if EndsWith(path1, "/") then path1 + path2
    else path1 + "/" + path2
  }

  /** `hasFile`: a path mentions a file exactly when a `.` occurs in it,
      wherever it is, the last position included. */
  function HasFile(path: string): (b: bool)
    ensures b <==> '.' in path
  {
    IndexOf(path, '.') != -1
  }

  /** `normalisePath`: a path without any `.` that does not already end
      with `/` gets a `/` appended; every other path is returned as it is. */
  function NormalisePath(path: string): (r: string)
    ensures path <= r && |r| <= |path| + 1
    ensures '.' in r <==> '.' in path
    ensures '.' in r || EndsInSlash(r)
    ensures r == path <==> '.' in path || EndsInSlash(path)
  {
    if HasFile(path) then path
    else if EndsWith(path, "/") then path
    else path + "/"
  }

  /** `getFileName`: the part of `path` after its last `\`, or the whole of
      `path` when it has no `\`. The source first calls `normalisePath` and
      drops its result, so the answer depends on `path` alone. */
  function GetFileName(path: string): (r: string)
    ensures '\\' !in r
    ensures IsSuffix(r, path)
    ensures '\\' !in path ==> r == path
    ensures |r| == |path| || path[|path| - |r| - 1] == '\\'
  {
    var _ := NormalisePath(path);
    Substring(path, LastIndexOf(path, '\\') + 1)
  }

  /** `getFileExtension`: the empty string for a path without a `.`;
      otherwise everything after the last `.`, which may be empty (a trailing
      `.`) and may contain `/` or `\` (a `.` in a folder name). */
  function GetFileExtension(path: string): (r: string)
    ensures '.' !in path ==> r == ""
    ensures '.' !in r
    ensures IsSuffix(r, path)
    ensures '.' in path ==> |r| < |path| && path[|path| - |r| - 1] == '.'
  {
    if !HasFile(path) then ""
    else Substring(path, LastIndexOf(path, '.') + 1)
  }

  // ---------------------------------------------------------------------
  // Properties relating the operations to each other
  // ---------------------------------------------------------------------

  /** No normalisation happens when joining: a `path1` ending in `/` and a
      `path2` starting with `/` leave `//` in the result. */
  lemma CombineKeepsDoubleSlash(path1: string, path2: string)
    requires EndsInSlash(path1)
    requires |path2| > 0 && path2[0] == '/'
    ensures var r := CombinePaths(path1, path2);
      r[|path1| - 1] == '/' && r[|path1|] == '/'
  {
  }

  /** Joining onto an empty `path1` makes the result absolute: a `/` is put
      in front of `path2`. */
  lemma CombineEmptyFirst(path2: string)
    ensures CombinePaths("", path2) == "/" + path2
  {
  }

  /** For a folder path (no `.`), joining is the same as normalising the
      folder and appending `path2`; for a path with a `.` that does not end
      in `/`, joining still inserts a `/`, where normalising would not. */
  lemma CombineIsNormaliseThenAppend(path1: string, path2: string)
    ensures '.' !in path1 ==> CombinePaths(path1, path2) == NormalisePath(path1) + path2
    ensures '.' in path1 && !EndsInSlash(path1) ==>
      CombinePaths(path1, path2) == NormalisePath(path1) + "/" + path2
  {
  }

  /** Normalising twice is normalising once, on every input. */
  lemma NormaliseIdempotent(path: string)
    ensures NormalisePath(NormalisePath(path)) == NormalisePath(path)
  {
  }

  /** The fixed points of `normalisePath` are exactly the paths that contain
      a `.` or end with `/`, and every result is one of them. */
  lemma NormaliseFixedPoints(path: string)
    ensures NormalisePath(path) == path <==> HasFile(path) || EndsInSlash(path)
    ensures HasFile(NormalisePath(path)) || EndsInSlash(NormalisePath(path))
  {
  }

  /** Normalising never changes whether a path mentions a file. */
  lemma NormalisePreservesHasFile(path: string)
    ensures HasFile(NormalisePath(path)) == HasFile(path)
  {
  }

  /** A trailing `.` counts as a file marker. */
  lemma TrailingDotIsFile(path: string)
    requires |path| > 0 && path[|path| - 1] == '.'
    ensures HasFile(path)
    ensures GetFileExtension(path) == ""
  {
  }

  /** When `path` mentions a file, it splits into a prefix, the last `.`, and
      the extension. */
  lemma ExtensionSplit(path: string)
    requires '.' in path
    ensures var e := GetFileExtension(path);
      |e| < |path| && path == path[..|path| - |e| - 1] + "." + e
  {
  }

  /** The extension of an extension is always empty, since an extension
      holds no `.`. */
  lemma ExtensionOfExtension(path: string)
    ensures GetFileExtension(GetFileExtension(path)) == ""
  {
  }

  /** The file name holds no `\`, so taking it again changes nothing. */
  lemma FileNameIdempotent(path: string)
    ensures GetFileName(GetFileName(path)) == GetFileName(path)
  {
  }

  /** The file name is what follows the last `\`: a `\` followed by a name
      without `\` gives back that name, whatever comes before it, `/`
      separators included. */
  lemma FileNameAfterLastBackslash(dir: string, name: string)
    requires '\\' !in name
    ensures GetFileName(dir + "\\" + name) == name
  {
    var p := dir + "\\" + name;
    assert p[|dir|] == '\\';
    assert p[|dir| + 1..] == name;
    assert LastIndexOf(p, '\\') == |dir|;
  }

  /** The extension is what follows the last `.`, even across a folder
      separator: `"a.b/c"` has the extension `"b/c"`. */
  lemma ExtensionAfterLastDot(stem: string, ext: string)
    requires '.' !in ext
    ensures GetFileExtension(stem + "." + ext) == ext
  {
    var p := stem + "." + ext;
    assert p[|stem|] == '.';
    assert p[|stem| + 1..] == ext;
    assert LastIndexOf(p, '.') == |stem|;
  }

  /** `name` ends with a `.` followed by `ext`. */
  predicate EndsWithDotAnd(name: string, ext: string)
  {
    |ext| < |name| && name[|name| - |ext| - 1] == '.' && IsSuffix(ext, name)
  }

  /** Two suffixes of one path: `n` runs back to just after a `\` (or to the
      start), `e` runs back to just after a `.` and holds no `\`. Then `e` is
      the shorter one, and `n` ends with that `.` followed by `e`. */
  lemma SuffixAfterDot(path: string, n: string, e: string)
    requires IsSuffix(n, path)
    requires |n| == |path| || path[|path| - |n| - 1] == '\\'
    requires IsSuffix(e, path) && |e| < |path| && path[|path| - |e| - 1] == '.'
    requires '\\' !in e
    ensures EndsWithDotAnd(n, e)
  {
    forall p | |path| - |e| - 1 <= p < |path|
      ensures path[p] != '\\'
    {
      if p >= |path| - |e| {
        assert e[p - (|path| - |e|)] == path[p];
      }
    }
    assert n[|n| - |e| - 1] == path[|path| - |e| - 1];
  }

  /** When the extension holds no `\` (the last `.` comes after the last
      `\`), the file name ends with that `.` followed by the extension. */
  lemma FileNameEndsWithExtension(path: string)
    requires '.' in path
    requires '\\' !in GetFileExtension(path)
    ensures EndsWithDotAnd(GetFileName(path), GetFileExtension(path))
  {
    var n := GetFileName(path);
    var e := GetFileExtension(path);
    SuffixAfterDot(path, n, e);
  }

  /** The condition above is needed: when the last `.` comes before the last
      `\`, the extension runs across the `\` and is longer than the file
      name. For `"a.b\c"` the file name is `"c"` and the extension `"b\c"`. */
  lemma ExtensionAcrossBackslash()
    ensures GetFileName("a.b\\c") == "c"
    ensures GetFileExtension("a.b\\c") == "b\\c"
    ensures !EndsWithDotAnd(GetFileName("a.b\\c"), GetFileExtension("a.b\\c"))
  {
    assert "a.b\\c" == "a.b" + "\\" + "c";
    FileNameAfterLastBackslash("a.b", "c");
    assert "a.b\\c" == "a" + "." + "b\\c";
    ExtensionAfterLastDot("a", "b\\c");
  }
}
