/**
  Short file names (`get_short_file_path`): the part of a path after its last
  `/` or `\`, so that both Unix and Windows paths are shortened.
 */
module ShortPath {

  import opened Wrappers

  predicate IsSeparator(c: char) {
    c == '/' || c == '\\'
  }

  predicate NoSeparator(s: string) {
    forall k :: 0 <= k < |s| ==> !IsSeparator(s[k])
  }

  /** The longest suffix of `path` without a separator, read from the back. */
  function ShortName(path: string): string
    decreases |path|
  {
    if path == [] || IsSeparator(path[|path| - 1]) then []
    else ShortName(path[..|path| - 1]) + [path[|path| - 1]]
  }

  /** The short name is a suffix of the path. */
  lemma {:induction false} ShortNameSuffix(path: string)
    ensures |ShortName(path)| <= |path| && ShortName(path) == path[|path| - |ShortName(path)|..]
    decreases |path|
  {
    if path != [] && !IsSeparator(path[|path| - 1]) {
      var n, init := |path|, path[..|path| - 1];
      ShortNameSuffix(init);
      var r0 := ShortName(init);
      assert init[|init| - |r0|..] == path[n - 1 - |r0|..n - 1];
      assert path[n - 1 - |r0|..] == path[n - 1 - |r0|..n - 1] + [path[n - 1]];
    }
  }

  /** The short name holds no separator. */
  lemma {:induction false} ShortNameNoSeparator(path: string)
    ensures NoSeparator(ShortName(path))
    decreases |path|
  {
    if path != [] && !IsSeparator(path[|path| - 1]) {
      var init := path[..|path| - 1];
      ShortNameNoSeparator(init);
      var r0, r := ShortName(init), ShortName(path);
      forall k | 0 <= k < |r| ensures !IsSeparator(r[k]) {
        if k < |r0| {
          assert r[k] == r0[k];
        }
      }
    }
  }

  /** The short name is the whole path or starts right after a separator. */
  lemma {:induction false} ShortNameBoundary(path: string)
    ensures |ShortName(path)| <= |path|
    ensures |ShortName(path)| == |path| || IsSeparator(path[|path| - |ShortName(path)| - 1])
    decreases |path|
  {
    if path != [] && !IsSeparator(path[|path| - 1]) {
      var n, init := |path|, path[..|path| - 1];
      ShortNameBoundary(init);
      var r0 := ShortName(init);
      if |r0| < |init| {
        assert path[n - |r0| - 2] == init[|init| - |r0| - 1];
      }
    }
  }

  /** `ShortName` is a separator-free suffix of the path that reaches back to
      the last separator, or to the start when there is none. */
  lemma ShortNameIsLastComponent(path: string)
    ensures var r := ShortName(path);
            |r| <= |path| && r == path[|path| - |r|..] && NoSeparator(r)
            && (|r| == |path| || IsSeparator(path[|path| - |r| - 1]))
  {
    ShortNameSuffix(path);
    ShortNameNoSeparator(path);
    ShortNameBoundary(path);
  }

  /** Only one suffix has those three properties, so they define the short name. */
  lemma ShortNameUnique(path: string, r: string)
    requires |r| <= |path| && r == path[|path| - |r|..] && NoSeparator(r)
    requires |r| == |path| || IsSeparator(path[|path| - |r| - 1])
    ensures r == ShortName(path)
  {
    ShortNameIsLastComponent(path);
  }

  /** `get_short_file_path`: scan the characters from the back, stop at the
      first separator met, and return what follows it (the whole path when
      none is met). */
  method GetShortFilePath(filename: string) returns (r: string)
    ensures r == ShortName(filename)
    ensures |r| <= |filename| && r == filename[|filename| - |r|..] && NoSeparator(r)
    ensures |r| == |filename| <==> NoSeparator(filename)
    ensures |filename| > 0 && IsSeparator(filename[|filename| - 1]) ==> r == []
  {
    var pos: Option<nat> := None;
    var i := |filename|;
    while i > 0
      invariant 0 <= i <= |filename|
      invariant pos.None? && NoSeparator(filename[i..])
    {
      i := i - 1;
      if IsSeparator(filename[i]) {
        pos := Some(i);
        break;
      }
      assert filename[i..] == [filename[i]] + filename[i + 1..];
    }
    match pos {
      case Some(index) =>
        r := filename[index + 1..];
      case None =>
        r := filename;
    }
    ShortNameUnique(filename, r);
    if |r| < |filename| {
      assert !NoSeparator(filename) by {
        assert IsSeparator(filename[|filename| - |r| - 1]);
      }
    }
  }
}
