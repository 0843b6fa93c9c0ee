/** The string and path helpers of Go's standard library that the service
    relies on (strings.HasPrefix/HasSuffix/TrimPrefix/TrimSuffix and
    path/filepath.Ext/Base/ToSlash), written for the Unix build. */
module Paths {

  /** The host's path separator, os.PathSeparator; '/' on the Unix build. */
  const Separator: char := '/'

  /** os.IsPathSeparator: '/' always separates, and so does the host separator. */
  predicate IsSeparator(c: char)
  {
    c == '/' || c == Separator
  }

  predicate HasPrefix(s: string, prefix: string)
  {
    |prefix| <= |s| && s[..|prefix|] == prefix
  }

  predicate HasSuffix(s: string, suffix: string)
  {
    |suffix| <= |s| && s[|s| - |suffix|..] == suffix
  }

  /** No character of s is a path separator. */
  predicate NoSeparator(s: string)
  {
    forall k :: 0 <= k < |s| ==> !IsSeparator(s[k])
  }

  /** strings.TrimPrefix: s without one leading prefix, or s if it has none. */
  function TrimPrefix(s: string, prefix: string): (r: string)
    ensures HasPrefix(s, prefix) ==> prefix + r == s
    ensures !HasPrefix(s, prefix) ==> r == s
  {
    if HasPrefix(s, prefix) then s[|prefix|..] else s
  }

  /** strings.TrimSuffix: s without one trailing suffix, or s if it has none. */
  function TrimSuffix(s: string, suffix: string): (r: string)
    ensures HasSuffix(s, suffix) ==> r + suffix == s
    ensures !HasSuffix(s, suffix) ==> r == s
  {
    if HasSuffix(s, suffix) then s[..|s| - |suffix|] else s
  }

  /** filepath.ToSlash: every host separator becomes '/', nothing else changes. */
  function ToSlash(path: string): (r: string)
    ensures |r| == |path|
    ensures forall k :: 0 <= k < |path| ==> r[k] == (if path[k] == Separator then '/' else path[k])
    decreases |path|
  {
    if path == [] then []
    else
      var c := path[|path| - 1];
      ToSlash(path[..|path| - 1]) + [if c == Separator then '/' else c]
  }

  /** The scan behind filepath.Ext: walking back from position i over a tail
      that holds neither '.' nor a separator, the suffix of path that starts
      at the first '.' met, or "" when a separator or the start comes first. */
  function ExtBefore(path: string, i: nat): (r: string)
    requires i <= |path|
    requires forall k :: i <= k < |path| ==> path[k] != '.' && !IsSeparator(path[k])
    ensures r == [] || (r[0] == '.' && HasSuffix(path, r))
    ensures forall k :: 0 < k < |r| ==> r[k] != '.' && !IsSeparator(r[k])
    ensures r == [] ==> forall k :: 0 <= k < |path| && path[k] == '.' ==>
      exists j :: k < j < i && IsSeparator(path[j])
    decreases i
  {
    if i == 0 || IsSeparator(path[i - 1]) then
      assert forall k :: 0 <= k < |path| && path[k] == '.' ==> k < i - 1 && IsSeparator(path[i - 1]);
      ""
    else if path[i - 1] == '.' then path[i - 1..]
    else ExtBefore(path, i - 1)
  }

  /** filepath.Ext: the suffix of the last path element that starts at its
      final '.', or "" when that element has no '.'. */
  function Ext(path: string): (r: string)
    ensures r == [] || (r[0] == '.' && HasSuffix(path, r))
    ensures forall k :: 0 < k < |r| ==> r[k] != '.' && !IsSeparator(r[k])
    ensures r == [] ==> forall k :: 0 <= k < |path| && path[k] == '.' ==>
      exists j :: k < j < |path| && IsSeparator(path[j])
  {
    ExtBefore(path, |path|)
  }

  /** The scan behind filepath.Base: the longest suffix of p that holds no separator. */
  function LastElement(p: string): (r: string)
    ensures HasSuffix(p, r) && NoSeparator(r)
    ensures |r| < |p| ==> IsSeparator(p[|p| - |r| - 1])
    decreases |p|
  {
    if p == [] || IsSeparator(p[|p| - 1]) then []
    else LastElement(p[..|p| - 1]) + [p[|p| - 1]]
  }

  /** p without its trailing separators. */
  function TrimTrailingSeparators(p: string): (r: string)
    ensures HasPrefix(p, r)
    ensures r == [] || !IsSeparator(r[|r| - 1])
    ensures forall k :: |r| <= k < |p| ==> IsSeparator(p[k])
    decreases |p|
  {
    if p != [] && IsSeparator(p[|p| - 1]) then TrimTrailingSeparators(p[..|p| - 1]) else p
  }

  /** filepath.Base: "." for the empty path; otherwise the last element once
      trailing separators are dropped, or the separator itself when nothing
      but separators was there. */
  function Base(path: string): (r: string)
    ensures r != []
    ensures path == [] ==> r == "."
    ensures path != [] && !IsSeparator(path[|path| - 1]) ==>
      && HasSuffix(path, r) && NoSeparator(r)
      && (|r| == |path| || IsSeparator(path[|path| - |r| - 1]))
    ensures path != [] && TrimTrailingSeparators(path) == [] ==> r == [Separator]
    ensures var stripped := TrimTrailingSeparators(path);
      stripped != [] ==>
        && HasSuffix(stripped, r) && NoSeparator(r)
        && (|r| == |stripped| || IsSeparator(stripped[|stripped| - |r| - 1]))
  {
    if path == [] then "."
    else
      var stripped := TrimTrailingSeparators(path);
      if stripped == [] then [Separator] else LastElement(stripped)
  }

  /** The element after the last separator is the whole of a separator-free
      tail: Base("dir/file") is "file". */
  lemma {:induction false} BaseOfJoin(dir: string, file: string)
    requires file != [] && NoSeparator(file)
    ensures Base(dir + "/" + file) == file
  {
    var p := dir + "/" + file;
    var start := |p| - |file|;
    assert p[start - 1] == '/';
    assert forall k :: start <= k < |p| ==> p[k] == file[k - start];
    assert p[|p| - 1] == file[|file| - 1];
    assert TrimTrailingSeparators(p) == p;
    var r := LastElement(p);
    assert |r| == |file|;
    assert r == p[start..] == file;
  }

  /** Trailing separators are dropped before the last element is taken:
      Base("dir/elem/") is "elem". */
  lemma {:induction false} BaseOfDirectory(dir: string, elem: string)
    requires elem != [] && NoSeparator(elem)
    ensures Base(dir + "/" + elem + "/") == elem
  {
    var q := dir + "/" + elem;
    var p := q + "/";
    assert p[..|p| - 1] == q;
    assert q[|q| - 1] == elem[|elem| - 1];
    assert TrimTrailingSeparators(p) == TrimTrailingSeparators(q) == q;
    BaseOfJoin(dir, elem);
  }

  /** A suffix of the tail is a suffix of the whole. */
  lemma SuffixOfAppend(a: string, b: string, suffix: string)
    requires HasSuffix(b, suffix)
    ensures HasSuffix(a + b, suffix)
  {
  }

  /** filepath.Ext(path) is ".m3u8" exactly when the path ends in ".m3u8". */
  lemma ExtIsM3u8Iff(path: string)
    ensures Ext(path) == ".m3u8" <==> HasSuffix(path, ".m3u8")
  {
    if HasSuffix(path, ".m3u8") {
      var n := |path|;
      assert path[n - 5..] == ".m3u8";
      assert path[n - 1] == '8' && path[n - 2] == 'u' && path[n - 3] == '3' && path[n - 4] == 'm';
      assert ExtBefore(path, n) == ExtBefore(path, n - 1);
      assert ExtBefore(path, n - 1) == ExtBefore(path, n - 2);
      assert ExtBefore(path, n - 2) == ExtBefore(path, n - 3);
      assert ExtBefore(path, n - 3) == ExtBefore(path, n - 4);
      assert ExtBefore(path, n - 4) == path[n - 5..];
    }
  }

}
