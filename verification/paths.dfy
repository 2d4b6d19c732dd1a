/**
 * Path joining and the PHP path helpers the controller calls:
 * `getFullPath`, `dirname` and the `extension` part of `pathinfo`, plus a
 * segment-aware containment predicate used as a reference point for the
 * controller's own (string-prefix) check.
 */
module Paths {
  import opened Wrappers
  import opened Text

  /** The static root as `getFullPath` spells it: `<root>public/static/`. */
  function StaticDir(root: string): string {
    root + "public/static/"
  }

  /**
   * `getFullPath`: the static root followed by the request path with its
   * leading slashes removed. Stated as the unique split of `path` into a
   * run of slashes and the tail that ends up after the root.
   */
  function FullPath(root: string, path: string): (r: string)
    ensures StaticDir(root) <= r
    ensures |r| - |StaticDir(root)| <= |path|
    ensures r[|StaticDir(root)|..] == path[|path| - (|r| - |StaticDir(root)|)..]
    ensures AllOf(path[..|path| - (|r| - |StaticDir(root)|)], '/')
    ensures |r| == |StaticDir(root)| || r[|StaticDir(root)|] != '/'
  {
    StaticDir(root) + LtrimSlashes(path)
  }

  /** Every character of the request path other than a slash reaches the full path. */
  lemma FullPathKeepsNonSlash(root: string, path: string, i: nat)
    requires i < |path| && path[i] != '/'
    ensures !NoChar(FullPath(root, path), path[i])
  {
    var t := LtrimSlashes(path);
    assert FullPath(root, path) == StaticDir(root) + t;
    var k := |path| - |t|;
    assert forall j :: 0 <= j < k ==> path[j] == '/' by {
      forall j | 0 <= j < k
        ensures path[j] == '/'
      {
        assert path[..k][j] == path[j];
      }
    }
    assert t[i - k] == path[i];
    assert (StaticDir(root) + t)[|StaticDir(root)| + (i - k)] == path[i];
  }

  /** Leading slashes in the request never change the joined path. */
  lemma FullPathIgnoresLeadingSlash(root: string, path: string)
    ensures FullPath(root, "/" + path) == FullPath(root, path)
  {
  }

  /** Joining an already stripped path gives the same full path. */
  lemma FullPathOfStripped(root: string, path: string)
    ensures FullPath(root, LtrimSlashes(path)) == FullPath(root, path)
  {
  }

  /** An empty request path, or one made only of slashes, names the static directory itself. */
  lemma FullPathOfSlashes(root: string, path: string)
    requires AllOf(path, '/')
    ensures FullPath(root, path) == StaticDir(root)
  {
  }

  /**
   * PHP's `dirname` on POSIX: drop trailing slashes, then the last
   * component, then the slashes before it; "" stays "", a path without a
   * slash gives ".", and the root gives "/".
   */
  function Dirname(p: string): (d: string)
    ensures |p| > 0 && p[0] == '/' ==> d <= p && |d| > 0 && d[0] == '/'
    ensures p != [] ==> d != []
  {
    if p == [] then []
    else
      var a := TrimTrailingSlashes(p);
      if a == [] then "/"
      else
        match LastIndexOf(a, '/')
        case None => "."
        case Some(i) =>
          var b := TrimTrailingSlashes(a[..i]);
          if b == [] then "/" else b
  }

  predicate NoChar(s: string, c: char) {
    forall i :: 0 <= i < |s| ==> s[i] != c
  }

  /** Joining texts free of `c` gives a text free of `c`. */
  lemma JoinAvoids(a: string, b: string, c: char)
    requires NoChar(a, c) && NoChar(b, c)
    ensures NoChar(a + b, c)
  {
  }

  /** The parent of `dir/name`, for a single component `name`, is `dir`. */
  lemma DirnameOfChild(dir: string, name: string)
    requires dir != [] && dir[|dir| - 1] != '/'
    requires name != [] && NoChar(name, '/')
    ensures Dirname(dir + "/" + name) == dir
  {
    var p := dir + "/" + name;
    assert p[|p| - 1] == name[|name| - 1];
    assert TrimTrailingSlashes(p) == p;
    LastIndexOfAt(p, '/', |dir|);
    assert p[..|dir|] == dir;
  }

  /** Where the last component of `a` starts: just after its last slash, or at 0. */
  function ComponentStart(a: string): (j: nat)
    ensures j <= |a|
    ensures j > 0 ==> a[j - 1] == '/'
    ensures NoChar(a[j..], '/')
  {
    match LastIndexOf(a, '/')
    case None => 0
    case Some(i) => i + 1
  }

  /**
   * The basename as `pathinfo` sees it: trailing slashes dropped, then
   * everything after the last slash.
   */
  function Basename(p: string): (b: string)
    ensures NoChar(b, '/')
  {
    var a := TrimTrailingSlashes(p);
    a[ComponentStart(a)..]
  }

  /**
   * The basename is the longest slash-free tail of the path once its
   * trailing slashes are dropped.
   */
  lemma BasenameIsLastComponent(p: string)
    ensures var a := TrimTrailingSlashes(p); var b := Basename(p);
      && |b| <= |a| && b == a[|a| - |b|..]
      && (|b| < |a| ==> a[|a| - |b| - 1] == '/')
  {
    var a := TrimTrailingSlashes(p);
    assert |a| - |Basename(p)| == ComponentStart(a);
  }

  /**
   * `pathinfo($p)['extension'] ?? ''`: the text after the last dot of the
   * basename, or "" when the basename has no dot.
   */
  function Extension(p: string): (e: string)
    ensures NoChar(e, '/') && NoChar(e, '.')
    ensures |e| <= |Basename(p)| && e == Basename(p)[|Basename(p)| - |e|..]
  {
    var b := Basename(p);
    match LastIndexOf(b, '.')
    case None => []
    case Some(i) => b[i + 1..]
  }

  /** A file named `stem.ext` under any directory has extension `ext`. */
  lemma ExtensionOf(dir: string, stem: string, ext: string)
    requires NoChar(stem, '/')
    requires ext != [] && NoChar(ext, '/') && NoChar(ext, '.')
    ensures Extension(dir + "/" + stem + "." + ext) == ext
  {
    var p := dir + "/" + stem + "." + ext;
    assert p[|p| - 1] == ext[|ext| - 1];
    assert TrimTrailingSlashes(p) == p;
    LastIndexOfAt(p, '/', |dir|);
    var b := p[|dir| + 1..];
    assert b == stem + "." + ext;
    LastIndexOfAt(b, '.', |stem|);
  }

  /**
   * Segment-aware containment of a canonical path `c` in a canonical
   * directory `root`: equal, or continuing with a separator.
   */
  predicate Within(root: string, c: string) {
    root <= c && (|c| == |root| || c[|root|] == '/' || (root != [] && root[|root| - 1] == '/'))
  }

  /**
   * ...but not conversely: a sibling whose name merely extends the root's
   * last component (`<root>ized/x`) passes the prefix test without being
   * inside the root.
   */
  lemma PrefixAdmitsSiblings(root: string, s: string)
    requires root != [] && root[|root| - 1] != '/'
    requires s != [] && s[0] != '/'
    ensures root <= root + s
    ensures !Within(root, root + s)
  {
  }
}
