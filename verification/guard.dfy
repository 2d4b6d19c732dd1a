/**
 * `isPathSafe`: canonicalise the requested path (or, failing that, its
 * parent directory) and accept it when the canonical static root is a
 * string prefix of the result. The test is `str_starts_with`, not a
 * comparison on path segments.
 */
module PathGuard {
  import opened Wrappers
  import opened Text
  import opened Paths
  import opened FileSystem

  /**
   * `Safe` and `Unsafe` are the two boolean answers. `BadPath` is the error
   * PHP 8's `realpath` throws for a path holding a NUL byte (`ValueError`
   * from 8.1, `TypeError` in 8.0). `NoRoot` is the
   * `TypeError` that `str_starts_with` raises under strict types when the
   * root itself does not canonicalise.
   */
  datatype Guard = Safe | Unsafe | NoRoot | BadPath

  /** The canonical path the check compares: the path itself, else its parent. */
  function Resolve(realpath: map<string, string>, full: string): (r: Option<string>)
    ensures r.Some? <==> full in realpath || Dirname(full) in realpath
    ensures full in realpath ==> r == Some(realpath[full])
    ensures full !in realpath && Dirname(full) in realpath ==> r == Some(realpath[Dirname(full)])
  {
    match RealPath(realpath, full)
    case Some(c) => Some(c)
    case None => RealPath(realpath, Dirname(full))
  }

  /**
   * `realpath` takes its argument as a path, and PHP 8 throws for a path
   * holding a NUL byte: the static directory is passed first, then the
   * full path.
   */
  predicate RealpathThrows(root: string, full: string) {
    !NoChar(StaticDir(root), '\0') || !NoChar(full, '\0')
  }

  function IsPathSafe(realpath: map<string, string>, root: string, full: string): (g: Guard)
    // a NUL byte in either path handed to `realpath` throws before any comparison
    ensures g == BadPath <==> RealpathThrows(root, full)
    // the requested path canonicalises: judged on its canonical form
    ensures !RealpathThrows(root, full) && full in realpath && StaticDir(root) in realpath ==>
      (g == Safe <==> realpath[StaticDir(root)] <= realpath[full])
    // it does not: judged on its parent's canonical form
    ensures && !RealpathThrows(root, full) && full !in realpath
            && Dirname(full) in realpath && StaticDir(root) in realpath ==>
      (g == Safe <==> realpath[StaticDir(root)] <= realpath[Dirname(full)])
    // neither canonicalises: rejected, whatever the root does
    ensures !RealpathThrows(root, full) && full !in realpath && Dirname(full) !in realpath ==> g == Unsafe
    // something canonicalised but the root did not
    ensures g == NoRoot <==>
      !RealpathThrows(root, full) && StaticDir(root) !in realpath && (full in realpath || Dirname(full) in realpath)
  {
    var staticPath := RealPath(realpath, StaticDir(root));
    if RealpathThrows(root, full) then BadPath
    else match Resolve(realpath, full)
    case None => Unsafe
    case Some(requested) =>
      if staticPath.None? then NoRoot
      else if staticPath.value <= requested then Safe
      else Unsafe
  }

  /**
   * The guard never rejects what segment-aware containment in the
   * canonical root would accept, whether the canonical form compared is
   * the path's own or its parent's.
   */
  lemma AcceptsContained(realpath: map<string, string>, root: string, full: string, c: string)
    requires !RealpathThrows(root, full)
    requires StaticDir(root) in realpath
    requires Resolve(realpath, full) == Some(c)
    requires Within(realpath[StaticDir(root)], c)
    ensures IsPathSafe(realpath, root, full) == Safe
  {
  }

  /**
   * A request that canonicalises to a sibling of the static directory
   * sharing its name as a prefix (`.../public/staticized/x`) is accepted,
   * although it lies outside the root.
   */
  lemma AcceptsPrefixSibling(realpath: map<string, string>, root: string, full: string, s: string)
    requires !RealpathThrows(root, full)
    requires StaticDir(root) in realpath && full in realpath
    requires realpath[StaticDir(root)] != [] && realpath[StaticDir(root)][|realpath[StaticDir(root)]| - 1] != '/'
    requires s != [] && s[0] != '/'
    requires realpath[full] == realpath[StaticDir(root)] + s
    ensures IsPathSafe(realpath, root, full) == Safe
    ensures !Within(realpath[StaticDir(root)], realpath[full])
  {
  }

  /** The concrete sibling: root `/srv/app/`, request `../staticized/secret.txt`. */
  lemma StaticizedExample()
    ensures
      var root := "/srv/app/";
      var full := FullPath(root, "../staticized/secret.txt");
      var realpath := map[StaticDir(root) := "/srv/app/public/static",
                          full := "/srv/app/public/staticized/secret.txt"];
      && IsPathSafe(realpath, root, full) == Safe
      && !Within(realpath[StaticDir(root)], realpath[full])
  {
    var root := "/srv/app/";
    var full := FullPath(root, "../staticized/secret.txt");
    LtrimStripsExactlyLeadingSlashes([], "../staticized/secret.txt");
    assert full == StaticDir(root) + "../staticized/secret.txt";
    JoinAvoids(root, "public/static/", '\0');
    JoinAvoids(StaticDir(root), "../staticized/secret.txt", '\0');
    var realpath := map[StaticDir(root) := "/srv/app/public/static",
                        full := "/srv/app/public/staticized/secret.txt"];
    assert "/srv/app/public/staticized/secret.txt" == "/srv/app/public/static" + "ized/secret.txt";
    AcceptsPrefixSibling(realpath, root, full, "ized/secret.txt");
  }
}
