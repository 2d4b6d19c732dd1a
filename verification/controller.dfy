/**
 * `StaticController::serve`: guard the joined path, require a regular
 * file, negotiate the conditional headers, and otherwise answer with the
 * file's bytes and a year of caching.
 */
module StaticController {
  import opened Wrappers
  import opened Text
  import opened Paths
  import opened Mime
  import opened FileSystem
  import opened PathGuard
  import opened Cache

  const MaxAge := 31536000
  const CacheControl := "public, max-age=31536000"

  /**
   * What `serve` takes from its surroundings: the application root, the
   * clock (`time()`), `strtotime`, `gmdate` in HTTP-date format, and the
   * content digest behind `md5_file`.
   */
  datatype Env = Env(root: string, now: int, parseDate: string -> Option<int>,
                     httpDate: int -> string, md5: Bytes -> string)

  /** The two request headers `serve` reads; `None` is an absent header. */
  datatype Request = Request(ifModifiedSince: Option<string>, ifNoneMatch: Option<string>)

  datatype Headers = Headers(contentType: string, contentLength: nat, lastModified: string,
                             etag: string, cacheControl: string, expires: string)

  /**
   * `ServerError` is an uncaught exception inside the guard: the `TypeError`
   * when the static root does not canonicalise, or `realpath`'s error for a
   * path holding a NUL byte.
   */
  datatype Outcome =
    | Forbidden
    | NotFound
    | NotModified
    | Content(body: Bytes, headers: Headers)
    | ServerError

  function Serve(env: Env, fs: Fs, req: Request, path: string): (o: Outcome)
    ensures var full := FullPath(env.root, path);
      && (o.Forbidden? <==> IsPathSafe(fs.realpath, env.root, full) == Unsafe)
      && (o.ServerError? <==> IsPathSafe(fs.realpath, env.root, full) in {NoRoot, BadPath})
      && (o.NotFound? <==> IsPathSafe(fs.realpath, env.root, full) == Safe && full !in fs.files)
      && (o.NotModified? <==>
            && IsPathSafe(fs.realpath, env.root, full) == Safe && full in fs.files
            && (|| ModifiedSinceHit(req.ifModifiedSince, fs.files[full].mtime, env.parseDate)
                || NoneMatchHit(req.ifNoneMatch, env.md5(fs.files[full].content))))
    ensures o.Content? ==>
      var full := FullPath(env.root, path);
      && full in fs.files
      && o.body == fs.files[full].content
      && o.headers.contentType == MimeType(Extension(full))
      && o.headers.contentLength == |o.body|
      && o.headers.lastModified == env.httpDate(fs.files[full].mtime)
      && o.headers.etag == env.md5(o.body)
      && o.headers.cacheControl == "public, max-age=31536000"
      && o.headers.expires == env.httpDate(env.now + 31536000)
  {
    var full := FullPath(env.root, path);
    match IsPathSafe(fs.realpath, env.root, full)
    case Unsafe => Forbidden
    case NoRoot => ServerError
    case BadPath => ServerError
    case Safe =>
      if full !in fs.files then NotFound
      else
        var file := fs.files[full];
        var etag := env.md5(file.content);
        if Negotiate(req.ifModifiedSince, req.ifNoneMatch, file.mtime, etag, env.parseDate).NotModified? then
          Outcome.NotModified
        else
          Content(file.content,
                  Headers(MimeType(Extension(full)), |file.content|, env.httpDate(file.mtime),
                          etag, CacheControl, env.httpDate(env.now + MaxAge)))
  }

  /**
   * The guard looks only at canonical paths: whether a file exists at the
   * requested path never turns a rejection into anything else.
   */
  lemma ForbiddenWhetherOrNotPresent(env: Env, fs: Fs, files': map<string, FileInfo>,
                                     req: Request, req': Request, path: string)
    requires Serve(env, fs, req, path) == Forbidden
    ensures Serve(env, Fs(fs.realpath, files'), req', path) == Forbidden
  {
  }

  /** A path whose canonical form (or parent's) leaves the root is rejected, present or not. */
  lemma EscapeIsForbidden(env: Env, fs: Fs, req: Request, path: string)
    requires !RealpathThrows(env.root, FullPath(env.root, path))
    requires StaticDir(env.root) in fs.realpath
    requires var full := FullPath(env.root, path);
      || (full in fs.realpath && !(fs.realpath[StaticDir(env.root)] <= fs.realpath[full]))
      || (full !in fs.realpath && Dirname(full) in fs.realpath
          && !(fs.realpath[StaticDir(env.root)] <= fs.realpath[Dirname(full)]))
    ensures Serve(env, fs, req, path) == Forbidden
  {
  }

  /**
   * Every answer other than 403 or the root failure, in particular every
   * file served, comes from a path whose canonical form or whose parent's
   * canonical form starts with the canonical static root.
   */
  lemma AnsweredOnlyUnderRoot(env: Env, fs: Fs, req: Request, path: string)
    requires !Serve(env, fs, req, path).Forbidden? && !Serve(env, fs, req, path).ServerError?
    ensures var full := FullPath(env.root, path);
      && StaticDir(env.root) in fs.realpath
      && (full in fs.realpath ==> fs.realpath[StaticDir(env.root)] <= fs.realpath[full])
      && (full !in fs.realpath ==>
            Dirname(full) in fs.realpath
            && fs.realpath[StaticDir(env.root)] <= fs.realpath[Dirname(full)])
  {
  }

  /**
   * A missing file directly in the static directory is a 404, not a 403,
   * provided the static directory canonicalises the same with or without
   * its trailing slash (as `realpath` does).
   */
  lemma MissingFileIsNotFound(env: Env, fs: Fs, req: Request, name: string)
    requires name != [] && NoChar(name, '/') && NoChar(name, '\0') && NoChar(env.root, '\0')
    requires StaticDir(env.root) in fs.realpath
    requires env.root + "public/static" in fs.realpath
    requires fs.realpath[env.root + "public/static"] == fs.realpath[StaticDir(env.root)]
    requires StaticDir(env.root) + name !in fs.realpath
    requires StaticDir(env.root) + name !in fs.files
    ensures Serve(env, fs, req, name) == NotFound
  {
    LtrimStripsExactlyLeadingSlashes([], name);
    JoinAvoids(env.root, "public/static/", '\0');
    JoinAvoids(StaticDir(env.root), name, '\0');
    var dir := env.root + "public/static";
    assert StaticDir(env.root) == dir + "/";
    DirnameOfChild(dir, name);
  }

  /**
   * An empty path, or one of slashes only, names the static directory
   * itself; being a directory and not a file, it is a 404.
   */
  lemma EmptyPathIsNotFound(env: Env, fs: Fs, req: Request, path: string)
    requires AllOf(path, '/') && NoChar(env.root, '\0')
    requires StaticDir(env.root) in fs.realpath
    requires StaticDir(env.root) !in fs.files
    ensures Serve(env, fs, req, path) == NotFound
  {
    FullPathOfSlashes(env.root, path);
    JoinAvoids(env.root, "public/static/", '\0');
  }

  /**
   * The 304 decision uses only the modification time and the digest:
   * files agreeing on both, whatever their bytes, are answered alike.
   */
  lemma NotModifiedNeedsNoContent(env: Env, fs: Fs, req: Request, path: string, other: FileInfo)
    requires FullPath(env.root, path) in fs.files
    requires other.mtime == fs.files[FullPath(env.root, path)].mtime
    requires env.md5(other.content) == env.md5(fs.files[FullPath(env.root, path)].content)
    ensures Serve(env, Fs(fs.realpath, fs.files[FullPath(env.root, path) := other]), req, path).NotModified?
        <==> Serve(env, fs, req, path).NotModified?
  {
  }

  /** Without conditional headers a served file is returned in full. */
  lemma UnconditionalServesContent(env: Env, fs: Fs, path: string)
    requires IsPathSafe(fs.realpath, env.root, FullPath(env.root, path)) == Safe
    requires FullPath(env.root, path) in fs.files
    ensures Serve(env, fs, Request(None, None), path).Content?
    ensures Serve(env, fs, Request(None, None), path).body == fs.files[FullPath(env.root, path)].content
  {
  }

  /** The response `serve` hands to the framework: status code and body. */
  datatype Response = Response(status: int, body: Bytes)

  /** The byte string of an ASCII text. */
  function Ascii(s: string): (b: Bytes)
    requires forall i :: 0 <= i < |s| ==> s[i] as int < 128
    ensures |b| == |s|
    ensures forall i :: 0 <= i < |s| ==> b[i] as int == s[i] as int
  {
    if s == [] then [] else [s[0] as int as byte] + Ascii(s[1..])
  }

  /** The `response(...)` calls of `serve`, one per outcome. */
  function Respond(o: Outcome): (r: Response)
    ensures r.status == 200 <==> o.Content?
    ensures r.status == 304 <==> o.NotModified?
    ensures r.status == 403 <==> o.Forbidden?
    ensures r.status == 404 <==> o.NotFound?
    ensures o.NotModified? ==> r.body == []
    ensures o.Content? ==> r.body == o.body
    ensures o.Forbidden? ==> r.body == Ascii("Forbidden")
    ensures o.NotFound? ==> r.body == Ascii("File not found")
    ensures o.ServerError? ==> r.status == 500
  {
    match o
    case Forbidden => Response(403, Ascii("Forbidden"))
    case NotFound => Response(404, Ascii("File not found"))
    case NotModified() => Response(304, [])
    case Content(body, _) => Response(200, body)
    case ServerError => Response(500, [])
  }

  /**
   * The status code of the answer, in terms of the guard, the file table
   * and the conditional headers: 403 before 404, and 304 before any read.
   */
  lemma StatusOfServe(env: Env, fs: Fs, req: Request, path: string)
    ensures var full := FullPath(env.root, path);
      var status := Respond(Serve(env, fs, req, path)).status;
      && (status == 403 <==> IsPathSafe(fs.realpath, env.root, full) == Unsafe)
      && (status == 404 <==> IsPathSafe(fs.realpath, env.root, full) == Safe && full !in fs.files)
      && (status == 304 <==>
            && IsPathSafe(fs.realpath, env.root, full) == Safe && full in fs.files
            && (|| ModifiedSinceHit(req.ifModifiedSince, fs.files[full].mtime, env.parseDate)
                || NoneMatchHit(req.ifNoneMatch, env.md5(fs.files[full].content))))
      && (status == 200 ==> Respond(Serve(env, fs, req, path)).body == fs.files[full].content)
  {
  }

  /**
   * A NUL byte anywhere in the request path survives the join, so
   * `realpath` throws and the request fails with a server error before any
   * 403 or 404 is decided.
   */
  lemma NulInPathIsServerError(env: Env, fs: Fs, req: Request, path: string, i: nat)
    requires i < |path| && path[i] == '\0'
    ensures Serve(env, fs, req, path) == ServerError
  {
    FullPathKeepsNonSlash(env.root, path, i);
    assert RealpathThrows(env.root, FullPath(env.root, path));
  }
}
