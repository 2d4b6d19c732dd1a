# Static-asset responder of BetterBillSplitter, modelled in Dafny

`StaticController::serve` answers a request for a file below
`<root>public/static/`. It joins the request path to that directory after
stripping leading slashes (`getFullPath`). It then checks that the canonical
form of the joined path, or of its parent directory when the file does not
exist, starts with the canonical static directory (`isPathSafe`). Next it
requires a regular file. It answers 304 when `If-Modified-Since` is at or
after the file's modification time, or when `If-None-Match` equals the MD5
ETag. Otherwise it returns the file with its MIME type (`getMimeType`) and
a one-year cache policy.

The model is purely functional. The filesystem is a value `Fs`:

- `realpath` is a partial map from path strings to canonical paths.
- `files` maps each path that `is_file` accepts to its modification time and bytes.

Date parsing, HTTP-date formatting, the digest and the clock come in through
`Env`. `Serve` returns one of `Forbidden | NotFound | NotModified | Content |
ServerError`, and `Respond` turns that into a status code and body. `Serve`
is a function of its inputs, so two identical requests against the same
filesystem get identical bodies and ETags by construction.

Modules, in dependency order:

- `Wrappers`: `Option`.
- `Text`: `ltrim`, `strtolower` and last-occurrence search.
- `Paths`: `getFullPath`, `dirname`, the `pathinfo` extension, and a segment-aware reference predicate `Within`.
- `Mime`: `getMimeType`.
- `FileSystem`: the abstract filesystem.
- `PathGuard`: `isPathSafe`.
- `Cache`: the conditional-request decision.
- `StaticController`: `serve`.

Four behaviours of the code are modelled as written:

- **Containment is a plain string prefix.** `isPathSafe` uses
  `str_starts_with` on the canonical paths, not a test on path segments.
  `realpath` drops the trailing slash of the static directory, so a canonical
  path such as `<root>public/staticized/x` is accepted.
  - `PathGuard.IsPathSafe` models the prefix test.
  - `Paths.PrefixAdmitsSiblings`, `PathGuard.AcceptsPrefixSibling` and
    `PathGuard.StaticizedExample` show the consequence.
  - `PathGuard.AcceptsContained` shows the other direction: every path whose
    compared canonical form is inside the root by path segments is accepted.
    The compared form is the path's own or, failing that, its parent's.
- **An unparsable `If-Modified-Since` date.** `strtotime` returns `false`, and
  PHP compares `false >= $mtime` as booleans. That comparison holds exactly
  when the modification time is 0. So an unparsable date answers 304 for a
  file with modification time 0. For any other file it falls through to the
  ETag test. `Cache.ModifiedSinceHit` models this.
- **A NUL byte in the request path.** `realpath` takes its argument as a
  path, and PHP 8 throws for a path holding a NUL byte: a `ValueError` from
  8.1, a `TypeError` in 8.0. Nothing catches it, so such a request ends in a
  server error before any 403 or 404 is decided. `PathGuard.IsPathSafe`
  answers `BadPath` for it, and `Serve` answers `ServerError`.
- **Header truthiness.** Header values are judged by PHP truthiness, so a
  header whose value is `""` or `"0"` counts as absent.

## Model

| member | source | states |
|---|---|---|
| Text.Lower | app/controller/StaticController.php:133 | `strtolower` (PHP 8.2+, or the C locale) keeps the length, lowers each ASCII capital, leaves every other byte alone, and leaves no capital behind |
| Text.LowerIdempotent | app/controller/StaticController.php:133 | lower-casing an already lower-cased extension changes nothing |
| Text.LtrimSlashes | app/controller/StaticController.php:78 | `ltrim($path, '/')` splits the input into a run of slashes followed by the result, and the result does not begin with a slash |
| Text.LtrimStripsExactlyLeadingSlashes | app/controller/StaticController.php:78 | for any run of slashes followed by a text not starting with a slash, ltrim returns exactly that text |
| Text.LtrimIdempotent | app/controller/StaticController.php:78 | stripping leading slashes twice gives the same result as stripping once |
| Paths.FullPath | app/controller/StaticController.php:75-79 | the full path begins with `<root>public/static/`; what follows is the request path minus a leading run made only of slashes; the first character after the root prefix is never a slash |
| Paths.FullPathKeepsNonSlash | app/controller/StaticController.php:78 | every character of the request path other than `/` survives into the full path |
| Paths.FullPathIgnoresLeadingSlash | app/controller/StaticController.php:78 | prefixing the request path with `/` does not change the full path |
| Paths.FullPathOfStripped | app/controller/StaticController.php:78 | joining an already stripped request path gives the same full path |
| Paths.FullPathOfSlashes | app/controller/StaticController.php:75-79 | an empty request path, or one of slashes only, yields the static directory itself |
| Paths.Dirname | app/controller/StaticController.php:93 | the `dirname` of an absolute path is a non-empty prefix of it that is itself absolute |
| Paths.DirnameOfChild | app/controller/StaticController.php:93 | the parent of `dir/name`, with `name` a single component and `dir` without a trailing slash, is `dir` |
| Paths.ComponentStart | app/controller/StaticController.php:34 | the last component starts right after a slash (or at 0) and contains no slash |
| Paths.Basename | app/controller/StaticController.php:34 | the basename `pathinfo` works on contains no slash |
| Paths.BasenameIsLastComponent | app/controller/StaticController.php:34 | the basename is the longest slash-free tail of the path after its trailing slashes are dropped |
| Paths.Extension | app/controller/StaticController.php:34-35 | the extension is a suffix of the basename that contains neither a slash nor a dot |
| Paths.ExtensionOf | app/controller/StaticController.php:34-35 | any path ending in `/stem.ext` has extension `ext` |
| Paths.PrefixAdmitsSiblings | app/controller/StaticController.php:100 | a root without trailing slash is a string prefix of `root + s`, yet `root + s` is not inside it when `s` does not start with a slash |
| Mime.MimeType | app/controller/StaticController.php:108-133 | the type is the table entry of the lower-cased extension when there is one and `application/octet-stream` otherwise, so it is always a table value or the default |
| Mime.KeysReachable | app/controller/StaticController.php:110-133 | every key of the table is reached by its own lookup, so each of the 20 entries is a possible answer |
| Mime.CaseInsensitive | app/controller/StaticController.php:133 | an extension and its lower case get the same type |
| Mime.SameLowerSameType | app/controller/StaticController.php:133 | extensions with equal lower case get the same type |
| Mime.UnknownIsBinary | app/controller/StaticController.php:133 | the empty extension and `xyz` map to `application/octet-stream` |
| Mime.SvgType | app/controller/StaticController.php:118 | `svg` maps to `image/svg+xml` |
| Mime.JpegAliases | app/controller/StaticController.php:115-116 | `jpg`, `jpeg` and `JPG` all map to `image/jpeg` |
| Mime.HtmlAliases | app/controller/StaticController.php:127-128 | `html` and `htm` both map to `text/html` |
| FileSystem.RealPath | app/controller/StaticController.php:88-93 | `realpath` gives a canonical path exactly for the paths that canonicalise, and `false` (`None`) for all others |
| PathGuard.Resolve | app/controller/StaticController.php:89-97 | the path compared is the canonical form of the full path when it has one, and otherwise that of its `dirname`; there is none only when neither canonicalises |
| PathGuard.IsPathSafe | app/controller/StaticController.php:86-101 | a NUL byte in the static directory or the full path is the error `realpath` throws. Otherwise there are three cases. If the joined path canonicalises, it is safe iff the canonical root is a string prefix of its canonical form. Otherwise the canonical parent decides the same way. If neither canonicalises, it is unsafe. A root that does not canonicalise is the TypeError case |
| PathGuard.AcceptsContained | app/controller/StaticController.php:89-100 | a path whose compared canonical form (its own, or its parent's) is inside the canonical root by path segments is judged safe |
| PathGuard.AcceptsPrefixSibling | app/controller/StaticController.php:88-100 | a path canonicalising to `<canonical root>ized/...` is judged safe though it lies outside the root |
| PathGuard.StaticizedExample | app/controller/StaticController.php:86-101 | root `/srv/app/` with request `../staticized/secret.txt` passes the guard |
| Cache.Truthy | app/controller/StaticController.php:45-49 | a header is truthy only when present and non-empty. Every value of two or more characters is truthy, and a one-character value is truthy unless it is `0` |
| Cache.ModifiedSinceHit | app/controller/StaticController.php:45 | the date test holds only for a truthy header. A parsed date holds iff it is at or after the mtime; an unparsable one holds iff the mtime is 0 (`false >= $mtime`) |
| Cache.NoneMatchHit | app/controller/StaticController.php:49 | the ETag test holds iff the ETag is truthy and the header is exactly the ETag; a `""` or `"0"` ETag never matches |
| Cache.Negotiate | app/controller/StaticController.php:45-51 | the request is not modified iff the date test or the ETag test hits |
| Cache.ModifiedSinceFirst | app/controller/StaticController.php:45-51 | once `If-Modified-Since` hits, the answer is 304 whatever `If-None-Match` says |
| Cache.DateComparison | app/controller/StaticController.php:45-47 | a parsed date at or after the mtime gives 304; one before it, without `If-None-Match`, proceeds |
| Cache.UnparsableDateFallsThrough | app/controller/StaticController.php:45-51 | for a non-zero mtime, an unparsable date behaves exactly like an absent header |
| Cache.EtagStrictEquality | app/controller/StaticController.php:49-51 | without a date, the answer is 304 iff `If-None-Match` equals the ETag exactly |
| StaticController.Serve | app/controller/StaticController.php:18-68 | a server error iff the guard throws (NUL byte, or a root that does not canonicalise). 403 iff the guard rejects, and 404 iff the guard accepts and the path is not a regular file. 304 iff it is a regular file and a conditional header hits. A 200 carries the file's exact bytes, its MIME type, its length, `Last-Modified` of its mtime, the digest as ETag, `public, max-age=31536000`, and `Expires` at now + 31536000 |
| StaticController.ForbiddenWhetherOrNotPresent | app/controller/StaticController.php:24-31 | a rejected path stays rejected whatever files exist and whatever headers are sent |
| StaticController.EscapeIsForbidden | app/controller/StaticController.php:24-26 | a NUL-free path whose canonical form, or parent's when it has none, does not start with the canonical root gets 403 |
| StaticController.AnsweredOnlyUnderRoot | app/controller/StaticController.php:21-31 | every 404, 304 or 200 comes from a path whose canonical form, or parent's when it has none, starts with the canonical root |
| StaticController.MissingFileIsNotFound | app/controller/StaticController.php:28-31 | a missing file directly in the static directory, with no NUL byte in its name or the root, gets 404, not 403 |
| StaticController.NulInPathIsServerError | app/controller/StaticController.php:89 | a request path holding a NUL byte makes `realpath` throw, so the answer is a server error whatever the filesystem and headers |
| StaticController.EmptyPathIsNotFound | app/controller/StaticController.php:28-31 | with a NUL-free root, the empty path names the static directory, which is not a regular file, so it gets 404 |
| StaticController.NotModifiedNeedsNoContent | app/controller/StaticController.php:38-54 | the 304 decision depends on the file only through its mtime and digest, not its bytes |
| StaticController.UnconditionalServesContent | app/controller/StaticController.php:53-67 | with no conditional headers, a safe regular file is served in full |
| StaticController.Respond | app/controller/StaticController.php:24-67 | 403, 404, 304 and 200 each correspond to one outcome, and a server error is a 500. The 403 body is `Forbidden` and the 404 body is `File not found`. A 304 has an empty body, and a 200's body is the file content |
| StaticController.StatusOfServe | app/controller/StaticController.php:18-68 | the status is 403 iff the guard rejects, and 404 iff the guard accepts a path that is not a regular file. It is 304 iff the guard accepts a regular file and the date or ETag test hits. A 200 carries the file's exact content |

## Left out

- Real filesystem calls (`realpath`, `is_file`, `filemtime`, `filesize`, `file_get_contents`) are replaced by the value `Fs`. Races between the check and the read, and I/O failures after validation, are not modelled. `filesize` is taken to be the length of the content read.
- `md5_file` is an opaque digest of the content (`Env.md5`). MD5 itself is not modelled, and neither is the `false` it returns on a read failure.
- `strtotime` is an abstract `string -> Option<int>`, and `gmdate('D, d M Y H:i:s T', t)` is an abstract `int -> string`. Neither date format is modelled.
- `time()` is the parameter `Env.now`.
- The ThinkPHP plumbing is reduced to values. `Request::header` becomes an optional string per header. `response()` becomes `Respond`, whose 500 for an uncaught `TypeError` or `ValueError` stands for the framework's default handling. `getRootPath()` becomes `Env.root`.
- The abstract filesystem answers per path string. Agreement between `is_file` on a path and on its canonical form is not assumed.
- Paths.Dirname: its contract states only that the parent of an absolute path is an absolute prefix of it. The full PHP behaviour on POSIX is in the definition, and `Paths.DirnameOfChild` states the case the controller relies on. Windows separators are not modelled.
- Paths.Extension: `pathinfo` is modelled as the text after the last `.` of the basename (trailing slashes dropped), or `""` when there is none. This is an assumption about the PHP library. Its contract states the shape of the result, and `Paths.ExtensionOf` states the usual case.
- `strtolower` is modelled as ASCII-only lower-casing. That is its behaviour in PHP 8.2+ and in the C locale. On PHP 8.0–8.1 it follows `LC_CTYPE`, and that locale-dependent case folding is not modelled.
