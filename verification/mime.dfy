/** `getMimeType`: a fixed extension table, looked up case-insensitively. */
module Mime {
  import opened Text

  const Default := "application/octet-stream"

  /** The controller's table, keyed by lower-case extension. */
  const MimeTypes: map<string, string> := map[
    "css" := "text/css",
    "js" := "application/javascript",
    "json" := "application/json",
    "png" := "image/png",
    "jpg" := "image/jpeg",
    "jpeg" := "image/jpeg",
    "gif" := "image/gif",
    "svg" := "image/svg+xml",
    "ico" := "image/x-icon",
    "webp" := "image/webp",
    "woff" := "font/woff",
    "woff2" := "font/woff2",
    "ttf" := "font/ttf",
    "eot" := "application/vnd.ms-fontobject",
    "pdf" := "application/pdf",
    "txt" := "text/plain",
    "html" := "text/html",
    "htm" := "text/html",
    "xml" := "application/xml",
    "zip" := "application/zip"
  ]

  /**
   * The content type for an extension: the table entry for its lower case,
   * or the generic binary type when there is none.
   */
  function MimeType(ext: string): (r: string)
    ensures r == Default || r in MimeTypes.Values
    ensures Lower(ext) in MimeTypes ==> r == MimeTypes[Lower(ext)]
    ensures Lower(ext) !in MimeTypes ==> r == Default
  {
    var key := Lower(ext);
    if key in MimeTypes then MimeTypes[key] else Default
  }

  /** The lookup ignores case: an extension and its lower case get the same type. */
  lemma CaseInsensitive(ext: string)
    ensures MimeType(ext) == MimeType(Lower(ext))
  {
    LowerIdempotent(ext);
  }

  /** Extensions differing only in ASCII case get the same type. */
  lemma SameLowerSameType(a: string, b: string)
    requires Lower(a) == Lower(b)
    ensures MimeType(a) == MimeType(b)
  {
  }

  /** Every key of the table is lower case, so every entry is reachable. */
  lemma KeysReachable(k: string)
    requires k in MimeTypes
    ensures MimeType(k) == MimeTypes[k]
  {
    assert k in {"css", "js", "json", "png", "jpg", "jpeg", "gif", "svg", "ico", "webp",
                 "woff", "woff2", "ttf", "eot", "pdf", "txt", "html", "htm", "xml", "zip"};
    LowerOfLower(k);
  }

  /** An empty or unlisted extension falls back to the generic binary type. */
  lemma UnknownIsBinary()
    ensures MimeType("") == Default
    ensures MimeType("xyz") == Default
  {
  }

  lemma SvgType()
    ensures MimeType("svg") == "image/svg+xml"
  {
    LowerOfLower("svg");
  }

  /** `jpg` and `jpeg`, in any case, are both JPEG. */
  lemma JpegAliases()
    ensures MimeType("jpg") == "image/jpeg" && MimeType("jpeg") == "image/jpeg"
    ensures MimeType("JPG") == "image/jpeg"
  {
    LowerOfLower("jpg");
    LowerOfLower("jpeg");
    assert Lower("JPG") == "jpg";
  }

  /** `html` and `htm` are both HTML. */
  lemma HtmlAliases()
    ensures MimeType("html") == "text/html" && MimeType("htm") == "text/html"
  {
    LowerOfLower("html");
    LowerOfLower("htm");
  }
}
