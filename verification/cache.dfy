/**
 * The conditional-request decision of `serve`: `If-Modified-Since` first,
 * then `If-None-Match` by strict equality with the ETag.
 */
module Cache {
  import opened Wrappers

  /** A header value as PHP's `&&` sees it: absent (null), "" and "0" are false. */
  predicate Truthy(h: Option<string>)
    ensures Truthy(h) ==> h.Some? && |h.value| > 0
    ensures h.Some? && |h.value| >= 2 ==> Truthy(h)
    ensures h.Some? && |h.value| == 1 ==> (Truthy(h) <==> h.value[0] != '0')
  {
    h.Some? && h.value != "" && h.value != "0"
  }

  /**
   * `$ims && strtotime($ims) >= $mtime`. When the date does not parse,
   * `strtotime` yields `false`, and PHP compares `false >= $mtime` as
   * booleans: it holds only for a zero modification time.
   */
  predicate ModifiedSinceHit(ims: Option<string>, mtime: int, parseDate: string -> Option<int>)
    ensures ModifiedSinceHit(ims, mtime, parseDate) ==> Truthy(ims)
    ensures Truthy(ims) && parseDate(ims.value).Some? ==>
      (ModifiedSinceHit(ims, mtime, parseDate) <==> parseDate(ims.value).value >= mtime)
    ensures Truthy(ims) && parseDate(ims.value).None? ==>
      (ModifiedSinceHit(ims, mtime, parseDate) <==> mtime == 0)
  {
    Truthy(ims) &&
    match parseDate(ims.value)
    case Some(t) => t >= mtime
    case None => mtime == 0
  }

  /** `$inm && $inm === $etag`. */
  predicate NoneMatchHit(inm: Option<string>, etag: string)
    ensures NoneMatchHit(inm, etag) <==> Truthy(Some(etag)) && inm == Some(etag)
  {
    Truthy(inm) && inm.value == etag
  }

  datatype Verdict = NotModified | Proceed

  function Negotiate(ims: Option<string>, inm: Option<string>, mtime: int, etag: string,
                     parseDate: string -> Option<int>): (v: Verdict)
    ensures v == NotModified <==> ModifiedSinceHit(ims, mtime, parseDate) || NoneMatchHit(inm, etag)
  {
    if ModifiedSinceHit(ims, mtime, parseDate) then NotModified
    else if NoneMatchHit(inm, etag) then NotModified
    else Proceed
  }

  /** `If-Modified-Since` decides first: once it hits, `If-None-Match` is irrelevant. */
  lemma ModifiedSinceFirst(ims: Option<string>, inm: Option<string>, inm': Option<string>,
                           mtime: int, etag: string, parseDate: string -> Option<int>)
    requires ModifiedSinceHit(ims, mtime, parseDate)
    ensures Negotiate(ims, inm, mtime, etag, parseDate) == NotModified
    ensures Negotiate(ims, inm, mtime, etag, parseDate) == Negotiate(ims, inm', mtime, etag, parseDate)
  {
  }

  /**
   * A date at or after the modification time short-circuits; one before it
   * does not, and without `If-None-Match` the request proceeds.
   */
  lemma DateComparison(s: string, mtime: int, etag: string, parseDate: string -> Option<int>)
    requires s != "" && s != "0" && parseDate(s).Some?
    ensures parseDate(s).value >= mtime ==> Negotiate(Some(s), None, mtime, etag, parseDate) == NotModified
    ensures parseDate(s).value < mtime ==> Negotiate(Some(s), None, mtime, etag, parseDate) == Proceed
  {
  }

  /**
   * A date that does not parse is as good as no header when the
   * modification time is non-zero: the ETag check alone decides.
   */
  lemma UnparsableDateFallsThrough(s: string, inm: Option<string>, mtime: int, etag: string,
                                   parseDate: string -> Option<int>)
    requires parseDate(s).None? && mtime != 0
    ensures Negotiate(Some(s), inm, mtime, etag, parseDate) == Negotiate(None, inm, mtime, etag, parseDate)
  {
  }

  /** Without a usable date, only an exact ETag match short-circuits. */
  lemma EtagStrictEquality(inm: Option<string>, mtime: int, etag: string, parseDate: string -> Option<int>)
    requires etag != "" && etag != "0"
    ensures Negotiate(None, inm, mtime, etag, parseDate) == NotModified <==> inm == Some(etag)
  {
  }
}
