/**
 * String primitives the controller relies on: `ltrim($s, '/')`, ASCII
 * `strtolower`, and a last-occurrence search used by `dirname` and
 * `pathinfo`. PHP strings are byte strings; here a path is a `string`
 * whose characters stand for its bytes.
 */
module Text {
  import opened Wrappers

  predicate IsUpper(c: char) {
    'A' <= c <= 'Z'
  }

  /** `strtolower` on one byte as PHP 8.2+ (or the C locale) does it: only ASCII letters change. */
  function LowerChar(c: char): char {
    if IsUpper(c) then (c as int + 32) as char else c
  }

  /** `strtolower` as PHP 8.2+ (or the C locale) does it: ASCII lower-casing. */
  function Lower(s: string): (r: string)
    ensures |r| == |s|
    ensures forall i :: 0 <= i < |s| ==> r[i] == LowerChar(s[i])
    ensures forall i :: 0 <= i < |r| ==> !IsUpper(r[i])
  {
    if s == [] then [] else [LowerChar(s[0])] + Lower(s[1..])
  }

  /** A string with no upper-case ASCII letter is its own lower case. */
  lemma LowerOfLower(s: string)
    requires forall i :: 0 <= i < |s| ==> !IsUpper(s[i])
    ensures Lower(s) == s
  {
  }

  /** Lower-casing is idempotent. */
  lemma LowerIdempotent(s: string)
    ensures Lower(Lower(s)) == Lower(s)
  {
  }

  /** True when every character of `s` is `c`. */
  predicate AllOf(s: string, c: char) {
    forall i :: 0 <= i < |s| ==> s[i] == c
  }

  /**
   * `ltrim($s, '/')`: `s` splits into a run of slashes and the result,
   * and the result does not begin with a slash.
   */
  function LtrimSlashes(s: string): (r: string)
    ensures |r| <= |s| && r == s[|s| - |r|..]
    ensures AllOf(s[..|s| - |r|], '/')
    ensures r == [] || r[0] != '/'
  {
    if |s| > 0 && s[0] == '/' then
      var r := LtrimSlashes(s[1..]);
      assert s[1..][|s| - 1 - |r|..] == s[|s| - |r|..];
      assert s[..|s| - |r|] == [s[0]] + s[1..][..|s| - 1 - |r|];
      r
    else s
  }

  /** Whatever run of slashes precedes `t`, ltrim removes exactly that run. */
  lemma {:induction false} LtrimStripsExactlyLeadingSlashes(slashes: string, t: string)
    requires AllOf(slashes, '/')
    requires t == [] || t[0] != '/'
    ensures LtrimSlashes(slashes + t) == t
  {
    if slashes != [] {
      assert (slashes + t)[1..] == slashes[1..] + t;
      LtrimStripsExactlyLeadingSlashes(slashes[1..], t);
    }
  }

  /** Stripping twice is the same as stripping once. */
  lemma LtrimIdempotent(s: string)
    ensures LtrimSlashes(LtrimSlashes(s)) == LtrimSlashes(s)
  {
  }

  /** The trailing-slash step shared by `dirname` and `basename`: the kept prefix and a removed run of slashes. */
  function TrimTrailingSlashes(s: string): (r: string)
    ensures r <= s
    ensures AllOf(s[|r|..], '/')
    ensures r == [] || r[|r| - 1] != '/'
  {
    if |s| > 0 && s[|s| - 1] == '/' then
      var r := TrimTrailingSlashes(s[..|s| - 1]);
      assert s[|r|..] == s[..|s| - 1][|r|..] + [s[|s| - 1]];
      r
    else s
  }

  /** Index of the last `c` in `s`, as C's `memrchr` finds it. */
  function LastIndexOf(s: string, c: char): (r: Option<nat>)
    ensures r.Some? ==> r.value < |s| && s[r.value] == c
    ensures r.Some? ==> forall j :: r.value < j < |s| ==> s[j] != c
    ensures r.None? <==> forall j :: 0 <= j < |s| ==> s[j] != c
  {
    if |s| == 0 then None
    else if s[|s| - 1] == c then Some(|s| - 1)
    else LastIndexOf(s[..|s| - 1], c)
  }

  /** The last occurrence is unique: any `c` with none after it is the one found. */
  lemma LastIndexOfAt(s: string, c: char, k: nat)
    requires k < |s| && s[k] == c
    requires forall j :: k < j < |s| ==> s[j] != c
    ensures LastIndexOf(s, c) == Some(k)
  {
  }
}
