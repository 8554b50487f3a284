/** The character class JavaScript calls whitespace (WhiteSpace and LineTerminator
    of ECMAScript, sections 12.2 and 12.3): the set matched by the regular-expression
    escape `\s` and removed by `String.prototype.trim`. */
module JsStrings {

  predicate IsWhitespace(c: char) {
    c == '\t' || c == '\n' || c == '\U{000B}' || c == '\U{000C}' || c == '\r' || c == ' ' ||
    c == '\U{00A0}' || c == '\U{1680}' || ('\U{2000}' <= c <= '\U{200A}') ||
    c == '\U{2028}' || c == '\U{2029}' || c == '\U{202F}' || c == '\U{205F}' ||
    c == '\U{3000}' || c == '\U{FEFF}'
  }

  /** Every character of `s` at an index in `[lo, hi)` is whitespace. */
  predicate WhitespaceBetween(s: string, lo: int, hi: int)
    requires 0 <= lo && hi <= |s|
  {
    forall i :: lo <= i < hi ==> IsWhitespace(s[i])
  }

  predicate AllWhitespace(s: string) {
    WhitespaceBetween(s, 0, |s|)
  }

  /** Index of the first non-whitespace character at or after `i`, or `|s|`. */
  function SkipForward(s: string, i: nat): (j: nat)
    requires i <= |s|
    ensures i <= j <= |s| && WhitespaceBetween(s, i, j)
    ensures j < |s| ==> !IsWhitespace(s[j])
    decreases |s| - i
  {
    if i < |s| && IsWhitespace(s[i]) then SkipForward(s, i + 1) else i
  }

  /** One past the last non-whitespace character before `j`, or `0`. */
  function SkipBackward(s: string, j: nat): (i: nat)
    requires j <= |s|
    ensures i <= j && WhitespaceBetween(s, i, j)
    ensures i > 0 ==> !IsWhitespace(s[i - 1])
    decreases j
  {
    if j > 0 && IsWhitespace(s[j - 1]) then SkipBackward(s, j - 1) else j
  }

  /** `r` sits in `s` at index `k` with nothing but whitespace around it. */
  predicate TrimmedAt(s: string, r: string, k: int) {
    0 <= k <= |s| - |r| && s[k..k + |r|] == r &&
    WhitespaceBetween(s, 0, k) && WhitespaceBetween(s, k + |r|, |s|)
  }

  /** Neither end of `r` is whitespace. */
  predicate Tight(r: string) {
    r != [] ==> !IsWhitespace(r[0]) && !IsWhitespace(r[|r| - 1])
  }

  /** `s.trim()`: the block of `s` between its leading and its trailing whitespace. */
  function Trim(s: string): (r: string)
    ensures exists k :: TrimmedAt(s, r, k)
    ensures Tight(r)
    ensures r == [] <==> AllWhitespace(s)
  {
    var a := SkipForward(s, 0);
    if a == |s| then
      assert TrimmedAt(s, [], 0);
      []
    else
      var e := SkipBackward(s, |s|);
      assert TrimmedAt(s, s[a..e], a);
      s[a..e]
  }

  /** A tight block of `s` surrounded only by whitespace is `s.trim()`: the two
      contract clauses of `Trim` single out its result. */
  lemma TrimUnique(s: string, r: string, k: int)
    requires TrimmedAt(s, r, k) && Tight(r)
    ensures r == Trim(s)
  {
    var t := Trim(s);
    var m :| TrimmedAt(s, t, m);
    if r != [] && t != [] {
      assert s[k] == r[0] && s[m] == t[0];
      assert s[k + |r| - 1] == r[|r| - 1] && s[m + |t| - 1] == t[|t| - 1];
      assert k == m;
      assert |r| == |t|;
    }
  }

  /** Trimming twice is trimming once. */
  lemma TrimIdempotent(s: string)
    ensures Trim(Trim(s)) == Trim(s)
  {
    var t := Trim(s);
    assert TrimmedAt(t, t, 0);
    TrimUnique(t, t, 0);
  }
}
