/** The analysis record shared with the scheduler, and `sanitizeInput`, the
    prompt-injection filter applied to a practice log before it is analysed. */
module LlmAnalysis {
  import opened Wrappers
  import opened JsStrings

  /** The structured result the analysis endpoint returns for one practice log.
      Numbers are JavaScript numbers, modelled as reals; `feeling` is whatever
      string the endpoint sent, so values outside the three expected ones are kept. */
  datatype AnalysisResult = AnalysisResult(
    skillLevel: real,
    confidence: real,
    suggestion: string,
    feeling: string,
    nextReviewInterval: real)

  /** One piece of a suspicious-input pattern: a literal matched ignoring ASCII case,
      or a whitespace run (`\s+` when `atLeastOne`, `\s*` otherwise). */
  datatype Token = Word(text: string) | Spaces(atLeastOne: bool)

  type Pattern = seq<Token>

  /** The six patterns, in the order they are tried. All carry the `i` flag. */
  const SuspiciousPatterns: seq<Pattern> := [
    [Word("ignore"), Spaces(true), Word("previous"), Spaces(true), Word("instructions")],
    [Word("you"), Spaces(true), Word("are"), Spaces(true), Word("now")],
    [Word("forget"), Spaces(true), Word("everything")],
    [Word("new"), Spaces(true), Word("role")],
    [Word("system"), Spaces(false), Word(":")],
    [Word("assistant"), Spaces(false), Word(":")]
  ]

  /** What a matched block is replaced by. */
  const Replacement: string := "[フィルタリング済み]"

  function Lower(c: char): char {
    if 'A' <= c <= 'Z' then (c as int + 32) as char else c
  }

  /** Characters a pattern literal may contain: lower-case ASCII letters and `:`. */
  predicate IsPatternChar(c: char) {
    'a' <= c <= 'z' || c == ':'
  }

  /** The `i` flag: an input character matches a pattern character when both
      canonicalise alike. For the ASCII pattern characters used here that is the
      character itself or its other-case ASCII twin; no non-ASCII character
      canonicalises to an ASCII one. */
  predicate CharMatches(pc: char, c: char) {
    Lower(c) == Lower(pc)
  }

  /** Literal `w` occurs, ignoring case, in `s` at index `i`. */
  predicate WordAt(w: string, s: string, i: int)
    requires 0 <= i
  {
    i + |w| <= |s| && forall k :: 0 <= k < |w| ==> CharMatches(w[k], s[i + k])
  }

  /** The shape all six patterns share: every literal is non-empty and starts with
      a pattern character, and every whitespace run is followed by a literal. So no
      whitespace run can run into the literal after it, which is what makes a
      greedy scan find the only possible match. */
  predicate WellFormed(p: Pattern) {
    forall n :: 0 <= n < |p| ==>
      (p[n].Word? ==> p[n].text != [] && IsPatternChar(p[n].text[0])) &&
      (p[n].Spaces? ==> n + 1 < |p| && p[n + 1].Word?)
  }

  lemma SuspiciousPatternsWellFormed()
    ensures forall m :: 0 <= m < |SuspiciousPatterns| ==> WellFormed(SuspiciousPatterns[m]) && SuspiciousPatterns[m] != []
  {
  }

  // ---------------------------------------------------------------------------
  // The regular-expression language of a pattern (reference definition)
  // ---------------------------------------------------------------------------

  /** `t` belongs to the language of `p`: a literal consumes its own length, a
      whitespace run any number (at least one for `\s+`) of whitespace characters. */
  ghost predicate Matches(p: Pattern, t: string)
    decreases |p|
  {
    if p == [] then t == []
    else match p[0]
      case Word(w) => WordAt(w, t, 0) && Matches(p[1..], t[|w|..])
      case Spaces(one) =>
        exists k :: (if one then 1 else 0) <= k <= |t| && WhitespaceBetween(t, 0, k) && Matches(p[1..], t[k..])
  }

  // ---------------------------------------------------------------------------
  // The matcher: greedy scan at one start position, then leftmost search
  // ---------------------------------------------------------------------------

  /** Runs `p` from index `i` of `s`, taking every whitespace run whole. Returns
      the end of the match, or None. */
  function MatchAt(p: Pattern, s: string, i: nat): (r: Option<nat>)
    requires i <= |s|
    ensures r.Some? ==> i <= r.value <= |s|
    decreases |p|
  {
    if p == [] then Some(i)
    else match p[0]
      case Word(w) => if WordAt(w, s, i) then MatchAt(p[1..], s, i + |w|) else None
      case Spaces(one) =>
        var j := SkipForward(s, i);
        if one && j == i then None else MatchAt(p[1..], s, j)
  }

  /** Every end the matcher reports delimits a block in the pattern's language. */
  lemma {:induction false} MatchAtSound(p: Pattern, s: string, i: nat)
    requires i <= |s| && MatchAt(p, s, i).Some?
    ensures Matches(p, s[i..MatchAt(p, s, i).value])
    decreases |p|
  {
    var j := MatchAt(p, s, i).value;
    var t := s[i..j];
    if p != [] {
      match p[0]
      case Word(w) =>
        MatchAtSound(p[1..], s, i + |w|);
        assert t[|w|..] == s[i + |w|..j];
      case Spaces(one) =>
        var e := SkipForward(s, i);
        MatchAtSound(p[1..], s, e);
        assert t[e - i..] == s[e..j];
        assert WhitespaceBetween(t, 0, e - i);
    }
  }

  /** A character that matches a pattern character is never whitespace. */
  lemma MatchedCharNotWhitespace(pc: char, c: char)
    requires IsPatternChar(pc) && CharMatches(pc, c)
    ensures !IsWhitespace(c)
  {
  }

  lemma WellFormedTail(p: Pattern)
    requires p != [] && WellFormed(p)
    ensures WellFormed(p[1..])
  {
    forall n | 0 <= n < |p[1..]|
      ensures (p[1..][n].Word? ==> p[1..][n].text != [] && IsPatternChar(p[1..][n].text[0]))
      ensures (p[1..][n].Spaces? ==> n + 1 < |p[1..]| && p[1..][n + 1].Word?)
    {
      assert p[1..][n] == p[n + 1];
      if p[n + 1].Spaces? {
        assert n + 2 < |p| && p[n + 2].Word?;
        assert p[1..][n + 1] == p[n + 2];
      }
    }
  }

  /** A whitespace run followed by a character that matches a pattern character
      is exactly the run the greedy scan takes. */
  lemma GreedyRunEnd(s: string, i: nat, k: nat, pc: char)
    requires i + k < |s| && WhitespaceBetween(s, i, i + k)
    requires IsPatternChar(pc) && CharMatches(pc, s[i + k])
    ensures SkipForward(s, i) == i + k
  {
    MatchedCharNotWhitespace(pc, s[i + k]);
  }

  /** A literal found at the start of a slice is found at the slice's offset. */
  lemma WordInSlice(w: string, s: string, i: nat, j: nat)
    requires i <= j <= |s| && WordAt(w, s[i..j], 0)
    ensures WordAt(w, s, i)
  {
    forall k | 0 <= k < |w| ensures CharMatches(w[k], s[i + k]) {
      assert s[i..j][k] == s[i + k];
    }
  }

  /** A whitespace run chosen by the language, followed by the rest of a
      well-formed pattern, is the run the greedy scan takes. */
  lemma SpacesStep(p: Pattern, s: string, i: nat, j: nat, k: nat)
    requires WellFormed(p) && p != [] && p[0].Spaces? && i <= j <= |s| && k <= j - i
    requires WhitespaceBetween(s[i..j], 0, k) && Matches(p[1..], s[i..j][k..])
    ensures SkipForward(s, i) == i + k && Matches(p[1..], s[i + k..j])
  {
    var t := s[i..j];
    assert t[k..] == s[i + k..j];
    assert WhitespaceBetween(s, i, i + k) by {
      forall x | i <= x < i + k ensures IsWhitespace(s[x]) {
        assert t[x - i] == s[x];
      }
    }
    // The literal after the run starts with a character that is not whitespace.
    assert p[1..][0] == p[1];
    var w := p[1].text;
    assert w != [] && IsPatternChar(w[0]);
    WordInSlice(w, s, i + k, j);
    GreedyRunEnd(s, i, k, w[0]);
  }

  /** Every block in a well-formed pattern's language starting at `i` is the one
      the matcher finds: the greedy scan misses no match, and the match at a given
      start is unique. */
  lemma {:induction false} MatchAtComplete(p: Pattern, s: string, i: nat, j: nat)
    requires WellFormed(p) && i <= j <= |s| && Matches(p, s[i..j])
    ensures MatchAt(p, s, i) == Some(j)
    decreases |p|
  {
    if p != [] {
      WellFormedTail(p);
      var e := NextStart(p, s, i, j);
      MatchAtComplete(p[1..], s, e, j);
    }
  }

  /** Where the rest of the pattern starts once the matcher has taken `p[0]`:
      the language and the matcher agree on it. */
  lemma NextStart(p: Pattern, s: string, i: nat, j: nat) returns (e: nat)
    requires WellFormed(p) && p != [] && i <= j <= |s| && Matches(p, s[i..j])
    ensures i <= e <= j && MatchAt(p, s, i) == MatchAt(p[1..], s, e) && Matches(p[1..], s[e..j])
  {
    if p[0].Word? {
      e := WordStep(p, s, i, j);
    } else {
      e := RunStep(p, s, i, j);
    }
  }

  /** A leading whitespace run in the language is the run the matcher takes. */
  lemma RunStep(p: Pattern, s: string, i: nat, j: nat) returns (e: nat)
    requires WellFormed(p) && p != [] && p[0].Spaces? && i <= j <= |s| && Matches(p, s[i..j])
    ensures i + (if p[0].atLeastOne then 1 else 0) <= e <= j && SkipForward(s, i) == e && Matches(p[1..], s[e..j])
  {
    var t := s[i..j];
    var k :| (if p[0].atLeastOne then 1 else 0) <= k <= |t| && WhitespaceBetween(t, 0, k) && Matches(p[1..], t[k..]);
    SpacesStep(p, s, i, j, k);
    e := i + k;
  }

  /** A leading literal in the language is the literal the matcher checks. */
  lemma WordStep(p: Pattern, s: string, i: nat, j: nat) returns (e: nat)
    requires p != [] && p[0].Word? && i <= j <= |s| && Matches(p, s[i..j])
    ensures e == i + |p[0].text| <= j && WordAt(p[0].text, s, i) && Matches(p[1..], s[e..j])
  {
    var w, t := p[0].text, s[i..j];
    WordInSlice(w, s, i, j);
    assert t[|w|..] == s[i + |w|..j];
    e := i + |w|;
  }


  /** The first start position at or after `from` where `p` matches, with the end
      of that match. */
  function SearchFrom(p: Pattern, s: string, from: nat): (r: Option<(nat, nat)>)
    requires from <= |s|
    ensures r.None? ==> forall k :: from <= k <= |s| ==> MatchAt(p, s, k).None?
    ensures r.Some? ==> from <= r.value.0 <= |s| && MatchAt(p, s, r.value.0) == Some(r.value.1)
    ensures r.Some? ==> forall k :: from <= k < r.value.0 ==> MatchAt(p, s, k).None?
    decreases |s| - from
  {
    match MatchAt(p, s, from)
    case Some(j) => Some((from, j))
    case None => if from == |s| then None else SearchFrom(p, s, from + 1)
  }

  /** The match `pattern.test` detects and `input.replace(pattern, …)` replaces:
      the regular expression is not global, so both search from index 0. */
  function Find(p: Pattern, s: string): (r: Option<(nat, nat)>)
    ensures r.None? ==> forall k :: 0 <= k <= |s| ==> MatchAt(p, s, k).None?
    ensures r.Some? ==> r.value.0 <= |s| && MatchAt(p, s, r.value.0) == Some(r.value.1)
    ensures r.Some? ==> forall k :: 0 <= k < r.value.0 ==> MatchAt(p, s, k).None?
  {
    SearchFrom(p, s, 0)
  }

  /** `Find` reports the leftmost block of `s` in the pattern's language, and
      reports nothing exactly when no block of `s` is in it. */
  lemma FindIsLeftmostMatch(p: Pattern, s: string)
    requires WellFormed(p)
    ensures Find(p, s).Some? ==>
      var (i, j) := Find(p, s).value;
      i <= j <= |s| && Matches(p, s[i..j]) &&
      forall a, b :: 0 <= a < i && a <= b <= |s| ==> !Matches(p, s[a..b])
    ensures Find(p, s).None? ==> forall a, b :: 0 <= a <= b <= |s| ==> !Matches(p, s[a..b])
  {
    var r := Find(p, s);
    if r.Some? {
      MatchAtSound(p, s, r.value.0);
    }
    forall a, b | 0 <= a <= b <= |s| && Matches(p, s[a..b])
      ensures r.Some? && r.value.0 <= a
    {
      MatchAtComplete(p, s, a, b);
    }
  }

  // ---------------------------------------------------------------------------
  // sanitizeInput
  // ---------------------------------------------------------------------------

  /** The first pattern, counting from index `n`, that matches somewhere in
      `input`, with its leftmost match. */
  function FirstHit(input: string, n: nat): (r: Option<(nat, nat, nat)>)
    requires n <= |SuspiciousPatterns|
    ensures r.None? ==> forall m :: n <= m < |SuspiciousPatterns| ==> Find(SuspiciousPatterns[m], input).None?
    ensures r.Some? ==>
      var (m, i, j) := r.value;
      n <= m < |SuspiciousPatterns| && Find(SuspiciousPatterns[m], input) == Some((i, j)) &&
      forall m' :: n <= m' < m ==> Find(SuspiciousPatterns[m'], input).None?
    decreases |SuspiciousPatterns| - n
  {
    if n == |SuspiciousPatterns| then None
    else
      var found := Find(SuspiciousPatterns[n], input);
      if found.Some? then Some((n, found.value.0, found.value.1)) else FirstHit(input, n + 1)
  }

  /** `sanitizeInput`: tries the patterns in order; the first one that matches has
      its leftmost match replaced, and the result is returned at once. An input
      no pattern matches comes back unchanged. */
  method SanitizeInput(input: string) returns (output: string)
    ensures FirstHit(input, 0).None? ==> output == input
    ensures FirstHit(input, 0).Some? ==>
      var (m, i, j) := FirstHit(input, 0).value;
      i <= j <= |input| && output == input[..i] + Replacement + input[j..]
  {
    var n := 0;
    while n < |SuspiciousPatterns|
      invariant 0 <= n <= |SuspiciousPatterns|
      invariant FirstHit(input, 0) == FirstHit(input, n)
    {
      var found := Find(SuspiciousPatterns[n], input);
      if found.Some? {
        var (i, j) := found.value;
        return input[..i] + Replacement + input[j..];
      }
      n := n + 1;
    }
    return input;
  }

  /** What `sanitizeInput` replaces, stated by the patterns' languages: nothing
      when no block of the input is in any pattern's language; otherwise the
      leftmost block in the language of the first pattern that has one. */
  lemma FirstHitIsLeftmostBlock(input: string)
    ensures FirstHit(input, 0).None? ==>
      forall m, a, b :: 0 <= m < |SuspiciousPatterns| && 0 <= a <= b <= |input| ==>
        !Matches(SuspiciousPatterns[m], input[a..b])
    ensures FirstHit(input, 0).Some? ==>
      var (m, i, j) := FirstHit(input, 0).value;
      m < |SuspiciousPatterns| && i <= j <= |input| && Matches(SuspiciousPatterns[m], input[i..j]) &&
      (forall a, b :: 0 <= a < i && a <= b <= |input| ==> !Matches(SuspiciousPatterns[m], input[a..b])) &&
      (forall m', a, b :: 0 <= m' < m && 0 <= a <= b <= |input| ==> !Matches(SuspiciousPatterns[m'], input[a..b]))
  {
    var r := FirstHit(input, 0);
    if r.None? {
      forall m, a, b | 0 <= m < |SuspiciousPatterns| && 0 <= a <= b <= |input|
        ensures !Matches(SuspiciousPatterns[m], input[a..b])
      {
        SuspiciousFindIsLeftmostMatch(m, input);
      }
    } else {
      var (m, i, j) := r.value;
      SuspiciousFindIsLeftmostMatch(m, input);
      forall m', a, b | 0 <= m' < m && 0 <= a <= b <= |input|
        ensures !Matches(SuspiciousPatterns[m'], input[a..b])
      {
        SuspiciousFindIsLeftmostMatch(m', input);
      }
    }
  }

  lemma SuspiciousFindIsLeftmostMatch(m: nat, input: string)
    requires m < |SuspiciousPatterns|
    ensures Find(SuspiciousPatterns[m], input).Some? ==>
      var (i, j) := Find(SuspiciousPatterns[m], input).value;
      i <= j <= |input| && Matches(SuspiciousPatterns[m], input[i..j]) &&
      forall a, b :: 0 <= a < i && a <= b <= |input| ==> !Matches(SuspiciousPatterns[m], input[a..b])
    ensures Find(SuspiciousPatterns[m], input).None? ==>
      forall a, b :: 0 <= a <= b <= |input| ==> !Matches(SuspiciousPatterns[m], input[a..b])
  {
    SuspiciousPatternsWellFormed();
    FindIsLeftmostMatch(SuspiciousPatterns[m], input);
  }

  // ---------------------------------------------------------------------------
  // Properties of the filter
  // ---------------------------------------------------------------------------

  /** Two strings that agree once ASCII letters are lower-cased. */
  predicate SameIgnoringCase(s: string, s': string) {
    |s| == |s'| && forall k :: 0 <= k < |s| ==> Lower(s[k]) == Lower(s'[k])
  }

  lemma {:induction false} SkipForwardIgnoresCase(s: string, s': string, i: nat)
    requires SameIgnoringCase(s, s') && i <= |s|
    ensures SkipForward(s, i) == SkipForward(s', i)
    decreases |s| - i
  {
    if i < |s| {
      assert IsWhitespace(s[i]) == IsWhitespace(s'[i]) by {
        assert Lower(s[i]) == Lower(s'[i]);
      }
      if IsWhitespace(s[i]) {
        SkipForwardIgnoresCase(s, s', i + 1);
      }
    }
  }

  lemma {:induction false} MatchAtIgnoresCase(p: Pattern, s: string, s': string, i: nat)
    requires SameIgnoringCase(s, s') && i <= |s|
    ensures MatchAt(p, s, i) == MatchAt(p, s', i)
    decreases |p|
  {
    if p != [] {
      match p[0]
      case Word(w) =>
        assert WordAt(w, s, i) == WordAt(w, s', i) by {
          if i + |w| <= |s| {
            forall k | 0 <= k < |w| ensures CharMatches(w[k], s[i + k]) == CharMatches(w[k], s'[i + k]) {
              assert Lower(s[i + k]) == Lower(s'[i + k]);
            }
          }
        }
        if WordAt(w, s, i) {
          MatchAtIgnoresCase(p[1..], s, s', i + |w|);
        }
      case Spaces(one) =>
        SkipForwardIgnoresCase(s, s', i);
        MatchAtIgnoresCase(p[1..], s, s', SkipForward(s, i));
    }
  }

  lemma {:induction false} SearchFromIgnoresCase(p: Pattern, s: string, s': string, from: nat)
    requires SameIgnoringCase(s, s') && from <= |s|
    ensures SearchFrom(p, s, from) == SearchFrom(p, s', from)
    decreases |s| - from
  {
    MatchAtIgnoresCase(p, s, s', from);
    if from < |s| {
      SearchFromIgnoresCase(p, s, s', from + 1);
    }
  }

  /** All patterns match case-insensitively: changing the case of ASCII letters in
      the input changes neither which pattern fires nor where its match lies. */
  lemma {:induction false} FirstHitIgnoresCase(s: string, s': string, n: nat)
    requires SameIgnoringCase(s, s') && n <= |SuspiciousPatterns|
    ensures FirstHit(s, n) == FirstHit(s', n)
    decreases |SuspiciousPatterns| - n
  {
    if n < |SuspiciousPatterns| {
      SearchFromIgnoresCase(SuspiciousPatterns[n], s, s', 0);
      FirstHitIgnoresCase(s, s', n + 1);
    }
  }

  /** Matching from `i` only looks at what follows `i`: two strings with the same
      text after their start positions match alike. */
  lemma {:induction false} SkipForwardShift(s1: string, i1: nat, s2: string, i2: nat)
    requires i1 <= |s1| && i2 <= |s2| && s1[i1..] == s2[i2..]
    ensures SkipForward(s1, i1) - i1 == SkipForward(s2, i2) - i2
    decreases |s1| - i1
  {
    if i1 < |s1| {
      assert s1[i1] == s1[i1..][0] && s2[i2] == s2[i2..][0];
      if IsWhitespace(s1[i1]) {
        assert s1[i1 + 1..] == s1[i1..][1..] && s2[i2 + 1..] == s2[i2..][1..];
        SkipForwardShift(s1, i1 + 1, s2, i2 + 1);
      }
    }
  }

  lemma WordAtShift(w: string, s1: string, i1: nat, s2: string, i2: nat)
    requires i1 <= |s1| && i2 <= |s2| && s1[i1..] == s2[i2..] && WordAt(w, s1, i1)
    ensures WordAt(w, s2, i2) && s1[i1 + |w|..] == s2[i2 + |w|..]
  {
    forall k | 0 <= k < |w| ensures CharMatches(w[k], s2[i2 + k]) {
      assert s1[i1 + k] == s1[i1..][k] && s2[i2 + k] == s2[i2..][k];
    }
    assert s1[i1 + |w|..] == s1[i1..][|w|..] && s2[i2 + |w|..] == s2[i2..][|w|..];
  }

  lemma RunShift(s1: string, i1: nat, s2: string, i2: nat)
    requires i1 <= |s1| && i2 <= |s2| && s1[i1..] == s2[i2..]
    ensures SkipForward(s1, i1) - i1 == SkipForward(s2, i2) - i2
    ensures s1[SkipForward(s1, i1)..] == s2[SkipForward(s2, i2)..]
  {
    SkipForwardShift(s1, i1, s2, i2);
    var e1, e2 := SkipForward(s1, i1), SkipForward(s2, i2);
    assert s1[e1..] == s1[i1..][e1 - i1..] && s2[e2..] == s2[i2..][e2 - i2..];
  }

  lemma {:induction false} MatchAtShift(p: Pattern, s1: string, i1: nat, s2: string, i2: nat)
    requires i1 <= |s1| && i2 <= |s2| && s1[i1..] == s2[i2..]
    requires MatchAt(p, s1, i1).Some?
    ensures MatchAt(p, s2, i2) == Some(MatchAt(p, s1, i1).value - i1 + i2)
    decreases |p|, 1
  {
    if p != [] {
      if p[0].Word? {
        WordShift(p, s1, i1, s2, i2);
      } else {
        SpacesShift(p, s1, i1, s2, i2);
      }
    }
  }

  lemma {:induction false} WordShift(p: Pattern, s1: string, i1: nat, s2: string, i2: nat)
    requires p != [] && p[0].Word?
    requires i1 <= |s1| && i2 <= |s2| && s1[i1..] == s2[i2..]
    requires MatchAt(p, s1, i1).Some?
    ensures MatchAt(p, s2, i2) == Some(MatchAt(p, s1, i1).value - i1 + i2)
    decreases |p|, 0
  {
    var w := p[0].text;
    WordAtShift(w, s1, i1, s2, i2);
    MatchAtShift(p[1..], s1, i1 + |w|, s2, i2 + |w|);
  }

  lemma {:induction false} SpacesShift(p: Pattern, s1: string, i1: nat, s2: string, i2: nat)
    requires p != [] && p[0].Spaces?
    requires i1 <= |s1| && i2 <= |s2| && s1[i1..] == s2[i2..]
    requires MatchAt(p, s1, i1).Some?
    ensures MatchAt(p, s2, i2) == Some(MatchAt(p, s1, i1).value - i1 + i2)
    decreases |p|, 0
  {
    RunShift(s1, i1, s2, i2);
    MatchAtShift(p[1..], s1, SkipForward(s1, i1), s2, SkipForward(s2, i2));
  }

  /** One pass does not guarantee a clean result: a match of any pattern that
      starts after the replaced block (a second occurrence of the same pattern, or
      a later-listed one) is still present, and the filter would fire again. */
  lemma SanitizeOutputMayStillMatch(input: string, m: nat, i: nat, j: nat, m2: nat, q: nat)
    requires FirstHit(input, 0) == Some((m, i, j))
    requires m2 < |SuspiciousPatterns| && j <= q <= |input|
    requires MatchAt(SuspiciousPatterns[m2], input, q).Some?
    ensures Find(SuspiciousPatterns[m2], input[..i] + Replacement + input[j..]).Some?
    ensures FirstHit(input[..i] + Replacement + input[j..], 0).Some?
  {
    var output := input[..i] + Replacement + input[j..];
    var q' := q - j + i + |Replacement|;
    SuffixAfterReplacement(input, i, j, q);
    MatchAtShift(SuspiciousPatterns[m2], input, q, output, q');
    FirstHitFindsAnyMatchingPattern(output, m2);
  }

  lemma FirstHitFindsAnyMatchingPattern(input: string, m: nat)
    requires m < |SuspiciousPatterns| && Find(SuspiciousPatterns[m], input).Some?
    ensures FirstHit(input, 0).Some?
  {
  }

  lemma SuffixAfterReplacement(input: string, i: nat, j: nat, q: nat)
    requires i <= j <= q <= |input|
    ensures var output := input[..i] + Replacement + input[j..];
      q - j + i + |Replacement| <= |output| && output[q - j + i + |Replacement|..] == input[q..]
  {
    var a := input[..i] + Replacement;
    assert |a| == i + |Replacement|;
    assert (a + input[j..])[|a| + (q - j)..] == input[j..][q - j..];
  }
}
