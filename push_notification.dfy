/** `urlBase64ToUint8Array`, which turns the VAPID public key, given in the
    URL-safe base64 alphabet of section 5 of RFC 4648 and usually without
    padding, into the bytes the push subscription expects. It pads the text,
    maps it to the standard alphabet of section 4 of RFC 4648, decodes it with the
    browser's `atob` (the forgiving-base64 decode of the WHATWG Infra Standard)
    and copies the decoded character codes into a byte array. */
module PushNotification {
  import opened Wrappers
  import opened Sequences

  type Byte = x: int | 0 <= x < 256
  type Sextet = x: int | 0 <= x < 64

  // ---------------------------------------------------------------------------
  // Alphabets
  // ---------------------------------------------------------------------------

  /** The character for a 6-bit value in the standard alphabet. */
  function StdChar(v: Sextet): char {
    if v < 26 then ('A' as int + v) as char
    else if v < 52 then ('a' as int + v - 26) as char
    else if v < 62 then ('0' as int + v - 52) as char
    else if v == 62 then '+'
    else '/'
  }

  /** The character for a 6-bit value in the URL-safe alphabet. */
  function UrlChar(v: Sextet): char {
    if v == 62 then '-' else if v == 63 then '_' else StdChar(v)
  }

  /** A character of the standard alphabet (what `atob` accepts once padding and
      whitespace are gone). */
  predicate IsBase64Char(c: char) {
    'A' <= c <= 'Z' || 'a' <= c <= 'z' || '0' <= c <= '9' || c == '+' || c == '/'
  }

  function SextetValue(c: char): (v: Sextet)
    requires IsBase64Char(c)
    ensures StdChar(v) == c
  {
    if 'A' <= c <= 'Z' then c as int - 'A' as int
    else if 'a' <= c <= 'z' then c as int - 'a' as int + 26
    else if '0' <= c <= '9' then c as int - '0' as int + 52
    else if c == '+' then 62
    else 63
  }

  lemma StdCharDecodes(v: Sextet)
    ensures IsBase64Char(StdChar(v)) && SextetValue(StdChar(v)) == v
  {
  }

  // ---------------------------------------------------------------------------
  // Padding and alphabet change
  // ---------------------------------------------------------------------------

  /** `'='.repeat((4 - len % 4) % 4)`: the padding that brings the length to a
      multiple of four. */
  function Padding(len: nat): (pad: string)
    ensures |pad| <= 3 && (len + |pad|) % 4 == 0
    ensures |pad| == 3 <==> len % 4 == 1
    ensures forall i :: 0 <= i < |pad| ==> pad[i] == '='
  {
    seq((4 - len % 4) % 4, _ => '=')
  }

  /** `s.replace(/<from>/g, to)` for a single character. */
  function ReplaceAll(s: string, from: char, to: char): (r: string)
    ensures |r| == |s|
    ensures forall i :: 0 <= i < |s| ==> r[i] == if s[i] == from then to else s[i]
  {
    seq(|s|, i requires 0 <= i < |s| => if s[i] == from then to else s[i])
  }

  /** The replace chain: every `-` becomes `+`, every `_` becomes `/`, every other
      character stays where it is. */
  function ToStandardAlphabet(s: string): (r: string)
    ensures |r| == |s|
    ensures forall i :: 0 <= i < |s| ==>
      r[i] == (if s[i] == '-' then '+' else if s[i] == '_' then '/' else s[i])
  {
    ReplaceAll(ReplaceAll(s, '-', '+'), '_', '/')
  }

  // ---------------------------------------------------------------------------
  // atob: forgiving-base64 decode
  // ---------------------------------------------------------------------------

  /** ASCII whitespace as the Infra Standard defines it: tab, line feed, form
      feed, carriage return and space. */
  predicate IsAsciiWhitespace(c: char) {
    c == '\t' || c == '\n' || c == '\U{000C}' || c == '\r' || c == ' '
  }

  function RemoveAsciiWhitespace(s: string): string {
    Filter(s, (c: char) => !IsAsciiWhitespace(c))
  }

  /** When the length is a multiple of four, one or two trailing `=` are dropped. */
  function StripPadding(d: string): (r: string)
    ensures |d| - 2 <= |r| <= |d| && r == d[..|r|]
  {
    if |d| % 4 == 0 && |d| >= 2 && d[|d| - 1] == '=' && d[|d| - 2] == '=' then d[..|d| - 2]
    else if |d| % 4 == 0 && |d| >= 1 && d[|d| - 1] == '=' then d[..|d| - 1]
    else d
  }

  predicate AllBase64(d: string) {
    forall i :: 0 <= i < |d| ==> IsBase64Char(d[i])
  }

  /** A string whose character codes are all bytes, as `atob` returns. */
  predicate IsBinaryString(s: string) {
    forall i :: 0 <= i < |s| ==> s[i] as int < 256
  }

  /** The bytes that a run of 6-bit values stands for: each group of four values
      gives three bytes; a final two or three values give one or two bytes, their
      leftover low bits dropped. */
  function DecodeValues(vs: seq<Sextet>): (bytes: seq<Byte>)
    requires |vs| % 4 != 1
    decreases |vs|
  {
    if |vs| >= 4 then
      var a, b, c, e: int := vs[0], vs[1], vs[2], vs[3];
      [a * 4 + b / 16, (b % 16) * 16 + c / 4, (c % 4) * 64 + e] + DecodeValues(vs[4..])
    else if |vs| == 3 then
      var a, b, c: int := vs[0], vs[1], vs[2];
      [a * 4 + b / 16, (b % 16) * 16 + c / 4]
    else if |vs| == 2 then
      var a, b: int := vs[0], vs[1];
      [a * 4 + b / 16]
    else []
  }

  function Values(d: string): (vs: seq<Sextet>)
    requires AllBase64(d)
    ensures |vs| == |d|
  {
    seq(|d|, i requires 0 <= i < |d| => SextetValue(d[i]))
  }

  /** The binary string holding the given bytes as character codes. */
  function BinaryString(bytes: seq<Byte>): (s: string)
    ensures |s| == |bytes| && IsBinaryString(s)
    ensures forall i :: 0 <= i < |s| ==> s[i] as int == bytes[i]
  {
    seq(|bytes|, i requires 0 <= i < |bytes| => bytes[i] as char)
  }

  /** `atob`: drop ASCII whitespace, drop one or two `=` from a length that is a
      multiple of four, fail on a length of the form 4k+1 or on any other character
      outside the standard alphabet, otherwise decode. Failure stands for the
      `InvalidCharacterError` that `atob` throws. */
  function Atob(data: string): (r: Option<string>)
    ensures r.Some? ==> IsBinaryString(r.value)
  {
    var d := StripPadding(RemoveAsciiWhitespace(data));
    if |d| % 4 == 1 || !AllBase64(d) then None
    else Some(BinaryString(DecodeValues(Values(d))))
  }

  // ---------------------------------------------------------------------------
  // urlBase64ToUint8Array
  // ---------------------------------------------------------------------------

  /** The text `atob` is given. */
  function Normalise(base64String: string): (base64: string)
    ensures |base64| % 4 == 0 && |base64| >= |base64String|
  {
    ToStandardAlphabet(base64String + Padding(|base64String|))
  }

  /** The bytes the conversion produces, or None when `atob` throws, which it
      always does for a key one character longer than a multiple of four. */
  function UrlBase64Decode(base64String: string): (r: Option<seq<Byte>>)
    ensures r.None? <==> Atob(Normalise(base64String)).None?
    ensures |base64String| % 4 == 1 ==> r.None?
  {
    assert |base64String| % 4 == 1 ==> Atob(Normalise(base64String)).None? by {
      if |base64String| % 4 == 1 {
        LengthOneMoreThanMultipleOfFourFails(base64String);
      }
    }
    match Atob(Normalise(base64String))
    case None => None
    case Some(raw) => Some(CharCodes(raw))
  }

  /** `raw.charCodeAt(i)` for every index of a binary string. */
  function CharCodes(raw: string): (codes: seq<Byte>)
    requires IsBinaryString(raw)
    ensures |codes| == |raw| && forall i :: 0 <= i < |raw| ==> codes[i] == raw[i] as int
  {
    seq(|raw|, i requires 0 <= i < |raw| => raw[i] as int)
  }

  /** `urlBase64ToUint8Array`: decodes, then copies the character codes of the
      decoded string into a new byte array one index at a time. */
  method UrlBase64ToUint8Array(base64String: string) returns (result: Option<array<Byte>>)
    ensures result.None? <==> UrlBase64Decode(base64String).None?
    ensures result.Some? ==> fresh(result.value) && result.value[..] == UrlBase64Decode(base64String).value
  {
    var padding := Padding(|base64String|);
    var base64 := ReplaceAll(ReplaceAll(base64String + padding, '-', '+'), '_', '/');
    assert base64 == Normalise(base64String);
    var rawData := Atob(base64);
    if rawData.None? {
      return None;
    }
    var outputArray := CopyCharCodes(rawData.value);
    return Some(outputArray);
  }

  /** The copy loop: a new zero-filled array of the decoded length, whose index `i`
      is then set to the code of character `i`. */
  method CopyCharCodes(rawData: string) returns (outputArray: array<Byte>)
    requires IsBinaryString(rawData)
    ensures fresh(outputArray) && outputArray[..] == CharCodes(rawData)
  {
    outputArray := new Byte[|rawData|](_ => 0);
    for i := 0 to |rawData|
      invariant forall k :: 0 <= k < i ==> outputArray[k] == rawData[k] as int
    {
      outputArray[i] := rawData[i] as int;
    }
  }

  // ---------------------------------------------------------------------------
  // Round trip with the URL-safe encoder
  // ---------------------------------------------------------------------------

  /** The 6-bit values the encoding of `bytes` consists of: three bytes give four
      values; a final one or two bytes give two or three, padded with zero bits. */
  function Sextets(bytes: seq<Byte>): (vs: seq<Sextet>)
    ensures |vs| == 4 * (|bytes| / 3) + (if |bytes| % 3 == 0 then 0 else |bytes| % 3 + 1)
    decreases |bytes|
  {
    if |bytes| >= 3 then
      var x, y, z: int := bytes[0], bytes[1], bytes[2];
      [x / 4, (x % 4) * 16 + y / 16, (y % 16) * 4 + z / 64, z % 64] + Sextets(bytes[3..])
    else if |bytes| == 2 then
      var x, y: int := bytes[0], bytes[1];
      [x / 4, (x % 4) * 16 + y / 16, (y % 16) * 4]
    else if |bytes| == 1 then
      var x: int := bytes[0];
      [x / 4, (x % 4) * 16]
    else []
  }

  /** Base64url encoding without padding (section 5 of RFC 4648, omitting the
      padding as section 3.2 of RFC 4648 permits), as a VAPID public key is
      published. */
  function EncodeUrlNoPadding(bytes: seq<Byte>): (s: string)
    ensures |s| == |Sextets(bytes)|
  {
    var vs := Sextets(bytes);
    seq(|vs|, i requires 0 <= i < |vs| => UrlChar(vs[i]))
  }

  /** Decoding the values of an encoding gives the bytes back. */
  lemma {:induction false} DecodeSextets(bytes: seq<Byte>)
    ensures DecodeValues(Sextets(bytes)) == bytes
    decreases |bytes|
  {
    var vs := Sextets(bytes);
    if |bytes| >= 3 {
      DecodeSextets(bytes[3..]);
      assert vs[4..] == Sextets(bytes[3..]);
      assert bytes == bytes[..3] + bytes[3..];
    }
  }

  /** Text without ASCII whitespace passes the whitespace step unchanged. */
  lemma RemoveAsciiWhitespaceKeeps(data: string)
    requires forall i :: 0 <= i < |data| ==> !IsAsciiWhitespace(data[i])
    ensures RemoveAsciiWhitespace(data) == data
  {
    FilterAllPass(data, (c: char) => !IsAsciiWhitespace(c));
  }

  /** The padding added to an encoding is exactly what the padding step removes. */
  lemma StripPaddingOfPadded(d: string, pad: string, vs: seq<Sextet>)
    requires |vs| % 4 != 1 && |d| == |vs|
    requires forall i :: 0 <= i < |d| ==> d[i] == StdChar(vs[i])
    requires |pad| == (4 - |vs| % 4) % 4 && forall i :: 0 <= i < |pad| ==> pad[i] == '='
    ensures StripPadding(d + pad) == d
  {
    var data := d + pad;
    assert |data| % 4 == 0;
    assert |pad| <= 2;
    if |d| > 0 {
      StdCharDecodes(vs[|d| - 1]);
      assert data[|d| - 1] == d[|d| - 1] != '=';
    }
    if |pad| == 0 {
      assert data == d;
    } else if |pad| == 1 {
      assert data[|data| - 1] == '=';
      assert data[..|data| - 1] == d;
    } else {
      assert data[|data| - 1] == '=' && data[|data| - 2] == '=';
      assert data[..|data| - 2] == d;
    }
  }

  lemma ValuesOfStandard(d: string, vs: seq<Sextet>)
    requires |d| == |vs| && forall i :: 0 <= i < |d| ==> d[i] == StdChar(vs[i])
    ensures AllBase64(d) && Values(d) == vs
  {
    forall i | 0 <= i < |d| ensures IsBase64Char(d[i]) && SextetValue(d[i]) == vs[i] {
      StdCharDecodes(vs[i]);
    }
  }

  /** `atob` of the standard-alphabet encoding of `vs`, padded. */
  lemma AtobOfEncoded(d: string, pad: string, vs: seq<Sextet>)
    requires |vs| % 4 != 1 && |d| == |vs|
    requires forall i :: 0 <= i < |d| ==> d[i] == StdChar(vs[i])
    requires |pad| == (4 - |vs| % 4) % 4 && forall i :: 0 <= i < |pad| ==> pad[i] == '='
    ensures Atob(d + pad) == Some(BinaryString(DecodeValues(vs)))
  {
    var data := d + pad;
    forall i | 0 <= i < |data| ensures !IsAsciiWhitespace(data[i]) {
      if i < |d| { assert data[i] == StdChar(vs[i]); } else { assert data[i] == pad[i - |d|]; }
    }
    RemoveAsciiWhitespaceKeeps(data);
    StripPaddingOfPadded(d, pad, vs);
    ValuesOfStandard(d, vs);
  }

  /** What the conversion hands to `atob` for an encoding: the standard-alphabet
      characters of the values, then the `=` that complete the last group. */
  lemma NormaliseOfEncoded(bytes: seq<Byte>) returns (d: string, pad: string)
    ensures Normalise(EncodeUrlNoPadding(bytes)) == d + pad
    ensures |d| == |Sextets(bytes)| && forall i :: 0 <= i < |d| ==> d[i] == StdChar(Sextets(bytes)[i])
    ensures |pad| == (4 - |d| % 4) % 4 && forall i :: 0 <= i < |pad| ==> pad[i] == '='
  {
    var s, vs := EncodeUrlNoPadding(bytes), Sextets(bytes);
    pad := Padding(|s|);
    var base64 := Normalise(s);
    d := base64[..|s|];
    assert base64[|s|..] == pad by {
      forall i | 0 <= i < |pad| ensures base64[|s|..][i] == pad[i] {
        assert (s + pad)[|s| + i] == pad[i];
      }
    }
    assert base64 == d + pad;
    forall i | 0 <= i < |d| ensures d[i] == StdChar(vs[i]) {
      assert (s + pad)[i] == UrlChar(vs[i]);
    }
  }

  /** Round trip: base64url-encoding any bytes without padding and converting
      the text back gives the same bytes. */
  lemma UrlBase64RoundTrip(bytes: seq<Byte>)
    ensures UrlBase64Decode(EncodeUrlNoPadding(bytes)) == Some(bytes)
  {
    var vs := Sextets(bytes);
    var d, pad := NormaliseOfEncoded(bytes);
    AtobOfEncoded(d, pad, vs);
    DecodeSextets(bytes);
    assert CharCodes(BinaryString(bytes)) == bytes;
  }

  /** A key whose length leaves remainder 1 after division by four gets three `=`;
      at most two are removed again, so `atob` always throws. */
  lemma LengthOneMoreThanMultipleOfFourFails(base64String: string)
    requires |base64String| % 4 == 1
    ensures |Padding(|base64String|)| == 3
    ensures Atob(Normalise(base64String)).None?
  {
    var base64 := Normalise(base64String);
    var head := base64[..|base64String|];
    EndsWithThreePads(base64String, base64, head);
    PadsSurviveWhitespaceRemoval(head);
    AtobFailsOnTripleTail(RemoveAsciiWhitespace(head), base64);
  }

  lemma PadsSurviveWhitespaceRemoval(head: string)
    ensures RemoveAsciiWhitespace(head + "===") == RemoveAsciiWhitespace(head) + "==="
  {
    FilterAppend(head, "===", (c: char) => !IsAsciiWhitespace(c));
  }

  lemma EndsWithThreePads(base64String: string, base64: string, head: string)
    requires |base64String| % 4 == 1 && base64 == Normalise(base64String)
    requires head == base64[..|base64String|]
    ensures base64 == head + "==="
  {
    var n := |base64String|;
    var padded := base64String + Padding(n);
    assert |base64| == n + 3;
    forall i | n <= i < n + 3 ensures base64[i] == '=' {
      assert padded[i] == '=';
    }
    assert base64[n..] == "===";
    assert base64 == base64[..n] + base64[n..];
  }

  lemma AtobFailsOnTripleTail(kept: string, data: string)
    requires RemoveAsciiWhitespace(data) == kept + "==="
    ensures Atob(data).None?
  {
    var d := StripPadding(kept + "===");
    assert |d| > |kept| && d[|kept|] == '=';
    assert !IsBase64Char(d[|kept|]);
  }
}
