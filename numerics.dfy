/** Number handling shared by the date helpers: the day length, `Math.ceil` of a
    millisecond difference divided by it, and the decimal text `${n}` produces. */
module Numerics {

  /** `1000 * 60 * 60 * 24`: milliseconds in a day. */
  const MsPerDay: int := 86_400_000

  /** `Math.ceil(ms / MsPerDay)` for an integer number of milliseconds: the least
      number of whole days covering `ms`. */
  function CeilDays(ms: int): (days: int)
    ensures (days - 1) * MsPerDay < ms <= days * MsPerDay
  {
    (ms + MsPerDay - 1) / MsPerDay
  }

  /** The two bounds in `CeilDays`'s contract single out one value. */
  lemma CeilDaysUnique(ms: int, q: int)
    requires (q - 1) * MsPerDay < ms <= q * MsPerDay
    ensures q == CeilDays(ms)
  {
  }

  /** A later instant is never fewer days away. */
  lemma CeilDaysMonotone(a: int, b: int)
    requires a <= b
    ensures CeilDays(a) <= CeilDays(b)
  {
  }

  function DigitChar(d: int): (c: char)
    requires 0 <= d < 10
    ensures '0' <= c <= '9'
  {
    ('0' as int + d) as char
  }

  predicate IsDigits(s: string) {
    forall i :: 0 <= i < |s| ==> '0' <= s[i] <= '9'
  }

  /** `${n}` for a non-negative integer below 10^21: its decimal digits, without
      leading zeros. */
  function NatToString(n: nat): (s: string)
    ensures |s| >= 1 && IsDigits(s)
    ensures s[0] == '0' ==> n == 0
    decreases n
  {
    if n < 10 then [DigitChar(n)] else NatToString(n / 10) + [DigitChar(n % 10)]
  }

  /** The value of a string of decimal digits. */
  function DigitsValue(s: string): nat
    requires IsDigits(s)
    decreases |s|
  {
    if s == [] then 0 else DigitsValue(s[..|s| - 1]) * 10 + (s[|s| - 1] as int - '0' as int)
  }

  /** Reading the digits back gives the number: the rendering loses nothing. */
  lemma {:induction false} NatToStringRoundTrip(n: nat)
    ensures DigitsValue(NatToString(n)) == n
    decreases n
  {
    if n >= 10 {
      NatToStringRoundTrip(n / 10);
      var s := NatToString(n);
      assert s[..|s| - 1] == NatToString(n / 10);
    }
  }

  lemma NatToStringInjective(a: nat, b: nat)
    requires NatToString(a) == NatToString(b)
    ensures a == b
  {
    NatToStringRoundTrip(a);
    NatToStringRoundTrip(b);
  }

  /** `${n}` for any integer of magnitude below 10^21. */
  function IntToString(n: int): (s: string)
    ensures n >= 0 ==> s == NatToString(n)
    ensures n < 0 ==> s == "-" + NatToString(-n)
  {
    if n < 0 then "-" + NatToString(-n) else NatToString(n)
  }

  lemma IntToStringInjective(a: int, b: int)
    requires IntToString(a) == IntToString(b)
    ensures a == b
  {
    var sa, sb := IntToString(a), IntToString(b);
    if a < 0 && b < 0 {
      assert sa[1..] == NatToString(-a) && sb[1..] == NatToString(-b);
      NatToStringInjective(-a, -b);
    } else if a >= 0 && b >= 0 {
      NatToStringInjective(a, b);
    }
  }

  /** Two digit strings followed by suffixes that end in different characters differ. */
  lemma SuffixedDigitsInjective(a: nat, b: nat, sa: string, sb: string)
    requires NatToString(a) + sa == NatToString(b) + sb
    requires |sa| == |sb|
    ensures a == b && sa == sb
  {
    var x, y := NatToString(a) + sa, NatToString(b) + sb;
    assert x[..|x| - |sa|] == NatToString(a);
    assert y[..|y| - |sb|] == NatToString(b);
    NatToStringInjective(a, b);
    assert x[|x| - |sa|..] == sa;
  }
}
