/** Numerals as `parseData`, `parseField` and `readField` read them: a token
    whose first two characters are `0x` is hexadecimal (read by `sscanf`
    with `%i`, or `%lli` for a 64-bit data word); any other numeral is
    decimal (read by a `stringstream`). Only plain digit strings are given
    a value here; the assemblers report anything else as BadNumber. */
module Literals {
  import opened Wrappers

  predicate IsDigit(c: char) { '0' <= c <= '9' }

  predicate IsHexDigit(c: char) { IsDigit(c) || 'a' <= c <= 'f' || 'A' <= c <= 'F' }

  function DigitValue(c: char): (d: nat)
    requires IsDigit(c)
    ensures d < 10
  {
    c as int - '0' as int
  }

  function HexDigitValue(c: char): (d: nat)
    requires IsHexDigit(c)
    ensures d < 16
  {
    if IsDigit(c) then DigitValue(c)
    else if 'a' <= c <= 'f' then c as int - 'a' as int + 10
    else c as int - 'A' as int + 10
  }

  /** The test `buf[0] == '0' && buf[1] == 'x'`. The original reads `buf[1]`
      of a one-character token as the terminating NUL, so "0" is not hex. */
  predicate IsHexToken(t: string) { |t| >= 2 && t[0] == '0' && t[1] == 'x' }

  predicate AllDigits(s: string) { forall i | 0 <= i < |s| :: IsDigit(s[i]) }

  predicate AllHexDigits(s: string) { forall i | 0 <= i < |s| :: IsHexDigit(s[i]) }

  /** Value of a string of decimal digits, most significant first. */
  function DecValue(s: string): nat
    requires AllDigits(s)
  {
    if s == [] then 0 else 10 * DecValue(s[..|s| - 1]) + DigitValue(s[|s| - 1])
  }

  /** Value of a string of hexadecimal digits, most significant first. */
  function HexValue(s: string): nat
    requires AllHexDigits(s)
  {
    if s == [] then 0 else 16 * HexValue(s[..|s| - 1]) + HexDigitValue(s[|s| - 1])
  }

  /** A decimal numeral: at least one digit and nothing else. */
  function ParseDecimal(t: string): (r: Option<nat>)
    ensures r.Some? <==> |t| > 0 && AllDigits(t)
  {
    if |t| > 0 && AllDigits(t) then Some(DecValue(t)) else None
  }

  /** A `0x` numeral: the prefix, at least one hex digit and nothing else. */
  function ParseHex(t: string): (r: Option<nat>)
    requires IsHexToken(t)
    ensures r.Some? <==> |t| > 2 && AllHexDigits(t[2..])
  {
    var digits := t[2..];
    if |digits| > 0 && AllHexDigits(digits) then Some(HexValue(digits)) else None
  }

  /** A numeral read into an unsigned word: hex when the token starts `0x`,
      decimal otherwise; None when it is malformed or does not fit below
      `hexLimit` (hex) or `decLimit` (decimal). */
  function ParseNumber(t: string, hexLimit: nat, decLimit: nat): (r: Option<nat>)
    ensures r.Some? ==> r.value < (if IsHexToken(t) then hexLimit else decLimit)
    ensures IsHexToken(t) && r.Some? ==> ParseHex(t) == r
    ensures !IsHexToken(t) && r.Some? ==> ParseDecimal(t) == r
  {
    if IsHexToken(t) then
      match ParseHex(t)
      case Some(v) => if v < hexLimit then Some(v) else None
      case None => None
    else
      match ParseDecimal(t)
      case Some(v) => if v < decLimit then Some(v) else None
      case None => None
  }

  function DigitChar(d: nat): (c: char)
    requires d < 10
    ensures IsDigit(c) && DigitValue(c) == d
  {
    '0' + d as char
  }

  /** Canonical decimal numeral of `n`: the partner of ParseDecimal. */
  function DecimalString(n: nat): (s: string)
    ensures |s| > 0 && AllDigits(s)
    decreases n
  {
    var d := [DigitChar(n % 10)];
    if n < 10 then d else DecimalString(n / 10) + d
  }

  function HexDigitChar(d: nat): (c: char)
    requires d < 16
    ensures IsHexDigit(c) && HexDigitValue(c) == d
  {
    if d < 10 then '0' + d as char else 'a' + (d - 10) as char
  }

  /** Hex digits of `n`, lower case, most significant first. */
  function HexDigits(n: nat): (s: string)
    ensures |s| > 0 && AllHexDigits(s)
    decreases n
  {
    var d := [HexDigitChar(n % 16)];
    if n < 16 then d else HexDigits(n / 16) + d
  }

  /** Canonical `0x` numeral of `n`: the partner of ParseHex. */
  function HexString(n: nat): (s: string)
    ensures IsHexToken(s)
  {
    "0x" + HexDigits(n)
  }

  lemma {:induction false} DecimalRoundTrip(n: nat)
    ensures ParseDecimal(DecimalString(n)) == Some(n)
    ensures DecValue(DecimalString(n)) == n
    decreases n
  {
    var s := DecimalString(n);
    if n >= 10 {
      var p := DecimalString(n / 10);
      DecimalRoundTrip(n / 10);
      assert s == p + [DigitChar(n % 10)];
      assert s[..|s| - 1] == p;
      assert DecValue(s) == 10 * DecValue(p) + DigitValue(s[|s| - 1]);
    }
  }

  lemma {:induction false} HexDigitsRoundTrip(n: nat)
    ensures HexValue(HexDigits(n)) == n
    decreases n
  {
    var s := HexDigits(n);
    if n >= 16 {
      var p := HexDigits(n / 16);
      HexDigitsRoundTrip(n / 16);
      assert s == p + [HexDigitChar(n % 16)];
      assert s[..|s| - 1] == p;
      assert HexValue(s) == 16 * HexValue(p) + HexDigitValue(s[|s| - 1]);
    }
  }

  lemma HexRoundTrip(n: nat)
    ensures ParseHex(HexString(n)) == Some(n)
  {
    HexDigitsRoundTrip(n);
    assert HexString(n)[2..] == HexDigits(n);
  }

  /** ParseNumber reads back both canonical numerals of every value in range. */
  lemma ParseNumberCanonical(n: nat, hexLimit: nat, decLimit: nat)
    ensures n < decLimit ==> ParseNumber(DecimalString(n), hexLimit, decLimit) == Some(n)
    ensures n < hexLimit ==> ParseNumber(HexString(n), hexLimit, decLimit) == Some(n)
  {
    DecimalRoundTrip(n);
    HexRoundTrip(n);
    assert !IsHexToken(DecimalString(n)) by {
      var s := DecimalString(n);
      if |s| >= 2 {
        assert IsDigit(s[1]);
      }
    }
  }
}
