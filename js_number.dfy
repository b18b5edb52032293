/** JavaScript's global `parseInt(string)` with no radix argument, on the
    mathematical integers. `None` stands for NaN. */
module JsNumber {
  import opened Wrappers
  import opened JsText

  /** The value of c as a digit in base 36, or 36 when c is not one. */
  function DigitValue(c: char): nat {
    if '0' <= c <= '9' then (c as int - '0' as int) as nat
    else if 'a' <= c <= 'z' then (c as int - 'a' as int + 10) as nat
    else if 'A' <= c <= 'Z' then (c as int - 'A' as int + 10) as nat
    else 36
  }

  predicate IsDigitIn(c: char, radix: nat) {
    DigitValue(c) < radix
  }

  /** The length of the longest prefix of s made of radix digits. */
  function DigitPrefixLength(s: string, radix: nat): (n: nat)
    ensures n <= |s|
    ensures forall i :: 0 <= i < n ==> IsDigitIn(s[i], radix)
    ensures n < |s| ==> !IsDigitIn(s[n], radix)
    decreases |s|
  {
    if s == [] || !IsDigitIn(s[0], radix) then 0
    else 1 + DigitPrefixLength(s[1..], radix)
  }

  /** The number a string of digits denotes, most significant digit first. */
  function DigitsValue(d: string, radix: nat): nat
    decreases |d|
  {
    if d == [] then 0
    else DigitsValue(d[..|d| - 1], radix) * radix + DigitValue(d[|d| - 1])
  }

  /** `parseInt(s)`: skip leading whitespace, read an optional sign, then
      the magnitude; NaN when there is no magnitude. Blank text is NaN, and
      text starting with a non-zero digit is a number. */
  function ParseInt(s: string): (r: Option<int>)
    ensures TrimStart(s) == [] ==> r.None?
    ensures |s| > 0 && '1' <= s[0] <= '9' ==> r.Some?
  {
    if |s| > 0 && '1' <= s[0] <= '9' then
      NonZeroDigitFirst(s);
      ParseSigned(TrimStart(s))
    else
      ParseSigned(TrimStart(s))
  }

  /** Text starting with a non-zero digit has no leading whitespace and
      reads as a number. */
  lemma NonZeroDigitFirst(t: string)
    requires |t| > 0 && '1' <= t[0] <= '9'
    ensures TrimStart(t) == t && ParseSigned(t).Some?
  {
    assert !IsJsWhitespace(t[0]);
    assert t[0] != '-' && t[0] != '+' && t[0] != '0';
    assert DigitPrefixLength(t, 10) > 0;
  }

  /** parseInt after the leading whitespace. */
  function ParseSigned(t: string): Option<int> {
    var negative := |t| > 0 && t[0] == '-';
    var unsigned := if |t| > 0 && (t[0] == '-' || t[0] == '+') then t[1..] else t;
    match ParseMagnitude(unsigned)
    case None => None
    case Some(m) => Some(if negative then -m else m)
  }

  /** The unsigned part of parseInt: a "0x"/"0X" prefix selects base 16
      (base 10 otherwise); the value is that of the longest run of digits
      that follows, NaN when that run is empty. Trailing characters are
      ignored. */
  function ParseMagnitude(u: string): Option<int> {
    var hex := |u| >= 2 && u[0] == '0' && (u[1] == 'x' || u[1] == 'X');
    var radix := if hex then 16 else 10;
    var digits := if hex then u[2..] else u;
    var n := DigitPrefixLength(digits, radix);
    if n == 0 then None else Some(DigitsValue(digits[..n], radix))
  }

  function DecimalDigit(d: nat): char
    requires d < 10
  {
    ('0' as int + d) as char
  }

  /** The decimal numeral of n, without leading zeros. */
  function DecimalString(n: nat): (r: string)
    ensures |r| > 0
    ensures forall i :: 0 <= i < |r| ==> '0' <= r[i] <= '9'
    ensures |r| > 1 ==> r[0] != '0'
    decreases n
  {
    if n < 10 then [DecimalDigit(n)] else DecimalString(n / 10) + [DecimalDigit(n % 10)]
  }

  lemma {:induction false} DecimalStringValue(n: nat)
    ensures DigitsValue(DecimalString(n), 10) == n
    decreases n
  {
    if n >= 10 {
      var d := DecimalString(n);
      DecimalStringValue(n / 10);
      assert d[..|d| - 1] == DecimalString(n / 10);
    }
  }

  /** parseInt reads back every decimal numeral, even with trailing text
      that does not start with a digit or an 'x'. */
  lemma ParseIntOfDecimal(n: nat, rest: string)
    requires rest == [] || (!IsDigitIn(rest[0], 10) && rest[0] != 'x' && rest[0] != 'X')
    ensures ParseInt(DecimalString(n) + rest) == Some(n)
  {
    var s := DecimalString(n) + rest;
    assert '0' <= s[0] <= '9' by {
      assert s[0] == DecimalString(n)[0];
    }
    ParseIntOfDigitFirst(s);
    ParseMagnitudeOfDecimal(n, rest);
  }

  /** Text that starts with a decimal digit is parsed as it stands. */
  lemma ParseIntOfDigitFirst(s: string)
    requires |s| > 0 && '0' <= s[0] <= '9'
    ensures ParseInt(s) == ParseMagnitude(s)
  {
    assert !IsJsWhitespace(s[0]);
    assert TrimStart(s) == s;
    assert ParseSigned(s) == ParseMagnitude(s) by {
      assert s[0] != '-' && s[0] != '+';
    }
  }

  lemma ParseMagnitudeOfDecimal(n: nat, rest: string)
    requires rest == [] || (!IsDigitIn(rest[0], 10) && rest[0] != 'x' && rest[0] != 'X')
    ensures ParseMagnitude(DecimalString(n) + rest) == Some(n)
  {
    var d := DecimalString(n);
    var s := d + rest;
    assert !(|s| >= 2 && s[0] == '0' && (s[1] == 'x' || s[1] == 'X')) by {
      if |d| == 1 {
        assert |s| >= 2 ==> s[1] == rest[0];
      } else {
        assert s[0] == d[0];
      }
    }
    assert DigitPrefixLength(s, 10) == |d| by {
      forall i | 0 <= i < |d|
        ensures IsDigitIn(s[i], 10)
      {
        assert s[i] == d[i];
      }
      DigitPrefixLengthIs(s, 10, |d|);
    }
    assert s[..|d|] == d;
    DecimalStringValue(n);
  }

  lemma DigitPrefixLengthIs(s: string, radix: nat, n: nat)
    requires n <= |s|
    requires forall i :: 0 <= i < n ==> IsDigitIn(s[i], radix)
    requires n < |s| ==> !IsDigitIn(s[n], radix)
    ensures DigitPrefixLength(s, radix) == n
  {
  }

  /** Leading whitespace never changes what parseInt returns. */
  lemma ParseIntSkipsWhitespace(w: string, s: string)
    requires forall i :: 0 <= i < |w| ==> IsJsWhitespace(w[i])
    ensures ParseInt(w + s) == ParseInt(s)
  {
    assert TrimStart(w + s) == TrimStart(s) by {
      TrimStartSkips(w, s);
    }
  }

  /** parseInt is NaN on text that starts with anything but whitespace, a
      sign or a decimal digit. */
  lemma ParseIntNaN(s: string)
    requires |s| > 0 && !IsJsWhitespace(s[0]) && s[0] != '-' && s[0] != '+' && !IsDigitIn(s[0], 10)
    ensures ParseInt(s) == None
  {
    assert TrimStart(s) == s;
    assert DigitPrefixLength(s, 10) == 0;
  }
}
