/** JavaScript's parseInt(string) called without a radix, as the patient routes
    use it on the submitted age. NaN is None; numbers are unbounded integers. */
module Numbers {
  import opened Text
  import opened Forms

  predicate IsRadixDigit(c: char, radix: nat) {
    if radix == 16 then IsDigit(c) || 'a' <= c <= 'f' || 'A' <= c <= 'F' else IsDigit(c)
  }

  function DigitValue(c: char): nat {
    if IsDigit(c) then c as int - '0' as int
    else if 'a' <= c <= 'f' then c as int - 'a' as int + 10
    else if 'A' <= c <= 'F' then c as int - 'A' as int + 10
    else 0
  }

  /** The longest prefix of s made of digits of the radix. */
  function DigitRun(s: string, radix: nat): (r: string)
    ensures |r| <= |s| && r == s[..|r|]
    ensures forall k :: 0 <= k < |r| ==> IsRadixDigit(r[k], radix)
    ensures |r| == |s| || !IsRadixDigit(s[|r|], radix)
  {
    if s == [] || !IsRadixDigit(s[0], radix) then [] else [s[0]] + DigitRun(s[1..], radix)
  }

  /** The value of a digit string, most significant digit first. */
  function ValueOf(digits: string, radix: nat): nat {
    if digits == [] then 0
    else ValueOf(digits[..|digits| - 1], radix) * radix + DigitValue(digits[|digits| - 1])
  }

  /** parseInt: skip leading whitespace, take one optional sign, read a "0x" or
      "0X" prefix as radix 16 and otherwise use radix 10, then convert the
      longest run of digits; no digits at all gives NaN. */
  function ParseInt(s: string): Option<int> {
    ParseSigned(TrimStart(s))
  }

  /** parseInt after the leading whitespace: one optional sign, then the magnitude. */
  function ParseSigned(t: string): Option<int> {
    if t != [] && (t[0] == '-' || t[0] == '+') then
      match ParseMagnitude(t[1..])
      case None => None
      case Some(v) => Some(if t[0] == '-' then -(v as int) else v as int)
    else
      match ParseMagnitude(t)
      case None => None
      case Some(v) => Some(v as int)
  }

  /** The unsigned part: a "0x"/"0X" prefix selects radix 16, otherwise radix 10. */
  function ParseMagnitude(u: string): Option<nat> {
    var hex := |u| >= 2 && u[0] == '0' && (u[1] == 'x' || u[1] == 'X');
    var radix := if hex then 16 else 10;
    var digits := DigitRun(if hex then u[2..] else u, radix);
    if digits == [] then None else Some(ValueOf(digits, radix))
  }

  /** The decimal rendering of n, as a browser submits a typed age. */
  function Decimal(n: nat): (r: string)
    ensures r != [] && forall k :: 0 <= k < |r| ==> IsDigit(r[k])
    ensures n >= 10 ==> |r| >= 2
    ensures n < 10 ==> |r| == 1
  {
    var last := ('0' as int + n % 10) as char;
    if n < 10 then [last] else Decimal(n / 10) + [last]
  }

  lemma {:induction false} ValueOfDecimal(n: nat)
    ensures ValueOf(Decimal(n), 10) == n
  {
    var d := Decimal(n);
    if n >= 10 {
      ValueOfDecimal(n / 10);
      assert d[..|d| - 1] == Decimal(n / 10);
    }
  }

  /** A digit run that is followed by a non-digit is exactly what DigitRun takes. */
  lemma DigitRunOfPrefix(d: string, rest: string, radix: nat)
    requires forall k :: 0 <= k < |d| ==> IsRadixDigit(d[k], radix)
    requires rest == [] || !IsRadixDigit(rest[0], radix)
    ensures DigitRun(d + rest, radix) == d
  {
    var s := d + rest;
    assert s[..|d|] == d;
  }

  /** The magnitude reader takes back the decimal rendering of every natural
      number, whatever non-digit text follows it; after "0" a following "x" or
      "X" would be read as the hexadecimal prefix instead. */
  lemma ParseMagnitudeDecimal(n: nat, rest: string)
    requires rest == [] || (!IsDigit(rest[0]) && (n == 0 ==> rest[0] != 'x' && rest[0] != 'X'))
    ensures ParseMagnitude(Decimal(n) + rest) == Some(n)
  {
    var d := Decimal(n);
    var s := d + rest;
    if |s| >= 2 && s[0] == '0' {
      if n >= 10 {
        assert s[1] == d[1];
      } else {
        assert s[1] == rest[0];
      }
    }
    DigitRunOfPrefix(d, rest, 10);
    ValueOfDecimal(n);
  }

  /** parseInt reads back the decimal rendering of a natural number, as typed in
      the age field, with or without trailing text. */
  lemma ParseIntDecimal(n: nat, rest: string)
    requires rest == [] || (!IsDigit(rest[0]) && (n == 0 ==> rest[0] != 'x' && rest[0] != 'X'))
    ensures ParseInt(Decimal(n) + rest) == Some(n)
  {
    var s := Decimal(n) + rest;
    assert IsDigit(s[0]) by { assert s[0] == Decimal(n)[0]; }
    assert TrimStart(s) == s;
    ParseMagnitudeDecimal(n, rest);
    assert ParseSigned(s) == Some(n);
  }

  /** A leading minus sign negates the value read. */
  lemma ParseIntNegative(n: nat)
    ensures ParseInt("-" + Decimal(n)) == Some(-(n as int))
  {
    var d := Decimal(n);
    var s := "-" + d;
    assert TrimStart(s) == s;
    assert s[1..] == d + [];
    ParseMagnitudeDecimal(n, []);
  }

  /** Leading whitespace is skipped. */
  lemma {:induction false} ParseIntSkipsWhitespace(w: string, s: string)
    requires AllWhitespace(w)
    ensures ParseInt(w + s) == ParseInt(s)
  {
    TrimStartSkips(w, s);
  }

  lemma {:induction false} TrimStartSkips(w: string, s: string)
    requires AllWhitespace(w)
    ensures TrimStart(w + s) == TrimStart(s)
  {
    if w != [] {
      assert (w + s)[1..] == w[1..] + s;
      TrimStartSkips(w[1..], s);
    } else {
      assert w + s == s;
    }
  }

  /** Text with no digit where parseInt looks for one is NaN. */
  lemma ParseIntNoDigits(s: string)
    requires s != [] && !IsWhitespace(s[0]) && !IsDigit(s[0]) && s[0] != '-' && s[0] != '+'
    ensures ParseInt(s) == None
  {
  }
}
