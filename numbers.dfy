/**
  * Integers as JavaScript renders and parses them: a template literal
  * `${n}` writes an integer in decimal, and `Number.parseInt` (with no
  * radix) reads the longest numeric prefix of a string, or gives NaN.
  */
module Numbers {

  /** What `Number.parseInt` can return: an integer, or NaN when no digits were found. */
  datatype JsNumber = NaN | Int(value: int)

  predicate IsDigit(c: char) { '0' <= c <= '9' }

  predicate IsHexDigit(c: char) { IsDigit(c) || 'a' <= c <= 'f' || 'A' <= c <= 'F' }

  /** The white space and line terminators that `parseInt` skips before the number. */
  predicate IsJsWhiteSpace(c: char)
  {
    c == ' ' || c == '\t' || c == '\n' || c == '\r' || c == '\U{000B}' || c == '\U{000C}'
    || c == '\U{00A0}' || c == '\U{1680}' || '\U{2000}' <= c <= '\U{200A}'
    || c == '\U{2028}' || c == '\U{2029}' || c == '\U{202F}' || c == '\U{205F}'
    || c == '\U{3000}' || c == '\U{FEFF}'
  }

  function DigitValue(c: char): (d: nat)
    requires IsHexDigit(c)
    ensures d < 16
    ensures IsDigit(c) <==> d < 10
  {
    if IsDigit(c) then c as int - '0' as int
    else if 'a' <= c <= 'f' then c as int - 'a' as int + 10
    else c as int - 'A' as int + 10
  }

  function DigitChar(d: nat): (c: char)
    requires d < 10
    ensures IsDigit(c) && DigitValue(c) == d
  {
    ('0' as int + d) as char
  }

  /** The decimal digits of `n`, most significant first, without leading zeros. */
  function NatToString(n: nat): (s: string)
    ensures |s| >= 1
    ensures forall i :: 0 <= i < |s| ==> IsDigit(s[i])
    ensures |s| > 1 ==> s[0] != '0'
    decreases n
  {
    if n < 10 then [DigitChar(n)] else NatToString(n / 10) + [DigitChar(n % 10)]
  }

  /** `${n}`: a minus sign for a negative number, then the decimal digits. */
  function IntToString(n: int): (s: string)
    ensures |s| >= 1
    ensures s[0] == '-' <==> n < 0
    ensures n < 0 ==> |s| >= 2 && s[1] != '0'
    ensures forall i :: (if n < 0 then 1 else 0) <= i < |s| ==> IsDigit(s[i])
  {
    if n < 0 then "-" + NatToString(-n) else NatToString(n)
  }

  /** The value of a string of digits in the given base, most significant first. */
  function DigitsValue(s: string, base: nat): nat
    requires forall i :: 0 <= i < |s| ==> IsHexDigit(s[i])
    decreases |s|
  {
    if |s| == 0 then 0 else DigitsValue(s[..|s| - 1], base) * base + DigitValue(s[|s| - 1])
  }

  /** Reading back the digits `NatToString` writes gives the number again. */
  lemma {:induction false} DecimalRoundTrip(n: nat)
    ensures DigitsValue(NatToString(n), 10) == n
    decreases n
  {
    var s := NatToString(n);
    if n >= 10 {
      DecimalRoundTrip(n / 10);
      assert s[..|s| - 1] == NatToString(n / 10);
    }
  }

  /** How many characters at the front of `s` satisfy the digit test of the given base. */
  function LeadingDigits(s: string, hex: bool): (k: nat)
    ensures k <= |s|
    ensures forall i :: 0 <= i < k ==> (if hex then IsHexDigit(s[i]) else IsDigit(s[i]))
    ensures k < |s| ==> !(if hex then IsHexDigit(s[k]) else IsDigit(s[k]))
    decreases |s|
  {
    if |s| > 0 && (if hex then IsHexDigit(s[0]) else IsDigit(s[0]))
    then 1 + LeadingDigits(s[1..], hex)
    else 0
  }

  /** `s` with its leading white space removed. */
  function TrimStart(s: string): (t: string)
    ensures |t| <= |s| && t == s[|s| - |t|..]
    ensures |t| > 0 ==> !IsJsWhiteSpace(t[0])
    ensures forall i :: 0 <= i < |s| - |t| ==> IsJsWhiteSpace(s[i])
    decreases |s|
  {
    if |s| > 0 && IsJsWhiteSpace(s[0]) then TrimStart(s[1..]) else s
  }

  /** The unsigned part read in base 16 after a "0x" prefix, or in base 10 otherwise. */
  function ParseMagnitude(u: string): (r: JsNumber)
    ensures r.NaN? <==> !StartsWithNumber(u)
    ensures r.Int? ==> r.value >= 0
  {
    if |u| >= 2 && u[0] == '0' && (u[1] == 'x' || u[1] == 'X') then
      var k := LeadingDigits(u[2..], true);
      if k == 0 then NaN else Int(DigitsValue(u[2..][..k], 16))
    else
      var k := LeadingDigits(u, false);
      if k == 0 then NaN else Int(DigitsValue(u[..k], 10))
  }

  /** `s` without its leading white space and an optional sign. */
  function Unsigned(s: string): string
  {
    var t := TrimStart(s);
    if |t| > 0 && (t[0] == '-' || t[0] == '+') then t[1..] else t
  }

  /** `u` starts with a decimal digit, or with "0x" / "0X" and a hexadecimal digit. */
  predicate StartsWithNumber(u: string)
  {
    if |u| >= 2 && u[0] == '0' && (u[1] == 'x' || u[1] == 'X') then |u| >= 3 && IsHexDigit(u[2])
    else |u| >= 1 && IsDigit(u[0])
  }

  /**
    * `Number.parseInt(s)`: skip leading white space, take an optional sign,
    * then the longest run of digits (hexadecimal after "0x" or "0X"). No
    * digits at all gives NaN; anything after the digits is ignored.
    */
  function ParseInt(s: string): (r: JsNumber)
    ensures r.Int? ==> |TrimStart(s)| > 0
    ensures r.Int? && r.value < 0 ==> TrimStart(s)[0] == '-'
    ensures r.Int? && TrimStart(s)[0] == '-' ==> r.value <= 0
    ensures r.NaN? <==> !StartsWithNumber(Unsigned(s))
  {
    var t := TrimStart(s);
    var negative := |t| > 0 && t[0] == '-';
    match ParseMagnitude(Unsigned(s))
    case NaN => NaN
    case Int(m) => Int(if negative then -m else m)
  }

  /** A string that starts with anything but white space, a sign or a digit is not a number. */
  lemma ParseIntRejectsNonNumeric(s: string)
    requires |s| > 0 && !IsJsWhiteSpace(s[0]) && !IsDigit(s[0]) && s[0] != '-' && s[0] != '+'
    ensures ParseInt(s) == NaN
  {
    assert TrimStart(s) == s;
    assert LeadingDigits(s, false) == 0;
  }

  /**
    * Digits followed by something else are read up to the first non-digit,
    * unless the digits are a lone "0" and an 'x' follows (a hexadecimal prefix).
    */
  lemma ParseIntStopsAtNonDigit(n: nat, rest: string)
    requires |rest| > 0 && !IsDigit(rest[0])
    requires rest[0] == 'x' || rest[0] == 'X' ==> n != 0
    ensures ParseInt(NatToString(n) + rest) == Int(n)
  {
    var s := NatToString(n);
    NumberTrimsToItself(s + rest);
    DecimalRoundTrip(n);
    if |s| == 1 && s[0] == '0' {
      assert DigitsValue(s, 10) == DigitsValue(s[..0], 10) * 10 + DigitValue(s[0]);
    }
    DecimalMagnitude(s, rest);
  }

  /** Writing an integer and parsing it back gives the same integer. */
  lemma ParseIntRoundTrip(n: int)
    ensures ParseInt(IntToString(n)) == Int(n)
  {
    var m := if n < 0 then -n else n;
    var digits := NatToString(m);
    DecimalRoundTrip(m);
    DecimalMagnitude(digits, "");
    assert digits + "" == digits;
    var s := IntToString(n);
    NumberTrimsToItself(s);
    assert Unsigned(s) == digits by {
      if n < 0 { assert s[1..] == digits; }
    }
    assert ParseMagnitude(Unsigned(s)) == Int(m);
  }

  lemma NumberTrimsToItself(s: string)
    requires |s| > 0 && (IsDigit(s[0]) || s[0] == '-')
    ensures TrimStart(s) == s
  {
    assert !IsJsWhiteSpace(s[0]) by {
      assert '0' <= s[0] <= '9' || s[0] == '-';
    }
  }

  /** The magnitude of a digit string, followed by a non-digit that does not make a lone "0" a hexadecimal prefix, is its decimal value. */
  lemma DecimalMagnitude(s: string, rest: string)
    requires |s| >= 1 && forall i :: 0 <= i < |s| ==> IsDigit(s[i])
    requires |rest| > 0 ==> !IsDigit(rest[0])
    requires |rest| > 0 && (rest[0] == 'x' || rest[0] == 'X') ==> s != "0"
    ensures ParseMagnitude(s + rest) == Int(DigitsValue(s, 10))
  {
    var u := s + rest;
    DigitRunIsWhole(s, rest);
    assert u[..|s|] == s;
    if |u| >= 2 && u[0] == '0' {
      assert u[1] != 'x' && u[1] != 'X' by {
        if |s| >= 2 { assert u[1] == s[1]; } else { assert s == "0"; assert u[1] == rest[0]; }
      }
    }
  }

  lemma {:induction false} DigitRunIsWhole(s: string, rest: string)
    requires forall i :: 0 <= i < |s| ==> IsDigit(s[i])
    requires |rest| > 0 ==> !IsDigit(rest[0])
    ensures LeadingDigits(s + rest, false) == |s|
    decreases |s|
  {
    if |s| > 0 {
      assert (s + rest)[1..] == s[1..] + rest;
      DigitRunIsWhole(s[1..], rest);
    }
  }
}
