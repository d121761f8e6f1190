/** Decimal text of integers, as JavaScript writes a number into a template
    string, and the parsing JavaScript's global `parseInt` does with no radix. */
module Decimal {
  import opened Options

  /** The characters `parseInt` skips before the number: the ASCII white space,
      the no-break space and the byte-order mark. */
  predicate IsSpace(c: char) {
    c == ' ' || c == '\t' || c == '\n' || c == '\r' || c == '\U{000B}' || c == '\U{000C}'
    || c == '\U{00A0}' || c == '\U{FEFF}'
  }

  predicate IsDecimalDigit(c: char) {
    '0' <= c <= '9'
  }

  predicate IsHexDigit(c: char) {
    IsDecimalDigit(c) || 'a' <= c <= 'f' || 'A' <= c <= 'F'
  }

  /** A digit of the given radix; `parseInt` only ever uses 10 or 16 here. */
  predicate IsRadixDigit(c: char, radix: nat) {
    if radix == 16 then IsHexDigit(c) else IsDecimalDigit(c)
  }

  predicate AllDigits(s: string, radix: nat) {
    forall i :: 0 <= i < |s| ==> IsRadixDigit(s[i], radix)
  }

  function DigitValue(c: char): (d: nat)
    requires IsHexDigit(c)
    ensures d < 16
    ensures IsDecimalDigit(c) ==> d < 10
  {
    if IsDecimalDigit(c) then c as int - '0' as int
    else if 'a' <= c <= 'f' then c as int - 'a' as int + 10
    else c as int - 'A' as int + 10
  }

  function DigitChar(d: nat): (c: char)
    requires d < 10
    ensures IsDecimalDigit(c) && DigitValue(c) == d
  {
    ('0' as int + d) as char
  }

  /** The decimal digits of `n`, most significant first, with no leading zero. */
  function FormatNat(n: nat): (s: string)
    ensures |s| >= 1
    ensures AllDigits(s, 10)
    ensures s[0] == '0' ==> n == 0 && |s| == 1
    decreases n
  {
    if n < 10 then [DigitChar(n)] else FormatNat(n / 10) + [DigitChar(n % 10)]
  }

  /** `${n}` for an integer-valued number: a minus sign before the digits of a negative one. */
  function FormatInt(n: int): (s: string)
    ensures |s| >= 1
    ensures s[0] == '-' <==> n < 0
  {
    if n < 0 then "-" + FormatNat(-n) else FormatNat(n)
  }

  /** The number a string of digits denotes in the radix. */
  function Value(ds: string, radix: nat): nat
    requires radix == 10 || radix == 16
    requires AllDigits(ds, radix)
  {
    if |ds| == 0 then 0 else Value(ds[..|ds| - 1], radix) * radix + DigitValue(ds[|ds| - 1])
  }

  /** The longest prefix of `s` made of digits of the radix. */
  function DigitPrefix(s: string, radix: nat): (ds: string)
    ensures ds <= s
    ensures AllDigits(ds, radix)
    ensures |ds| < |s| ==> !IsRadixDigit(s[|ds|], radix)
  {
    if |s| == 0 || !IsRadixDigit(s[0], radix) then [] else [s[0]] + DigitPrefix(s[1..], radix)
  }

  /** `s` without its leading white space. */
  function TrimStart(s: string): (t: string)
    ensures |t| <= |s| && t == s[|s| - |t|..]
    ensures forall i :: 0 <= i < |s| - |t| ==> IsSpace(s[i])
    ensures |t| > 0 ==> !IsSpace(t[0])
  {
    if |s| > 0 && IsSpace(s[0]) then TrimStart(s[1..]) else s
  }

  /** The unsigned part of `parseInt`: radix 16 after a `0x` or `0X`, then the
      longest run of digits; no digit at all gives `NaN`, here `None`. */
  function ParseMagnitude(u: string): Option<nat> {
    var hex := |u| >= 2 && u[0] == '0' && (u[1] == 'x' || u[1] == 'X');
    var radix := if hex then 16 else 10;
    var ds := DigitPrefix(if hex then u[2..] else u, radix);
    if |ds| == 0 then None else Some(Value(ds, radix))
  }

  /** The number after an optional sign. */
  function ParseSigned(t: string): Option<int> {
    if |t| > 0 && t[0] == '-' then
      match ParseMagnitude(t[1..])
      case None => None
      case Some(m) => Some(0 - m)
    else
      match ParseMagnitude(if |t| > 0 && t[0] == '+' then t[1..] else t)
      case None => None
      case Some(m) => Some(m)
  }

  /** `parseInt(s)` with no radix: skip white space, read an optional sign, then
      the unsigned part. */
  function ParseInt(s: string): (r: Option<int>)
    ensures (forall i :: 0 <= i < |s| ==> !IsDecimalDigit(s[i])) ==> r == None
  {
    var t := TrimStart(s);
    NoDigitNoNumber(t);
    ParseSigned(t)
  }

  lemma NoDigitNoMagnitude(u: string)
    ensures (forall i :: 0 <= i < |u| ==> !IsDecimalDigit(u[i])) ==> ParseMagnitude(u) == None
  {
    if |u| > 0 && forall i :: 0 <= i < |u| ==> !IsDecimalDigit(u[i]) {
      assert !IsRadixDigit(u[0], 10);
    }
  }

  lemma NoDigitNoNumber(t: string)
    ensures (forall i :: 0 <= i < |t| ==> !IsDecimalDigit(t[i])) ==> ParseSigned(t) == None
  {
    NoDigitNoMagnitude(t);
    if |t| > 0 {
      NoDigitNoMagnitude(t[1..]);
    }
  }

  /** A character that ends the number `parseInt` reads from decimal digits
      without turning a leading `0` into a hexadecimal prefix. */
  predicate EndsNumber(rest: string) {
    |rest| == 0 || (!IsDecimalDigit(rest[0]) && rest[0] != 'x' && rest[0] != 'X')
  }

  lemma {:induction false} ValueOfFormatNat(n: nat)
    ensures Value(FormatNat(n), 10) == n
    decreases n
  {
    if n >= 10 {
      var s := FormatNat(n);
      var head := FormatNat(n / 10);
      assert s == head + [DigitChar(n % 10)];
      assert s[..|s| - 1] == head;
      ValueOfFormatNat(n / 10);
    }
  }

  lemma {:induction false} DigitPrefixOfDigits(ds: string, rest: string)
    requires AllDigits(ds, 10)
    requires |rest| == 0 || !IsDecimalDigit(rest[0])
    ensures DigitPrefix(ds + rest, 10) == ds
    decreases |ds|
  {
    if |ds| > 0 {
      assert (ds + rest)[1..] == ds[1..] + rest;
      DigitPrefixOfDigits(ds[1..], rest);
      assert ds == [ds[0]] + ds[1..];
    } else {
      assert ds + rest == rest;
    }
  }

  lemma ParseMagnitudeFormatNat(m: nat, rest: string)
    requires EndsNumber(rest)
    ensures ParseMagnitude(FormatNat(m) + rest) == Some(m)
  {
    DigitPrefixOfDigits(FormatNat(m), rest);
    ValueOfFormatNat(m);
  }

  lemma TrimStartNoSpace(s: string)
    requires |s| > 0 && !IsSpace(s[0])
    ensures TrimStart(s) == s
  {
  }

  lemma ParseUnsignedDigits(u: string)
    requires |u| > 0 && IsDecimalDigit(u[0])
    ensures ParseInt(u) == ParseMagnitude(u)
  {
    TrimStartNoSpace(u);
    assert ParseSigned(u) == ParseMagnitude(u);
  }

  /** A minus sign followed by a magnitude parses to its negation. */
  lemma ParseMinusDigits(d: string, m: int)
    requires |d| > 0 && m >= 0 && ParseMagnitude(d) == Some(m)
    ensures ParseInt("-" + d) == Some(-m)
  {
    var s := "-" + d;
    assert s[0] == '-' && s[1..] == d;
    TrimStartNoSpace(s);
  }

  /** `parseInt` reads back the digits of a natural number, and stops at a
      following character that cannot continue the number. */
  lemma ParseFormatNat(m: nat, rest: string)
    requires EndsNumber(rest)
    ensures ParseInt(FormatNat(m) + rest) == Some(m)
  {
    var u := FormatNat(m) + rest;
    assert u[0] == FormatNat(m)[0];
    ParseMagnitudeFormatNat(m, rest);
    ParseUnsignedDigits(u);
  }

  lemma MagnitudeOfDigits(m: nat)
    ensures ParseMagnitude(FormatNat(m)) == Some(m)
  {
    ParseMagnitudeFormatNat(m, "");
    assert FormatNat(m) + "" == FormatNat(m);
  }

  /** `parseInt` reads back every integer written by `${n}`. */
  lemma ParseFormatInt(n: int)
    ensures ParseInt(FormatInt(n)) == Some(n)
  {
    if n < 0 {
      MagnitudeOfDigits(-n);
      ParseMinusDigits(FormatNat(-n), -n);
    } else {
      ParseFormatNat(n, "");
      assert FormatNat(n) + "" == FormatInt(n);
    }
  }
}
