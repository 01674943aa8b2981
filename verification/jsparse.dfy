/** The two pieces of JavaScript string handling the busy-hours test relies on:
    taking the first field of `s.split(sep)`, and `parseInt(s)` with no radix
    argument (section 19.2.5 of ECMA-262). NaN is `None`. */
module JsParse {
  import opened Wrappers

  /** The text before the first `sep` in `s`, or all of `s` when `sep` does not
      occur: element 0 of `s.split(sep)`. */
  function TakeUntil(s: string, sep: char): (r: string)
    ensures r <= s
    ensures sep !in r
    ensures |r| < |s| ==> s[|r|] == sep
  {
    if |s| == 0 || s[0] == sep then [] else [s[0]] + TakeUntil(s[1..], sep)
  }

  /** The three facts above pin the result down: any prefix of `s` that stops
      exactly at the first `sep` (or at the end) is the result. */
  lemma TakeUntilUnique(s: string, sep: char, p: string)
    requires p <= s && sep !in p
    requires |p| < |s| ==> s[|p|] == sep
    ensures TakeUntil(s, sep) == p
  {
    var r := TakeUntil(s, sep);
    assert |r| == |p|;
  }

  /** A prefix free of the separator passes through unchanged. */
  lemma {:induction false} TakeUntilAppend(a: string, b: string, sep: char)
    requires sep !in a
    ensures TakeUntil(a + b, sep) == a + TakeUntil(b, sep)
  {
    if |a| > 0 {
      assert (a + b)[0] == a[0];
      assert (a + b)[1..] == a[1..] + b;
      TakeUntilAppend(a[1..], b, sep);
      assert a == [a[0]] + a[1..];
    } else {
      assert a + b == b;
    }
  }

  /** Only the text before the first separator matters. */
  lemma TakeUntilConcat(a: string, sep: char, b: string)
    requires sep !in a
    ensures TakeUntil(a + [sep] + b, sep) == a
  {
    TakeUntilUnique(a + [sep] + b, sep, a);
  }

  /** JavaScript's StrWhiteSpaceChar: WhiteSpace and LineTerminator code points,
      the characters `parseInt` skips before the number. */
  predicate IsStrWhiteSpace(c: char) {
    || c == '\t' || c == '\n' || c == '\U{000B}' || c == '\U{000C}' || c == '\r'
    || c == ' ' || c == '\U{00A0}' || c == '\U{1680}'
    || ('\U{2000}' <= c <= '\U{200A}')
    || c == '\U{2028}' || c == '\U{2029}' || c == '\U{202F}' || c == '\U{205F}'
    || c == '\U{3000}' || c == '\U{FEFF}'
  }

  /** The radices `parseInt` picks by itself: 10, or 16 after a "0x" prefix. */
  type Radix = r: int | r == 10 || r == 16 witness 10

  predicate IsDecimalDigit(c: char) {
    '0' <= c <= '9'
  }

  predicate IsDigit(c: char, radix: Radix) {
    IsDecimalDigit(c) || (radix == 16 && ('a' <= c <= 'f' || 'A' <= c <= 'F'))
  }

  /** The value of a hexadecimal digit character (only ever applied to digits). */
  function DigitValue(c: char): (v: nat)
    ensures IsDecimalDigit(c) ==> v < 10
    ensures v < 16
  {
    if IsDecimalDigit(c) then c as int - '0' as int
    else if 'a' <= c <= 'f' then c as int - 'a' as int + 10
    else if 'A' <= c <= 'F' then c as int - 'A' as int + 10
    else 0
  }

  /** The longest prefix of `s` made of digits of `radix`. */
  function DigitPrefix(s: string, radix: Radix): (r: string)
    ensures r <= s
    ensures |r| < |s| ==> !IsDigit(s[|r|], radix)
  {
    if |s| == 0 || !IsDigit(s[0], radix) then [] else [s[0]] + DigitPrefix(s[1..], radix)
  }

  /** The number the digit string `z` denotes in `radix`, most significant
      digit first. */
  function DigitsValue(z: string, radix: Radix): nat {
    if |z| == 0 then 0 else DigitsValue(z[..|z| - 1], radix) * radix + DigitValue(z[|z| - 1])
  }

  /** A leading '-' or '+' is removed; only '-' negates. */
  function SplitSign(t: string): (int, string) {
    if |t| > 0 && t[0] == '-' then (-1, t[1..])
    else if |t| > 0 && t[0] == '+' then (1, t[1..])
    else (1, t)
  }

  /** Without a radix argument a "0x" or "0X" prefix selects radix 16. */
  function SplitRadix(u: string): (Radix, string) {
    if |u| >= 2 && u[0] == '0' && (u[1] == 'x' || u[1] == 'X') then (16, u[2..]) else (10, u)
  }

  /** The digits after any sign: an optional "0x" prefix, then the longest
      run of digits of the chosen radix; no digits is NaN. */
  function ParseUnsigned(u: string): Option<nat> {
    var (radix, body) := SplitRadix(u);
    var z := DigitPrefix(body, radix);
    if |z| == 0 then None else Some(DigitsValue(z, radix))
  }

  /** An optional sign, then the unsigned part. */
  function ParseSigned(t: string): Option<int> {
    var (sign, u) := SplitSign(t);
    match ParseUnsigned(u)
    case None => None
    case Some(v) => Some(sign * v)
  }

  /** `parseInt(s)`: leading white space is skipped, then the signed number
      is read. */
  function ParseInt(s: string): Option<int> {
    if |s| > 0 && IsStrWhiteSpace(s[0]) then ParseInt(s[1..]) else ParseSigned(s)
  }

  /** A string without any decimal digit is always NaN, because even the
      hexadecimal form needs its leading '0'. */
  lemma {:induction false} ParseIntNeedsDecimalDigit(s: string)
    requires forall i :: 0 <= i < |s| ==> !IsDecimalDigit(s[i])
    ensures ParseInt(s).None?
  {
    if |s| > 0 && IsStrWhiteSpace(s[0]) {
      assert forall i :: 0 <= i < |s| - 1 ==> s[1..][i] == s[i + 1];
      ParseIntNeedsDecimalDigit(s[1..]);
    } else {
      var (sign, u) := SplitSign(s);
      assert u == s[|s| - |u|..];
      var (radix, body) := SplitRadix(u);
      assert body == s[|s| - |body|..];
      if |body| > 0 {
        assert !IsDecimalDigit(body[0]);
        assert body[0] != '0';
        assert !IsDigit(body[0], radix);
      }
      assert ParseUnsigned(u).None?;
    }
  }

  /** Like `TakeUntil`, the digit prefix is the only prefix that stops at the
      first non-digit. */
  lemma DigitPrefixUnique(s: string, radix: Radix, p: string)
    requires p <= s
    requires forall i :: 0 <= i < |p| ==> IsDigit(p[i], radix)
    requires |p| < |s| ==> !IsDigit(s[|p|], radix)
    ensures DigitPrefix(s, radix) == p
  {
    var r := DigitPrefix(s, radix);
    DigitPrefixIsDigits(s, radix);
    assert |r| == |p|;
  }

  /** Every character of the digit prefix is a digit. */
  lemma {:induction false} DigitPrefixIsDigits(s: string, radix: Radix)
    ensures forall i :: 0 <= i < |DigitPrefix(s, radix)| ==> IsDigit(DigitPrefix(s, radix)[i], radix)
  {
    if |s| > 0 && IsDigit(s[0], radix) {
      DigitPrefixIsDigits(s[1..], radix);
      var r := DigitPrefix(s, radix);
      assert r == [s[0]] + DigitPrefix(s[1..], radix);
      assert forall i :: 1 <= i < |r| ==> r[i] == DigitPrefix(s[1..], radix)[i - 1];
    }
  }

  /** `parseInt` reads a leading run of decimal digits and ignores whatever
      follows it, such as the ":30" of "09:30" or the "pm" of "7pm"; only a lone
      "0" followed by 'x' or 'X' would start a hexadecimal number instead. */
  lemma ParseIntReadsDecimalPrefix(d: string, rest: string)
    requires |d| > 0 && forall i :: 0 <= i < |d| ==> IsDecimalDigit(d[i])
    requires |rest| > 0 ==> !IsDecimalDigit(rest[0])
    requires |rest| > 0 && |d| == 1 && d[0] == '0' ==> rest[0] != 'x' && rest[0] != 'X'
    ensures ParseInt(d + rest) == Some(DigitsValue(d, 10))
  {
    var s := d + rest;
    assert s[0] == d[0];
    assert !IsStrWhiteSpace(s[0]);
    assert SplitSign(s) == (1, s);
    ParseUnsignedDecimal(d, rest);
  }

  lemma ParseUnsignedDecimal(d: string, rest: string)
    requires |d| > 0 && forall i :: 0 <= i < |d| ==> IsDecimalDigit(d[i])
    requires |rest| > 0 ==> !IsDecimalDigit(rest[0])
    requires |rest| > 0 && |d| == 1 && d[0] == '0' ==> rest[0] != 'x' && rest[0] != 'X'
    ensures ParseUnsigned(d + rest) == Some(DigitsValue(d, 10))
  {
    var s := d + rest;
    assert |s| >= 2 && s[0] == '0' ==> s[1] != 'x' && s[1] != 'X' by {
      if |s| >= 2 {
        if |d| == 1 { assert s[1] == rest[0]; } else { assert s[1] == d[1]; }
      }
    }
    assert SplitRadix(s) == (10, s);
    DigitPrefixUnique(s, 10, d);
  }

  /** Leading white space never changes the result. */
  lemma ParseIntSkipsWhiteSpace(c: char, s: string)
    requires IsStrWhiteSpace(c)
    ensures ParseInt([c] + s) == ParseInt(s)
  {
    assert ([c] + s)[1..] == s;
  }

  /** The decimal digit character for `v`. */
  function DecimalDigitChar(v: int): (c: char)
    requires 0 <= v < 10
    ensures IsDecimalDigit(c) && DigitValue(c) == v
  {
    ('0' as int + v) as char
  }

  /** The two-digit zero-padded text of `n`, as in the "HH" and "MM" fields of a
      "HH:MM-HH:MM" range. */
  function Pad2(n: int): (s: string)
    requires 0 <= n < 100
    ensures |s| == 2 && IsDecimalDigit(s[0]) && IsDecimalDigit(s[1])
  {
    [DecimalDigitChar(n / 10), DecimalDigitChar(n % 10)]
  }

  lemma DigitsValuePad2(n: int)
    requires 0 <= n < 100
    ensures DigitsValue(Pad2(n), 10) == n
  {
    var s := Pad2(n);
    assert s[..1][..0] == [];
    assert DigitsValue(s[..1], 10) == n / 10;
  }

  /** Reading back a zero-padded field gives the number that was written;
      there is no octal reading of a leading zero. */
  lemma ParseIntPad2(n: int)
    requires 0 <= n < 100
    ensures ParseInt(Pad2(n)) == Some(n)
  {
    var s := Pad2(n);
    assert s + [] == s;
    ParseIntReadsDecimalPrefix(s, []);
    DigitsValuePad2(n);
  }

  /** A hexadecimal hour is read as such. */
  lemma ParseIntHexExample()
    ensures ParseInt("0x13") == Some(19)
  {
    var h := "0x13";
    assert !IsStrWhiteSpace(h[0]);
    assert SplitSign(h) == (1, h);
    assert SplitRadix(h) == (16, "13");
    DigitPrefixUnique("13", 16, "13");
    assert "13"[..1] == "1";
    assert "1"[..0] == [];
  }

  /** Text after the digits is ignored. */
  lemma ParseIntTextExample()
    ensures ParseInt("7pm") == Some(7)
  {
    var t := "7pm";
    var d: string := ['7'];
    var rest: string := ['p', 'm'];
    assert IsDecimalDigit(d[0]) && !IsDecimalDigit(rest[0]);
    ParseIntReadsDecimalPrefix(d, rest);
    assert d[..0] == [];
    assert DigitsValue(d, 10) == 7;
    assert d + rest == t;
  }

  /** Text without digits is NaN. */
  lemma ParseIntNaNExample()
    ensures ParseInt("noon") == None
  {
    var s := "noon";
    assert forall i :: 0 <= i < |s| ==> !IsDecimalDigit(s[i]);
  }

  /** A digit after a leading letter is never reached: a letter O typed for a
      zero reads as NaN. */
  lemma ParseIntLetterExample()
    ensures ParseInt("O9") == None
  {
    var s := "O9";
    assert !IsStrWhiteSpace(s[0]);
    assert SplitSign(s) == (1, s);
    assert SplitRadix(s) == (10, s);
    assert !IsDigit(s[0], 10);
  }
}
