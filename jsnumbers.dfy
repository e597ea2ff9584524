/** The two JavaScript number built-ins the page relies on: the global `parseInt`
    (ECMA-262, 2023 edition, section 19.2.5) called without a radix, and the decimal
    text of an integer that a template literal `${n}` produces (Number::toString). */
module JsNumbers {

  /** A result of `parseInt`: NaN or an integer. +0 and -0 are both `Int(0)`. */
  datatype ParseIntResult = NaN | Int(value: int)

  /** JavaScript truthiness of a `parseInt` result: NaN, +0 and -0 are falsy. */
  predicate ParsedTruthy(r: ParseIntResult)
  {
    r.Int? && r.value != 0
  }

  /** The Unicode space separators (general category Zs). */
  predicate IsSpaceSeparator(c: char)
  {
    c == ' ' || c == '\U{00A0}' || c == '\U{1680}' || ('\U{2000}' <= c <= '\U{200A}') ||
    c == '\U{202F}' || c == '\U{205F}' || c == '\U{3000}'
  }

  /** StrWhiteSpaceChar: WhiteSpace (TAB, VT, FF, ZWNBSP, any Zs) or LineTerminator
      (LF, CR, LS, PS); these are what `parseInt` trims from the front. */
  predicate IsStrWhiteSpace(c: char)
  {
    c == '\t' || c == '\U{000B}' || c == '\U{000C}' || c == '\U{FEFF}' || IsSpaceSeparator(c) ||
    c == '\n' || c == '\r' || c == '\U{2028}' || c == '\U{2029}'
  }

  /** The string with its leading white space removed. */
  function TrimStart(s: string): (t: string)
    ensures |t| <= |s| && t == s[|s| - |t|..]
    ensures t == [] || !IsStrWhiteSpace(t[0])
    ensures forall i :: 0 <= i < |s| - |t| ==> IsStrWhiteSpace(s[i])
  {
    if s != [] && IsStrWhiteSpace(s[0]) then TrimStart(s[1..]) else s
  }

  predicate IsDecimalDigit(c: char)
  {
    '0' <= c <= '9'
  }

  /** The digit value of a character in radixes up to 36 (letters either case);
      36 for a character that is no digit at all. */
  function DigitValue(c: char): (d: nat)
    ensures d <= 36
    ensures IsDecimalDigit(c) <==> d < 10
  {
    if '0' <= c <= '9' then c as int - '0' as int
    else if 'a' <= c <= 'z' then c as int - 'a' as int + 10
    else if 'A' <= c <= 'Z' then c as int - 'A' as int + 10
    else 36
  }

  predicate IsRadixDigit(c: char, radix: nat)
  {
    DigitValue(c) < radix
  }

  /** The longest prefix of `s` made of digits of the radix. */
  function LeadingDigits(s: string, radix: nat): (z: string)
    ensures |z| <= |s| && z == s[..|z|]
    ensures forall i :: 0 <= i < |z| ==> IsRadixDigit(z[i], radix)
    ensures |z| == |s| || !IsRadixDigit(s[|z|], radix)
  {
    if s != [] && IsRadixDigit(s[0], radix) then [s[0]] + LeadingDigits(s[1..], radix) else []
  }

  /** The integer a digit string denotes in the radix (most significant digit first). */
  function DigitsValue(z: string, radix: nat): nat
  {
    if z == [] then 0 else DigitsValue(z[..|z| - 1], radix) * radix + DigitValue(z[|z| - 1])
  }

  /** The global `parseInt(s)` with no radix argument: trim leading white space, read an
      optional sign, then read the integer that follows. */
  function ParseInt(s: string): ParseIntResult
  {
    var t := TrimStart(s);
    var negative := |t| > 0 && t[0] == '-';
    ParseUnsigned(if |t| > 0 && (t[0] == '-' || t[0] == '+') then t[1..] else t, negative)
  }

  /** Whether the text starts with the hexadecimal prefix `0x` or `0X`. */
  predicate HasHexPrefix(u: string)
  {
    |u| >= 2 && u[0] == '0' && (u[1] == 'x' || u[1] == 'X')
  }

  /** The rest of `parseInt` once the sign is read: radix 16 after a hex prefix, else
      radix 10; the longest run of digits, negated for a minus sign; NaN when empty. */
  function ParseUnsigned(u: string, negative: bool): ParseIntResult
  {
    var hex := HasHexPrefix(u);
    var radix := if hex then 16 else 10;
    var z := LeadingDigits(if hex then u[2..] else u, radix);
    if z == [] then NaN
    else
      var m: int := DigitsValue(z, radix);
      Int(if negative then -m else m)
  }

  /** The decimal digit character of a value below ten. */
  function DigitChar(d: nat): (c: char)
    requires d < 10
    ensures IsDecimalDigit(c) && DigitValue(c) == d
  {
    ('0' as int + d) as char
  }

  /** The decimal text of a natural number, without leading zeros. */
  function DecimalString(n: nat): (s: string)
    ensures |s| > 0
    ensures forall i :: 0 <= i < |s| ==> IsDecimalDigit(s[i])
    ensures n > 0 ==> s[0] != '0'
  {
    if n < 10 then [DigitChar(n)] else DecimalString(n / 10) + [DigitChar(n % 10)]
  }

  /** The text `${n}` gives for an integer number. */
  function NumberToString(n: int): string
  {
    if n < 0 then "-" + DecimalString(-n) else DecimalString(n)
  }

  /** Reading back the decimal text of a number gives that number. */
  lemma {:induction false} DecimalStringValue(n: nat)
    ensures DigitsValue(DecimalString(n), 10) == n
  {
    if n >= 10 {
      var s := DecimalString(n);
      DecimalStringValue(n / 10);
      assert s[..|s| - 1] == DecimalString(n / 10);
    }
  }

  /** The leading run of decimal digits stops at the first non-digit. */
  lemma {:induction false} LeadingDigitsOfDigits(d: string, rest: string, radix: nat)
    requires forall i :: 0 <= i < |d| ==> IsRadixDigit(d[i], radix)
    requires rest == [] || !IsRadixDigit(rest[0], radix)
    ensures LeadingDigits(d + rest, radix) == d
  {
    if d != [] {
      assert (d + rest)[1..] == d[1..] + rest;
      LeadingDigitsOfDigits(d[1..], rest, radix);
    }
  }

  /** `parseInt` reads a leading decimal integer and ignores what follows it: with `d`
      a non-empty run of decimal digits followed by a non-digit (or nothing), the result
      is the value of `d`, unless `d` is "0" and an `x` follows, which is a hex prefix.
      So `parseInt("2025+")` is 2025. */
  lemma ParseIntLeadingDecimal(d: string, rest: string)
    requires |d| > 0 && forall i :: 0 <= i < |d| ==> IsDecimalDigit(d[i])
    requires rest == [] || !IsDecimalDigit(rest[0])
    requires !(d == "0" && rest != [] && (rest[0] == 'x' || rest[0] == 'X'))
    ensures ParseInt(d + rest) == Int(DigitsValue(d, 10))
  {
    var s := d + rest;
    assert s[0] == d[0];
    ParseIntUnsigned(s);
    NoHexPrefix(d, rest);
    LeadingDigitsOfDigits(d, rest, 10);
    ParseUnsignedDecimalRun(s, d);
  }

  /** Without a hex prefix, the value read is that of the leading decimal run. */
  lemma ParseUnsignedDecimalRun(u: string, z: string)
    requires !HasHexPrefix(u) && z != [] && LeadingDigits(u, 10) == z
    ensures ParseUnsigned(u, false) == Int(DigitsValue(z, 10))
  {
  }

  /** Text that starts with neither white space nor a sign is read from its first
      character, as a non-negative number. */
  lemma ParseIntUnsigned(s: string)
    requires s != [] && !IsStrWhiteSpace(s[0]) && s[0] != '-' && s[0] != '+'
    ensures ParseInt(s) == ParseUnsigned(s, false)
  {
    TrimStartKeeps(s);
  }

  /** Decimal digits followed by a non-digit start with "0x" only when the digits are "0". */
  lemma NoHexPrefix(d: string, rest: string)
    requires |d| > 0 && forall i :: 0 <= i < |d| ==> IsDecimalDigit(d[i])
    requires !(d == "0" && rest != [] && (rest[0] == 'x' || rest[0] == 'X'))
    ensures !HasHexPrefix(d + rest)
  {
    var s := d + rest;
    if |s| >= 2 && s[0] == '0' {
      if |d| >= 2 {
        assert s[1] == d[1];
      } else {
        assert d == "0";
        assert s[1] == rest[0];
      }
    }
  }

  /** Text that does not begin with white space, a sign or a decimal digit has no
      leading integer: `parseInt("TBD")` is NaN. */
  lemma ParseIntNoLeadingDigit(s: string)
    requires s != [] && !IsStrWhiteSpace(s[0]) && !IsDecimalDigit(s[0])
    requires s[0] != '+' && s[0] != '-'
    ensures ParseInt(s) == NaN
  {
    TrimStartKeeps(s);
  }

  /** Text that does not start with white space is left as it is by the trimming. */
  lemma TrimStartKeeps(s: string)
    requires s != [] && !IsStrWhiteSpace(s[0])
    ensures TrimStart(s) == s
  {
  }

  /** Round trip: parsing the decimal text of any integer gives back that integer. */
  lemma ParseIntNumberToString(n: int)
    ensures ParseInt(NumberToString(n)) == Int(n)
  {
    var d := DecimalString(if n < 0 then -n else n);
    var s := NumberToString(n);
    if n >= 0 {
      assert s == d && s[0] == d[0];
      TrimStartKeeps(s);
      ParseUnsignedDecimal(n, false);
    } else {
      assert s == "-" + d && s[0] == '-' && s[1..] == d;
      TrimStartKeeps(s);
      ParseUnsignedDecimal(-n, true);
    }
  }

  /** Once the sign is read, the decimal text of a number is read back as that number. */
  lemma ParseUnsignedDecimal(m: nat, negative: bool)
    ensures ParseUnsigned(DecimalString(m), negative) == Int(if negative then 0 - m else m)
  {
    var d := DecimalString(m);
    DecimalStringValue(m);
    assert !HasHexPrefix(d) by {
      assert |d| >= 2 ==> IsDecimalDigit(d[1]);
    }
    assert d + [] == d;
    LeadingDigitsOfDigits(d, [], 10);
  }
}
