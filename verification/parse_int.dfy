/**
 The width and height handlers read the text of a number field with the
 one-argument `parseInt` of ECMAScript: skip leading white space, take an
 optional sign, switch to base 16 after a `0x` / `0X` prefix, then read the
 longest run of digits; no digits at all gives NaN. The value is kept as an
 exact integer here: a double rounds values above 2^53, and a digit run
 whose value is about 1.8 x 10^308 or more reads as Infinity.
 */
module IntParsing {

  /** The outcome of `parseInt`: NaN or an integer. */
  datatype Parsed = NaN | Num(value: int)

  /** The white space and line terminators `parseInt` skips. */
  predicate IsWhiteSpace(c: char) {
    var n := c as int;
    || n == 0x09 || n == 0x0A || n == 0x0B || n == 0x0C || n == 0x0D
    || n == 0x20 || n == 0xA0 || n == 0x1680 || 0x2000 <= n <= 0x200A
    || n == 0x2028 || n == 0x2029 || n == 0x202F || n == 0x205F
    || n == 0x3000 || n == 0xFEFF
  }

  /** The value of a character read as a digit of base up to 36; 36 for a
      character that is a digit in no base. */
  function DigitValue(c: char): (v: nat)
    ensures v <= 36
    ensures v < 10 <==> '0' <= c <= '9'
  {
    if '0' <= c <= '9' then c as int - '0' as int
    else if 'a' <= c <= 'z' then c as int - 'a' as int + 10
    else if 'A' <= c <= 'Z' then c as int - 'A' as int + 10
    else 36
  }

  predicate IsDigit(c: char, radix: nat) {
    DigitValue(c) < radix
  }

  /** The input with its leading white space removed. */
  function TrimStart(s: string): (r: string)
    ensures |r| <= |s| && r == s[|s| - |r|..]
    ensures forall i :: 0 <= i < |s| - |r| ==> IsWhiteSpace(s[i])
    ensures |r| > 0 ==> !IsWhiteSpace(r[0])
  {
    if |s| > 0 && IsWhiteSpace(s[0]) then TrimStart(s[1..]) else s
  }

  /** The length of the longest prefix of digits of the given base. */
  function DigitRun(s: string, radix: nat): (n: nat)
    ensures n <= |s|
    ensures forall i :: 0 <= i < n ==> IsDigit(s[i], radix)
    ensures n < |s| ==> !IsDigit(s[n], radix)
  {
    if |s| > 0 && IsDigit(s[0], radix) then 1 + DigitRun(s[1..], radix) else 0
  }

  /** The value of a string of digits, most significant first. */
  function DigitsValue(ds: string, radix: nat): nat
    requires forall i :: 0 <= i < |ds| ==> IsDigit(ds[i], radix)
  {
    if |ds| == 0 then 0
    else DigitsValue(ds[..|ds| - 1], radix) * radix + DigitValue(ds[|ds| - 1])
  }

  /** `parseInt(s)` with no radix argument. A negative zero is read as 0. */
  function ParseInt(s: string): Parsed {
    var t := TrimStart(s);
    if |t| > 0 && t[0] == '-' then Negate(ParseUnsigned(t[1..]))
    else if |t| > 0 && t[0] == '+' then ParseUnsigned(t[1..])
    else ParseUnsigned(t)
  }

  function Negate(p: Parsed): Parsed {
    match p
    case NaN => NaN
    case Num(v) => Num(-v)
  }

  /** The part of `parseInt` after the sign: the base prefix and the digits. */
  function ParseUnsigned(u: string): Parsed {
    var hex := |u| >= 2 && u[0] == '0' && (u[1] == 'x' || u[1] == 'X');
    var radix := if hex then 16 else 10;
    var v := if hex then u[2..] else u;
    var n := DigitRun(v, radix);
    if n == 0 then NaN else Num(DigitsValue(v[..n], radix))
  }

  /** The decimal digits of a natural number, without leading zeros. */
  function DecimalDigits(n: nat): (ds: string)
    ensures |ds| > 0
    ensures forall i :: 0 <= i < |ds| ==> '0' <= ds[i] <= '9'
    ensures ds[0] == '0' ==> n == 0
  {
    var last := ['0' + (n % 10) as char];
    if n < 10 then last else DecimalDigits(n / 10) + last
  }

  /** The text a number field shows for an integer. */
  function ToDecimal(n: int): string {
    if n < 0 then "-" + DecimalDigits(-n) else DecimalDigits(n)
  }

  lemma {:induction false} DecimalDigitsValue(n: nat)
    ensures DigitsValue(DecimalDigits(n), 10) == n
    decreases n
  {
    var ds := DecimalDigits(n);
    if n >= 10 {
      DecimalDigitsValue(n / 10);
      assert ds[..|ds| - 1] == DecimalDigits(n / 10);
    }
  }

  /** Reading stops at the first character that is not a digit, so a
      number followed by, say, a fraction or a unit parses to the number. */
  lemma DecimalPrefixDigitRun(ds: string, rest: string)
    requires forall i :: 0 <= i < |ds| ==> '0' <= ds[i] <= '9'
    requires rest == [] || !IsDigit(rest[0], 10)
    ensures DigitRun(ds + rest, 10) == |ds|
  {
    var s := ds + rest;
    assert forall i :: 0 <= i < |ds| ==> s[i] == ds[i];
    assert rest != [] ==> s[|ds|] == rest[0];
  }

  /** The decimal digits of a number, followed by text that does not
      continue them, read back as that number. */
  lemma ParseUnsignedDecimal(m: nat, rest: string)
    requires rest == [] || !IsDigit(rest[0], 10)
    requires m == 0 && rest != [] ==> rest[0] != 'x' && rest[0] != 'X'
    ensures ParseUnsigned(DecimalDigits(m) + rest) == Num(m)
  {
    var ds := DecimalDigits(m);
    var u := ds + rest;
    assert u[0] == ds[0];
    assert |u| >= 2 ==> u[1] == if |ds| == 1 then rest[0] else ds[1];
    DecimalPrefixDigitRun(ds, rest);
    assert u[..|ds|] == ds;
    DecimalDigitsValue(m);
  }

  /** `parseInt` reads back the decimal text of any integer, also when other
      text follows it, as long as that text does not start with a digit (or,
      after a lone zero, with the `x` of a hexadecimal prefix). */
  lemma ParseIntDecimal(n: int, rest: string)
    requires rest == [] || !IsDigit(rest[0], 10)
    requires n == 0 && rest != [] ==> rest[0] != 'x' && rest[0] != 'X'
    ensures ParseInt(ToDecimal(n) + rest) == Num(n)
  {
    if n < 0 {
      ParseIntNegative(-n, rest);
    } else {
      ParseIntNonNegative(n, rest);
    }
  }

  lemma ParseIntNonNegative(m: nat, rest: string)
    requires rest == [] || !IsDigit(rest[0], 10)
    requires m == 0 && rest != [] ==> rest[0] != 'x' && rest[0] != 'X'
    ensures ParseInt(DecimalDigits(m) + rest) == Num(m)
  {
    var u := DecimalDigits(m) + rest;
    ParseUnsignedDecimal(m, rest);
    assert u[0] == DecimalDigits(m)[0];
    NoWhiteSpaceStart(u);
    assert u[0] != '-' && u[0] != '+';
    assert ParseInt(u) == ParseUnsigned(u);
  }

  lemma ParseIntNegative(m: nat, rest: string)
    requires m > 0
    requires rest == [] || !IsDigit(rest[0], 10)
    ensures ParseInt("-" + DecimalDigits(m) + rest) == Num(-(m as int))
  {
    var u := DecimalDigits(m) + rest;
    var s := "-" + u;
    assert "-" + DecimalDigits(m) + rest == s;
    ParseUnsignedDecimal(m, rest);
    assert s[0] == '-' && s[1..] == u;
    NoWhiteSpaceStart(s);
  }

  /** Text that starts with a sign or a digit is not trimmed. */
  lemma NoWhiteSpaceStart(s: string)
    requires |s| > 0 && (s[0] == '-' || '0' <= s[0] <= '9')
    ensures TrimStart(s) == s
  {
    assert !IsWhiteSpace(s[0]);
  }

  lemma {:induction false} TrimStartSkips(ws: string, s: string)
    requires forall i :: 0 <= i < |ws| ==> IsWhiteSpace(ws[i])
    ensures TrimStart(ws + s) == TrimStart(s)
    decreases |ws|
  {
    if |ws| > 0 {
      assert (ws + s)[0] == ws[0];
      assert (ws + s)[1..] == ws[1..] + s;
      TrimStartSkips(ws[1..], s);
    } else {
      assert ws + s == s;
    }
  }

  /** Leading white space never changes what `parseInt` reads. */
  lemma ParseIntSkipsWhiteSpace(ws: string, s: string)
    requires forall i :: 0 <= i < |ws| ==> IsWhiteSpace(ws[i])
    ensures ParseInt(ws + s) == ParseInt(s)
  {
    TrimStartSkips(ws, s);
  }
}
