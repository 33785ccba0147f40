/**
 * Decimal text of vote counts: the `Number.prototype.toString` the vote
 * handler writes (server.js:194-195) and the `parseInt` both handlers read
 * with (server.js:85-86, 152-153). `parseInt` is called without a radix, so
 * it skips leading blanks, takes one sign, reads a `0x`/`0X` prefix as base
 * 16, and otherwise reads base 10.
 */
module Decimal {
  import opened Wrappers

  predicate IsDigit(c: char) {
    '0' <= c <= '9'
  }

  predicate IsHexDigit(c: char) {
    IsDigit(c) || 'a' <= c <= 'f' || 'A' <= c <= 'F'
  }

  /** A digit of base `base`: 16 reads hexadecimal digits, any other base decimal ones. */
  predicate IsDigitIn(c: char, base: nat) {
    if base == 16 then IsHexDigit(c) else IsDigit(c)
  }

  predicate AllDigitsIn(s: string, base: nat) {
    forall i :: 0 <= i < |s| ==> IsDigitIn(s[i], base)
  }

  predicate AllDigits(s: string) {
    AllDigitsIn(s, 10)
  }

  function DigitValue(c: char): (d: nat)
    requires IsHexDigit(c)
    ensures d < 16
    ensures IsDigit(c) ==> d < 10
  {
    if IsDigit(c) then c as int - '0' as int
    else if 'a' <= c <= 'f' then c as int - 'a' as int + 10
    else c as int - 'A' as int + 10
  }

  function DigitChar(d: nat): (c: char)
    requires d < 10
    ensures IsDigit(c) && DigitValue(c) == d
  {
    ('0' as int + d) as char
  }

  /** The decimal digits of `n`, without a leading zero except for 0 itself. */
  function Digits(n: nat): (s: string)
    ensures |s| > 0 && AllDigits(s)
    ensures (s[0] == '0') == (n == 0)
    decreases n
  {
    if n < 10 then [DigitChar(n)] else Digits(n / 10) + [DigitChar(n % 10)]
  }

  /** `n.toString()` for an integer: a `-` for a negative number, then the digits of its magnitude. */
  function ToString(n: int): (s: string)
    ensures |s| > 0 && (s[0] == '-' <==> n < 0)
    ensures var d := if n < 0 then s[1..] else s;
      |d| > 0 && AllDigits(d) && (d[0] == '0' <==> n == 0)
  {
    if n < 0 then ['-'] + Digits(-n) else Digits(n)
  }

  /** The value of a run of digits of base `base`, most significant first. */
  function DigitsValue(s: string, base: nat): nat
    requires AllDigitsIn(s, base)
  {
    if s == [] then 0 else base * DigitsValue(s[..|s| - 1], base) + DigitValue(s[|s| - 1])
  }

  /** The longest prefix of `s` made of digits of base `base`. */
  function LeadingDigits(s: string, base: nat): (p: string)
    ensures |p| <= |s| && p == s[..|p|] && AllDigitsIn(p, base)
    ensures |p| < |s| ==> !IsDigitIn(s[|p|], base)
  {
    if s == [] || !IsDigitIn(s[0], base) then [] else [s[0]] + LeadingDigits(s[1..], base)
  }

  /** The characters `parseInt` skips before the number: ECMAScript's white space and line terminators. */
  predicate IsBlank(c: char) {
    var x := c as int;
    (0x09 <= x <= 0x0D) || x == 0x20 || x == 0xA0 || x == 0x1680 || (0x2000 <= x <= 0x200A)
    || x == 0x2028 || x == 0x2029 || x == 0x202F || x == 0x205F || x == 0x3000 || x == 0xFEFF
  }

  function TrimStart(s: string): (t: string)
    ensures |t| <= |s|
    ensures t == [] || !IsBlank(t[0])
  {
    if s != [] && IsBlank(s[0]) then TrimStart(s[1..]) else s
  }

  /** The text after one leading sign, if there is one. */
  function Unsigned(t: string): string {
    if t != [] && (t[0] == '-' || t[0] == '+') then t[1..] else t
  }

  predicate HexPrefixed(u: string) {
    |u| >= 2 && u[0] == '0' && (u[1] == 'x' || u[1] == 'X')
  }

  /**
   * The number `parseInt` reads from text with no blank or sign in front:
   * base 16 after a `0x` or `0X` prefix, base 10 otherwise, as far as the
   * digits go; None when there is no digit.
   */
  function Magnitude(u: string): (r: Option<nat>)
    ensures r.None? <==> if HexPrefixed(u) then |u| == 2 || !IsHexDigit(u[2]) else u == [] || !IsDigit(u[0])
  {
    var base := if HexPrefixed(u) then 16 else 10;
    var p := LeadingDigits(if base == 16 then u[2..] else u, base);
    if p == [] then None else Some(DigitsValue(p, base))
  }

  /**
   * `parseInt(s)` with no radix: blanks skipped, one sign, then the
   * magnitude; None is JavaScript's NaN.
   */
  function ParseInt(s: string): (r: Option<int>)
    ensures var u := Unsigned(TrimStart(s));
      r.None? <==> if HexPrefixed(u) then |u| == 2 || !IsHexDigit(u[2]) else u == [] || !IsDigit(u[0])
    ensures r.Some? && r.value < 0 ==> TrimStart(s)[0] == '-'
  {
    var t := TrimStart(s);
    match Magnitude(Unsigned(t))
    case None => None
    case Some(v) => if t[0] == '-' then Some(-(v as int)) else Some(v as int)
  }

  lemma {:induction false} LeadingDigitsOfDigits(s: string, base: nat)
    requires AllDigitsIn(s, base)
    ensures LeadingDigits(s, base) == s
  {
    if s != [] {
      LeadingDigitsOfDigits(s[1..], base);
    }
  }

  lemma {:induction false} DigitsValueOfDigits(n: nat)
    ensures DigitsValue(Digits(n), 10) == n
    decreases n
  {
    if n >= 10 {
      var s := Digits(n);
      assert s[..|s| - 1] == Digits(n / 10);
      DigitsValueOfDigits(n / 10);
    }
  }

  lemma {:induction false} LeadingDigitsAppend(digits: string, rest: string, base: nat)
    requires AllDigitsIn(digits, base)
    requires rest == [] || !IsDigitIn(rest[0], base)
    ensures LeadingDigits(digits + rest, base) == digits
  {
    if digits == [] {
      assert digits + rest == rest;
    } else {
      assert (digits + rest)[1..] == digits[1..] + rest;
      LeadingDigitsAppend(digits[1..], rest, base);
    }
  }

  /** Text that starts with neither a blank nor a sign reads as its magnitude. */
  lemma ParseIntUnsigned(u: string)
    requires u == [] || (!IsBlank(u[0]) && u[0] != '-' && u[0] != '+')
    ensures ParseInt(u) == match Magnitude(u) case None => None case Some(v) => Some(v as int)
  {
    assert TrimStart(u) == u;
    assert Unsigned(u) == u;
  }

  /** One sign, right before the number: `+` keeps the value and `-` negates it. */
  lemma ParseIntSign(u: string)
    requires u == [] || (!IsBlank(u[0]) && u[0] != '-' && u[0] != '+')
    ensures ParseInt(['+'] + u) == ParseInt(u)
    ensures ParseInt(['-'] + u) == match ParseInt(u) case None => None case Some(v) => Some(-v)
  {
    ParseIntUnsigned(u);
    ParseIntSigned('+', u);
    ParseIntSigned('-', u);
  }

  lemma ParseIntSigned(sign: char, u: string)
    requires sign == '+' || sign == '-'
    ensures ParseInt([sign] + u)
         == match Magnitude(u) case None => None case Some(v) => Some(if sign == '-' then -(v as int) else v as int)
  {
    var t := [sign] + u;
    assert TrimStart(t) == t;
    assert Unsigned(t) == u;
  }

  /** Decimal digits that do not make a `0x` prefix read as their value, up to the first character that is no digit. */
  lemma MagnitudeOfDigits(digits: string, rest: string)
    requires |digits| > 0 && AllDigits(digits)
    requires rest == [] || !IsDigit(rest[0])
    requires !HexPrefixed(digits + rest)
    ensures Magnitude(digits + rest) == Some(DigitsValue(digits, 10))
  {
    LeadingDigitsAppend(digits, rest, 10);
  }

  /** The digits of `k` start with a digit and make the magnitude `k`. */
  lemma MagnitudeOfDigitsOf(k: nat)
    ensures var d := Digits(k); IsDigit(d[0]) && Magnitude(d) == Some(k)
  {
    var d := Digits(k);
    assert d + [] == d;
    assert !HexPrefixed(d) by {
      if |d| >= 2 {
        assert d[0] != '0';
      }
    }
    MagnitudeOfDigits(d, []);
    DigitsValueOfDigits(k);
  }

  /** The digits of `k` read back as `k`, and as `-k` after a minus sign. */
  lemma ParseIntOfDigits(k: nat)
    ensures ParseInt(Digits(k)) == Some(k as int)
    ensures ParseInt(['-'] + Digits(k)) == Some(-(k as int))
  {
    MagnitudeOfDigitsOf(k);
    ParseIntOfMagnitude(Digits(k), k);
    ParseIntSigned('-', Digits(k));
  }

  /** Reading back what the vote handler wrote gives the same count. */
  lemma ParseIntOfToString(n: int)
    ensures ParseInt(ToString(n)) == Some(n)
  {
    if n < 0 {
      ParseIntOfDigits(-n);
    } else {
      ParseIntOfDigits(n);
    }
  }

  /**
   * Decimal digits followed by text that is no digit read as those digits,
   * unless they are a lone `0` before an `x` or `X`, which starts base 16.
   */
  lemma ParseIntIgnoresSuffix(digits: string, rest: string)
    requires |digits| > 0 && AllDigits(digits)
    requires rest == [] || !IsDigit(rest[0])
    requires !(digits == "0" && rest != [] && (rest[0] == 'x' || rest[0] == 'X'))
    ensures ParseInt(digits + rest) == Some(DigitsValue(digits, 10))
  {
    var s := digits + rest;
    DecimalStart(digits, rest);
    MagnitudeOfDigits(digits, rest);
    ParseIntOfMagnitude(s, DigitsValue(digits, 10));
  }

  /** Text with a magnitude and no blank or sign in front reads as that magnitude. */
  lemma ParseIntOfMagnitude(u: string, v: nat)
    requires |u| > 0 && IsDigit(u[0])
    requires Magnitude(u) == Some(v)
    ensures ParseInt(u) == Some(v as int)
  {
    ParseIntUnsigned(u);
  }

  /** Decimal digits, not a lone `0` before `x` or `X`, start with a digit and make no `0x` prefix. */
  lemma DecimalStart(digits: string, rest: string)
    requires |digits| > 0 && AllDigits(digits)
    requires rest == [] || !IsDigit(rest[0])
    requires !(digits == "0" && rest != [] && (rest[0] == 'x' || rest[0] == 'X'))
    ensures var s := digits + rest; IsDigit(s[0]) && !HexPrefixed(s)
  {
    var s := digits + rest;
    assert s[0] == digits[0];
    if |digits| >= 2 {
      assert s[1] == digits[1];
    } else if |s| >= 2 && s[0] == '0' {
      assert digits == "0" && s[1] == rest[0];
    }
  }

  /** `0x` or `0X` and hexadecimal digits read in base 16; a prefix with no digit after it is NaN. */
  lemma ParseIntHex(x: char, digits: string, rest: string)
    requires x == 'x' || x == 'X'
    requires AllDigitsIn(digits, 16)
    requires rest == [] || !IsHexDigit(rest[0])
    ensures ParseInt(['0', x] + digits + rest) == if digits == [] then None else Some(DigitsValue(digits, 16))
  {
    var s := ['0', x] + digits + rest;
    assert HexPrefixed(s);
    assert s[2..] == digits + rest;
    LeadingDigitsAppend(digits, rest, 16);
    ParseIntUnsigned(s);
  }

  lemma {:induction false} TrimStartBlanks(w: string, s: string)
    requires forall i :: 0 <= i < |w| ==> IsBlank(w[i])
    ensures TrimStart(w + s) == TrimStart(s)
  {
    if w != [] {
      assert (w + s)[1..] == w[1..] + s;
      TrimStartBlanks(w[1..], s);
    } else {
      assert w + s == s;
    }
  }

  /** Leading blanks are skipped. */
  lemma ParseIntSkipsBlanks(w: string, s: string)
    requires forall i :: 0 <= i < |w| ==> IsBlank(w[i])
    ensures ParseInt(w + s) == ParseInt(s)
  {
    TrimStartBlanks(w, s);
  }
}
