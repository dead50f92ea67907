/**
 * `parseFloat` on decimal text, with exact rational results.
 *
 * The function reads the longest prefix of its (leading-white-space-stripped)
 * argument that is a decimal literal: an optional sign, digits, an optional
 * fraction and an optional exponent. Text with no such prefix gives `None`,
 * which stands for `NaN`.
 */
module Numbers {
  import opened Wrappers
  import Strings

  predicate IsDigit(c: char) {
    '0' <= c <= '9'
  }

  predicate AllDigits(s: string) {
    forall i :: 0 <= i < |s| ==> IsDigit(s[i])
  }

  /** The value of a decimal digit (0 for any other character). */
  function DigitValue(c: char): nat {
    if IsDigit(c) then c as int - '0' as int else 0
  }

  function DigitChar(d: nat): (c: char)
    requires d < 10
    ensures IsDigit(c) && DigitValue(c) == d
  {
    ('0' as int + d) as char
  }

  /** Length of the run of digits at the start of `s`. */
  function DigitRun(s: string): (n: nat)
    ensures n <= |s|
    ensures n < |s| ==> !IsDigit(s[n])
  {
    if s != [] && IsDigit(s[0]) then 1 + DigitRun(s[1..]) else 0
  }

  /** The natural number a string of decimal digits denotes, read left to right. */
  function DigitsValue(ds: string): nat {
    if ds == [] then 0 else 10 * DigitsValue(ds[..|ds| - 1]) + DigitValue(ds[|ds| - 1])
  }

  function Pow10(n: nat): (r: nat)
    ensures r >= 1
  {
    if n == 0 then 1 else 10 * Pow10(n - 1)
  }

  /** `m` times ten to the power `e`: multiplied by ten `e` times, or divided by ten `-e` times. */
  function ScaleBy(m: real, e: int): real
    decreases if e >= 0 then e else -e
  {
    if e == 0 then m
    else if e > 0 then ScaleBy(m, e - 1) * 10.0
    else ScaleBy(m, e + 1) / 10.0
  }

  /**
   * The exponent that an exponent part at the start of `s` denotes: `e` or `E`,
   * an optional sign and at least one digit. Without a well-formed exponent
   * part the literal ends before `s`, which is exponent 0.
   */
  function ExponentOf(s: string): int {
    if s != [] && (s[0] == 'e' || s[0] == 'E') then
      var signed := |s| > 1 && (s[1] == '+' || s[1] == '-');
      var digits := if signed then s[2..] else s[1..];
      var n := DigitRun(digits);
      var magnitude := if n == 0 then 0 else DigitsValue(digits[..n]) as int;
      if signed && s[1] == '-' then -magnitude else magnitude
    else 0
  }

  /** What follows the integer digits once a decimal point, if there is one, is passed. */
  function AfterPoint(rest: string): string {
    if rest != [] && rest[0] == '.' then rest[1..] else rest
  }

  /** The value `0.d1d2…` of the fraction digits `d1d2…` after a decimal point. */
  function FractionValue(ds: string): real {
    if ds == [] then 0.0 else (DigitValue(ds[0]) as real + FractionValue(ds[1..])) / 10.0
  }

  /** The value of integer digits and fraction digits around a decimal point. */
  function Mantissa(intDigits: string, fracDigits: string): real {
    DigitsValue(intDigits) as real + FractionValue(fracDigits)
  }

  /**
   * The value of the longest unsigned decimal literal at the start of `s`
   * (digits, then optionally `.` and digits, at least one digit in all, then
   * optionally an exponent part), or `None` when `s` does not start with one.
   */
  function ParseUnsigned(s: string): Option<real> {
    var i := DigitRun(s);
    var fraction := AfterPoint(s[i..]);
    var f := DigitRun(fraction);
    if i == 0 && f == 0 then None
    else Some(ScaleBy(Mantissa(s[..i], fraction[..f]), ExponentOf(fraction[f..])))
  }

  /** JavaScript's global `parseFloat`, `None` standing for `NaN`. */
  function ParseFloat(s: string): Option<real> {
    var t := Strings.TrimStart(s);
    if t != [] && t[0] == '-' then
      match ParseUnsigned(t[1..])
      case None => None
      case Some(v) => Some(-v)
    else if t != [] && t[0] == '+' then ParseUnsigned(t[1..])
    else ParseUnsigned(t)
  }

  /** What follows the leading white space and an optional sign. */
  function Unsigned(s: string): string {
    var t := Strings.TrimStart(s);
    if t != [] && (t[0] == '-' || t[0] == '+') then t[1..] else t
  }

  /** Text that, after white space and an optional sign, starts with a digit or with `.` and a digit. */
  predicate StartsNumeric(s: string) {
    var u := Unsigned(s);
    (u != [] && IsDigit(u[0])) || (|u| >= 2 && u[0] == '.' && IsDigit(u[1]))
  }

  /** The sign only decides the sign of the result: a number is read exactly when one follows it. */
  lemma ParseFloatSomeUnsigned(s: string)
    ensures ParseFloat(s).Some? == ParseUnsigned(Unsigned(s)).Some?
  {
  }

  /** An unsigned literal starts with a digit, or with a point and a digit. */
  lemma ParseUnsignedSomeIff(u: string)
    ensures ParseUnsigned(u).Some? <==> (u != [] && IsDigit(u[0])) || (|u| >= 2 && u[0] == '.' && IsDigit(u[1]))
  {
    var i := DigitRun(u);
    if u != [] && IsDigit(u[0]) {
      assert i >= 1;
    } else {
      assert i == 0 && u[i..] == u;
      if |u| >= 2 && u[0] == '.' && IsDigit(u[1]) {
        assert DigitRun(u[1..]) >= 1;
      }
    }
  }

  /** `parseFloat` yields a number exactly when the text starts like a number; otherwise it yields `NaN`. */
  lemma ParseFloatDefinedIff(s: string)
    ensures ParseFloat(s).Some? <==> StartsNumeric(s)
  {
    ParseFloatSomeUnsigned(s);
    ParseUnsignedSomeIff(Unsigned(s));
  }

  /** The decimal spelling of a natural number, as `String(n)` writes it. */
  function NatText(n: nat): (s: string)
    ensures |s| >= 1 && AllDigits(s)
  {
    if n < 10 then [DigitChar(n)] else NatText(n / 10) + [DigitChar(n % 10)]
  }

  lemma {:induction false} NatTextValue(n: nat)
    ensures DigitsValue(NatText(n)) == n
  {
    var s := NatText(n);
    if n < 10 {
      assert s[..|s| - 1] == [];
    } else {
      NatTextValue(n / 10);
      assert s[..|s| - 1] == NatText(n / 10);
    }
  }

  /** A non-empty run of digits, with nothing after it, reads as the number it denotes. */
  lemma {:induction false} ParseUnsignedDigits(s: string)
    requires s != [] && AllDigits(s)
    ensures ParseUnsigned(s) == Some(DigitsValue(s) as real)
  {
    DigitRunOf(s, []);
    assert s + [] == s;
    assert s[..|s|] == s && s[|s|..] == [];
    assert Mantissa(s, []) == DigitsValue(s) as real;
    assert ExponentOf([]) == 0;
  }

  /** The decimal spelling of a natural number reads as that number. */
  lemma {:induction false} ParseUnsignedNatText(n: nat)
    ensures ParseUnsigned(NatText(n)) == Some(n as real)
  {
    ParseUnsignedDigits(NatText(n));
    NatTextValue(n);
  }

  /** Reading back the decimal spelling of a natural number gives that number. */
  lemma {:induction false} ParseNatText(n: nat)
    ensures ParseFloat(NatText(n)) == Some(n as real)
  {
    var s := NatText(n);
    assert IsDigit(s[0]);
    ParseFloatUnsigned(s);
    ParseUnsignedNatText(n);
  }

  /** The digit run of digits followed by a non-digit stops at the non-digit. */
  lemma {:induction false} DigitRunOf(a: string, t: string)
    requires AllDigits(a)
    requires t == [] || !IsDigit(t[0])
    ensures DigitRun(a + t) == |a|
  {
    if a == [] {
      assert a + t == t;
    } else {
      assert (a + t)[0] == a[0];
      assert (a + t)[1..] == a[1..] + t;
      DigitRunOf(a[1..], t);
    }
  }

  /** Digits, a point and digits read as the decimal fraction they spell. */
  lemma {:induction false} ParseDecimal(a: string, b: string)
    requires AllDigits(a) && AllDigits(b) && |a| + |b| >= 1
    ensures ParseUnsigned(a + "." + b) == Some(Mantissa(a, b))
  {
    var s := a + "." + b;
    assert s == a + ("." + b);
    DigitRunOf(a, "." + b);
    assert s[..|a|] == a;
    assert AfterPoint(s[|a|..]) == b;
    DigitRunOf(b, []);
    assert b + [] == b;
    assert b[..|b|] == b && b[|b|..] == [];
    assert ExponentOf([]) == 0;
  }

  /** A leading minus sign negates the literal that follows it. */
  lemma ParseFloatMinus(u: string)
    ensures ParseFloat("-" + u) == match ParseUnsigned(u) case None => None case Some(v) => Some(-v)
  {
    var s := "-" + u;
    assert s[0] == '-' && s[1..] == u;
    Strings.TrimStartUnpadded(s);
  }

  /** A leading plus sign changes nothing. */
  lemma ParseFloatPlus(u: string)
    ensures ParseFloat("+" + u) == ParseUnsigned(u)
  {
    var s := "+" + u;
    assert s[0] == '+' && s[1..] == u;
    Strings.TrimStartUnpadded(s);
  }

  /**
   * Digits followed by text that starts with neither a digit nor a point:
   * the literal has no fraction, and the text may only add an exponent.
   */
  lemma {:induction false} ParseUnsignedWhole(a: string, t: string)
    requires a != [] && AllDigits(a)
    requires t == [] || (!IsDigit(t[0]) && t[0] != '.')
    ensures ParseUnsigned(a + t) == Some(ScaleBy(DigitsValue(a) as real, ExponentOf(t)))
  {
    var s := a + t;
    DigitRunOf(a, t);
    assert s[..|a|] == a && s[|a|..] == t;
    assert AfterPoint(t) == t && DigitRun(t) == 0;
    assert t[..0] == [] && t[0..] == t;
    assert Mantissa(a, []) == DigitsValue(a) as real;
  }

  /**
   * Whatever follows the literal is ignored: digits followed by text that
   * starts with none of a digit, `.`, `e` or `E` read as the digits alone.
   */
  lemma {:induction false} ParseUnsignedPrefix(a: string, t: string)
    requires a != [] && AllDigits(a)
    requires t == [] || (!IsDigit(t[0]) && t[0] != '.' && t[0] != 'e' && t[0] != 'E')
    ensures ParseUnsigned(a + t) == Some(DigitsValue(a) as real)
  {
    ParseUnsignedWhole(a, t);
    assert ExponentOf(t) == 0;
  }

  /** The exponent part `e<n>` denotes `n`. */
  lemma {:induction false} ExponentOfNatText(n: nat)
    ensures ExponentOf("e" + NatText(n)) == n
  {
    var d := NatText(n);
    var t := "e" + d;
    assert t[0] == 'e' && t[1..] == d && t[1] == d[0];
    assert IsDigit(d[0]);
    DigitRunOf(d, []);
    assert d + [] == d && d[..|d|] == d;
    NatTextValue(n);
  }

  /** Scaling by a non-negative power of ten multiplies by that power. */
  lemma {:induction false} ScaleByPow10(m: real, n: nat)
    ensures ScaleBy(m, n) == m * Pow10(n) as real
  {
    if n > 0 {
      ScaleByPow10(m, n - 1);
      assert Pow10(n) as real == 10.0 * Pow10(n - 1) as real;
    }
  }

  /**
   * An exponent part `e<n>` after the digits scales them by ten to the `n`
   * (which `ScaleByPow10` shows is multiplying by `Pow10(n)`).
   */
  lemma {:induction false} ParseUnsignedExponent(a: string, n: nat)
    requires a != [] && AllDigits(a)
    ensures ParseUnsigned(a + "e" + NatText(n)) == Some(ScaleBy(DigitsValue(a) as real, n))
  {
    var t := "e" + NatText(n);
    assert a + "e" + NatText(n) == a + t;
    ParseUnsignedWhole(a, t);
    ExponentOfNatText(n);
  }

  /** The literal "1e2" is the digit 1 with exponent 2. */
  lemma OneEtwoParts()
    ensures ParseUnsigned("1e2") == Some(ScaleBy(DigitsValue("1") as real, 2))
  {
    assert "1e2" == "1" + "e" + NatText(2);
    ParseUnsignedExponent("1", 2);
  }

  /** "1e2" reads as 100. */
  lemma ParseOneEtwo()
    ensures ParseFloat("1e2") == Some(100.0)
  {
    ParseFloatUnsigned("1e2");
    OneEtwoParts();
    assert DigitsValue("1") == 1 by {
      assert "1"[..0] == [];
    }
    ScaleByPow10(1.0, 2);
  }

  /** The literal in "1,200" is "1". */
  lemma ThousandsSeparatorParts()
    ensures ParseUnsigned("1,200") == Some(DigitsValue("1") as real)
  {
    assert "1,200" == "1" + ",200";
    ParseUnsignedPrefix("1", ",200");
  }

  /** A thousands separator ends the literal: "1,200" reads as 1. */
  lemma ParseThousandsSeparator()
    ensures ParseFloat("1,200") == Some(1.0)
  {
    ParseFloatUnsigned("1,200");
    ThousandsSeparatorParts();
    assert DigitsValue("1") == 1 by {
      assert "1"[..0] == [];
    }
  }

  /** A minus sign before an unsigned literal worth `v` reads as `-v`. */
  lemma ParseFloatMinusSome(u: string, v: real)
    requires ParseUnsigned(u) == Some(v)
    ensures ParseFloat("-" + u) == Some(-v)
  {
    var s := "-" + u;
    assert s[0] == '-' && s[1..] == u;
    Strings.TrimStartUnpadded(s);
  }

  /** Text starting with neither white space nor a sign is read as an unsigned literal. */
  lemma ParseFloatUnsigned(u: string)
    requires u != [] && !Strings.IsSpace(u[0]) && u[0] != '-' && u[0] != '+'
    ensures ParseFloat(u) == ParseUnsigned(u)
  {
  }

  /** "12.50" splits into the integer digits "12" and the fraction digits "50". */
  lemma TwelveFiftyParts()
    ensures ParseUnsigned("12.50") == Some(Mantissa("12", "50"))
  {
    ParseDecimal("12", "50");
    assert "12" + "." + "50" == "12.50";
  }

  /** The digits "12" and "50" around a point are 12.5. */
  lemma TwelveFiftyValue()
    ensures Mantissa("12", "50") == 12.5
  {
    assert DigitsValue("12") == 12 by {
      assert "12"[..1] == "1" && "1"[..0] == [];
    }
    assert DigitsValue("50") == 50 by {
      assert "50"[..1] == "5" && "5"[..0] == [];
    }
    assert FractionValue("50") == 0.5 by {
      assert "50"[1..] == "0" && "0"[1..] == [];
    }
  }

  /** "12.50" reads as 12.5. */
  lemma ParseTwelveFifty()
    ensures ParseFloat("12.50") == Some(12.5)
  {
    ParseFloatUnsigned("12.50");
    TwelveFiftyParts();
    TwelveFiftyValue();
  }

  /** Text that starts with a letter is not a number. */
  lemma ParseLetters()
    ensures ParseFloat("abc") == None
  {
    Strings.TrimUnpadded("abc");
    ParseFloatDefinedIff("abc");
  }

  /** A minus sign before the decimal spelling negates it. */
  lemma {:induction false} ParseNegativeNatText(n: nat)
    ensures ParseFloat("-" + NatText(n)) == Some(-(n as real))
  {
    ParseUnsignedNatText(n);
    ParseFloatMinusSome(NatText(n), n as real);
  }
}
