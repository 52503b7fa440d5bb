/** Decimal numerals: digit strings and their values, the decimal rendering of an
    integer, and JavaScript's `parseFloat`. */
module Numerals {
  import opened Wrappers
  import opened Text

  function DigitValue(c: char): (d: nat)
    requires IsDigit(c)
    ensures d < 10
  {
    c as int - '0' as int
  }

  function DigitChar(d: nat): (c: char)
    requires d < 10
    ensures IsDigit(c) && DigitValue(c) == d
  {
    ('0' as int + d) as char
  }

  /** The value of a string of decimal digits; the empty string reads as 0 */
  function DigitsValue(s: string): nat
    requires AllDigits(s)
  {
    if s == [] then 0 else 10 * DigitsValue(s[..|s| - 1]) + DigitValue(s[|s| - 1])
  }

  function Pow10(k: nat): (p: nat)
    ensures p >= 1
  {
    if k == 0 then 1 else 10 * Pow10(k - 1)
  }

  /** Leading zeros do not change a digit string's value */
  lemma {:induction false} DigitsValueZeros(z: nat, s: string)
    requires AllDigits(s)
    ensures AllDigits(seq(z, _ => '0') + s)
    ensures DigitsValue(seq(z, _ => '0') + s) == DigitsValue(s)
    decreases |s|, z
  {
    var t := seq(z, _ => '0') + s;
    if s == [] {
      if z > 0 {
        assert t[..|t| - 1] == seq(z - 1, _ => '0') + [];
        DigitsValueZeros(z - 1, []);
      }
    } else {
      assert t[..|t| - 1] == seq(z, _ => '0') + s[..|s| - 1];
      DigitsValueZeros(z, s[..|s| - 1]);
    }
  }

  /** `String(n)` for a non-negative integer: decimal digits, no leading zero */
  function NatToString(n: nat): (r: string)
    ensures |r| >= 1 && AllDigits(r)
    ensures r[0] == '0' ==> r == "0"
    ensures n < 10 <==> |r| == 1
  {
    if n < 10 then [DigitChar(n)] else NatToString(n / 10) + [DigitChar(n % 10)]
  }

  /** Reading back a rendered number gives the number */
  lemma {:induction false} NatToStringRoundTrip(n: nat)
    ensures DigitsValue(NatToString(n)) == n
  {
    if n >= 10 {
      NatToStringRoundTrip(n / 10);
      var s := NatToString(n / 10);
      assert (s + [DigitChar(n % 10)])[..|s|] == s;
    }
  }

  /** `String(n)` for any integer */
  function IntToString(n: int): (r: string)
    ensures |r| >= 1
    ensures n < 0 <==> r[0] == '-'
  {
    if n < 0 then "-" + NatToString(-n) else NatToString(n)
  }

  /** Distinct naturals render differently */
  lemma NatToStringInjective(a: nat, b: nat)
    requires NatToString(a) == NatToString(b)
    ensures a == b
  {
    NatToStringRoundTrip(a);
    NatToStringRoundTrip(b);
  }

  /** Dropping the sign of a rendered negative number leaves its magnitude */
  lemma NegativeDigits(n: int)
    requires n < 0
    ensures IntToString(n)[1..] == NatToString(-n)
  {
    assert ("-" + NatToString(-n))[1..] == NatToString(-n);
  }

  /** Distinct integers render differently */
  lemma IntToStringInjective(a: int, b: int)
    requires IntToString(a) == IntToString(b)
    ensures a == b
  {
    if a < 0 {
      NegativeDigits(a);
      NegativeDigits(b);
      NatToStringInjective(-a, -b);
    } else {
      NatToStringInjective(a, b);
    }
  }

  /** The value of the decimal numeral `whole.frac` */
  function DecimalValue(whole: string, frac: string): (v: real)
    requires AllDigits(whole) && AllDigits(frac)
    ensures v >= 0.0
    ensures frac == [] ==> v == DigitsValue(whole) as real
  {
    DigitsValue(whole) as real + DigitsValue(frac) as real / Pow10(|frac|) as real
  }

  /** 10 raised to an integer power */
  function Scale(e: int): (r: real)
    ensures r > 0.0
  {
    if e >= 0 then Pow10(e) as real else 1.0 / Pow10(-e) as real
  }

  /** A JavaScript number as `parseFloat` can produce it; NaN is the `None` of an
      `Option<Float>` */
  datatype Float = Finite(value: real) | Infinity(negative: bool)

  /** The exponent `[eE][+-]?\d+` at `j`, or 0 when none is there (then `parseFloat`
      stops before the `e`) */
  function ExponentAt(s: string, j: nat): int
    requires j <= |s|
  {
    if j < |s| && (s[j] == 'e' || s[j] == 'E') then
      var signed := j + 1 < |s| && (s[j + 1] == '+' || s[j + 1] == '-');
      var k := if signed then j + 2 else j + 1;
      var d := RunAt(s, k, IsDigit);
      if d == 0 then 0
      else if signed && s[j + 1] == '-' then -(DigitsValue(s[k..k + d]) as int)
      else DigitsValue(s[k..k + d])
    else 0
  }

  /** The value of the longest prefix of `body` that is an unsigned decimal literal
      without `Infinity`: digits with an optional point and fraction, or a point and a
      fraction, then an optional exponent */
  function UnsignedDecimal(body: string): (r: Option<real>)
    ensures r.Some? ==> r.value >= 0.0
    ensures body == [] || (!IsDigit(body[0]) && body[0] != '.') ==> r.None?
  {
    var w := RunAt(body, 0, IsDigit);
    var dotted := w < |body| && body[w] == '.';
    var f := if dotted then RunAt(body, w + 1, IsDigit) else 0;
    if w == 0 && f == 0 then None
    else
      var frac := if dotted then body[w + 1..w + 1 + f] else "";
      var mantissaEnd := if dotted then w + 1 + f else w;
      var mantissa := DecimalValue(body[..w], frac);
      Some(Scaled(mantissa, ExponentAt(body, mantissaEnd)))
  }

  /** `m` times ten to the power `e` */
  function Scaled(m: real, e: int): (r: real)
    requires m >= 0.0
    ensures r >= 0.0
    ensures e == 0 ==> r == m
  {
    if e == 0 then m
    else
      NonNegativeProduct(m, Scale(e));
      m * Scale(e)
  }

  lemma NonNegativeProduct(a: real, b: real)
    requires a >= 0.0 && b > 0.0
    ensures a * b >= 0.0
  {
  }

  /** `parseFloat`: the longest prefix of the left-trimmed text that is a decimal
      literal, with an optional sign, or `Infinity` */
  function ParseFloat(s: string): (r: Option<Float>)
    ensures r.Some? ==> TrimStart(s) != []
    ensures r.Some? && r.value.Finite? && r.value.value < 0.0 ==> TrimStart(s)[0] == '-'
  {
    var t := TrimStart(s);
    var signed := t != [] && (t[0] == '+' || t[0] == '-');
    var negative := signed && t[0] == '-';
    var body := if signed then t[1..] else t;
    if "Infinity" <= body then Some(Infinity(negative))
    else
      match UnsignedDecimal(body)
      case None => None
      case Some(v) => Some(Finite(if negative then -v else v))
  }

  lemma UnsignedDecimalOfNat(n: nat, rest: string)
    requires rest == [] || (!IsDigit(rest[0]) && rest[0] != '.' && rest[0] != 'e' && rest[0] != 'E')
    ensures UnsignedDecimal(NatToString(n) + rest) == Some(n as real)
  {
    var d := NatToString(n);
    var s := d + rest;
    RunAtUnique(s, 0, IsDigit, |d|);
    assert s[..|d|] == d;
    NatToStringRoundTrip(n);
    assert ExponentAt(s, |d|) == 0;
  }

  /** A number written as digits and followed by a unit reads back as itself */
  lemma ParseFloatOfNat(n: nat, rest: string)
    requires rest == [] || (!IsDigit(rest[0]) && rest[0] != '.' && rest[0] != 'e' && rest[0] != 'E')
    ensures ParseFloat(NatToString(n) + rest) == Some(Finite(n as real))
  {
    var s := NatToString(n) + rest;
    assert IsDigit(s[0]);
    ParseFloatOfLeadingDigit(s);
    UnsignedDecimalOfNat(n, rest);
  }

  /** Text starting with a digit is read as an unsigned decimal */
  lemma ParseFloatOfLeadingDigit(s: string)
    requires s != [] && IsDigit(s[0])
    ensures UnsignedDecimal(s).Some?
    ensures ParseFloat(s) == Some(Finite(UnsignedDecimal(s).value))
  {
    RunAtUnique(s, 0, IsSpace, 0);
    assert TrimStart(s) == s;
    assert !("Infinity" <= s) by { assert s[0] != 'I'; }
  }

  lemma UnsignedDecimalOfDigits(ds: string)
    requires ds != [] && AllDigits(ds)
    ensures UnsignedDecimal(ds) == Some(DigitsValue(ds) as real)
  {
    RunAtUnique(ds, 0, IsDigit, |ds|);
    assert ds[..|ds|] == ds;
    assert ExponentAt(ds, |ds|) == 0;
  }

  /** `parseFloat` of a string of digits is its decimal value */
  lemma ParseFloatOfDigitString(ds: string)
    requires ds != [] && AllDigits(ds)
    ensures ParseFloat(ds) == Some(Finite(DigitsValue(ds) as real))
  {
    ParseFloatOfLeadingDigit(ds);
    UnsignedDecimalOfDigits(ds);
  }

  lemma UnsignedDecimalOfPoint(whole: string, frac: string)
    requires whole != [] && AllDigits(whole) && frac != [] && AllDigits(frac)
    ensures UnsignedDecimal(whole + "." + frac) == Some(DecimalValue(whole, frac))
  {
    var s := whole + "." + frac;
    RunAtUnique(s, 0, IsDigit, |whole|);
    RunAtUnique(s, |whole| + 1, IsDigit, |frac|);
    assert s[..|whole|] == whole && s[|whole| + 1..|whole| + 1 + |frac|] == frac;
    assert ExponentAt(s, |s|) == 0;
  }

  /** `parseFloat` of `whole.frac` is the value of the decimal numeral */
  lemma ParseFloatOfDecimal(whole: string, frac: string)
    requires whole != [] && AllDigits(whole) && frac != [] && AllDigits(frac)
    ensures ParseFloat(whole + "." + frac) == Some(Finite(DecimalValue(whole, frac)))
  {
    ParseFloatOfLeadingDigit(whole + "." + frac);
    UnsignedDecimalOfPoint(whole, frac);
  }

  /** Text with no digit before its first letter or sign reads as NaN */
  lemma ParseFloatNoNumber(s: string)
    requires TrimStart(s) != []
    requires var c := TrimStart(s)[0]; !IsDigit(c) && c != '.' && c != '+' && c != '-' && c != 'I'
    ensures ParseFloat(s) == None
  {
  }
}
