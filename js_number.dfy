/**
 * ECMAScript numbers as the screens meet them: the conversion `Number(string)`
 * (ECMA-262, section 7.1.4.1.1, StringToNumber, with the grammar of section
 * 7.1.4.1 StringNumericLiteral), `Number.isFinite`, truncation to an integer
 * (section 7.1.5, ToIntegerOrInfinity) and decimal rendering of integers.
 *
 * Values are exact reals: rounding to the nearest IEEE-754 double is not
 * modelled, except that a magnitude rounding to 2^1024 or more overflows to an
 * infinity, as RoundMVResult does.
 */
module JsNumber {
  import opened Wrappers
  import opened JsText

  datatype Number = Finite(value: real) | PosInfinity | NegInfinity | NaN

  /** 2^1024 - 2^970: the smallest magnitude that rounds to an infinity. */
  const OverflowThreshold: real := 179769313486231580793728971405303415079934132710037826936173778980444968292764750946649017977587207096330286416692887910946555547851940402630657488671505820681908902000708383676273854845817711531764475730270069855571366959622842914819860834936475292719074168444365510704342711559699508093042880177904174497792.0

  /** The exact value of a literal, overflowing to an infinity when it is too large for a double. */
  function Round(v: real): (n: Number)
    ensures n.Finite? <==> -OverflowThreshold < v < OverflowThreshold
    ensures n.Finite? ==> n.value == v
    ensures n.PosInfinity? <==> v >= OverflowThreshold
    ensures n.NegInfinity? <==> v <= -OverflowThreshold
  {
    if v >= OverflowThreshold then PosInfinity
    else if v <= -OverflowThreshold then NegInfinity
    else Finite(v)
  }

  /** Unary minus. */
  function Negate(n: Number): (r: Number)
    ensures n.Finite? <==> r.Finite?
    ensures n.Finite? ==> r.value == -n.value
  {
    match n
    case Finite(v) => Finite(-v)
    case PosInfinity => NegInfinity
    case NegInfinity => PosInfinity
    case NaN => NaN
  }

  /** ToIntegerOrInfinity on a finite value: truncation toward zero. */
  function Truncate(x: real): (i: int)
    ensures x >= 0.0 ==> i as real <= x < i as real + 1.0
    ensures x < 0.0 ==> i as real - 1.0 < x <= i as real
  {
    if x >= 0.0 then x.Floor else -((-x).Floor)
  }

  /** A digit in bases up to 16. */
  predicate IsDigit(c: char, radix: nat) {
    ('0' <= c <= '9' && (c as int - '0' as int) < radix)
    || (radix == 16 && ('a' <= c <= 'f' || 'A' <= c <= 'F'))
  }

  function DigitValue(c: char, radix: nat): (d: nat)
    requires IsDigit(c, radix)
    ensures d < radix
  {
    if '0' <= c <= '9' then c as int - '0' as int
    else if 'a' <= c <= 'f' then c as int - 'a' as int + 10
    else c as int - 'A' as int + 10
  }

  /** A non-empty string of digits. */
  predicate AllDigits(s: string, radix: nat) {
    |s| > 0 && forall k :: 0 <= k < |s| ==> IsDigit(s[k], radix)
  }

  /** The value of a string of digits, most significant first (0 for the empty string). */
  function DigitsValue(s: string, radix: nat): (v: nat)
    requires forall k :: 0 <= k < |s| ==> IsDigit(s[k], radix)
  {
    if s == [] then 0
    else DigitsValue(s[..|s| - 1], radix) * radix + DigitValue(s[|s| - 1], radix)
  }

  function DecimalDigit(d: nat): (c: char)
    requires d < 10
    ensures IsDigit(c, 10) && DigitValue(c, 10) == d
  {
    ('0' as int + d) as char
  }

  /** The shortest decimal rendering of a natural number. */
  function DecimalString(n: nat): (r: string)
    ensures AllDigits(r, 10)
    ensures DigitsValue(r, 10) == n
    ensures r[0] == '0' ==> n == 0 && |r| == 1
    decreases n
  {
    if n < 10 then [DecimalDigit(n)]
    else
      var r := DecimalString(n / 10) + [DecimalDigit(n % 10)];
      assert r[..|r| - 1] == DecimalString(n / 10);
      r
  }

  /** Rendering the value of a digit string without leading zero gives the string back. */
  lemma {:induction false} DecimalStringOfDigits(w: string)
    requires AllDigits(w, 10) && (w[0] == '0' ==> |w| == 1)
    ensures DecimalString(DigitsValue(w, 10)) == w
    decreases |w|
  {
    if |w| > 1 {
      var p := w[..|w| - 1];
      assert p[0] == w[0];
      DecimalStringOfDigits(p);
      DigitsValuePositive(p);
      var d := DigitValue(w[|w| - 1], 10);
      var n := DigitsValue(w, 10);
      assert n == DigitsValue(p, 10) * 10 + d;
      assert n / 10 == DigitsValue(p, 10) && n % 10 == d;
      assert DecimalDigit(d) == w[|w| - 1];
      assert w == p + [w[|w| - 1]];
    }
  }

  /** A digit string not starting with 0 has a positive value. */
  lemma {:induction false} DigitsValuePositive(w: string)
    requires AllDigits(w, 10) && w[0] != '0'
    ensures DigitsValue(w, 10) >= 1
    decreases |w|
  {
    if |w| > 1 {
      var p := w[..|w| - 1];
      assert p[0] == w[0];
      DigitsValuePositive(p);
    }
  }

  /** Leading zeros do not change the value of a digit string. */
  lemma {:induction false} DigitsValueLeadingZero(w: string)
    requires forall k :: 0 <= k < |w| ==> IsDigit(w[k], 10)
    ensures DigitsValue("0" + w, 10) == DigitsValue(w, 10)
    decreases |w|
  {
    if w != [] {
      var p := w[..|w| - 1];
      DigitsValueLeadingZero(p);
      assert ("0" + w)[..|"0" + w| - 1] == "0" + p;
    }
  }

  function Pow10Nat(e: nat): (r: nat)
    ensures r >= 1
  {
    if e == 0 then 1 else 10 * Pow10Nat(e - 1)
  }

  function Pow10(e: int): (r: real)
    ensures r > 0.0
  {
    if e >= 0 then Pow10Nat(e) as real else 1.0 / (Pow10Nat(-e) as real)
  }

  /** StrUnsignedDecimalLiteral without its exponent: digits with an optional fraction. */
  function MantissaValue(m: string): (r: Option<real>)
    ensures r.Some? ==> r.value >= 0.0
  {
    var p := IndexOf(m, '.');
    if p < 0 then
      (if AllDigits(m, 10) then Some(DigitsValue(m, 10) as real) else None)
    else
      var ip := m[..p];
      var fp := m[p + 1..];
      if (ip == [] && fp == []) || (ip != [] && !AllDigits(ip, 10)) || (fp != [] && !AllDigits(fp, 10)) then None
      else Some(DigitsValue(ip, 10) as real + DigitsValue(fp, 10) as real / Pow10(|fp|))
  }

  /** SignedInteger of an ExponentPart. */
  function ExponentValue(x: string): Option<int> {
    if |x| > 0 && x[0] == '+' then (if AllDigits(x[1..], 10) then Some(DigitsValue(x[1..], 10)) else None)
    else if |x| > 0 && x[0] == '-' then (if AllDigits(x[1..], 10) then Some(-(DigitsValue(x[1..], 10) as int)) else None)
    else if AllDigits(x, 10) then Some(DigitsValue(x, 10))
    else None
  }

  /** Position of the exponent marker `e` or `E`, or -1. */
  function ExponentMarker(u: string): (i: int)
    ensures -1 <= i < |u|
    ensures i == -1 <==> 'e' !in u && 'E' !in u
  {
    var i := IndexOf(u, 'e');
    var j := IndexOf(u, 'E');
    if i < 0 then j else if j < 0 then i else if i < j then i else j
  }

  /** StrUnsignedDecimalLiteral. */
  function UnsignedDecimal(u: string): Number {
    if u == "Infinity" then PosInfinity else Scaled(Mantissa(u), Exponent(u))
  }

  /** The value of the digits before the exponent marker. */
  function Mantissa(u: string): (r: Option<real>)
    ensures r.Some? ==> r.value >= 0.0
  {
    var e := ExponentMarker(u);
    if e < 0 then MantissaValue(u) else MantissaValue(u[..e])
  }

  /** The exponent after the exponent marker, 0 when there is none. */
  function Exponent(u: string): Option<int> {
    var e := ExponentMarker(u);
    if e < 0 then Some(0) else ExponentValue(u[e + 1..])
  }

  /** A mantissa times ten to the power of its exponent (0 when it has none), when both parts are well formed. */
  function Scaled(m: Option<real>, x: Option<int>): Number {
    if m.Some? && x.Some? then Round(m.value * Pow10(x.value)) else NaN
  }

  /** NonDecimalIntegerLiteral digits in the given base. */
  function RadixLiteral(d: string, radix: nat): Number {
    if AllDigits(d, radix) then Round(DigitsValue(d, radix) as real) else NaN
  }

  /**
   * `Number(s)` for a string `s`: white space around the literal is ignored,
   * the empty string is 0, a `0x`/`0o`/`0b` literal is read in its base and a
   * decimal literal may carry a sign.
   */
  function StringToNumber(s: string): Number {
    var t := Trim(s);
    if t == [] then Finite(0.0)
    else if |t| >= 2 && t[0] == '0' && (t[1] == 'x' || t[1] == 'X') then RadixLiteral(t[2..], 16)
    else if |t| >= 2 && t[0] == '0' && (t[1] == 'o' || t[1] == 'O') then RadixLiteral(t[2..], 8)
    else if |t| >= 2 && t[0] == '0' && (t[1] == 'b' || t[1] == 'B') then RadixLiteral(t[2..], 2)
    else if t[0] == '+' then UnsignedDecimal(t[1..])
    else if t[0] == '-' then Negate(UnsignedDecimal(t[1..]))
    else UnsignedDecimal(t)
  }

  /** A plain string of decimal digits converts to its value. */
  lemma DigitsToNumber(w: string)
    requires AllDigits(w, 10)
    requires (DigitsValue(w, 10) as real) < OverflowThreshold
    ensures StringToNumber(w) == Finite(DigitsValue(w, 10) as real)
  {
    assert NoWhiteSpace(w) by {
      forall k | 0 <= k < |w| ensures !IsWhiteSpace(w[k]) { assert IsDigit(w[k], 10); }
    }
    TrimNoWhiteSpace(w);
    if w != [] {
      assert IsDigit(w[0], 10);
      assert |w| >= 2 ==> IsDigit(w[1], 10);
      DigitsUnsigned(w);
      DecimalStart(w, w);
    }
  }

  /** A trimmed literal starting with a decimal digit, and no `0x`, `0o` or `0b` prefix, is read as unsigned decimal. */
  lemma DecimalStart(s: string, t: string)
    requires t == Trim(s) && t != [] && '0' <= t[0] <= '9'
    requires |t| >= 2 && t[0] == '0' ==> ('0' <= t[1] <= '9' || t[1] == '.')
    ensures StringToNumber(s) == UnsignedDecimal(t)
  {
    assert t[0] != '+' && t[0] != '-';
    assert !(|t| >= 2 && t[0] == '0' && t[1] in "xXoObB");
  }

  /** A plain string of decimal digits is a StrUnsignedDecimalLiteral of its value. */
  lemma DigitsUnsigned(w: string)
    requires AllDigits(w, 10)
    requires (DigitsValue(w, 10) as real) < OverflowThreshold
    ensures UnsignedDecimal(w) == Finite(DigitsValue(w, 10) as real)
  {
    var v := DigitsValue(w, 10) as real;
    assert w != "Infinity" by { assert IsDigit(w[0], 10); }
    assert 'e' !in w && 'E' !in w && '.' !in w by {
      forall k | 0 <= k < |w| ensures w[k] != 'e' && w[k] != 'E' && w[k] != '.' { assert IsDigit(w[k], 10); }
    }
    assert Mantissa(w) == Some(v) && Exponent(w) == Some(0);
    assert Scaled(Some(v), Some(0)) == Finite(v) by {
      assert v * Pow10(0) == v;
    }
  }

  /** Digits, a point and digits: a decimal literal with neither white space nor an exponent. */
  predicate PointLiteral(a: string, b: string) {
    AllDigits(a, 10) && AllDigits(b, 10)
  }

  lemma PointLiteralShape(a: string, b: string)
    requires PointLiteral(a, b)
    ensures var t := a + ['.'] + b;
      NoWhiteSpace(t) && 'e' !in t && 'E' !in t && '.' !in a && t[..|a|] == a && t[|a| + 1..] == b
  {
    var t := a + ['.'] + b;
    forall k | 0 <= k < |t| ensures !IsWhiteSpace(t[k]) && t[k] != 'e' && t[k] != 'E' && (k < |a| ==> t[k] != '.') {
      if k < |a| { assert t[k] == a[k] && IsDigit(a[k], 10); }
      else if k > |a| { assert t[k] == b[k - |a| - 1] && IsDigit(b[k - |a| - 1], 10); }
    }
    assert t[..|a|] == a;
    assert t[|a| + 1..] == b;
  }

  /** Such a literal is read as an unsigned decimal. */
  lemma PointLiteralUnsigned(a: string, b: string)
    requires PointLiteral(a, b)
    ensures StringToNumber(a + ['.'] + b) == UnsignedDecimal(a + ['.'] + b)
  {
    var t := a + ['.'] + b;
    PointLiteralShape(a, b);
    TrimNoWhiteSpace(t);
    assert IsDigit(t[0], 10);
    assert t[1] == '.' || IsDigit(t[1], 10) by {
      if |a| > 1 { assert t[1] == a[1] && IsDigit(a[1], 10); }
    }
    DecimalStart(t, t);
  }

  /** Its mantissa is the integer part plus the fraction, and its exponent 0. */
  lemma PointLiteralParts(a: string, b: string)
    requires PointLiteral(a, b)
    ensures var t := a + ['.'] + b;
      Mantissa(t) == Some(DigitsValue(a, 10) as real + DigitsValue(b, 10) as real / Pow10(|b|))
      && Exponent(t) == Some(0) && t != "Infinity"
  {
    var t := a + ['.'] + b;
    PointLiteralShape(a, b);
    IndexOfIs(t, '.', |a|);
    assert IsDigit(t[0], 10);
  }

  /** A fraction of `n` digits is below one. */
  lemma FractionBelowOne(b: string)
    requires AllDigits(b, 10)
    ensures DigitsValue(b, 10) as real / Pow10(|b|) < 1.0
  {
    DigitsValueBound(b);
    RatioBelowOne(DigitsValue(b, 10) as real, Pow10(|b|));
  }

  lemma RatioBelowOne(x: real, p: real)
    requires 0.0 <= x < p
    ensures x / p < 1.0
  {
  }

  /** `Number("a.b")` for digit strings `a` and `b` is `a` plus the fraction `0.b`. */
  lemma PointLiteralValue(a: string, b: string)
    requires PointLiteral(a, b)
    requires (DigitsValue(a, 10) as real) + 1.0 < OverflowThreshold
    ensures StringToNumber(a + ['.'] + b) == Finite(DigitsValue(a, 10) as real + DigitsValue(b, 10) as real / Pow10(|b|))
  {
    var v := DigitsValue(a, 10) as real + DigitsValue(b, 10) as real / Pow10(|b|);
    PointLiteralUnsigned(a, b);
    PointLiteralParts(a, b);
    FractionBelowOne(b);
    assert v * Pow10(0) == v;
  }

  /** The empty string, and white space alone, convert to zero. */
  lemma WhiteSpaceToNumber(s: string)
    requires forall k :: 0 <= k < |s| ==> IsWhiteSpace(s[k])
    ensures StringToNumber(s) == Finite(0.0)
  {
  }

  /** Neither a negative finite value nor minus infinity. */
  predicate NotNegative(n: Number) {
    n.NaN? || n.PosInfinity? || (n.Finite? && n.value >= 0.0)
  }

  lemma UnsignedNotNegative(u: string)
    ensures NotNegative(UnsignedDecimal(u))
  {
    ScaledNotNegative(Mantissa(u), Exponent(u));
  }

  /** A mantissa that is not negative stays so once scaled and rounded. */
  lemma ScaledNotNegative(m: Option<real>, x: Option<int>)
    requires m.Some? ==> m.value >= 0.0
    ensures NotNegative(Scaled(m, x))
  {
    if m.Some? && x.Some? {
      var v, p := m.value, Pow10(x.value);
      assert v * p >= 0.0;
    }
  }

  /** A string without a minus sign never converts to a negative number. */
  lemma NoMinusNotNegative(s: string)
    requires '-' !in s
    ensures NotNegative(StringToNumber(s))
  {
    TrimNoMinus(s);
    TrimmedNotNegative(s);
  }

  lemma TrimNoMinus(s: string)
    requires '-' !in s
    ensures Trim(s) == [] || Trim(s)[0] != '-'
  {
    TrimIsSlice(s);
    var i, j :| TrimmedTo(s, Trim(s), i, j);
    assert Trim(s) != [] ==> Trim(s)[0] == s[i];
  }

  lemma TrimmedNotNegative(s: string)
    requires Trim(s) == [] || Trim(s)[0] != '-'
    ensures NotNegative(StringToNumber(s))
  {
    var t := Trim(s);
    if t != [] {
      if |t| >= 2 && t[0] == '0' {
        RadixNotNegative(t);
      }
      if t[0] == '+' {
        UnsignedNotNegative(t[1..]);
      } else {
        UnsignedNotNegative(t);
      }
    }
  }

  lemma RadixNotNegative(t: string)
    ensures |t| >= 2 ==> NotNegative(RadixLiteral(t[2..], 16))
    ensures |t| >= 2 ==> NotNegative(RadixLiteral(t[2..], 8))
    ensures |t| >= 2 ==> NotNegative(RadixLiteral(t[2..], 2))
  {
  }

  /** A digit string of length `n` is below `10^n`. */
  lemma {:induction false} DigitsValueBound(w: string)
    requires forall k :: 0 <= k < |w| ==> IsDigit(w[k], 10)
    ensures DigitsValue(w, 10) < Pow10Nat(|w|)
    decreases |w|
  {
    if w != [] {
      DigitsValueBound(w[..|w| - 1]);
    }
  }

  /** The value of a digit string, read from its first digit. */
  lemma {:induction false} DigitsValueCons(c: char, w: string)
    requires IsDigit(c, 10)
    requires forall k :: 0 <= k < |w| ==> IsDigit(w[k], 10)
    ensures DigitsValue([c] + w, 10) == DigitValue(c, 10) * Pow10Nat(|w|) + DigitsValue(w, 10)
    decreases |w|
  {
    var cw := [c] + w;
    if w == [] {
      assert cw[..|cw| - 1] == [];
    } else {
      var p := w[..|w| - 1];
      assert cw[..|cw| - 1] == [c] + p;
      DigitsValueCons(c, p);
      var d := DigitValue(c, 10);
      var e := Pow10Nat(|p|);
      assert Pow10Nat(|w|) == 10 * e;
      calc {
        DigitsValue(cw, 10);
        DigitsValue([c] + p, 10) * 10 + DigitValue(w[|w| - 1], 10);
        (d * e + DigitsValue(p, 10)) * 10 + DigitValue(w[|w| - 1], 10);
        { MulTen(d, e); }
        d * Pow10Nat(|w|) + DigitsValue(w, 10);
      }
    }
  }

  lemma MulTen(d: int, e: int)
    ensures (d * e) * 10 == d * (10 * e)
  {
  }

  lemma {:induction false} MulStep(x: nat, y: nat, p: nat)
    requires x < y
    ensures x * p + p <= y * p
    decreases y - x
  {
    if x + 1 < y { MulStep(x + 1, y, p); }
    assert (x + 1) * p == x * p + p;
  }

  /**
   * On digit strings of the same length, the string order `<` is the order of
   * their values.
   */
  lemma {:induction false} DigitsLexOrder(a: string, b: string)
    requires |a| == |b|
    requires forall k :: 0 <= k < |a| ==> IsDigit(a[k], 10)
    requires forall k :: 0 <= k < |b| ==> IsDigit(b[k], 10)
    ensures LexLess(a, b) <==> DigitsValue(a, 10) < DigitsValue(b, 10)
    decreases |a|
  {
    if a != [] {
      var a1, b1 := a[1..], b[1..];
      assert a == [a[0]] + a1 && b == [b[0]] + b1;
      DigitsValueCons(a[0], a1);
      DigitsValueCons(b[0], b1);
      DigitsValueBound(a1);
      DigitsValueBound(b1);
      var p := Pow10Nat(|a1|);
      var x, y := DigitValue(a[0], 10), DigitValue(b[0], 10);
      if a[0] == b[0] {
        DigitsLexOrder(a1, b1);
      } else if a[0] < b[0] {
        MulStep(x, y, p);
      } else {
        MulStep(y, x, p);
      }
    }
  }

  lemma TwoDigitsValue(w: string)
    requires |w| == 2 && IsDigit(w[0], 10) && IsDigit(w[1], 10)
    ensures DigitsValue(w, 10) == DigitValue(w[0], 10) * 10 + DigitValue(w[1], 10)
  {
    var p := w[..1];
    assert p == [w[0]] && p[..0] == [];
    assert DigitsValue(p, 10) == DigitValue(w[0], 10);
    assert DigitsValue(w, 10) == DigitsValue(p, 10) * 10 + DigitValue(w[1], 10);
  }
}
