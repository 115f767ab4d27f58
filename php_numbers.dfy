/**
 * How PHP 7 reads numbers out of strings: `intval`, `floatval` and the loose
 * `==` between two strings. Numbers are kept exact (a decimal mantissa and a
 * power of ten); the rounding of IEEE doubles is not modelled.
 */
module PhpNumbers {
  import opened Wrappers
  import PhpStrings

  /** The exact value `mantissa * 10^exponent`. */
  datatype Decimal = Decimal(mantissa: int, exponent: int)

  const Zero := Decimal(0, 0)

  /** Bounds of PHP's 64-bit integers. */
  const IntMax: int := 0x7FFF_FFFF_FFFF_FFFF
  const IntMin: int := -0x8000_0000_0000_0000

  function Pow10(n: nat): (r: nat)
    ensures r >= 1
  {
    if n == 0 then 1 else 10 * Pow10(n - 1)
  }

  function Min(a: int, b: int): int
  {
    if a <= b then a else b
  }

  /** The mantissa of `x` rewritten for the smaller exponent `e`. */
  function ScaledTo(x: Decimal, e: int): int
    requires e <= x.exponent
  {
    x.mantissa * Pow10(x.exponent - e)
  }

  /** Numeric equality of two decimals. */
  predicate DecEq(x: Decimal, y: Decimal)
  {
    var e := Min(x.exponent, y.exponent);
    ScaledTo(x, e) == ScaledTo(y, e)
  }

  /** Numeric order of two decimals. */
  predicate DecLess(x: Decimal, y: Decimal)
  {
    var e := Min(x.exponent, y.exponent);
    ScaledTo(x, e) < ScaledTo(y, e)
  }

  /** The integer part of a decimal, rounded toward zero as a C cast does. */
  function Trunc(x: Decimal): int
  {
    if x.exponent >= 0 then x.mantissa * Pow10(x.exponent)
    else if x.mantissa >= 0 then x.mantissa / Pow10(-x.exponent)
    else -((-x.mantissa) / Pow10(-x.exponent))
  }

  /**
   * 2^1024 - 2^970: the least magnitude that a correctly rounded conversion
   * to an IEEE double turns into infinity (the midpoint between the largest
   * finite double and 2^1024 rounds to even, upwards).
   */
  const DoubleOverflow: nat :=
    179769313486231580793728971405303415079934132710037826936173778980444968292764750946649017977587207096330286416692887910946555547851940402630657488671505820681908902000708383676273854845817711531764475730270069855571366959622842914819860834936475292719074168444365510704342711559699508093042880177904174497792

  function Abs(v: int): nat
  {
    if v < 0 then -v else v
  }

  /** Whether the decimal, read as a double, is an infinity. */
  predicate Overflows(x: Decimal)
  {
    if x.exponent >= 0 then Abs(x.mantissa) * Pow10(x.exponent) >= DoubleOverflow
    else Abs(x.mantissa) >= DoubleOverflow * Pow10(-x.exponent)
  }

  /** Saturation to the 64-bit range, as PHP does for numeric strings. */
  function Clamp64(v: int): int
  {
    if v > IntMax then IntMax else if v < IntMin then IntMin else v
  }

  // ---------------------------------------------------------------------------
  // Reading a number at the front of a string
  // ---------------------------------------------------------------------------

  predicate IsDigit(c: char)
  {
    '0' <= c <= '9'
  }

  /** Whitespace PHP skips in front of a numeric string: space, \t, \n, \r, \v, \f. */
  predicate IsSpace(c: char)
  {
    c == ' ' || c == '\t' || c == '\n' || c == '\r' || c == '\U{B}' || c == '\U{C}'
  }

  /** First index at or after `i` that is not whitespace. */
  function SpaceEnd(s: string, i: nat): (r: nat)
    requires i <= |s|
    ensures i <= r <= |s|
    decreases |s| - i
  {
    if i < |s| && IsSpace(s[i]) then SpaceEnd(s, i + 1) else i
  }

  /** First index at or after `i` that is not a decimal digit. */
  function DigitEnd(s: string, i: nat): (r: nat)
    requires i <= |s|
    ensures i <= r <= |s|
    ensures forall k :: i <= k < r ==> IsDigit(s[k])
    decreases |s| - i
  {
    if i < |s| && IsDigit(s[i]) then DigitEnd(s, i + 1) else i
  }

  /** Value of a run of decimal digits (0 for the empty run). */
  function DigitsValue(ds: string): nat
    requires forall k :: 0 <= k < |ds| ==> IsDigit(ds[k])
  {
    if ds == [] then 0
    else DigitsValue(ds[..|ds| - 1]) * 10 + DigitValue(ds[|ds| - 1])
  }

  function DigitValue(c: char): nat
    requires IsDigit(c)
  {
    c as int - '0' as int
  }

  /** A number read from the front of a string, and the index where it stops. */
  datatype NumberPrefix = NumberPrefix(value: Decimal, end: nat)

  /**
   * The exponent part `e[+-]digits` starting at `d`, as (value, end). Without
   * at least one digit there is no exponent and nothing is consumed.
   */
  function ExponentPart(s: string, d: nat): (r: (int, nat))
    requires d <= |s|
    ensures d <= r.1 <= |s|
  {
    if d < |s| && (s[d] == 'e' || s[d] == 'E') then
      var f := d + 1;
      var g := if f < |s| && (s[f] == '-' || s[f] == '+') then f + 1 else f;
      var h := DigitEnd(s, g);
      if h > g then
        assert forall k :: 0 <= k < h - g ==> IsDigit(s[g..h][k]);
        var v: int := DigitsValue(s[g..h]);
        (if f < |s| && s[f] == '-' then -v else v, h)
      else (0, d)
    else (0, d)
  }

  /**
   * The longest prefix of `s` that reads as a decimal number after leading
   * whitespace: optional sign, digits with an optional fraction (at least one
   * digit in all), optional exponent. `None` when there is no digit.
   */
  function LeadingNumber(s: string): (r: Option<NumberPrefix>)
    ensures r.Some? ==> r.value.end <= |s|
  {
    var a := SpaceEnd(s, 0);
    var b := if a < |s| && (s[a] == '-' || s[a] == '+') then a + 1 else a;
    var c := DigitEnd(s, b);
    var hasDot := c < |s| && s[c] == '.';
    var fracStart := if hasDot then c + 1 else c;
    var d := DigitEnd(s, fracStart);
    if c == b && d == fracStart then None
    else
      var ds := s[b..c] + s[fracStart..d];
      assert forall k :: 0 <= k < |ds| ==> IsDigit(ds[k]);
      var m: int := DigitsValue(ds);
      var exp := ExponentPart(s, d);
      var mant := if a < |s| && s[a] == '-' then -m else m;
      Some(NumberPrefix(Decimal(mant, exp.0 - (d - fracStart)), exp.1))
  }

  /** A numeric string in PHP 7's sense: the whole string is one number. */
  predicate IsNumeric(s: string)
  {
    var p := LeadingNumber(s);
    p.Some? && p.value.end == |s|
  }

  /** `floatval($s)`: the leading number, or 0 when there is none. */
  function FloatVal(s: string): Decimal
  {
    match LeadingNumber(s)
    case Some(p) => p.value
    case None => Zero
  }

  /**
   * `intval($s)` since PHP 7.1: the leading number rounded toward zero and
   * saturated to 64 bits, except that a number whose double is infinite
   * gives 0.
   */
  function IntVal(s: string): (r: int)
    ensures IntMin <= r <= IntMax
  {
    ToInt(FloatVal(s))
  }

  /**
   * A number converted to a 64-bit integer as PHP 7.1 does for a double:
   * an infinity gives 0, a finite value is rounded toward zero and saturated.
   */
  function ToInt(x: Decimal): (r: int)
    ensures IntMin <= r <= IntMax
    ensures Overflows(x) ==> r == 0
    ensures !Overflows(x) && IntMin <= Trunc(x) <= IntMax ==> r == Trunc(x)
    ensures !Overflows(x) && Trunc(x) > IntMax ==> r == IntMax
    ensures !Overflows(x) && Trunc(x) < IntMin ==> r == IntMin
  {
    if Overflows(x) then 0 else Clamp64(Trunc(x))
  }

  /**
   * PHP's loose `==` between two strings: two numeric strings are compared
   * as numbers, anything else byte for byte.
   */
  predicate LooseEquals(a: string, b: string)
  {
    if IsNumeric(a) && IsNumeric(b) then DecEq(FloatVal(a), FloatVal(b)) else a == b
  }

  // ---------------------------------------------------------------------------
  // Properties
  // ---------------------------------------------------------------------------

  /**
   * `1e<k>`, with or without a minus, past the 64-bit range: it saturates
   * while its double is finite (k up to 308), and gives 0 once the double is
   * infinite (k from 309 on).
   */
  lemma IntValOfPowerOfTen(sign: string, e: string)
    requires sign == "" || sign == "-"
    requires e != [] && forall k :: 0 <= k < |e| ==> IsDigit(e[k])
    requires DigitsValue(e) >= 19
    ensures DigitsValue(e) <= 308 ==> IntVal(sign + "1e" + e) == (if sign == "-" then IntMin else IntMax)
    ensures DigitsValue(e) >= 309 ==> IntVal(sign + "1e" + e) == 0
  {
    var k := DigitsValue(e);
    LeadingScientific(sign, e);
    PowerOfTenValue(if sign == "-" then -1 else 1, k);
  }

  /** Plus or minus a power of ten past the 64-bit range, as an integer. */
  lemma PowerOfTenValue(m: int, k: nat)
    requires m == 1 || m == -1
    requires k >= 19
    ensures k <= 308 ==> ToInt(Decimal(m, k)) == (if m == -1 then IntMin else IntMax)
    ensures k >= 309 ==> ToInt(Decimal(m, k)) == 0
  {
    PowerOfTenParts(m, k);
    Pow10Threshold(k);
  }

  /** Where a power of ten stands against the 64-bit range and the range of a double. */
  lemma Pow10Threshold(k: nat)
    ensures k >= 19 ==> Pow10(k) > IntMax
    ensures k <= 308 ==> Pow10(k) < DoubleOverflow
    ensures k >= 309 ==> Pow10(k) >= DoubleOverflow
  {
    if k >= 19 {
      Pow10Past64();
      Pow10Monotone(19, k);
    }
    Pow10Bounds();
    if k <= 308 {
      Pow10Monotone(k, 308);
    } else {
      Pow10Monotone(309, k);
    }
  }

  lemma PowerOfTenParts(m: int, k: nat)
    requires m == 1 || m == -1
    ensures Overflows(Decimal(m, k)) <==> Pow10(k) >= DoubleOverflow
    ensures Trunc(Decimal(m, k)) == m * Pow10(k)
  {
    assert Abs(m) == 1;
  }

  /** 10^19 is past the 64-bit range. */
  lemma Pow10Past64()
    ensures IntMax < Pow10(19)
  {
    assert Pow10(3) == 1000;
    Pow10Plus16(3);
  }

  /** 10^308 is below the overflow bound and 10^309 above it. */
  lemma Pow10Bounds()
    ensures Pow10(308) < DoubleOverflow <= Pow10(309)
  {
    assert Pow10(4) == 10000;
    Pow10Plus16(4); Pow10Plus16(20); Pow10Plus16(36); Pow10Plus16(52); Pow10Plus16(68);
    Pow10Plus16(84); Pow10Plus16(100); Pow10Plus16(116); Pow10Plus16(132); Pow10Plus16(148);
    Pow10Plus16(164); Pow10Plus16(180); Pow10Plus16(196); Pow10Plus16(212); Pow10Plus16(228);
    Pow10Plus16(244); Pow10Plus16(260); Pow10Plus16(276); Pow10Plus16(292);
  }

  lemma {:induction false} Pow10Monotone(a: nat, b: nat)
    requires a <= b
    ensures Pow10(a) <= Pow10(b)
    decreases b - a
  {
    if a < b {
      Pow10Monotone(a, b - 1);
    }
  }

  lemma Pow10Plus16(a: nat)
    ensures Pow10(a + 16) == 10000000000000000 * Pow10(a)
  {
    assert Pow10(4) == 10000;
    Pow10Add(4, 4);
    assert Pow10(8) == 100000000;
    Pow10Add(8, 8);
    assert Pow10(16) == 10000000000000000;
    Pow10Add(16, a);
  }

  lemma {:induction false} Pow10Add(a: nat, b: nat)
    ensures Pow10(a + b) == Pow10(a) * Pow10(b)
  {
    if a > 0 {
      Pow10Add(a - 1, b);
      assert Pow10(a + b) == 10 * Pow10(a - 1 + b);
      assert 10 * (Pow10(a - 1) * Pow10(b)) == (10 * Pow10(a - 1)) * Pow10(b);
    }
  }

  lemma {:induction false} DigitEndOfRun(s: string, i: nat)
    requires i <= |s|
    requires forall k :: i <= k < |s| ==> IsDigit(s[k])
    ensures DigitEnd(s, i) == |s|
    decreases |s| - i
  {
    if i < |s| {
      DigitEndOfRun(s, i + 1);
    }
  }

  /** An `e` followed by nothing but digits up to the end is an exponent. */
  lemma ExponentToEnd(s: string, d: nat)
    requires d + 1 < |s| && s[d] == 'e'
    requires forall k :: d + 1 <= k < |s| ==> IsDigit(s[k])
    ensures ExponentPart(s, d) == (DigitsValue(s[d + 1..]), |s|)
  {
    DigitEndOfRun(s, d + 1);
    assert s[d + 1] != '-' && s[d + 1] != '+';
    assert s[d + 1..|s|] == s[d + 1..];
  }

  /** An optional minus, a one and an exponent read as plus or minus a power of ten. */
  lemma LeadingScientific(sign: string, e: string)
    requires sign == "" || sign == "-"
    requires e != [] && forall k :: 0 <= k < |e| ==> IsDigit(e[k])
    ensures LeadingNumber(sign + "1e" + e) ==
            Some(NumberPrefix(Decimal(if sign == "-" then -1 else 1, DigitsValue(e)), |sign| + 2 + |e|))
  {
    var s := sign + "1e" + e;
    var b := |sign|;
    assert s[b] == '1' && s[b + 1] == 'e';
    assert s[b + 2..] == e;
    ExponentToEnd(s, b + 1);
    LeadingOne(s, b);
  }

  /** The mantissa part of a number that is a sign and the digit one. */
  lemma LeadingOne(s: string, b: nat)
    requires b + 2 <= |s| && s[b] == '1' && s[b + 1] == 'e'
    requires b == 0 || (b == 1 && s[0] == '-')
    ensures LeadingNumber(s) ==
            Some(NumberPrefix(Decimal(if b == 1 then -1 else 1, ExponentPart(s, b + 1).0), ExponentPart(s, b + 1).1))
  {
    assert SpaceEnd(s, 0) == 0;
    assert DigitEnd(s, b + 1) == b + 1;
    assert DigitEnd(s, b) == b + 1;
    assert s[b..b + 1] + s[b + 1..b + 1] == "1";
    assert DigitsValue("1") == 1;
  }

  /** Loose equality is reflexive and symmetric. */
  lemma LooseEqualsIsEquivalenceLike(a: string, b: string)
    ensures LooseEquals(a, a)
    ensures LooseEquals(a, b) == LooseEquals(b, a)
  {
  }

  /** When one side is not numeric, loose equality is byte equality. */
  lemma LooseEqualsNonNumeric(a: string, b: string)
    requires !IsNumeric(a) || !IsNumeric(b)
    ensures LooseEquals(a, b) <==> a == b
  {
  }

  lemma {:induction false} DigitsValueOfNatString(n: nat)
    ensures DigitsValue(PhpStrings.NatToString(n)) == n
  {
    var s := PhpStrings.NatToString(n);
    if n >= 10 {
      DigitsValueOfNatString(n / 10);
      assert s[..|s| - 1] == PhpStrings.NatToString(n / 10);
    }
  }

  lemma {:induction false} DigitEndOfDigits(s: string, i: nat)
    requires i <= |s|
    requires forall k :: 0 <= k < |s| ==> IsDigit(s[k])
    ensures DigitEnd(s, i) == |s|
    decreases |s| - i
  {
    if i < |s| {
      DigitEndOfDigits(s, i + 1);
    }
  }

  /**
   * Reading back the decimal text `strval` writes for a natural number below
   * 2^63 gives the number: what LENGTH and the _COUNT tokens produce is a
   * valid `intval` argument for the other tokens.
   */
  lemma IntValOfNatString(n: nat)
    requires n <= IntMax
    ensures IntVal(PhpStrings.NatToString(n)) == n
    ensures IsNumeric(PhpStrings.NatToString(n))
  {
    var s := PhpStrings.NatToString(n);
    assert !IsSpace(s[0]);
    assert SpaceEnd(s, 0) == 0;
    DigitEndOfDigits(s, 0);
    DigitsValueOfNatString(n);
    assert s[0..|s|] + s[|s|..|s|] == s;
    assert LeadingNumber(s) == Some(NumberPrefix(Decimal(n, 0), |s|));
  }
}
