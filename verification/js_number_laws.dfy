/** How the JavaScript and ethers conversions of JsNumbers fit together:
    the text Number::toString writes reads back as the same number, and
    whatever ethers accepts, JavaScript reads as the same amount. */
module JsNumberLaws {
  import opened Wrappers
  import opened Digits
  import opened Decimals
  import opened JsNumbers

  lemma NoPoint(s: string)
    requires AllDigits(s)
    ensures IndexOfAny(s, {'.'}) == |s|
  {
    IndexOfAnyAt(s, {'.'}, |s|);
  }

  lemma NoExponent(s: string)
    requires forall k :: 0 <= k < |s| ==> IsDigit(s[k]) || s[k] == '.'
    ensures IndexOfAny(s, ExponentMarks) == |s|
  {
    IndexOfAnyAt(s, ExponentMarks, |s|);
  }

  lemma WholeShape(s: string)
    requires AllDigits(s) && |s| > 0
    ensures PointNumber(s) == Some(Decimal(Value(s), 0))
  {
    NoPoint(s);
    assert s[..|s|] == s;
    assert PointNumber(s) == PointValue(s, "");
    WholeValue(s);
  }

  lemma WholeValue(s: string)
    requires AllDigits(s) && |s| > 0
    ensures PointValue(s, "") == Some(Decimal(Value(s), 0))
  {
    assert s + "" == s;
  }

  lemma PointAt(whole: string, frac: string)
    requires AllDigits(whole)
    ensures IndexOfAny(whole + "." + frac, {'.'}) == |whole|
  {
    IndexOfAnyAt(whole + "." + frac, {'.'}, |whole|);
  }

  lemma PointShape(whole: string, frac: string)
    requires AllDigits(whole) && AllDigits(frac) && |whole| + |frac| > 0
    ensures PointNumber(whole + "." + frac) == Some(Decimal(Value(whole + frac), -|frac|))
  {
    var t := whole + "." + frac;
    PointAt(whole, frac);
    assert t[..|whole|] == whole;
    assert t[|whole| + 1..] == frac;
  }

  lemma SignedIntegerOfText(x: int)
    ensures SignedInteger((if x >= 0 then "+" else "-") + Text(Abs(x))) == Some(x)
  {
    var v := (if x >= 0 then "+" else "-") + Text(Abs(x));
    assert v[1..] == Text(Abs(x));
    ValueOfText(Abs(x));
  }

  /** The characters Number::toString can write. */
  predicate NumberChar(c: char) {
    IsDigit(c) || c in {'.', 'e', '+', '-'}
  }

  /** `t` starts and ends with a digit and uses only number characters. */
  predicate NumberShaped(t: string) {
    && |t| > 0 && IsDigit(t[0]) && IsDigit(t[|t| - 1])
    && (forall k :: 0 <= k < |t| ==> NumberChar(t[k]))
  }

  /** `t` reads back, as an unsigned decimal, as `m × 10^e`. */
  predicate ReadsBackAs(t: string, m: nat, e: int) {
    UnsignedDecimal(t).Some? && Normalize(UnsignedDecimal(t).value) == Decimal(m, e)
  }

  /** Case `k <= n <= 21` of Number::toString: digits, then zeros. */
  lemma IntegerTextReadsBack(m: nat, z: nat)
    requires m > 0 && m % 10 != 0
    ensures var t := Text(m) + Zeros(z);
      NumberShaped(t) && ReadsBackAs(t, m, z) && PointNumber(t) == UnsignedDecimal(t)
  {
    var s := Text(m);
    var t := s + Zeros(z);
    assert AllDigits(t);
    NoExponent(t);
    WholeShape(t);
    IntegerTextValue(m, z);
  }

  lemma IntegerTextValue(m: nat, z: nat)
    requires m > 0 && m % 10 != 0
    ensures Normalize(Decimal(Value(Text(m) + Zeros(z)), 0)) == Decimal(m, z)
  {
    ValueOfText(m);
    ValueConcat(Text(m), Zeros(z));
    ValueOfZeros(z);
    NormalizeShift(m, z, 0);
    NormalizeCanonical(Decimal(m, z));
  }

  /** Case `0 < n < k`: the point falls inside the digits. */
  lemma FractionTextReadsBack(m: nat, n: nat)
    requires m > 0 && m % 10 != 0 && 0 < n < |Text(m)|
    ensures var s := Text(m); var t := s[..n] + "." + s[n..];
      NumberShaped(t) && ReadsBackAs(t, m, n - |s|) && PointNumber(t) == UnsignedDecimal(t)
  {
    var s := Text(m);
    var t := s[..n] + "." + s[n..];
    FractionTextShape(s, n);
    FractionTextValue(m, n);
    NormalizeCanonical(Decimal(m, n - |s|));
    ReadsBackVia(t, Decimal(m, n - |s|), m, n - |s|);
  }

  lemma FractionTextValue(m: nat, n: nat)
    requires 0 < n < |Text(m)|
    ensures var s := Text(m); PointNumber(s[..n] + "." + s[n..]) == Some(Decimal(m, n - |s|))
  {
    var s := Text(m);
    SplitDigits(s, n);
    PointShape(s[..n], s[n..]);
    ValueOfText(m);
    assert Value(s[..n] + s[n..]) == m;
    assert -|s[n..]| == n - |s|;
  }

  lemma SplitDigits(s: string, n: nat)
    requires AllDigits(s) && n <= |s|
    ensures AllDigits(s[..n]) && AllDigits(s[n..]) && s[..n] + s[n..] == s
  {
  }

  /** The last step of every case: a text that reads as `x`, whose
      canonical form is `m × 10^e`, reads back as `m × 10^e`. */
  lemma ReadsBackVia(t: string, x: Decimal, m: nat, e: int)
    requires UnsignedDecimal(t) == Some(x) && Normalize(x) == Decimal(m, e)
    ensures ReadsBackAs(t, m, e)
  {
  }

  lemma FractionTextShape(s: string, n: nat)
    requires AllDigits(s) && 0 < n < |s|
    ensures var t := s[..n] + "." + s[n..];
      NumberShaped(t) && PointNumber(t) == UnsignedDecimal(t)
  {
    PointShapeChars(s[..n], s[n..]);
    NoExponent(s[..n] + "." + s[n..]);
  }

  /** Case `-6 < n <= 0`: `0.`, then -n zeros, then the digits. */
  lemma SmallTextReadsBack(m: nat, z: nat)
    requires m > 0 && m % 10 != 0
    ensures var t := "0" + "." + (Zeros(z) + Text(m));
      NumberShaped(t) && ReadsBackAs(t, m, -(z + |Text(m)|)) && PointNumber(t) == UnsignedDecimal(t)
  {
    var frac := Zeros(z) + Text(m);
    SmallTextValue(m, z);
    AllDigitsConcat("0", frac);
    var x := Decimal(Value("0" + frac), -|frac|);
    assert Normalize(x) == Decimal(m, -(z + |Text(m)|));
    AllDigitsConcat(Zeros(z), Text(m));
    SmallTextShape(frac);
    ReadsBackVia("0" + "." + frac, x, m, -(z + |Text(m)|));
  }

  lemma SmallTextShape(frac: string)
    requires AllDigits(frac) && |frac| > 0
    ensures var t := "0" + "." + frac;
      && NumberShaped(t) && PointNumber(t) == UnsignedDecimal(t)
      && PointNumber(t) == Some(Decimal(Value("0" + frac), -|frac|))
  {
    PointShapeChars("0", frac);
    NoExponent("0" + "." + frac);
    PointShape("0", frac);
  }

  lemma PointShapeChars(whole: string, frac: string)
    requires AllDigits(whole) && AllDigits(frac) && |whole| > 0 && |frac| > 0
    ensures var t := whole + "." + frac;
      NumberShaped(t) && forall k :: 0 <= k < |t| ==> IsDigit(t[k]) || t[k] == '.'
  {
  }

  lemma ZerosPrefix(z: nat)
    ensures "0" + Zeros(z) == Zeros(z + 1)
  {
  }

  lemma SmallTextValue(m: nat, z: nat)
    requires m > 0 && m % 10 != 0
    ensures Normalize(Decimal(Value("0" + (Zeros(z) + Text(m))), -|Zeros(z) + Text(m)|)) == Decimal(m, -(z + |Text(m)|))
  {
    var s := Text(m);
    ZerosPrefix(z);
    assert "0" + (Zeros(z) + s) == Zeros(z + 1) + s;
    LeadingZerosValue(z + 1, s);
    ValueOfText(m);
    NormalizeCanonical(Decimal(m, -(z + |s|)));
  }

  lemma LeadingZerosValue(z: nat, s: string)
    requires AllDigits(s)
    ensures Value(Zeros(z) + s) == Value(s)
  {
    ValueConcat(Zeros(z), s);
    ValueOfZeros(z);
  }

  /** Cases with an exponent: the mantissa text, `e`, a signed exponent.
      JavaScript reads the exponent back; ethers refuses the text. */
  lemma ExponentTextReadsBack(m: nat, x: int, mantissa: string, e: int)
    requires m > 0 && m % 10 != 0
    requires PointNumber(mantissa) == Some(Decimal(m, e - x))
    requires |mantissa| > 0 && IsDigit(mantissa[0])
    requires forall k :: 0 <= k < |mantissa| ==> IsDigit(mantissa[k]) || mantissa[k] == '.'
    ensures var t := mantissa + "e" + ((if x >= 0 then "+" else "-") + Text(Abs(x)));
      NumberShaped(t) && ReadsBackAs(t, m, e) && PointNumber(t).None?
  {
    var exponent := (if x >= 0 then "+" else "-") + Text(Abs(x));
    var t := mantissa + "e" + exponent;
    ExponentTextValue(m, x, mantissa, e);
    ExponentTextShaped(mantissa, exponent);
    assert t[|mantissa|] == 'e';
    PointNumberChars(t);
  }

  lemma ExponentTextShaped(mantissa: string, exponent: string)
    requires |mantissa| > 0 && IsDigit(mantissa[0])
    requires forall k :: 0 <= k < |mantissa| ==> IsDigit(mantissa[k]) || mantissa[k] == '.'
    requires |exponent| >= 2 && exponent[0] in {'+', '-'} && AllDigits(exponent[1..])
    ensures NumberShaped(mantissa + "e" + exponent)
  {
    var t := mantissa + "e" + exponent;
    forall k | 0 <= k < |t| ensures NumberChar(t[k]) {
      if k < |mantissa| {
        assert t[k] == mantissa[k];
      } else if k == |mantissa| {
        assert t[k] == 'e';
      } else if k == |mantissa| + 1 {
        assert t[k] == exponent[0];
      } else {
        assert t[k] == exponent[1..][k - |mantissa| - 2];
      }
    }
    assert t[|t| - 1] == exponent[1..][|exponent| - 2];
  }

  lemma ExponentTextValue(m: nat, x: int, mantissa: string, e: int)
    requires m > 0 && m % 10 != 0
    requires PointNumber(mantissa) == Some(Decimal(m, e - x))
    requires forall k :: 0 <= k < |mantissa| ==> IsDigit(mantissa[k]) || mantissa[k] == '.'
    ensures ReadsBackAs(mantissa + "e" + ((if x >= 0 then "+" else "-") + Text(Abs(x))), m, e)
  {
    var exponent := (if x >= 0 then "+" else "-") + Text(Abs(x));
    var t := mantissa + "e" + exponent;
    ExponentSplit(mantissa, exponent);
    SignedIntegerOfText(x);
    assert UnsignedDecimal(t) == Some(Decimal(m, e));
    NormalizeCanonical(Decimal(m, e));
    ReadsBackVia(t, Decimal(m, e), m, e);
  }

  /** The exponent mark after a mantissa is the first one in the text. */
  lemma ExponentSplit(mantissa: string, exponent: string)
    requires forall k :: 0 <= k < |mantissa| ==> IsDigit(mantissa[k]) || mantissa[k] == '.'
    ensures var t := mantissa + "e" + exponent;
      && IndexOfAny(t, ExponentMarks) == |mantissa|
      && t[..|mantissa|] == mantissa && t[|mantissa| + 1..] == exponent
  {
    var t := mantissa + "e" + exponent;
    IndexOfAnyAt(t, ExponentMarks, |mantissa|);
    assert t[..|mantissa|] == mantissa;
    assert t[|mantissa| + 1..] == exponent;
  }

  /** Whether `m × 10^e` falls in the range Number::toString writes
      without an exponent. */
  predicate PlainRange(m: nat, e: int) {
    -6 < e + |Text(m)| <= 21
  }

  /** What the lemmas below establish about the text of `m × 10^e`. */
  predicate MagnitudeTextFacts(m: nat, e: int)
    requires m > 0
  {
    var t := MagnitudeText(m, e);
    && NumberShaped(t) && ReadsBackAs(t, m, e)
    && (PlainRange(m, e) ==> PointNumber(t) == UnsignedDecimal(t))
    && (!PlainRange(m, e) ==> PointNumber(t).None?)
  }

  lemma IntegerCase(m: nat, e: int)
    requires m > 0 && m % 10 != 0 && |Text(m)| <= e + |Text(m)| <= 21
    ensures MagnitudeTextFacts(m, e)
  {
    assert MagnitudeText(m, e) == Text(m) + Zeros(e);
    IntegerTextReadsBack(m, e);
  }

  lemma FractionCase(m: nat, e: int)
    requires m > 0 && m % 10 != 0 && 0 < e + |Text(m)| < |Text(m)| && e + |Text(m)| <= 21
    ensures MagnitudeTextFacts(m, e)
  {
    var s := Text(m);
    var n := e + |s|;
    var t := s[..n] + "." + s[n..];
    assert MagnitudeText(m, e) == t;
    FractionTextReadsBack(m, n);
    assert NumberShaped(t) && ReadsBackAs(t, m, e);
    assert PlainRange(m, e);
  }

  lemma SmallCase(m: nat, e: int)
    requires m > 0 && m % 10 != 0 && -6 < e + |Text(m)| <= 0
    ensures MagnitudeTextFacts(m, e)
  {
    var n := e + |Text(m)|;
    var t := "0" + "." + (Zeros(-n) + Text(m));
    assert MagnitudeText(m, e) == t;
    SmallTextReadsBack(m, -n);
    assert -(-n + |Text(m)|) == e;
    assert NumberShaped(t) && ReadsBackAs(t, m, e);
    assert PlainRange(m, e);
  }

  lemma OneDigitExponentCase(m: nat, e: int)
    requires m > 0 && m % 10 != 0 && |Text(m)| == 1
    requires !(-6 < e + 1 <= 21)
    ensures MagnitudeTextFacts(m, e)
  {
    var s := Text(m);
    var x := e;
    assert MagnitudeText(m, e) == s + "e" + ((if x >= 0 then "+" else "-") + Text(Abs(x)));
    ValueOfText(m);
    WholeShape(s);
    ExponentTextReadsBack(m, x, s, e);
  }

  lemma ManyDigitExponentCase(m: nat, e: int)
    requires m > 0 && m % 10 != 0 && |Text(m)| > 1
    requires !(-6 < e + |Text(m)| <= 21)
    ensures MagnitudeTextFacts(m, e)
  {
    var s := Text(m);
    var x := e + |s| - 1;
    var mantissa := s[..1] + "." + s[1..];
    assert MagnitudeText(m, e) == mantissa + "e" + ((if x >= 0 then "+" else "-") + Text(Abs(x)));
    ManyDigitMantissa(m);
    assert e - x == -(|s| - 1);
    ExponentTextReadsBack(m, x, mantissa, e);
  }

  /** `d.ddd`: the first digit, a point, the other digits. */
  lemma ManyDigitMantissa(m: nat)
    requires m > 0 && |Text(m)| > 1
    ensures var s := Text(m); var mantissa := s[..1] + "." + s[1..];
      && PointNumber(mantissa) == Some(Decimal(m, -(|s| - 1)))
      && |mantissa| > 0 && IsDigit(mantissa[0])
      && forall k :: 0 <= k < |mantissa| ==> IsDigit(mantissa[k]) || mantissa[k] == '.'
  {
    var s := Text(m);
    ValueOfText(m);
    PointShape(s[..1], s[1..]);
    assert s[..1] + s[1..] == s;
    PointShapeChars(s[..1], s[1..]);
  }

  /** Every case of Number::toString for a positive number reads back as
      that number; the text is a plain point number exactly in the
      plain-notation range. */
  lemma MagnitudeTextReadsBack(m: nat, e: int)
    requires m > 0 && m % 10 != 0
    ensures MagnitudeTextFacts(m, e)
  {
    var k := |Text(m)|;
    var n := e + k;
    if k <= n <= 21 {
      IntegerCase(m, e);
    } else if 0 < n <= 21 {
      FractionCase(m, e);
    } else if -6 < n <= 0 {
      SmallCase(m, e);
    } else if k == 1 {
      OneDigitExponentCase(m, e);
    } else {
      ManyDigitExponentCase(m, e);
    }
  }

  /** `t`, read by JavaScript's ToNumber, is a finite number equal to `c`. */
  predicate ReadsAsNumber(t: string, c: Decimal) {
    StringToNumber(t).Finite? && Normalize(StringToNumber(t).d) == c
  }

  /** Text that starts with a digit is neither a radix literal, nor signed,
      nor `Infinity`: JavaScript reads it as an unsigned decimal. */
  lemma DigitLeadRead(t: string)
    requires NumberShaped(t)
    ensures UnsignedDecimal(t).Some? ==> StringToNumber(t) == Finite(UnsignedDecimal(t).value)
  {
    TrimUntouched(t);
    if |t| >= 3 {
      assert NumberChar(t[1]);
    }
    assert RadixLiteral(t).None?;
    assert "Infinity"[0] == 'I';
    assert t != "Infinity";
  }

  lemma ZeroTextRoundTrip()
    ensures ReadsAsNumber("0", Zero)
    ensures ParseEther("0") == Some(0)
  {
    WholeShape("0");
    assert Value("0") == 0;
    NoExponent("0");
    DigitLeadRead("0");
    assert Wei(Zero) == Some(0);
  }

  lemma PositiveTextRoundTrip(m: nat, e: int)
    requires m > 0 && m % 10 != 0
    ensures ReadsAsNumber(MagnitudeText(m, e), Decimal(m, e))
  {
    MagnitudeTextReadsBack(m, e);
    DigitLeadRead(MagnitudeText(m, e));
  }

  lemma NegativeTextRoundTrip(m: nat, e: int)
    requires m > 0 && m % 10 != 0
    ensures ReadsAsNumber("-" + MagnitudeText(m, e), Decimal(-(m as int), e))
  {
    var u := MagnitudeText(m, e);
    var t := "-" + u;
    MagnitudeTextReadsBack(m, e);
    TrimUntouched(t);
    assert RadixLiteral(t).None?;
    assert t[1..] == u;
    assert "Infinity"[0] == 'I';
    assert u != "Infinity";
    var x := UnsignedDecimal(u).value;
    assert StringToNumber(t) == Finite(Negate(x));
    NormalizeNegate(x);
  }

  /** A canonical negative mantissa stays canonical when negated. */
  lemma CanonicalNegative(d: Decimal)
    requires Normalize(d).m < 0
    ensures -Normalize(d).m > 0 && (-Normalize(d).m) % 10 != 0
  {
    NormalizeNegate(d);
    assert Normalize(Negate(d)) == Negate(Normalize(d));
  }

  /** JavaScript reads `String(x)` back as `x`. */
  lemma NumberTextRoundTrip(d: Decimal)
    ensures ReadsAsNumber(NumberToText(d), Normalize(d))
  {
    var c := Normalize(d);
    if c.m == 0 {
      ZeroNumberText(d);
    } else if c.m < 0 {
      NegativeNumberText(d);
    } else {
      PositiveNumberText(d);
    }
  }

  lemma ZeroNumberText(d: Decimal)
    requires Normalize(d).m == 0
    ensures NumberToText(d) == "0" && Normalize(d) == Zero
    ensures ReadsAsNumber(NumberToText(d), Normalize(d))
  {
    ZeroTextRoundTrip();
  }

  lemma NegativeNumberText(d: Decimal)
    requires Normalize(d).m < 0
    ensures ReadsAsNumber(NumberToText(d), Normalize(d))
  {
    var c := Normalize(d);
    NegativeNumberShape(d);
    NegativeTextRoundTrip(-c.m, c.e);
    assert Decimal(-(-c.m), c.e) == c;
  }

  /** A negative number's text is a minus sign before its magnitude's,
      and it is plain exactly when the magnitude's is. */
  lemma NegativeNumberShape(d: Decimal)
    requires Normalize(d).m < 0
    ensures var c := Normalize(d);
      && -c.m > 0 && (-c.m) % 10 != 0
      && NumberToText(d) == "-" + MagnitudeText(-c.m, c.e)
      && PlainNotation(d) == PlainRange(-c.m, c.e)
  {
    CanonicalNegative(d);
  }

  lemma PositiveNumberText(d: Decimal)
    requires Normalize(d).m > 0
    ensures ReadsAsNumber(NumberToText(d), Normalize(d))
  {
    var c := Normalize(d);
    assert NumberToText(d) == MagnitudeText(c.m, c.e);
    PositiveTextRoundTrip(c.m, c.e);
  }

  lemma PositiveEtherText(m: nat, e: int)
    requires m > 0 && m % 10 != 0
    ensures ParseEther(MagnitudeText(m, e)) == if PlainRange(m, e) then Wei(Decimal(m, e)) else None
  {
    var t := MagnitudeText(m, e);
    MagnitudeTextReadsBack(m, e);
    if PlainRange(m, e) {
      var x := UnsignedDecimal(t).value;
      WeiOfNormalize(x);
    }
  }

  lemma NegativeEtherText(m: nat, e: int)
    requires m > 0 && m % 10 != 0
    ensures ParseEther("-" + MagnitudeText(m, e)) == if PlainRange(m, e) then Wei(Decimal(-(m as int), e)) else None
  {
    var u := MagnitudeText(m, e);
    var t := "-" + u;
    assert t[1..] == u;
    MagnitudeTextReadsBack(m, e);
    if PlainRange(m, e) {
      NegatedWei(UnsignedDecimal(u).value, m, e);
    }
  }

  lemma NegatedWei(x: Decimal, m: nat, e: int)
    requires Normalize(x) == Decimal(m, e)
    ensures Wei(Negate(x)) == Wei(Decimal(-(m as int), e))
  {
    NormalizeNegate(x);
    WeiOfNormalize(Negate(x));
  }

  /** ethers accepts `String(x)` exactly when it has no exponent, and then
      yields x in wei. */
  lemma ParseEtherOfNumberText(d: Decimal)
    ensures ParseEther(NumberToText(d)) == if PlainNotation(d) then Wei(d) else None
  {
    var c := Normalize(d);
    if c.m == 0 {
      ZeroEtherText(d);
    } else if c.m < 0 {
      NegativeEtherNumber(d);
    } else {
      PositiveEtherNumber(d);
    }
  }

  lemma ZeroEtherText(d: Decimal)
    requires Normalize(d).m == 0
    ensures ParseEther(NumberToText(d)) == if PlainNotation(d) then Wei(d) else None
  {
    ZeroNumberText(d);
    ZeroTextRoundTrip();
    WeiOfNormalize(d);
    assert PlainNotation(d);
  }

  lemma NegativeEtherNumber(d: Decimal)
    requires Normalize(d).m < 0
    ensures ParseEther(NumberToText(d)) == if PlainNotation(d) then Wei(d) else None
  {
    var c := Normalize(d);
    NegativeNumberShape(d);
    NegativeEtherText(-c.m, c.e);
    assert Decimal(-(-c.m), c.e) == c;
    WeiOfNormalize(d);
  }

  lemma PositiveEtherNumber(d: Decimal)
    requires Normalize(d).m > 0
    ensures ParseEther(NumberToText(d)) == if PlainNotation(d) then Wei(d) else None
  {
    var c := Normalize(d);
    assert NumberToText(d) == MagnitudeText(c.m, c.e);
    PositiveEtherText(c.m, c.e);
    assert PlainNotation(d) == PlainRange(c.m, c.e);
    WeiOfNormalize(d);
  }

  /** Whatever ethers accepts, JavaScript reads as a finite number of the
      same wei value. */
  lemma ParseEtherAgreesWithNumber(t: string)
    requires ParseEther(t).Some?
    ensures StringToNumber(t).Finite? && Wei(StringToNumber(t).d) == ParseEther(t)
  {
    if |t| > 0 && t[0] == '-' {
      var u := t[1..];
      assert t == "-" + u;
      SignedPointRead(u);
    } else {
      PointRead(t);
    }
  }

  /** The text of a point number trims to itself and reads, in
      JavaScript, as an unsigned decimal equal to the point number. */
  lemma PointTextFacts(u: string)
    requires PointNumber(u).Some?
    ensures |u| > 0 && !IsSpace(u[0]) && !IsSpace(u[|u| - 1])
    ensures u[0] != '-' && u[0] != '+' && u != "Infinity"
    ensures UnsignedDecimal(u) == PointNumber(u)
    ensures |u| >= 2 ==> u[1] !in {'x', 'X', 'o', 'O', 'b', 'B'}
  {
    PointNumberChars(u);
    NoExponent(u);
    assert "Infinity"[0] == 'I';
  }

  lemma PointRead(u: string)
    requires PointNumber(u).Some?
    ensures StringToNumber(u) == Finite(PointNumber(u).value)
    ensures ParseEther(u) == Wei(PointNumber(u).value)
  {
    PointTextFacts(u);
    TrimUntouched(u);
    assert RadixLiteral(u).None?;
  }

  lemma SignedPointRead(u: string)
    requires PointNumber(u).Some?
    ensures StringToNumber("-" + u) == Finite(Negate(PointNumber(u).value))
    ensures ParseEther("-" + u) == Wei(Negate(PointNumber(u).value))
  {
    var t := "-" + u;
    PointTextFacts(u);
    assert t[1..] == u;
    TrimUntouched(t);
    assert RadixLiteral(t).None?;
  }
}
