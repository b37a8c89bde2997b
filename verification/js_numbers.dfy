/** The JavaScript number conversions the controller leans on: a string's
    numeric value (ToNumber applied to a String, ECMA-262 section 7.1.4.1.1),
    a number's text (Number::toString, section 6.1.6.1.20), and ethers'
    `parseEther`, which turns ether text into wei. Numbers are exact
    decimals; the rounding and range of IEEE doubles are not modelled. */
module JsNumbers {
  import opened Wrappers
  import opened Digits
  import opened Decimals

  /** What ToNumber yields. */
  datatype Number = NaN | Finite(d: Decimal) | Infinity(negative: bool)

  // ---------------------------------------------------------------------
  // Scanning helpers

  /** Index of the first character of `s` in `cs`, or `|s|` when none is. */
  function IndexOfAny(s: string, cs: set<char>): (i: nat)
    ensures i <= |s|
    ensures forall k :: 0 <= k < i ==> s[k] !in cs
    ensures i < |s| ==> s[i] in cs
  {
    if |s| == 0 then 0
    else if s[0] in cs then 0
    else 1 + IndexOfAny(s[1..], cs)
  }

  /** The first-occurrence index is fixed by where the first member of `cs` sits. */
  lemma IndexOfAnyAt(s: string, cs: set<char>, i: nat)
    requires i <= |s|
    requires forall k :: 0 <= k < i ==> s[k] !in cs
    requires i < |s| ==> s[i] in cs
    ensures IndexOfAny(s, cs) == i
  {
  }

  /** StrWhiteSpaceChar: WhiteSpace and LineTerminator (ECMA-262 sections
      12.2 and 12.3), the characters StringToNumber trims. */
  predicate IsSpace(c: char) {
    || c in {'\t', '\n', '\U{B}', '\U{C}', '\r', ' ', '\U{A0}', '\U{1680}'}
    || ('\U{2000}' <= c <= '\U{200A}')
    || c in {'\U{2028}', '\U{2029}', '\U{202F}', '\U{205F}', '\U{3000}', '\U{FEFF}'}
  }

  function TrimStart(s: string): string {
    if |s| > 0 && IsSpace(s[0]) then TrimStart(s[1..]) else s
  }

  function TrimEnd(s: string): string {
    if |s| > 0 && IsSpace(s[|s| - 1]) then TrimEnd(s[..|s| - 1]) else s
  }

  function Trim(s: string): string {
    TrimEnd(TrimStart(s))
  }

  lemma TrimUntouched(s: string)
    requires |s| > 0 && !IsSpace(s[0]) && !IsSpace(s[|s| - 1])
    ensures Trim(s) == s
  {
  }

  // ---------------------------------------------------------------------
  // Decimal text with at most one point: `digits [. digits]`, `. digits`

  /** `whole.frac` with at least one digit in all, either part possibly
      empty; the shape both JavaScript and ethers accept for a decimal. */
  function PointNumber(u: string): Option<Decimal> {
    var i := IndexOfAny(u, {'.'});
    PointValue(u[..i], if i < |u| then u[i + 1..] else "")
  }

  /** The number `whole.frac` denotes, when both parts are digits. */
  function PointValue(whole: string, frac: string): (r: Option<Decimal>)
    ensures r.Some? ==> r.value.m >= 0 && r.value.e <= 0
  {
    if AllDigits(whole) && AllDigits(frac) && |whole| + |frac| > 0 then
      assert AllDigits(whole + frac);
      Some(Decimal(Value(whole + frac), -|frac|))
    else
      None
  }

  /** A point number holds nothing but digits and one point. */
  lemma PointNumberChars(u: string)
    ensures PointNumber(u).Some? ==> |u| > 0
    ensures PointNumber(u).Some? ==> forall k :: 0 <= k < |u| ==> IsDigit(u[k]) || u[k] == '.'
  {
    var i := IndexOfAny(u, {'.'});
    var whole, frac := u[..i], if i < |u| then u[i + 1..] else "";
    assert u == whole + (if i < |u| then "." + frac else "");
  }

  /** SignedInteger of an exponent part: optional sign, one or more digits. */
  function SignedInteger(v: string): Option<int> {
    if |v| > 0 && (v[0] == '+' || v[0] == '-') then
      var digits := v[1..];
      if |digits| > 0 && AllDigits(digits) then
        var n: int := Value(digits);
        Some(if v[0] == '-' then -n else n)
      else None
    else if |v| > 0 && AllDigits(v) then Some(Value(v))
    else None
  }

  const ExponentMarks: set<char> := {'e', 'E'}

  /** StrUnsignedDecimalLiteral without `Infinity`: a point number with an
      optional exponent part. */
  function UnsignedDecimal(u: string): (r: Option<Decimal>)
    ensures r.Some? ==> r.value.m >= 0
  {
    var i := IndexOfAny(u, ExponentMarks);
    if i == |u| then PointNumber(u)
    else
      match (PointNumber(u[..i]), SignedInteger(u[i + 1..]))
      case (Some(d), Some(x)) => Some(Decimal(d.m, d.e + x))
      case _ => None
  }

  /** StrDecimalLiteral: an optional sign, then `Infinity` or a decimal. */
  function DecimalLiteral(t: string): (r: Number)
    requires |t| > 0
    ensures r.Infinity? ==> (t == "Infinity" || t == "+Infinity" || t == "-Infinity") && (r.negative <==> t[0] == '-')
  {
    var negative := t[0] == '-';
    var u := if t[0] == '-' || t[0] == '+' then t[1..] else t;
    if u == "Infinity" then
      assert t == [t[0]] + t[1..];
      assert t[0] == '-' ==> t == "-Infinity";
      assert t[0] == '+' ==> t == "+Infinity";
      Infinity(negative)
    else
      match UnsignedDecimal(u)
      case None => NaN
      case Some(d) => Finite(if negative then Negate(d) else d)
  }

  // ---------------------------------------------------------------------
  // NonDecimalIntegerLiteral: 0x.., 0o.., 0b..

  function RadixDigitValue(c: char): nat {
    if '0' <= c <= '9' then c as int - '0' as int
    else if 'a' <= c <= 'z' then c as int - 'a' as int + 10
    else if 'A' <= c <= 'Z' then c as int - 'A' as int + 10
    else 36
  }

  function RadixDigits(s: string, base: nat): Option<nat> {
    if |s| == 0 then Some(0)
    else
      var c := s[|s| - 1];
      match RadixDigits(s[..|s| - 1], base)
      case None => None
      case Some(v) => if RadixDigitValue(c) < base then Some(v * base + RadixDigitValue(c)) else None
  }

  /** `0x`, `0o` or `0b` (either case) followed by at least one digit of
      that base; no sign is allowed. */
  function RadixLiteral(t: string): (r: Option<nat>)
    ensures r.Some? ==> |t| >= 3 && t[1] in {'x', 'X', 'o', 'O', 'b', 'B'}
  {
    if |t| >= 3 && t[0] == '0' then
      if t[1] in {'x', 'X'} then RadixDigits(t[2..], 16)
      else if t[1] in {'o', 'O'} then RadixDigits(t[2..], 8)
      else if t[1] in {'b', 'B'} then RadixDigits(t[2..], 2)
      else None
    else None
  }

  /** ToNumber applied to a String: blank text is 0, otherwise the trimmed
      text must be a whole StringNumericLiteral or the result is NaN. */
  function StringToNumber(s: string): (r: Number)
    ensures |Trim(s)| == 0 ==> r == Finite(Zero)
    ensures r.Finite? && r.d.m < 0 ==> Trim(s)[0] == '-'
    ensures r.Infinity? ==> Trim(s) == "Infinity" || Trim(s) == "+Infinity" || Trim(s) == "-Infinity"
    ensures r.Infinity? ==> (r.negative <==> Trim(s)[0] == '-')
  {
    var t := Trim(s);
    if |t| == 0 then Finite(Zero)
    else
      match RadixLiteral(t)
      case Some(n) => Finite(Decimal(n, 0))
      case None => DecimalLiteral(t)
  }

  // ---------------------------------------------------------------------
  // Number::toString

  /** Whether Number::toString writes the number without an exponent:
      zero, or 10^-7 < |d| < 10^21 in the terms of the algorithm's `n`. */
  predicate PlainNotation(d: Decimal) {
    var c := Normalize(d);
    c.m == 0 || -6 < c.e + |Text(Abs(c.m))| <= 21
  }

  /** The text of `m × 10^e` for a mantissa without trailing zeros: with
      s = the digits of m, k = |s| and n = e + k, the five cases of
      Number::toString. */
  function MagnitudeText(m: nat, e: int): (t: string)
    requires m > 0
    ensures |t| > 0 && IsDigit(t[0])
  {
    var s := Text(m);
    var k := |s|;
    var n := e + k;
    if k <= n <= 21 then s + Zeros(n - k)
    else if 0 < n <= 21 then s[..n] + "." + s[n..]
    else if -6 < n <= 0 then "0" + "." + (Zeros(-n) + s)
    else
      var x := n - 1;
      var exponent := (if x >= 0 then "+" else "-") + Text(Abs(x));
      if k == 1 then s + "e" + exponent
      else s[..1] + "." + s[1..] + "e" + exponent
  }

  /** `String(x)` for a JS number `x`. */
  function NumberToText(d: Decimal): (t: string)
    ensures |t| > 0
    ensures t[0] == '-' <==> d.m < 0
    ensures Normalize(d).m == 0 ==> t == "0"
  {
    var c := Normalize(d);
    if c.m == 0 then "0"
    else if c.m < 0 then "-" + MagnitudeText(-c.m, c.e)
    else MagnitudeText(c.m, c.e)
  }

  // ---------------------------------------------------------------------
  // ethers parseEther

  /** `ethers.parseEther(t)`: an optional `-`, then a point number; the
      result is the exact amount times 10^18, and the call fails (throws)
      on any other text and on a non-zero digit past the 18th decimal. */
  function ParseEther(t: string): (r: Option<int>)
    ensures r.Some? ==> |t| > 0
    ensures r.Some? ==> forall k :: 0 <= k < |t| ==> IsDigit(t[k]) || t[k] == '.' || (k == 0 && t[k] == '-')
    ensures r.Some? && r.value < 0 ==> t[0] == '-'
  {
    var negative := |t| > 0 && t[0] == '-';
    var body := if negative then t[1..] else t;
    PointNumberChars(body);
    match PointNumber(body)
    case None => None
    case Some(d) => Wei(if negative then Negate(d) else d)
  }
}
