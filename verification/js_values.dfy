/** The values a parsed JSON request body can hold, and the JavaScript
    coercions the controller applies to them: truthiness (`!x`), `isNaN`,
    the comparison `x <= 0`, and `x.toString()`. */
module JsValues {
  import opened Wrappers
  import opened Digits
  import opened Decimals
  import opened JsNumbers
  import opened JsNumberLaws

  /** A field of a request body: absent (`Undefined`) or any JSON value.
      JSON numbers are exact decimals here. Of an object only one thing
      matters: whether it has an own `toString` key, which shadows the
      inherited method with a value that cannot be called. */
  datatype JsValue =
    | Undefined
    | Null
    | Bool(b: bool)
    | Num(n: Decimal)
    | Str(s: string)
    | Arr(elems: seq<JsValue>)
    | Obj(ownToString: bool)

  /** ToBoolean (ECMA-262 section 7.1.2): what `!x` negates. The falsy
      JSON values are exactly undefined, null, false, 0 and "". */
  predicate Truthy(v: JsValue)
  {
    match v
    case Undefined => false
    case Null => false
    case Bool(b) => b
    case Num(n) => n.m != 0
    case Str(s) => |s| > 0
    case Arr(_) => true
    case Obj(_) => true
  }

  /** Whether turning `v` into a primitive (for `isNaN`, `<= 0` or
      `toString()`) throws a TypeError. An object with an own `toString`
      key does: its `valueOf` yields the object itself and its `toString`
      is not callable. An array throws when converting an element does,
      as `join` converts every element that is not null or undefined. */
  predicate Throws(v: JsValue)
    decreases v
  {
    match v
    case Obj(ownToString) => ownToString
    case Arr(elems) => exists i :: 0 <= i < |elems| && Throws(elems[i])
    case _ => false
  }

  /** A throwing value makes every array that holds it throw too, at any
      position, since `join` converts each element. */
  lemma ThrowsInArray(pre: seq<JsValue>, v: JsValue, post: seq<JsValue>)
    ensures Throws(v) ==> Throws(Arr(pre + [v] + post))
  {
    assert (pre + [v] + post)[|pre|] == v;
  }

  /** ToString (ECMA-262 section 7.1.17), which `x.toString()` agrees with
      on every value it is called on here; an array joins its elements
      with commas, writing `null` and `undefined` elements as nothing.
      Where `Throws(v)`, JavaScript throws and the text here is unused. */
  function ToText(v: JsValue): (r: string)
    ensures v.Num? ==> ReadsAsNumber(r, Normalize(v.n))
    ensures v.Num? ==> |r| > 0 && (r[0] == '-' <==> v.n.m < 0)
    ensures v.Arr? && |v.elems| == 1 && (v.elems[0].Undefined? || v.elems[0].Null?) ==> r == ""
    decreases v
  {
    match v
    case Undefined => "undefined"
    case Null => "null"
    case Bool(b) => if b then "true" else "false"
    case Num(n) => NumberTextRoundTrip(n); NumberToText(n)
    case Str(s) => s
    case Arr(elems) => Join(elems)
    case Obj(_) => ObjectText
  }

  /** `Array.prototype.join` with the default separator. */
  function Join(elems: seq<JsValue>): string
    decreases elems
  {
    if |elems| == 0 then ""
    else
      var head := if elems[0].Undefined? || elems[0].Null? then "" else ToText(elems[0]);
      if |elems| == 1 then head else head + "," + Join(elems[1..])
  }

  /** ToNumber (ECMA-262 section 7.1.4); an array or object is first
      turned into its text (ToPrimitive with hint number). For a value
      with `Throws(v)` JavaScript throws instead, and the result here is
      only a placeholder that the handlers never consult: each of them
      tests `Throws` first. */
  function ToNumber(v: JsValue): (r: Number)
    ensures v.Arr? && |v.elems| == 0 ==> r == Finite(Zero)
    ensures v.Arr? && |v.elems| == 1 && v.elems[0].Num? ==> r.Finite? && Normalize(r.d) == Normalize(v.elems[0].n)
    ensures v.Obj? ==> r.NaN?
  {
    match v
    case Undefined => NaN
    case Null => Finite(Zero)
    case Bool(b) => Finite(Decimal(if b then 1 else 0, 0))
    case Num(n) => Finite(n)
    case Str(s) => StringToNumber(s)
    case Arr(elems) =>
      assert |elems| == 0 ==> ToText(v) == "";
      assert |elems| == 1 && elems[0].Num? ==> ToText(v) == ToText(elems[0]);
      StringToNumber(ToText(v))
    case Obj(_) => ObjectTextIsNaN(); StringToNumber(ToText(v))
  }

  const ObjectText := "[object Object]"

  /** The text of an object is not a number. */
  lemma ObjectTextIsNaN()
    ensures StringToNumber(ObjectText).NaN?
  {
    var t := ObjectText;
    TrimUntouched(t);
    IndexOfAnyAt(t, ExponentMarks, 4);
    PointNumberChars(t[..4]);
    assert t[..4][0] == '[';
  }

  /** The global `isNaN(x)`, for a value with `!Throws(v)`; for any
      other value the call throws (see `Throws`). */
  predicate IsNaN(v: JsValue)
  {
    ToNumber(v).NaN?
  }

  /** `x <= 0` for a value against the number zero; false for NaN. Like
      `IsNaN`, it describes JavaScript only where `!Throws(v)`. */
  predicate AtMostZero(v: JsValue)
  {
    match ToNumber(v)
    case NaN => false
    case Finite(d) => d.m <= 0
    case Infinity(negative) => negative
  }

  /** The falsy JSON values are exactly undefined, null, false, 0 and "". */
  lemma FalsyValues(v: JsValue)
    ensures !Truthy(v) <==> v == Undefined || v == Null || v == Bool(false) || v == Str("") || (v.Num? && v.n.m == 0)
  {
  }

  /** A JSON number, null or a boolean is never NaN; undefined and an
      object always are (an object with an own `toString` key makes
      `isNaN` throw instead, which `Throws` records); blank text reads
      as 0. */
  lemma NaNCases(v: JsValue)
    ensures v.Num? || v.Null? || v.Bool? ==> !IsNaN(v)
    ensures v.Undefined? || v.Obj? ==> IsNaN(v)
    ensures v.Str? && |Trim(v.s)| == 0 ==> !IsNaN(v)
  {
  }

  /** `x <= 0` is false for NaN, and true for null, false and "", which
      all read as 0; `true <= 0` is false. */
  lemma ComparisonCases(v: JsValue)
    ensures AtMostZero(v) ==> !IsNaN(v)
    ensures v == Null || v == Bool(false) || v == Str("") ==> AtMostZero(v)
    ensures v == Bool(true) ==> !AtMostZero(v)
  {
  }

  /** An amount the controller accepts: neither `isNaN` nor `<= 0`. */
  predicate PositiveAmount(v: JsValue) {
    !IsNaN(v) && !AtMostZero(v)
  }

  /** The amount checks accept exactly the values that read as a number
      above zero, `+Infinity` included. */
  lemma PositiveAmountMeaning(v: JsValue)
    ensures PositiveAmount(v) <==> (ToNumber(v) == Infinity(false) || (ToNumber(v).Finite? && ToNumber(v).d.m > 0))
  {
  }

  /** Every accepted amount is truthy. */
  lemma PositiveIsTruthy(v: JsValue)
    ensures PositiveAmount(v) ==> Truthy(v)
  {
    assert StringToNumber("") == Finite(Zero);
  }

  /** A number written by `toString()` is read back as the same number. */
  lemma NumberTextReadsBack(n: Decimal)
    ensures StringToNumber(ToText(Num(n))).Finite?
    ensures Normalize(StringToNumber(ToText(Num(n))).d) == Normalize(n)
  {
    NumberTextRoundTrip(n);
  }

  /** The text of a non-numeric word is refused by ethers. */
  lemma WordIsNotEther(t: string)
    requires |t| > 0 && !IsDigit(t[0]) && t[0] != '.' && t[0] != '-'
    ensures ParseEther(t).None?
  {
    PointNumberChars(t);
  }

  /** Whatever `ethers.parseEther(x.toString())` accepts, `x` reads as a
      finite number, and the wei amount is that number times 10^18. */
  lemma EtherOfValue(v: JsValue)
    ensures ParseEther(ToText(v)).Some? ==> ToNumber(v).Finite?
    ensures ParseEther(ToText(v)).Some? ==> ScaledToWei(ToNumber(v).d, ParseEther(ToText(v)).value)
  {
    if ParseEther(ToText(v)).Some? {
      match v
      case Undefined =>
        assert "undefined"[0] == 'u';
        WordIsNotEther("undefined");
      case Null =>
        assert "null"[0] == 'n';
        WordIsNotEther("null");
      case Bool(b) =>
        assert "true"[0] == 't' && "false"[0] == 'f';
        WordIsNotEther(ToText(v));
      case Num(n) =>
        ParseEtherOfNumberText(n);
      case Str(s) =>
        ParseEtherAgreesWithNumber(s);
      case Arr(_) =>
        ParseEtherAgreesWithNumber(ToText(v));
      case Obj(_) =>
        ParseEtherAgreesWithNumber(ToText(v));
    }
  }

  /** For a JSON number, `parseEther(x.toString())` fails exactly when
      the number is written with an exponent or has more than 18
      decimals. */
  lemma EtherOfNumber(n: Decimal)
    ensures ParseEther(ToText(Num(n))) == if PlainNotation(n) then Wei(n) else None
  {
    assert ToText(Num(n)) == NumberToText(n);
    ParseEtherOfNumberText(n);
  }
}
