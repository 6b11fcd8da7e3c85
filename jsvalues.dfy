/**
 * The JavaScript values the scripts put into their product records, the unary
 * `+` conversion applied to prices, and the nullish-coalescing operator `??`.
 *
 * Floating-point numbers are not modelled. A `Number` is named by a numeric
 * literal, `NumberOf(t)`, standing for the double that JavaScript's string to
 * number conversion yields for the text `t` (possibly NaN). Equal literals
 * denote equal numbers; different literals ("0" and "00") may still denote the
 * same number, so the model never concludes that two numbers differ from their
 * literals alone.
 */
module JsValues {
  import opened JsText

  datatype Option<T> = None | Some(value: T)

  datatype Number = NumberOf(literal: string)

  const Zero := NumberOf("0")
  const One := NumberOf("1")
  const NaN := NumberOf("NaN")

  /**
   * A JavaScript value as it reaches a record field. `Object` is an object or
   * array, carried by the text its `toString` produces (what `+` converts).
   */
  datatype JsValue =
    | Undefined
    | Null
    | Bool(b: bool)
    | Num(n: Number)
    | Str(s: string)
    | Object(text: string)
  {
    /** `undefined` and `null`, the two values `??` falls back on. */
    predicate IsNullish() {
      Undefined? || Null?
    }
  }

  /**
   * JavaScript's string to number conversion: leading and trailing whitespace
   * is ignored and a blank string converts to 0; anything else is the number
   * its trimmed text denotes.
   */
  function StringToNumber(s: string): Number {
    var t := Trim(s);
    if t == [] then Zero else NumberOf(t)
  }

  /** A blank string converts to 0; any other to the number its trimmed text denotes. */
  lemma StringToNumberSpec(s: string)
    ensures IsBlank(s) ==> StringToNumber(s) == Zero
    ensures !IsBlank(s) ==> StringToNumber(s).literal == Trim(s) && Trim(s) != []
  {
    TrimEmptyIffBlank(s);
  }

  /** Surrounding whitespace does not change the converted number. */
  lemma StringToNumberIgnoresPadding(s: string, pre: string, post: string)
    requires IsBlank(pre) && IsBlank(post)
    ensures StringToNumber(pre + s + post) == StringToNumber(s)
  {
    TrimIgnoresPadding(s, pre, post);
  }

  /** Unary `+`, the only conversion the scripts apply to prices. */
  function Plus(v: JsValue): (n: Number)
    ensures v.Str? ==> n == StringToNumber(v.s)
    ensures v.Null? || v == Bool(false) ==> n == Zero
    ensures v.Undefined? ==> n == NaN
  {
    match v
    case Undefined => NaN
    case Null => Zero
    case Bool(b) => if b then One else Zero
    case Num(n) => n
    case Str(s) => StringToNumber(s)
    case Object(text) => StringToNumber(text)
  }

  /** `a ?? b`: `b` only when `a` is `undefined` or `null`. */
  function Coalesce(a: JsValue, b: JsValue): (r: JsValue)
    ensures a.IsNullish() ==> r == b
    ensures !a.IsNullish() ==> r == a
  {
    if a.IsNullish() then b else a
  }

  /** A number is never nullish, so `+x ?? y` is always `+x`. */
  lemma NumberNeverFallsBack(n: Number, fallback: JsValue)
    ensures Coalesce(Num(n), fallback) == Num(n)
  {
  }

  /**
   * The object each script builds per product. `apiUrl` is present only in
   * the records of the API script.
   */
  datatype ProductRecord = ProductRecord(
    url: string,
    apiUrl: Option<string>,
    fullPrice: JsValue,
    discountedPrice: JsValue,
    currency: JsValue,
    title: JsValue)
}
