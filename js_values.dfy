/**
 * The JSON values a request body can carry once Express has parsed it, with the
 * three JavaScript operations the handlers apply to them: truthiness,
 * property access and conversion to text inside a template literal.
 */
module JsValues {
  import opened Text

  /** A parsed JSON value, or `undefined` for a missing property. Numbers are integers here. */
  datatype JsValue =
    | JsUndefined
    | JsNull
    | JsBool(b: bool)
    | JsNumber(n: int)
    | JsString(s: string)
    | JsArray(items: seq<JsValue>)
    | JsObject(props: map<string, JsValue>)

  /** `!v` holds: undefined, null, false, 0 and the empty string. Arrays and objects, even empty ones, are truthy. */
  predicate Falsy(v: JsValue): (falsy: bool)
    ensures falsy ==> !v.JsArray? && !v.JsObject?
    ensures Nullish(v) ==> falsy
    ensures v.JsString? ==> (falsy <==> |v.s| == 0)
    ensures v.JsBool? ==> (falsy <==> !v.b)
    ensures v.JsNumber? ==> (falsy <==> v.n == 0)
  {
    v == JsUndefined || v == JsNull || v == JsBool(false) || v == JsNumber(0) || v == JsString("")
  }

  /** `v` is null or undefined: reading a property of it throws a TypeError. */
  predicate Nullish(v: JsValue)
  {
    v.JsUndefined? || v.JsNull?
  }

  /**
   * The message of the TypeError V8 throws for `const { key, ... } = expr` when
   * the value of `expr` is null or undefined.
   */
  function DestructureErrorMessage(key: string, expr: string, v: JsValue): string
    requires Nullish(v)
  {
    "Cannot destructure property '" + key + "' of '" + expr + "' as it is "
      + (if v.JsNull? then "null" else "undefined") + "."
  }

  /**
   * `v.key` for a key that no built-in prototype defines, on a value that is not
   * null or undefined (on those, property access throws; the handlers model that
   * before reading). Only an object's own property has a value; on anything
   * else the key reads as undefined.
   */
  function Prop(v: JsValue, key: string): (r: JsValue)
    ensures r != JsUndefined ==> v.JsObject? && key in v.props && v.props[key] == r
    ensures v.JsObject? && key in v.props ==> r == v.props[key]
  {
    if v.JsObject? && key in v.props then v.props[key] else JsUndefined
  }

  /** `${v}`: the text a template literal substitutes for `v`. */
  function TemplateText(v: JsValue): (r: string)
    ensures v.JsString? ==> r == v.s
    ensures v.JsNumber? && v.n >= 0 ==> |r| > 0 && AllDigits(r) && DigitsValue(r) == v.n
    ensures v.JsNumber? && v.n < 0 ==> |r| > 1 && r[0] == '-' && AllDigits(r[1..]) && DigitsValue(r[1..]) == -v.n
    decreases v
  {
    match v
    case JsUndefined => "undefined"
    case JsNull => "null"
    case JsBool(b) => if b then "true" else "false"
    case JsNumber(n) =>
      DecimalRoundTrip(if n < 0 then -n else n);
      if n < 0 then "-" + Decimal(-n) else Decimal(n)
    case JsString(s) => s
    case JsArray(items) =>
      // Array.prototype.toString joins the elements with "," and prints null and undefined as ""
      Join(seq(|items|, i requires 0 <= i < |items| =>
             if items[i].JsUndefined? || items[i].JsNull? then "" else TemplateText(items[i])), ",")
    case JsObject(_) => "[object Object]"
  }
}
