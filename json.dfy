/** The slice of org.json the core uses. A `JSONObject` is a map from keys to
    values; text parsing and printing are left to the caller as functions, since
    the library's text format and key order are not part of this model. */
module Json {
  import opened Wrappers
  import opened Common
  import JavaText

  datatype JsonValue =
    | JString(s: string)
    | JInt(i: int)
      /** A number with a fraction or an exponent: what its `intValue()`
          gives, and its printed text. */
    | JDecimal(intValue: int, text: string)
    | JBool(b: bool)
    | JNull
      /** A nested object or array, kept as its text. */
    | JComposite(text: string)

  type JsonObject = map<string, JsonValue>

  /** `new JSONObject(text)`: the object, or the `JSONException` message. */
  type JsonParser = string -> Result<JsonObject, string>

  /** `JSONObject.toString()` */
  type JsonPrinter = JsonObject -> string

  /** `value.toString()` as `optString` uses it. */
  function ValueText(v: JsonValue): string
  {
    match v
    case JString(s) => s
    case JInt(i) => JavaText.IntToString(i)
    case JDecimal(_, t) => t
    case JBool(b) => JavaText.BoolToString(b)
    case JNull => "null"
    case JComposite(t) => t
  }

  function NotFound(key: string): Failure
  {
    RuntimeError("JSONObject[\"" + key + "\"] not found.")
  }

  function WrongType(key: string, kind: string): Failure
  {
    RuntimeError("JSONObject[\"" + key + "\"] is not a " + kind + ".")
  }

  /** `obj.has(key)` */
  predicate Has(obj: JsonObject, key: string)
  {
    key in obj
  }

  /** `obj.getString(key)`: only a string value is returned; anything else,
      or a missing key, raises a `JSONException`. */
  function GetString(obj: JsonObject, key: string): (r: Result<string, Failure>)
    ensures r.Ok? <==> key in obj && obj[key].JString?
    ensures r.Ok? ==> r.value == obj[key].s
    ensures r.Err? ==> r.error.RuntimeError?
  {
    if key !in obj then Err(NotFound(key))
    else match obj[key]
      case JString(s) => Ok(s)
      case _ => Err(WrongType(key, "string"))
  }

  /** `obj.getInt(key)`: a whole number gives its low 32 bits, a decimal one
      its `intValue()` (the fraction dropped), a string is read with
      `Integer.parseInt`, anything else raises a `JSONException`. */
  function GetInt(obj: JsonObject, key: string): (r: Result<int, Failure>)
    ensures r.Ok? ==> JavaText.IntMin <= r.value <= JavaText.IntMax
    ensures r.Ok? <==> key in obj && (obj[key].JInt? || obj[key].JDecimal?
                                      || (obj[key].JString? && JavaText.ParseInt(obj[key].s).Some?))
    ensures r.Ok? && obj[key].JInt? ==> r.value == JavaText.Wrap32(obj[key].i)
    ensures r.Ok? && obj[key].JDecimal? ==> r.value == JavaText.Wrap32(obj[key].intValue)
    ensures r.Err? ==> r.error.RuntimeError?
  {
    if key !in obj then Err(NotFound(key))
    else match obj[key]
      case JInt(i) => Ok(JavaText.Wrap32(i))
      case JDecimal(v, _) => Ok(JavaText.Wrap32(v))
      case JString(s) =>
        (match JavaText.ParseInt(s)
         case Some(v) => Ok(v)
         case None => Err(WrongType(key, "int")))
      case _ => Err(WrongType(key, "int"))
  }

  /** `obj.optString(key, fallback)`: the fallback for a missing key or JSON null,
      otherwise the value's text. */
  function OptString(obj: JsonObject, key: string, fallback: string): (r: string)
    ensures key !in obj || obj[key] == JNull ==> r == fallback
    ensures key in obj && obj[key].JString? ==> r == obj[key].s
  {
    if key !in obj || obj[key] == JNull then fallback else ValueText(obj[key])
  }

  /** A decimal is read two ways: `getInt` drops its fraction, `optString`
      keeps its text. */
  lemma DecimalReadings(obj: JsonObject, key: string, v: int, text: string, fallback: string)
    requires key in obj && obj[key] == JDecimal(v, text) && JavaText.IntMin <= v <= JavaText.IntMax
    ensures GetInt(obj, key) == Ok(v)
    ensures OptString(obj, key, fallback) == text
  {
  }
}
