/**
 * The PHP values that `json_decode($text, true)` produces, and the one rule
 * the SDK applies to them: only an array (a decoded JSON object or list) is
 * accepted as a payload.
 */
module JsonValues {
  import opened Wrappers
  import opened Php

  /** A PHP array key: an integer (list positions) or a string (object members). */
  datatype Key = IntKey(i: int) | StrKey(s: string)

  /**
   * A decoded value. `Arr` is a PHP array and stands for both a JSON object
   * and a JSON list; the empty array `[]` is `Arr([])`.
   */
  datatype Value =
    | Null
    | Bool(b: bool)
    | Int(i: int)
    | Float(f: real)
    | Str(s: string)
    | Arr(entries: seq<(Key, Value)>)

  /** `is_array`. */
  predicate IsArray(v: Value) {
    v.Arr?
  }

  /**
   * `json_decode($text, true)`, an opaque library function supplied by the
   * caller: None when the text is not JSON at all.
   */
  type Decoder = string -> Option<Value>

  /**
   * The "try to decode as an array" step shared by `HttpResponse::json` and
   * `HttpException::getDecodedResponse`: nothing for an empty body, nothing
   * when the decoded value is not an array, the decoded array otherwise.
   */
  function DecodeArray(decode: Decoder, text: string): (r: Option<Value>)
    ensures EmptyString(text) ==> r == None
    ensures r.Some? ==> IsArray(r.value) && decode(text) == r
    ensures !EmptyString(text) && decode(text).Some? && IsArray(decode(text).value) ==> r == decode(text)
  {
    if EmptyString(text) then None
    else match decode(text)
      case Some(v) => if IsArray(v) then Some(v) else None
      case None => None
  }
}
