/** The JavaScript values a decoded JSON command can hold, as far as the
    model needs to tell them apart. */
module Json {

  datatype JsValue =
    | Undefined
    | Null
    | Bool(b: bool)
    | Num(n: real)
    | Str(s: string)
    | Composite   // an array or a nested object; its contents do not matter here

  /** A plain JavaScript object: its own enumerable properties. */
  type JsObject = map<string, JsValue>

  /** Property access `o[key]`: a property the object lacks reads as `undefined`. */
  function Get(o: JsObject, key: string): JsValue
  {
    if key in o then o[key] else Undefined
  }
}
