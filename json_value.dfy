/** Decoded JSON values, reduced to what the transcript tools look at: the
    text of a string, `null`, the length of a list, and for every other value
    what Python's `len()` and `str()` give on it. */
module JsonValue {
  import opened PyText

  datatype Json =
    | JNull
    | JString(s: string)
    /** A list: its number of elements and its `str()`. */
    | JList(length: nat, shown: string)
    /** A number, a boolean or an object: `len()` (absent where `len()`
        raises, present for objects) and `str()`. */
    | JOther(size: Option<nat>, shown: string)

  /** A decoded JSON object (a Python `dict` with string keys). */
  type JsonObject = map<string, Json>

  /** `json.loads` as the processor uses it: a decoded object, or `None`
      where the text does not decode. */
  type Decoder = string -> Option<JsonObject>

  /** `json.loads("")` raises: an empty document never decodes. */
  predicate RejectsEmpty(decode: Decoder)
  {
    decode("").None?
  }

  /** `len(v)`: `None` where Python raises `TypeError`. */
  function PyLen(v: Json): (n: Option<nat>)
    ensures v.JString? ==> n == Some(|v.s|)
    ensures v.JNull? ==> n.None?
  {
    match v
    case JNull => None
    case JString(s) => Some(|s|)
    case JList(length, _) => Some(length)
    case JOther(size, _) => size
  }

  /** `str(v)` for a value that is not a string. */
  function Shown(v: Json): string
    requires !v.JString?
  {
    match v
    case JNull => "None"
    case JList(_, shown) => shown
    case JOther(_, shown) => shown
  }

  /** `v in [None, "", []]`. */
  predicate IsBlank(v: Json)
  {
    v == JNull || v == JString("") || (v.JList? && v.length == 0)
  }
}
