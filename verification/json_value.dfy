/** Parsed JSON documents as Python's json module returns them. */
module JsonValue {
  import opened Wrappers

  /** A JSON value. Objects keep their keys in document order, as a Python
      dict produced by json.load does. Integers and floats share one
      numeric constructor; their text form is left to an abstract renderer. */
  datatype Json =
    | Null
    | Bool(b: bool)
    | Num(n: real)
    | Str(s: string)
    | Arr(items: seq<Json>)
    | Obj(fields: seq<(string, Json)>)

  /** A value whose Python type is dict or list. */
  predicate IsContainer(j: Json) {
    j.Arr? || j.Obj?
  }

  /** A value on which Python's len() is defined: str, list or dict. */
  predicate HasLen(j: Json) {
    j.Str? || j.Arr? || j.Obj?
  }

  /** Python's len(); None where len() raises TypeError (None, bool, number). */
  function Len(j: Json): (r: Option<nat>)
    ensures r.Some? <==> HasLen(j)
    ensures r == Some(0) <==> j in {Str(""), Arr([]), Obj([])}
  {
    match j
    case Str(s) => Some(|s|)
    case Arr(items) => Some(|items|)
    case Obj(fields) => Some(|fields|)
    case _ => None
  }
}
