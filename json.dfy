/** Decoded JSON values as the merge script receives them from the two web
    APIs, and the few Python dictionary and string operations it applies to
    them. */
module PyJson {
  import opened PyText

  datatype Option<+T> = None | Some(value: T)

  datatype Result<+T, +E> = Ok(value: T) | Err(error: E)

  /** A decoded JSON value. Numbers are integers here: a JSON number with a
      fraction or exponent is not part of this model. */
  datatype Json =
    | JNull
    | JBool(b: bool)
    | JInt(i: int)
    | JStr(s: string)
    | JArr(items: seq<Json>)
    | JObj(fields: map<string, Json>)

  /** Python's `d.get(key, default)` on a decoded JSON object: the stored
      value when the key is present (even when that value is null),
      otherwise the default. */
  function Get(d: map<string, Json>, key: string, default: Json): Json {
    if key in d then d[key] else default
  }

  /** Lists and dicts cannot be dictionary keys in Python: `d.get(v)` with
      such a `v` raises `TypeError`. Every other JSON value can be looked up. */
  predicate IsHashable(v: Json) {
    !v.JArr? && !v.JObj?
  }

  /** A string key of a Python dict is found by `d.get(v)` only when `v` is
      the very same string: null, booleans and numbers never equal a string. */
  function KeyOf(v: Json): Option<string> {
    if v.JStr? then Some(v.s) else None
  }

  /** `str(v)` inside an f-string, for the scalar values: `None`, `True`,
      `False`, the decimal digits of an integer, a string itself. For a list
      or an object Python prints its `repr`, which this model does not
      reproduce: it renders those as the empty text. */
  function Str(v: Json): string {
    match v
    case JNull => "None"
    case JBool(b) => if b then "True" else "False"
    case JInt(i) => IntText(i)
    case JStr(s) => s
    case JArr(_) => ""
    case JObj(_) => ""
  }
}
