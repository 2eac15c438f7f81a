/**
 * The slice of `serde_json::Value` that `control_extras` uses (src/main.rs:4,
 * 127-128): values, a parse outcome, indexing by a key and `as_str`.
 * The parser itself is not modelled; callers pass it in as a function.
 */
module Json {
  import opened Wrappers

  /** `serde_json::Value`. Numbers are kept as their source text; the core never reads them. */
  datatype Value =
    | Null
    | Bool(b: bool)
    | Number(text: string)
    | String(s: string)
    | Array(items: seq<Value>)
    | Object(fields: map<string, Value>)

  /** What `serde_json::from_str` returns: a value, or an error. */
  datatype ParseResult = Malformed | Parsed(value: Value)

  /**
   * `v[key]` with a string key: the field's value when `v` is an object that
   * has it, and `Null` in every other case (serde_json never panics here).
   */
  function Index(v: Value, key: string): (r: Value)
    ensures r != Null ==> v.Object? && key in v.fields && r == v.fields[key]
    ensures v.Object? && key in v.fields ==> r == v.fields[key]
  {
    match v
    case Object(fields) => if key in fields then fields[key] else Null
    case _ => Null
  }

  /** `Value::as_str`: the text of a string value, nothing for any other kind. */
  function AsStr(v: Value): (r: Option<string>)
    ensures r.Some? <==> v.String?
    ensures v.String? ==> r == Some(v.s)
  {
    match v
    case String(s) => Some(s)
    case _ => None
  }
}
