/** JSON values as Python's `json` module produces them, and the few Python operations the core
    applies to them: truthiness, `d.get(k, default)`, `x[k]` and `k in x`. */
module JsonValue {
  import opened Outcomes

  datatype Json =
    | JNull
    | JBool(b: bool)
    | JNum(n: real)
    | JStr(s: string)
    | JArr(items: seq<Json>)
    | JObj(fields: map<string, Json>)

  /** `json.loads` and `json.dumps`: external, so they are parameters of the model.
      `parse` answers `None` where `json.loads` raises. */
  datatype JsonCodec = JsonCodec(parse: string -> Option<Json>, dump: Json -> string)

  /** Python's truth value of a decoded JSON value. */
  predicate Truthy(j: Json)
  {
    match j
    case JNull => false
    case JBool(b) => b
    case JNum(n) => n != 0.0
    case JStr(s) => s != ""
    case JArr(items) => items != []
    case JObj(fields) => fields != map[]
  }

  /** Python's `d.get(key, default)` on a dict. */
  function Get(fields: map<string, Json>, key: string, default: Json): (r: Json)
    ensures key in fields ==> r == fields[key]
    ensures key !in fields ==> r == default
  {
    if key in fields then fields[key] else default
  }

  /** Python's `x[key]` with a string key: a dict looks the key up, every other value raises. */
  function Subscript(x: Json, key: string): (r: Result<Json>)
    ensures r.Success? <==> x.JObj? && key in x.fields
    ensures r.Success? ==> r.value == x.fields[key]
    ensures x.JObj? && key !in x.fields ==> r == Failure(KeyError(key))
    ensures !x.JObj? ==> r == Failure(TypeError)
  {
    match x
    case JObj(fields) => if key in fields then Success(fields[key]) else Failure(KeyError(key))
    case _ => Failure(TypeError)
  }

  /** `t` occurs in `s` as a contiguous run of characters. */
  predicate IsSubstring(t: string, s: string)
    decreases |s|
  {
    |t| <= |s| && (s[..|t|] == t || (s != [] && IsSubstring(t, s[1..])))
  }

  /** Python's `key in x`: key membership for a dict, element membership for a list, substring
      for a string; any other value raises. */
  function Contains(x: Json, key: string): (r: Result<bool>)
    ensures r.Success? <==> x.JObj? || x.JArr? || x.JStr?
    ensures x.JObj? ==> r == Success(key in x.fields)
    ensures x.JArr? ==> r == Success(JStr(key) in x.items)
    ensures x.JStr? ==> r == Success(IsSubstring(key, x.s))
    ensures r.Failure? ==> r.error == TypeError
  {
    match x
    case JObj(fields) => Success(key in fields)
    case JArr(items) => Success(JStr(key) in items)
    case JStr(s) => Success(IsSubstring(key, s))
    case _ => Failure(TypeError)
  }
}
