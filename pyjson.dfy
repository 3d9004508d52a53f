/** Values produced by `json.loads`, with the Python operations that the chat front end
    applies to them: truth value, `in`, `[]` and `.get`. */
module PyJson {
  import opened Common
  import Text

  datatype Json =
    | JNull
    | JBool(b: bool)
    | JNum(n: int)
    | JStr(s: string)
    | JArr(items: seq<Json>)
    | JObj(fields: map<string, Json>)

  /** `bool(j)` */
  predicate Truthy(j: Json) {
    match j
    case JNull => false
    case JBool(b) => b
    case JNum(n) => n != 0
    case JStr(s) => |s| > 0
    case JArr(items) => |items| > 0
    case JObj(fields) => |fields| > 0
  }

  /** `key in j`: a substring test on strings, an element test on lists and a key test
      on dicts; on null, booleans and numbers it raises TypeError. */
  function In(key: string, j: Json): (r: Result<bool, string>)
    ensures j.JObj? ==> r == Success(key in j.fields)
    ensures r.Failure? <==> j.JNull? || j.JBool? || j.JNum?
  {
    match j
    case JStr(s) => Success(Text.Contains(s, key))
    case JArr(items) => Success(JStr(key) in items)
    case JObj(fields) => Success(key in fields)
    case _ => Failure("TypeError: argument of type is not iterable")
  }

  /** `j[key]` for a string key: defined on dicts holding the key, otherwise it raises. */
  function Index(j: Json, key: string): (r: Result<Json, string>)
    ensures r.Success? <==> j.JObj? && key in j.fields
  {
    if j.JObj? && key in j.fields then Success(j.fields[key])
    else if j.JObj? then Failure("KeyError: " + key)
    else Failure("TypeError: indices must be integers")
  }

  /** `j.get(key, default)`: only dicts have the method; on anything else it raises
      AttributeError. */
  function Get(j: Json, key: string, default: Json): (r: Result<Json, string>)
    ensures r.Success? <==> j.JObj?
    ensures j.JObj? && key in j.fields ==> r == Success(j.fields[key])
    ensures j.JObj? && key !in j.fields ==> r == Success(default)
  {
    if !j.JObj? then Failure("AttributeError: object has no attribute 'get'")
    else if key in j.fields then Success(j.fields[key])
    else Success(default)
  }
}
