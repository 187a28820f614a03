/** JSON values as the JavaScript code sees them after parsing, with the operators it
    applies to them: property access, truthiness, `??` and `||`. */
module Json {

  /** A parsed JSON value, or `undefined` for a missing property. Numbers are integers. */
  datatype JVal =
    | JAbsent
    | JNull
    | JBool(b: bool)
    | JNum(n: int)
    | JStr(s: string)
    | JArr(items: seq<JVal>)
    | JObj(fields: map<string, JVal>)

  /** `v[key]` on a value that is not `null` or `undefined`: only objects have named properties. */
  function Get(v: JVal, key: string): JVal {
    if v.JObj? && key in v.fields then v.fields[key] else JAbsent
  }

  predicate Nullish(v: JVal) { v.JAbsent? || v.JNull? }

  /** JavaScript truthiness: every array and object is truthy, even an empty one. */
  predicate Truthy(v: JVal) {
    match v
    case JAbsent => false
    case JNull => false
    case JBool(b) => b
    case JNum(n) => n != 0
    case JStr(s) => s != ""
    case JArr(_) => true
    case JObj(_) => true
  }

  /** `a ?? b`. */
  function Coalesce(a: JVal, b: JVal): JVal {
    if Nullish(a) then b else a
  }

  /** `a || b`. */
  function OrElse(a: JVal, b: JVal): JVal {
    if Truthy(a) then a else b
  }

  /** A string that is not empty: what `!x || typeof x !== 'string'` rejects the complement of. */
  predicate NonEmptyString(v: JVal) { v.JStr? && v.s != "" }
}
