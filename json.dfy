/** Values produced by `JSON.parse`, and the two Ruby questions the application asks of them:
    `blank?` and `class.name`. Numbers are kept as integers. */
module Json {
  import opened RubyStrings

  datatype Json =
    | JNull
    | JBool(b: bool)
    | JNum(n: int)
    | JStr(s: string)
    | JArr(items: seq<Json>)
    | JObj(fields: map<string, Json>)

  /** `Object#blank?`: `nil`, `false`, a blank string, an empty array or an empty hash. */
  predicate IsBlank(j: Json) {
    match j
    case JNull => true
    case JBool(b) => !b
    case JNum(_) => false
    case JStr(s) => Blank(s)
    case JArr(items) => |items| == 0
    case JObj(fields) => |fields| == 0
  }

  /** `value.class.name`. */
  function ClassName(j: Json): string {
    match j
    case JNull => "NilClass"
    case JBool(b) => if b then "TrueClass" else "FalseClass"
    case JNum(_) => "Integer"
    case JStr(_) => "String"
    case JArr(_) => "Array"
    case JObj(_) => "Hash"
  }
}
