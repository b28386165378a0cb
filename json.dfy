/// The values `json.loads` builds, as the validator inspects them.
module Json {

  /** A parsed JSON value. Object keys are strings; a float is kept only as
      its literal text, since the validator never looks at its magnitude. */
  datatype Json =
    | JNull
    | JBool(b: bool)
    | JInt(i: int)
    | JFloat(literal: string)
    | JStr(s: string)
    | JArr(items: seq<Json>)
    | JObj(fields: map<string, Json>)

  /** How `json.loads` fails, by the class of what it raises: the
      `JSONDecodeError` of malformed text, another `ValueError` (such as the
      limit on the digits of an integer), or an exception of another class
      (such as the `RecursionError` of a very deeply nested value). */
  datatype LoadError =
    | DecodeError(message: string)
    | LoadValueError(message: string)
    | LoadException(message: string)

  /** Python's `type(v).__name__` for the value `json.loads` builds. */
  function TypeName(v: Json): string {
    match v
    case JNull => "NoneType"
    case JBool(_) => "bool"
    case JInt(_) => "int"
    case JFloat(_) => "float"
    case JStr(_) => "str"
    case JArr(_) => "list"
    case JObj(_) => "dict"
  }

  /** `isinstance(v, (int, float))`: Python's `bool` is a subclass of `int`. */
  predicate IsNumber(v: Json) {
    v.JBool? || v.JInt? || v.JFloat?
  }

  /** Whether `v` can be looked up in a Python `set`: lists and dicts raise
      `TypeError: unhashable type`. */
  predicate IsHashable(v: Json) {
    !v.JArr? && !v.JObj?
  }
}
