/**
 The JavaScript values that the plot's settings are made of: persisted
 settings are JSON objects, read back with `undefined` for every absent key.
 Arrays are objects keyed by their indices, so they are `Obj` values here;
 nothing distinguishes an array from the plain object with the same keys.
 */
module JsonValue {

  /**
   A settings value. An `Obj` may map a key to `Undefined`, as JavaScript
   allows (`{ family: undefined }` is what `coalesceFontSettings` builds
   when neither input has a family); JSON text cannot hold such a key
   (see `IsJson`). Numbers are integers: the settings algebra only compares
   them, and NaN cannot be written in JSON.
   */
  datatype Value =
    | Undefined
    | Null
    | Bool(b: bool)
    | Num(n: int)
    | Str(s: string)
    | Obj(fields: map<string, Value>)

  /** The answers of JavaScript's `typeof`; `typeof null` is "object". */
  datatype JsType = TUndefined | TObject | TBoolean | TNumber | TString

  function TypeOf(v: Value): JsType {
    match v
    case Undefined => TUndefined
    case Null => TObject
    case Bool(_) => TBoolean
    case Num(_) => TNumber
    case Str(_) => TString
    case Obj(_) => TObject
  }

  /**
   The keys a `for (key in v)` loop visits. Primitives are treated as having
   no enumerable keys (a primitive string's character indices are not modelled).
   */
  function Keys(v: Value): set<string> {
    if v.Obj? then v.fields.Keys else {}
  }

  /** The property read `v[k]` on a value that is not null or undefined. */
  function Get(v: Value, k: string): Value {
    if v.Obj? && k in v.fields then v.fields[k] else Undefined
  }

  /** JavaScript truthiness (no NaN among the numbers here). */
  predicate Truthy(v: Value) {
    match v
    case Undefined => false
    case Null => false
    case Bool(b) => b
    case Num(n) => n != 0
    case Str(s) => |s| > 0
    case Obj(_) => true
  }

  /** `a || b`: the first operand when it is truthy, else the second. */
  function Or(a: Value, b: Value): Value {
    if Truthy(a) then a else b
  }

  /** `a !== undefined ? a : b`. */
  function IfDefined(a: Value, b: Value): Value {
    if a != Undefined then a else b
  }

  /** A primitive other than `undefined` and `null`. */
  predicate IsScalar(v: Value) {
    v.Bool? || v.Num? || v.Str?
  }

  /** A value that JSON text can express: no object holds an `undefined`. */
  ghost predicate IsJson(v: Value) {
    v.Obj? ==> forall k | k in v.fields :: v.fields[k] != Undefined && IsJson(v.fields[k])
  }
}
