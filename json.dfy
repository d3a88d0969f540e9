/** JavaScript values as the collector sees them in a parsed extension
    manifest, and the two JavaScript operations it applies to them:
    truthiness tests and property reads. */
module Json {

  /** A value reachable from an extension's `packageJSON`. `Undefined` is
      what reading an absent property gives. Numbers are kept as integers:
      the collector only ever asks whether one is truthy. */
  datatype Json =
    | Undefined
    | Null
    | Bool(b: bool)
    | Num(n: int)
    | Str(s: string)
    | Arr(elems: seq<Json>)
    | Obj(fields: map<string, Json>)

  /** JavaScript truthiness: `undefined`, `null`, `false`, `0` and `""` are
      falsy; every other string and number, and every array and object, is
      truthy. */
  predicate Truthy(v: Json) {
    match v
    case Undefined => false
    case Null => false
    case Bool(b) => b
    case Num(n) => n != 0
    case Str(s) => s != ""
    case Arr(_) => true
    case Obj(_) => true
  }

  /** A value whose properties can be read: reading a property of `null` or
      `undefined`, or destructuring either, throws. */
  predicate HasProperties(v: Json) {
    !v.Undefined? && !v.Null?
  }

  /** The property read `v.key`, for the keys the collector reads
      (`contributes`, `yamlValidation`, `fileMatch`, `url`), which no string,
      number, boolean, array or plain object inherits: an object gives its own
      field, everything else gives `undefined`. */
  function Get(v: Json, key: string): Json
    requires HasProperties(v)
  {
    match v
    case Obj(fields) => if key in fields then fields[key] else Undefined
    case _ => Undefined
  }
}
