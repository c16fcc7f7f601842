/** The JavaScript values the two in-memory storage backends store, as far as they tell them apart. */
module JsValues {

  /** A stored value. `Number` covers the finite numbers (`-0` is `0.0`); objects, arrays and
      functions are all `Object`, identified by reference. */
  datatype JsValue =
    | Undefined
    | Null
    | Boolean(b: bool)
    | Number(x: real)
    | NaN
    | Str(s: string)
    | Object(ref: nat)

  /** JavaScript's ToBoolean: `undefined`, `null`, `false`, `0`, `NaN` and `""` are falsy. */
  predicate Truthy(v: JsValue): (r: bool)
    ensures v == Undefined || v == Null || v == NaN ==> !r
    ensures v.Object? ==> r
    ensures v.Str? ==> (r <==> v.s != "")
    ensures v.Number? ==> (r <==> v.x != 0.0)
  {
    match v
    case Undefined => false
    case Null => false
    case Boolean(b) => b
    case Number(x) => x != 0.0
    case NaN => false
    case Str(s) => s != ""
    case Object(_) => true
  }
}
