/** JavaScript values as they reach the synchronisation engine, and the
    conversion a value undergoes when it is used as an object key. */
module JsValues {

  datatype Option<+T> = None | Some(value: T)

  /** A widget value as the engine sees it: `undefined`, `null` or a string. */
  datatype JsValue = Undefined | Null | Str(s: string)

  /** `v == null` in JavaScript's loose equality: true for both null and undefined. */
  predicate IsNullish(v: JsValue) {
    v.Undefined? || v.Null?
  }

  /** The property key a value turns into when it indexes a plain object
      (`obj[v]`): null and undefined become the strings "null" and "undefined",
      so they share a key with documents of those names. */
  function KeyString(v: JsValue): (r: string)
    ensures v.Null? ==> r == "null"
    ensures v.Undefined? ==> r == "undefined"
    ensures v.Str? ==> r == v.s
  {
    match v
    case Undefined => "undefined"
    case Null => "null"
    case Str(s) => s
  }

  /** Two values land on the same key exactly when they are equal, or when
      one is null or undefined and the other is the string it turns into. */
  lemma KeyStringCollisions(v: JsValue, w: JsValue)
    ensures KeyString(v) == KeyString(w) <==>
      v == w ||
      ({v, w} == {Null, Str("null")}) ||
      ({v, w} == {Undefined, Str("undefined")})
  {
  }
}
