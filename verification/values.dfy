/** The slice of JavaScript's value semantics that the transform relies on:
    truthiness, property reads on option records, and sloppy-mode property writes. */
module Values {
  import opened Wrappers

  /** A JavaScript value. Numbers are integers; `NaN`, `-0` and fractions are not modelled. */
  datatype Value =
    | Undefined
    | Null
    | Bool(b: bool)
    | Num(n: int)
    | Str(s: string)
    | Arr(items: seq<Value>)
    | Obj(fields: map<string, Value>)

  /** An options object: own enumerable properties only. */
  type Record = map<string, Value>

  /** The TypeErrors and error objects the transform can raise. */
  datatype Failure =
    | PropertyOfNullish(key: string)   // reading, writing or deleting `key` on `null`/`undefined`
    | NotAString                       // an extension entry that has no `charAt` method
    | UnreadableInlineMap              // the decoded inline map is not a readable source map
    | MinifierFailed(message: string)  // the minifier reported an error

  /** `!!v`: false, 0, "", null and undefined are falsy; every object is truthy. */
  predicate Truthy(v: Value) {
    match v
    case Undefined => false
    case Null => false
    case Bool(b) => b
    case Num(n) => n != 0
    case Str(s) => s != ""
    case Arr(_) => true
    case Obj(_) => true
  }

  /** `o[k]`: a missing property reads as `undefined`. */
  function Get(o: Record, k: string): Value {
    if k in o then o[k] else Undefined
  }

  /** `a` and `b` agree about `k`: both lack it, or both hold the same value. */
  predicate SameAt(a: Record, b: Record, k: string) {
    (k !in a && k !in b) || (k in a && k in b && a[k] == b[k])
  }

  /** Records that agree about every key are equal. */
  lemma SameEverywhere(a: Record, b: Record)
    requires forall k :: SameAt(a, b, k)
    ensures a == b
  {
    forall k | k in a ensures k in b && a[k] == b[k] { assert SameAt(a, b, k); }
    forall k | k in b ensures k in a { assert SameAt(a, b, k); }
  }

  /** `[].concat(v || [])`, and equally `Array.isArray(v) ? v : [v]` for a truthy `v`:
      an array contributes its elements, any other truthy value contributes itself. */
  function ListOf(v: Value): seq<Value> {
    if !Truthy(v) then [] else if v.Arr? then v.items else [v]
  }

  /** `v[k] = x` in sloppy mode: fails on `null`/`undefined`, updates an object,
      and is silently ignored on primitives. Properties set on arrays are not tracked. */
  function SetProp(v: Value, k: string, x: Value): (r: Result<Value, Failure>)
    ensures r.Failure? <==> v.Undefined? || v.Null?
    ensures r.Success? && v.Obj? ==> r.value.Obj? && r.value.fields.Keys == v.fields.Keys + {k}
    ensures r.Success? && v.Obj? ==> r.value.fields[k] == x
    ensures r.Success? && v.Obj? ==> forall j :: j in v.fields && j != k ==> r.value.fields[j] == v.fields[j]
    ensures r.Success? && !v.Obj? ==> r.value == v
  {
    match v
    case Undefined => Failure(PropertyOfNullish(k))
    case Null => Failure(PropertyOfNullish(k))
    case Obj(f) => Success(Obj(f[k := x]))
    case _ => Success(v)
  }
}
