/**
 * Values as the handlers see them: what `request.json()` yields, and what a
 * stored document holds. Only the parts of JavaScript's object semantics the
 * handlers exercise are modelled: truthiness, reading a data property,
 * `Object.keys(..).length`, the `in` operator and object spread.
 */
module Values {
  import opened Wrappers
  import opened Text

  /**
   * A JSON value, or a value in a stored document. `Time(t)` is a timestamp
   * the server writes at instant `t` (the ISO-8601 text of `new Date()`, or
   * the store's server timestamp); parsing a request body never yields one.
   */
  datatype Value =
    | Null
    | Bool(b: bool)
    | Num(n: real)
    | Str(s: string)
    | Arr(elems: seq<Value>)
    | Obj(fields: map<string, Value>)
    | Time(t: int)

  /** A stored document, or the fields of an object. */
  type Doc = map<string, Value>

  /** JavaScript truthiness: `null`, `false`, `0` and `""` are falsy. */
  predicate Truthy(v: Value) {
    match v
    case Null => false
    case Bool(b) => b
    case Num(n) => n != 0.0
    case Str(s) => s != ""
    case _ => true
  }

  /**
   * `v[key]` for a key that names a data field: an object's own entry, and
   * `undefined` (None) for anything that is not an object holding the key.
   */
  function Get(v: Value, key: string): Option<Value> {
    if v.Obj? && key in v.fields then Some(v.fields[key]) else None
  }

  /** `Object.keys(v).length` for a truthy value. */
  function KeyCount(v: Value): nat {
    match v
    case Obj(m) => |m|
    case Arr(a) => |a|
    case Str(s) => |s|
    case _ => 0
  }

  /**
   * `key in v` for a key that names a data field: `None` when the operator
   * throws a TypeError, which it does on every value that is not an object.
   */
  function In(key: string, v: Value): Option<bool> {
    match v
    case Obj(m) => Some(key in m)
    case Arr(_) => Some(false)
    case _ => None
  }

  /** The entries `"0" -> elems[0]`, `"1" -> elems[1]`, ... that spreading an array gives. */
  function IndexEntries(elems: seq<Value>): Doc {
    if elems == [] then map[]
    else IndexEntries(elems[..|elems| - 1])[DecimalString(|elems| - 1) := elems[|elems| - 1]]
  }

  /** `{...v}`: the own enumerable entries of `v`. */
  function Spread(v: Value): Doc {
    match v
    case Obj(m) => m
    case Arr(a) => IndexEntries(a)
    case Str(s) => IndexEntries(seq(|s|, i requires 0 <= i < |s| => Str([s[i]])))
    case _ => map[]
  }
}
