/**
 JSON documents as the Python code sees them after `json.loads`, and the few Python
 conventions about them that the gateway and the conformance scripts rely on:
 `dict.get`, truthiness, hashability and `==`.

 Objects are maps, so two objects that differ only in key order are equal, as they are
 for Python's `dict.__eq__`. The key type is a parameter: each component names the keys it
 looks at by constructors and keeps every other key as its text.
 */
module JsonValue {

  datatype Option<+T> = None | Some(value: T)

  /** The result of Python code that may raise. */
  datatype Outcome<+T> = Ok(value: T) | Raise

  datatype Json<K> =
    | Null
    | Bool(b: bool)
    | Int(n: int)
    | Float(r: real)
    | Str(s: string)
    | Arr(items: seq<Json<K>>)
    | Obj(fields: map<K, Json<K>>)

  /** `d.get(key)`: an absent key and an explicit null read the same. */
  function Get<K(==)>(fields: map<K, Json<K>>, key: K): Json<K> {
    if key in fields then fields[key] else Null
  }

  /** Lists and dictionaries cannot be looked up in a set or used as a dictionary key. */
  predicate Hashable<K>(v: Json<K>) {
    !v.Arr? && !v.Obj?
  }

  /** Python truthiness, as used by `x or default`. */
  predicate Truthy<K>(v: Json<K>) {
    match v
    case Null => false
    case Bool(b) => b
    case Int(n) => n != 0
    case Float(r) => r != 0.0
    case Str(s) => s != ""
    case Arr(items) => items != []
    case Obj(fields) => fields != map[]
  }

  /** `v == n` for a number, where Python's booleans and floats are numbers too. */
  predicate EqualsInt<K>(v: Json<K>, n: int) {
    match v
    case Int(m) => m == n
    case Float(r) => r == n as real
    case Bool(b) => (if b then 1 else 0) == n
    case _ => false
  }

  /** A list of texts. */
  function Texts<K>(items: seq<string>): Json<K> {
    Arr(seq(|items|, i requires 0 <= i < |items| => Str(items[i])))
  }
}
