/** Ruby values as the session handler sees them: the values stored in
    option hashes, session ids and session-table keys, Ruby truthiness,
    string interpolation, and the exceptions the modelled code can raise. */
module Values {

  datatype Option<+T> = None | Some(value: T)

  /** The exceptions the modelled code raises: a method called on `nil`, or a
      String method called on something that is not a String. */
  datatype RubyError =
    | NoMethodOnNil(selector: string)
    | NoMethodOnNonString(selector: string)

  /** A computation that either returns normally or raises. */
  datatype Result<+T> = Ok(value: T) | Raise(error: RubyError)

  /** A Ruby object as far as this model distinguishes objects: `nil`, `true`
      and `false`, a String, a Symbol (by its name), or any other object,
      represented by what its `to_s` returns. */
  datatype Value =
    | Nil
    | Bool(b: bool)
    | Str(s: string)
    | Sym(name: string)
    | Other(repr: string)

  /** Ruby truthiness: everything except `nil` and `false`. */
  predicate Truthy(v: Value) {
    !v.Nil? && v != Bool(false)
  }

  /** What `"#{v}"` inserts into a string. */
  function ToS(v: Value): string {
    match v
    case Nil => ""
    case Bool(b) => if b then "true" else "false"
    case Str(s) => s
    case Sym(name) => name
    case Other(repr) => repr
  }

  /** A Ruby hash with Symbol keys, keyed by the symbol's name. */
  type Hash = map<string, Value>

  /** `h[key]`: the stored value, or `nil` when the key is absent. */
  function Get(h: Hash, key: string): Value {
    if key in h then h[key] else Nil
  }
}
