/** Values the script receives from `json_decode` and the PHP rules it
    applies to them. */
module Values {

  datatype Option<T> = None | Some(value: T) {
    /** PHP's `??`: the value if present (and not null), else `default`. */
    function Or(default: T): T {
      match this
      case Some(v) => v
      case None => default
    }
  }

  /** A decoded JSON scalar, as PHP holds it. Floats, arrays and objects in
      these positions are not modelled. */
  datatype Scalar = Null | Str(s: string) | Int(n: int) | Bool(b: bool)

  /** PHP truthiness of a scalar, as `if ($x)` tests it. */
  predicate Truthy(v: Scalar)
    ensures Truthy(v) <==> v !in {Null, Str(""), Str("0"), Int(0), Bool(false)}
  {
    match v
    case Null => false
    case Str(s) => s != "" && s != "0"
    case Int(n) => n != 0
    case Bool(b) => b
  }
}
