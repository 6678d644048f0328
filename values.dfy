/** Scalar JSON/BSON values as the repository handles them, with Python's truthiness. */
module Values {

  /** A field value: `None`, a string or an integer. */
  datatype Value = Null | Str(s: string) | Int(i: int)

  /** Python's `bool(v)`: `None`, `""` and `0` are falsy, everything else is truthy. */
  predicate Truthy(v: Value)
  {
    match v
    case Null => false
    case Str(s) => s != ""
    case Int(i) => i != 0
  }
}
