/** The JavaScript values the timers manager inspects, and the failure-carrying
    wrappers used for its thrown errors and its "not found" answers. */
module Values {

  /** A value that may be present or absent. */
  datatype Option<+T> = None | Some(value: T)

  /** The outcome of an operation that may throw: a new value, or the error it throws. */
  datatype Result<+R, +E> = Success(value: R) | Failure(error: E)

  /** A JavaScript value as far as the manager looks at it: its `typeof`, and for
      numbers, strings and booleans its contents. Functions and other objects are
      opaque and carry only an identity. Numbers are integers (see README). */
  datatype Value =
    | Str(s: string)
    | Num(n: int)
    | Bool(b: bool)
    | Func(fn: nat)
    | Obj(obj: nat)
    | Null
    | Undefined

  /** JavaScript's ToBoolean: what `if (v)` and `!v` read from a value. */
  predicate Truthy(v: Value)
  {
    match v
    case Str(s) => s != ""
    case Num(n) => n != 0
    case Bool(b) => b
    case Func(_) => true
    case Obj(_) => true
    case Null => false
    case Undefined => false
  }
}
