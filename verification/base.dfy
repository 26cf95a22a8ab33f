/**
 Small shared vocabulary: optional values, results with a typed error, and bytes.
 Swift's `Optional` becomes `Option`, a throwing call becomes a `Result`.
 */
module Base {

  /** Swift's `T?`. */
  datatype Option<+T> = None | Some(value: T) {

    /** `x ?? default` */
    function GetOr(default: T): T {
      match this
      case Some(v) => v
      case None => default
    }

    /** `a ?? b` where `b` is itself optional. */
    function OrElse(other: Option<T>): Option<T> {
      if Some? then this else other
    }
  }

  /** The outcome of a call that can throw. */
  datatype Result<+R, +E> = Ok(value: R) | Err(error: E) {

    /** Lets `var x :- r;` stop at the first error, as `try` does. */
    predicate IsFailure() {
      Err?
    }

    function PropagateFailure<U>(): Result<U, E>
      requires Err?
    {
      Err(error)
    }

    function Extract(): R
      requires Ok?
    {
      value
    }
  }

  /** One byte of a `Data` value. */
  newtype Byte = b: int | 0 <= b < 256

  /** Foundation's `Data`: the bytes of a body. */
  type Bytes = seq<Byte>
}
