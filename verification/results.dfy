/**
 Small value types shared by the whole model: optional values (a nullable
 column, an absent request field), the failures a request can end in, and the
 non-finite results of JavaScript's floating-point division that reach a
 response.
 */
module Results {

  datatype Option<+T> = None | Some(value: T) {
    function GetOr(default: T): T {
      match this
      case Some(v) => v
      case None => default
    }
  }

  /** The failures the core can surface to its caller. */
  datatype Failure =
    | NotFound           // the entry does not exist or belongs to another user
    | ValidationFailure  // a model validation rejected a field
    | StoreFailure       // a query or insert failed

  datatype Result<+T> = Ok(value: T) | Err(failure: Failure)

  /** A JavaScript number as it can come out of `Math.ceil(count / limit)`. */
  datatype JsNumber = Finite(n: int) | PosInfinity | NaN

  function Min(a: int, b: int): int {
    if a <= b then a else b
  }

  function Max(a: int, b: int): int {
    if a >= b then a else b
  }
}
