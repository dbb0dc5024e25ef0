/** Optional values and HTTP-style replies shared by every module. */
module Wrappers {

  /** A value that may be absent: a missing request field, a lookup that found nothing.
      It can be used with `:-` to stop at the first absent value. */
  datatype Option<+T> = None | Some(value: T) {
    predicate IsFailure() {
      None?
    }

    function PropagateFailure<U>(): Option<U>
      requires None?
    {
      None
    }

    function Extract(): T
      requires Some?
    {
      value
    }
  }

  /** What a route handler answers: a success payload, or an HTTP error status with the
      error message the handler puts in its JSON body. */
  datatype Reply<+T> = Ok(value: T) | Err(status: nat, message: string)
}
