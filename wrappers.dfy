/** Option and Result, used for nullable fields and for the error paths of
    validators and ORM lookups. */
module Wrappers {

  datatype Option<T> = None | Some(value: T)

  datatype Result<T, E> = Ok(value: T) | Err(error: E)

  /** A check or an action that either passes or fails with an error. */
  datatype Outcome<E> = Pass | Fail(error: E)
}
