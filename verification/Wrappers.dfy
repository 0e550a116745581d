/** Failure-compatible result types. */
module Wrappers {
  datatype Option<+T> = None | Some(value: T)
  {
    predicate IsFailure() { None? }
    function PropagateFailure<U>(): Option<U>
      requires None?
    { None }
    function Extract(): T
      requires Some?
    { value }
  }

  datatype Result<+T, +E> = Ok(value: T) | Err(error: E)
  {
    predicate IsFailure() { Err? }
    function PropagateFailure<U>(): Result<U, E>
      requires Err?
    { Err(error) }
    function Extract(): T
      requires Ok?
    { value }
  }
}
