/** Option and Result, the two failure-carrying types the branch model returns. */
module Wrappers {

  datatype Option<+T> = None | Some(value: T)

  datatype Result<+T, +E> = Ok(value: T) | Err(error: E) {
    predicate IsFailure() { Err? }

    function PropagateFailure<U>(): Result<U, E>
      requires Err?
    {
      Err(error)
    }

    function Extract(): T
      requires Ok?
    {
      value
    }
  }

  /** A Rust panic (`unwrap` on None, `panic!`, `unreachable!`): the process stops with a message. */
  datatype Panic = Panic(message: string)
}
