/**
 The exceptions the buffer and its iterators can throw, and the datatypes that
 carry them back to the caller in place of Java's `throw`.
 */
module Failures {

  /** The Java exceptions raised by the buffer and by the iterators it hands out. */
  datatype Error =
    | IllegalArgument       // constructor called with a max size below one
    | NoSuchElement         // `next()` called on an exhausted iterator
    | UnsupportedOperation  // `remove()` on a bounded iterator
    | IllegalState          // `remove()` on the empty-list iterator

  /** A call that either returns a value or throws. */
  datatype Result<+T> = Ok(value: T) | Err(error: Error)

  /** A `void` call that either returns normally or throws. */
  datatype Outcome = Pass | Fail(error: Error)

  /** An optional value; the heap model's `iterator()` returns `None` for the empty-list iterator. */
  datatype Option<+T> = None | Some(value: T)
}
