/** Small result types shared by the user-admin and booking models. */
module Wrappers {

  /** A value that may be absent: JavaScript's `null`/`undefined`, or NaN
      where a numeric parse fails. */
  datatype Option<+T> = None | Some(value: T)

  /** The result of a check that either passes or fails with a message. */
  datatype Outcome<+E> = Pass | Fail(error: E)
}
