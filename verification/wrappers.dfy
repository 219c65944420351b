/** Failure-carrying result types shared by the editor, search and syntax models. */
module Wrappers {

  /** The conventional Some/None datatype. */
  datatype Option<+T> = None | Some(value: T)

  /** The result of an operation that may raise std::out_of_range.  The editor
      never catches that exception: it unwinds to the process entry point, which
      reports it and exits, so `OutOfRange` ends the editing session. */
  datatype Outcome<+T> = Done(value: T) | OutOfRange
}
