/** Failure-compatible wrappers and the exceptions the journal code raises. */
module Wrappers {

  datatype Option<+T> = None | Some(value: T)

  /** The Python exceptions that reach the modelled code.  The five Entry*
      and JournalHead* kinds are the journal's own exception classes; all of
      them derive from EntryNotFoundException.  FileNotFoundError is what
      open() raises for a file in a directory that does not exist. */
  datatype PyError =
    | ValueError
    | OverflowError
    | EntryArgumentNotFound
    | EntryAncestorNotFound
    | EntryNeighbourNotFound
    | JournalHeadNotFound
    | FileNotFoundError

  /** True of the classes that derive from EntryNotFoundException. */
  predicate IsEntryNotFound(e: PyError) {
    !e.ValueError? && !e.OverflowError? && !e.FileNotFoundError?
  }

  /** A computation that either returns a value or raises a Python exception. */
  datatype Result<+T> = Ok(value: T) | Err(error: PyError) {
    predicate IsFailure() {
      Err?
    }

    function PropagateFailure<U>(): Result<U>
      requires Err?
    {
      Err(error)
    }

    function Extract(): T
      requires Ok?
    {
      value
    }
  }
}
