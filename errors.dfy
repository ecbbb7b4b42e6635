/** Failure kinds of the engine. The source raises a plain exception with a
    message; each kind below stands for one of those checks. */
module Errors {

  datatype Error =
    | NoSuchTable       // the table name is not registered
    | NoSuchColumn      // the column name is not in the table's column list
    | NoSuchRow         // no row carries the requested primary key
    | AlreadyExists     // a table or column of that name is already present
    | ArityMismatch     // a row has a different number of values than there are columns
    | DuplicateKey      // a row with the same primary key is already stored
    | PrimaryKeyColumn  // the column at position 0 may not be deleted from a base table
    | OutOfRange        // a position outside the list (the list's own index check)

  /** The outcome of an operation that returns a value. */
  datatype Result<T> = Ok(value: T) | Err(error: Error) {

    /** The value on success, the given default on failure. */
    function GetOr(default: T): T {
      if Ok? then value else default
    }

    /** Forgets the value. */
    function ToOutcome(): Outcome {
      if Ok? then Pass else Fail(error)
    }
  }

  /** The outcome of an operation that only changes state. */
  datatype Outcome = Pass | Fail(error: Error)
}
