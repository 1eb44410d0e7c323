/**
 * Success and failure outcomes shared by every component. The engine's
 * exceptions (its `Error` constants) become `Err` values. `Panic.panic`,
 * which stops the process, is the error it is given when that is one of the
 * engine's constants, and the `Panic` error when it passes on an exception
 * it caught.
 */
module Outcomes {

  datatype Option<T> = None | Some(value: T)

  datatype Error =
    | CacheFull
    | BadXidFile
    | MemTooSmall
    | BadLogFile
    | DataTooLarge
    | DatabaseBusy
    | NullEntry
    | ConcurrentUpdate
    | Deadlock
    | InvalidField
    | InvalidValues
    | InvalidLogOp
    | TableNoIndex
    | FieldNotFound
    | FieldNotIndexed
    | DuplicatedTable
    | TableNotFound
    | InvalidCommand
    | InvalidStatement
    | NestedTransaction
    | NoTransaction
    | InvalidPkgData
    | OutOfBounds   // an array index out of range, which the engine does not catch
    | NullPointer   // a dereference of null, which the engine does not catch
    | NumberFormat  // `Integer.parseInt` / `Long.parseLong` rejecting its text
    | ClassCast     // a cast of a value to a class it does not have
    | Diverges      // the original never returns: a loop that cannot make progress
    | OutOfSteps    // a walk over stored links that exceeded the model's step bound
    | Panic

  datatype Result<T> = Ok(value: T) | Err(error: Error)
  {
    predicate IsOk() { Ok? }
  }
}
