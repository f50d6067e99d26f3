/** Optional values and the four errors the calendar raises, as values instead of exceptions. */
module Outcomes {

  datatype Option<T> = None | Some(value: T)

  /** The error kinds raised by the calendar core. */
  datatype Error = EventNotFound | ReminderNotFound | SlotNotAvailable | DateLowerThanToday

  /** The outcome of an operation that returns nothing: it passes or raises one error. */
  datatype Outcome = Pass | Fail(error: Error)

  /** The outcome of an operation that returns a value or raises one error. */
  datatype Result<T> = Ok(value: T) | Err(error: Error)
}
