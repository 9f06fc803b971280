/** Outcomes of the list and heap operations: the Java code signals failure with exceptions,
    the model returns them as values. */
module Wrappers {

  datatype Option<+T> = None | Some(value: T)

  /** The exceptions the core can raise. */
  datatype Failure =
    | NoSuchElement(message: string)   // java.util.NoSuchElementException
    | UnsupportedOperation             // java.lang.UnsupportedOperationException
    | EmptyQueue                       // extract-minimum on an empty heap

  datatype Result<+T> = Ok(value: T) | Err(error: Failure)
}
