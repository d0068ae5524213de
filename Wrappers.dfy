/** Option and Result, and the .NET exceptions that the modelled code can throw. */
module Wrappers {

  /** A nullable value: `None` plays the part of C#'s `null`. */
  datatype Option<+T> = None | Some(value: T)

  /** The exceptions raised by the modelled code, one constructor per kind. */
  datatype Exception =
    | FormatException         // int.Parse rejected the text
    | OverflowException       // int.Parse: the number does not fit in an Int32
    | IndexOutOfRange         // an array or string index past its end
    | ArgumentOutOfRange      // a List<T> indexer given a negative index
    | NullableHasNoValue      // `.Value` of a null Nullable<T> (InvalidOperationException)
    | InvalidReferenceFormat  // ArgumentException "Invalid reference format."
    | MissingMinimum          // InvalidOperationException "Range should have minimum bound"
    | WrongObjectType         // ArgumentException "Object must be of type VersionPart"

  /** Either a value or the exception that interrupted the computation. */
  datatype Result<+T> = Ok(value: T) | Err(error: Exception) {

    predicate IsFailure() {
      Err?
    }

    function PropagateFailure<U>(): Result<U>
      requires Err?
    {
      Err(error)
    }

    function Extract(): T
      requires Ok?
    {
      value
    }
  }
}
