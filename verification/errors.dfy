/**
 The failures the program reports, and the result type every fallible
 step returns.
 */
module Errors {
  import opened Utf8

  datatype Error =
      /** The transcript file of a channel could not be opened or mapped. */
    | FileUnavailable(fileName: string)
      /** A byte range that had to be read as text is not well-formed UTF-8. */
    | InvalidUtf8
      /** A record does not have the expected shape: the file it is in, the
          byte offset the scan reports, and the offending text. */
    | UnexpectedFormat(fileName: string, position: nat, line: seq<Byte>)

  datatype Option<+T> = None | Some(value: T)

  datatype Result<+T> = Ok(value: T) | Err(error: Error) {
    predicate IsFailure() {
      Err?
    }

    function PropagateFailure<U>(): Result<U>
      requires Err?
    {
      Err(error)
    }

    function Extract(): T
      requires Ok?
    {
      value
    }
  }
}
