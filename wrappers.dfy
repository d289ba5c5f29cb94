/** Failure-carrying result types shared by the codec, the lexer and the loaders. */
module Wrappers {

  datatype Option<T> = None | Some(value: T)

  /** Why decoding an index file stopped. */
  datatype DecodeError =
    | ShortRead        // a read went past the end of the file
    | BadLength        // a negative length or count, which std::string/std::vector resize rejects

  datatype Result<T> = Ok(value: T) | Err(error: DecodeError) {
    predicate IsFailure() { Err? }

    function PropagateFailure<U>(): Result<U>
      requires Err?
    {
      Err(error)
    }

    function Extract(): T
      requires Ok?
    {
      value
    }
  }
}
