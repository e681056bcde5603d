/** Optional values, results and the Python exceptions the modelled code can raise. */
module Wrappers {

  datatype Option<+T> = None | Some(value: T)

  /** The Python exceptions that escape the modelled functions. */
  datatype Exception =
    | IndexError       // indexing past the end of a list, e.g. `text.split("\n", 1)[1]`
    | AttributeError   // calling a `str` method on a value that is not a string
    | TypeError        // passing `None` where `str.replace` wants a string
    | KeyError         // `d[key]` on a dictionary without that key
    | JsonDecodeError  // `json.loads` rejected its input

  datatype Result<+T> = Success(value: T) | Failure(error: Exception) {
    predicate IsFailure() { Failure? }

    function PropagateFailure<U>(): Result<U>
      requires Failure?
    {
      Failure(error)
    }

    function Extract(): T
      requires Success?
    {
      value
    }
  }
}
