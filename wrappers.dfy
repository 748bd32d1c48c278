/** Small failure-carrying datatypes shared by the model. */
module Wrappers {

  /** A value that may be missing; the source's NaN is `None`. */
  datatype Option<+T> = None | Some(value: T)

  /** The outcome of a computation that may raise. */
  datatype Result<+T, +E> = Success(value: T) | Failure(error: E)

  /** The Python exceptions the modelled code can raise on its inputs. */
  datatype PyError =
    | IndexError                 // `code[0]` on an empty code
    | KeyError(key: string)      // `.loc[key]` on a table without that key
    | ZeroDivisionError          // a Python float divided by zero
}
