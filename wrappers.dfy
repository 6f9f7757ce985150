/** Option and Result types, and the Python exceptions the modelled scripts can raise. */
module Wrappers {

  datatype Option<+T> = None | Some(value: T)

  /** The exceptions (and the `exit` call) that end a script's run. */
  datatype PyError =
    | ValueError(msg: string)      // int() on a non-integer token, label-count mismatch, bad method
    | TypeError(msg: string)       // len(None)
    | IndexError(msg: string)      // indexing an empty histogram
    | UnboundLocalError(msg: string) // a variable assigned on no branch
    | Exit(msg: string)            // sys.exit with a message

  datatype Result<+T> = Ok(value: T) | Err(error: PyError)
}
