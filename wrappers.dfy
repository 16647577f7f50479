/** Option and Result, and the Python exceptions the scripts can raise. */
module Wrappers {

  datatype Option<+T> = None | Some(value: T)

  /** The exceptions the helper functions raise; a run that raises one aborts. */
  datatype Error =
    | KeyError(key: string)   // a dictionary lookup of a missing key
    | AttributeError          // `.groupdict()` on the None of a failed `re.search`
    | AssertionError          // a failed `assert`
    | TypeError               // `None + str`
    | ValueError              // a failed unpacking, or `raise ValueError`
    | HttpError               // `raise_for_status()` on an error response

  datatype Result<+T> = Ok(value: T) | Err(error: Error)
}
