/** Option and Result values shared by every module of the model. */
module Wrappers {
  datatype Option<T> = None | Some(value: T) {
    /** The value as a list of at most one element. */
    function Items(): seq<T> {
      if Some? then [value] else []
    }
  }

  /** The Python exceptions that the modelled code lets escape to its callers. */
  datatype Error = ValueError | KeyError | IndexError | TypeError | StopIteration | ZeroDivisionError

  datatype Result<T> = Ok(value: T) | Err(error: Error)
}
