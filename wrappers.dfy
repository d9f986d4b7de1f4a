/** Option and Result, the two ways the scraper reports "nothing here"
    (Python's None) and a failure that the callers turn into an error record. */
module Wrappers {

  datatype Option<+T> = None | Some(value: T)

  datatype Result<+T> = Ok(value: T) | Err(message: string)
}
