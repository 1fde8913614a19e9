/** The two result shapes every other module uses: a value that may be absent, and a call that
    either returns a value or reports an error text and leaves everything as it was. */
module Wrappers {

  datatype Option<+T> = None | Some(value: T)

  datatype Result<+T> = Ok(value: T) | Err(error: string)
}
