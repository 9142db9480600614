/** Option and Result, used for JavaScript's `null` results and thrown errors. */
module Wrappers {

  datatype Option<+T> = None | Some(value: T)

  datatype Result<+T, +E> = Ok(value: T) | Err(error: E)

}

/** Bytes as the browser's Uint8Array and Node's Buffer hold them. */
module Bytes {

  type byte = bv8

}
