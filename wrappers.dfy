/** Error taxonomy and the result types every operation of the model returns. */
module Wrappers {

  /** The HTTP exceptions the services and controllers raise. `Internal` stands for
      everything Nest turns into a 500: a JavaScript TypeError (a property read on
      `undefined` or `null`), a Mongoose cast error on a malformed id, or a rejected
      external call that nobody catches. */
  datatype Error = BadRequest | NotFound | Forbidden | Unauthorized | Conflict | Internal

  datatype Option<+T> = None | Some(value: T)

  /** A resolved promise (`Ok`) or a thrown exception (`Err`). */
  datatype Result<+T> = Ok(value: T) | Err(error: Error)

  /** A check that either lets the request through or raises. */
  datatype Outcome = Pass | Fail(error: Error)
}
