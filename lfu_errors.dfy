/** Failure results of the cache's operations. The source signals each of
    these by throwing; here a failing call returns the error instead and
    leaves the cache exactly as it was. */
module LfuErrors {

  datatype Error =
    | InvalidConfiguration   // constructor: capacity or eviction factor out of range
    | KeyAlreadyExists       // insert of a resident key
    | KeyNotFound            // access of an absent key
    | EmptyCache             // least-frequent lookup on an empty cache

  datatype Option<+T> = None | Some(value: T)

  datatype Result<+T> = Ok(value: T) | Err(error: Error)

  datatype Outcome = Pass | Fail(error: Error)
}
