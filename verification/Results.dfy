/** Status codes, results and optional values used by every component. */
module Results {

  datatype Status =
    | InvalidArgument | NotFound | InvalidState | IOError | Corruption
    | Timeout | TransactionAborted | InternalError

  datatype Result<+T> = Ok(value: T) | Err(error: Status)

  datatype Option<+T> = None | Some(value: T)
}
