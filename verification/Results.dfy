/** Outcomes of the operations: the error enum keeps the cause, not its message. */
module Results {
  datatype Error =
    | Io
    | NotVhd
    | BadChecksum
    | UnsupportedDiskType(wire: nat)
    | Corrupt
    | Unsupported
    | OutOfBounds
    | ParentTooDeep
    | ParentNotFound
    | ReadOnly

  datatype Result<+T> = Ok(value: T) | Err(error: Error)

  datatype Outcome = Pass | Fail(error: Error)

  datatype Option<+T> = None | Some(value: T)
}
