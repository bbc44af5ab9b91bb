/** The crate-wide error type and the `Result`/`Option` wrappers every
    operation returns (libpafe's `Error` and `Result<T>`). */
module Errors {

  /** One constructor per `Error` variant the modelled core can produce.
      `InvalidLength` carries `usize` values; the other numeric fields are `u8`. */
  datatype Error =
    | DeviceNotFound
    | UsbString(message: string)
    | InvalidLength(expected: int, actual: int)
    | FelicaStatus(status1: int, status2: int)
    | FelicaBlockStatus(index: nat, status1: int, status2: int)
    | ChecksumMismatch(expected: int, actual: int)
    | FrameFormat(message: string)
    | UnexpectedResponse(expected: int, actual: int)
    | PollingFailed
    | Timeout
    | UnsupportedOperation(message: string)

  datatype Result<+T> = Ok(value: T) | Err(error: Error) {
    predicate IsFailure() { Err? }

    function PropagateFailure<U>(): Result<U>
      requires Err?
    {
      Err(error)
    }

    function Extract(): T
      requires Ok?
    {
      value
    }
  }

  datatype Option<+T> = None | Some(value: T)
}
