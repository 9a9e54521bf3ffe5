/** Option and Result wrappers, and the ways a `pack` run can end without an
    output file: the source's thrown errors and the places where Swift traps. */
module Outcomes {

  datatype Option<+T> = None | Some(value: T)

  datatype Result<+T, +E> = Ok(value: T) | Err(error: E)

  /** Pass or fail, for operations that only check (`checkFilterBytes`). */
  datatype Outcome<+E> = Pass | Fail(error: E)

  /** A run-time trap of the Swift program: the process stops, nothing is thrown. */
  datatype Trap =
    | ZeroStride            // `stride(from:to:by:)` with a step of 0 (width 0)
    | StoredLengthOverflow  // `UInt16(data.count)` on more than 0xFFFF bytes
    | NilUnwrap             // `acomp!` / `bcomp!` on a fit that returned nil
    | TrimOutOfRange        // dropping the last 5 bytes of a shorter `b`
    | DumpOutOfRange        // slicing 10 bytes on either side of a bad filter byte
    | FieldOverflow         // `UInt32(...)` / `Int32(...)` of a value out of range

  /** The cases of the source's `Error` enum that the core throws, a failure
      of the inflater, and traps. */
  datatype Failure =
    | BadFilterByte(offset: nat)
    | MalformedDatagram
    | InflateFailed
    | Trapped(trap: Trap)
}
