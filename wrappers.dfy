/** Error values and failure-carrying results shared by the storage engine. */
module Wrappers {

  datatype Option<+T> = None | Some(value: T)

  /** The errors the storage engine reports: io.EOF from the index, the
      "offset out of range" error from Log.Read, the "no segments
      available" error from LowestOffset/HighestOffset, and the error a
      write to a segment whose files were removed reports. */
  datatype Error = EOF | OffsetOutOfRange(offset: nat) | NoSegments | Removed

  /** A value or an error, as Go's (value, error) pairs. */
  datatype Result<+T> = Ok(value: T) | Err(error: Error)

  /** An error or nothing, as a Go function returning only `error`. */
  datatype Outcome = Pass | Fail(error: Error)
}
