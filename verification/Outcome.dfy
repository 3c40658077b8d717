/** Result types shared by every module. */
module Outcome {

  datatype Option<+T> = None | Some(value: T)

  datatype Result<+T, +E> = Ok(value: T) | Err(error: E)

  /** The return codes of the C interface that the modelled calls can produce. */
  datatype Status = Success | IterationComplete | ErrorUser | ErrorAssert

  /** `eckit::UserError`, by the message that distinguishes its origins. */
  datatype UserError = InvalidKey | QuerySupplied | KeywordNotFound(keyword: string)
}
