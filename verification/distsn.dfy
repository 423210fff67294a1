/**
 * Error kinds and result wrappers shared by the survey tools.
 * The three exception classes are those of server/distsn.h.
 */
module Distsn {
  /** The exceptions the tools throw and catch. Each carries a line number,
      which the modelled code always leaves at its default, so it is dropped. */
  datatype Exception = HttpException | HostException | TootException

  /** The two kinds a survey loop catches; any other would escape `main`. */
  predicate Swallowed(e: Exception) {
    e == HttpException || e == HostException
  }

  datatype Option<+T> = None | Some(value: T)

  /** A value, or the exception thrown instead of producing it. */
  datatype Result<+T> = Ok(value: T) | Err(error: Exception)
}
