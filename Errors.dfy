/** Failure values of the row-processing core and the wrappers that carry them.
    Each error stands for an exception the scraper raises and does not catch. */
module Errors {

  /** Why processing stopped. */
  datatype Error =
    /** InvalidArgumentException: an identifier is not a six-character
        alphanumeric WKN. */
    | InvalidWkn(id: string)
    /** AttributeError: the price regex found no match, so `.group()` was
        called on None. Carries the cell text. */
    | NoPriceMatch(text: string)
    /** ValueError from `int()`: the volume text (with dots removed) is not
        a base-10 integer literal. */
    | InvalidInteger(text: string)
    /** ValueError from `time.fromisoformat`: the first eight characters of
        the time cell are not a time of day. */
    | InvalidTime(text: string)

  datatype Option<+T> = None | Some(value: T)

  datatype Result<+T> = Ok(value: T) | Err(error: Error)
}
