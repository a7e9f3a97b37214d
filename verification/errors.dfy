/** Result and error types shared by the decoder modules. */
module Errors {

  datatype Option<+T> = None | Some(value: T)

  datatype Result<+R, +E> = Success(value: R) | Failure(error: E)

  /**
   * Why an encoded mask was refused.  The first two are the
   * "malformed encoding" kind, the last the "index out of range" kind.
   */
  datatype DecodeError =
    | NotANumber(token: nat)       // the token at this position is not a decimal numeral
    | OddTokenCount(count: nat)    // a start is left without its length
    | IndexOutOfRange(pair: nat)   // the run of this pair leaves the flat buffer
  {
    predicate IsMalformedEncoding() {
      NotANumber? || OddTokenCount?
    }
  }
}
