/** Outcome datatypes shared by the model: `Option` for the abstract cipher,
    whose failures carry no information the orchestration uses, and `Result`
    for the operations that throw in the C++ program. */
module Wrappers {

  datatype Option<+T> = None | Some(value: T)

  datatype Result<+R, +E> = Success(value: R) | Failure(error: E) {
    predicate IsFailure() {
      Failure?
    }

    function PropagateFailure<U>(): Result<U, E>
      requires Failure?
    {
      Failure(error)
    }

    function Extract(): R
      requires Success?
    {
      value
    }
  }
}

/** The errors the decryptor reports by throwing `std::invalid_argument`. */
module Errors {

  datatype Error =
    | TelegramTooShort   // parseTelegram: fewer than 10 decoded bytes
    | InvalidKeyLength   // constructor: the key does not decode to 16 bytes
    | InvalidEncoding    // the corrected key check: odd length or a non-digit
}
