/** Result type and the error values of the pipeline.

    Every fallible step of `src/main.rs` returns `Result<_, Box<dyn Error>>`;
    here the boxed error is a closed datatype that keeps what the source puts
    into it, and `Message` gives the text the operator sees. */
module Wrappers {

  /** Kinds of `core::num::ParseIntError`, as returned by `u64::from_str`
      and `i32::from_str`. */
  datatype IntErrorKind = Empty | InvalidDigit | PosOverflow | NegOverflow

  /** Kinds of the `FromDecStrErr` returned by `U256::from_dec_str`. */
  datatype DecStrError = InvalidCharacter | InvalidLength

  datatype Error =
    | UnknownAction(input: string)
    | UnknownState(input: string)
    | UnknownTokenType(input: string)
    | AmountError(decKind: DecStrError)
    | IntError(intKind: IntErrorKind)
    | NoPagination
      /** A transport or JSON-decoding failure reported by the fetch oracle. */
    | FetchError(reason: string)

  /** The message of the boxed error (its `Display`). */
  function Message(e: Error): string
  {
    match e
    case UnknownAction(s) => "Unknown action: " + s
    case UnknownState(s) => "Unknown state: " + s
    case UnknownTokenType(s) => "Unknown token type: " + s
    // `map_err(|e| format!("{:?}", e))` renders the variant name
    case AmountError(InvalidCharacter) => "InvalidCharacter"
    case AmountError(InvalidLength) => "InvalidLength"
    case IntError(Empty) => "cannot parse integer from empty string"
    case IntError(InvalidDigit) => "invalid digit found in string"
    case IntError(PosOverflow) => "number too large to fit in target type"
    case IntError(NegOverflow) => "number too small to fit in target type"
    case NoPagination => "No Pagination found"
    case FetchError(reason) => reason
  }

  /** Rust's `Result`, usable with `:-` in the role of the `?` operator. */
  datatype Result<+T, +E> = Ok(value: T) | Err(error: E) {
    predicate IsFailure() { Err? }

    function PropagateFailure<U>(): Result<U, E>
      requires Err?
    {
      Err(error)
    }

    function Extract(): T
      requires Ok?
    {
      value
    }
  }

  datatype Option<+T> = None | Some(value: T)
}
