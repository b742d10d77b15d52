/** Failure-compatible wrappers shared by every module of the model.

    Python signals failure by raising; the model returns `Failure(e)` instead,
    so every operation that can raise in the source returns a `Result`.
 */
module Results {

  /** An optional value, the model of a Python parameter defaulting to `None`. */
  datatype Option<+T> = None | Some(value: T)

  /** Either the value an operation returns or the error it raises. */
  datatype Result<+T, +E> = Success(value: T) | Failure(error: E) {

    predicate IsFailure() {
      Failure?
    }

    function PropagateFailure<U>(): Result<U, E>
      requires Failure?
    {
      Failure(error)
    }

    function Extract(): T
      requires Success?
    {
      value
    }
  }
}

/** The exceptions the configuration readers can raise, one constructor per
    distinct cause in the source. */
module Errors {

  datatype Error =
    /** `arg_string[0]` on an empty token when no prefix override is given (IndexError). */
    | EmptyArgument
    /** `prefix_chars[0]` on an empty override string (IndexError). */
    | EmptyPrefixOverride
    /** `open` of a path that does not exist or cannot be read (OSError). */
    | FileNotReadable(path: string)
    /** `json.load` rejected the file (JSONDecodeError turned into ArgumentTypeError). */
    | InvalidJson(path: string)
    /** `k[0]` on an empty object key in a JSON document (IndexError). */
    | EmptyJsonKey
    /** A plain-text header line with no space after the marker, which makes
        the two-name unpacking of `split(" ", 1)` fail (ValueError). */
    | HeaderWithoutSpace(line: string)
    /** `get_args` found none of the requested configurations (ArgumentTypeError). */
    | ConfigNotFound(config: seq<string>, filename: string)
    /** Reference expansion nested deeper than the interpreter allows (RecursionError). */
    | RecursionLimit(token: string)
}
