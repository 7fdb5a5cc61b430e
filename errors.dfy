/** Outcome types shared by the whole model.

    The C++ library reports failures by throwing; every exception type it can
    throw on the modelled paths becomes one constructor of `Error`, and a
    throwing operation returns a `Result`.
 */
module Errors {

  /** A value that may be absent (`std::string::npos`, a null pointer). */
  datatype Maybe<+T> = None | Some(value: T)

  /** The exceptions of the library, by C++ type. */
  datatype Error =
    | RuntimeError(message: string)        // std::runtime_error (value casts)
    | InvalidArgument(message: string)     // std::invalid_argument (std::stol found no digits)
    | OutOfRange(message: string)          // std::out_of_range (std::vector::at)
    | OptionError(message: string)         // Tokens::OptionError
    | LanguageError(message: string)       // DocoptLanguageError
    | ArgumentError(message: string)       // DocoptArgumentError
    | ExitHelp                             // DocoptExitHelp
    | ExitVersion                          // DocoptExitVersion
    | AssertionFailure(message: string)    // a failed assert()

  datatype Result<+T> = Ok(value: T) | Err(error: Error) {
    predicate IsFailure() { Err? }

    function PropagateFailure<U>(): Result<U>
      requires Err?
    {
      Err(error)
    }

    function Extract(): T
      requires Ok?
    {
      value
    }
  }
}
