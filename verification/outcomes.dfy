/** Values shared by the converter and the format engine: the argument kinds a
    dynamically typed caller may pass, and the errors the library raises. */
module Outcomes {

  /** The library raises these; every one ends the call without a result. */
  datatype Error =
    | TypeMismatch                        // a date argument that is not an int
    | IndexOutOfRange                     // a list or string index past its end
    | UnsupportedLanguage                 // `lang` outside the Language enum
    | UnsupportedDirective(symbol: string) // a `%` token outside StrfTimeFormat

  datatype Result<T> = Ok(value: T) | Err(error: Error)

  datatype Option<T> = None | Some(value: T)

  /** An argument as a dynamically typed caller may pass it: an int, or
      anything else (a float, a string, ...). */
  datatype Arg = Int(value: int) | NonInt
}
