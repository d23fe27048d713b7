/**
 * The error enumerations shared by every codec (Sources/Bases/Error.swift).
 * They carry no behaviour of their own.
 */
module Errors {

  /** Thrown by the checked line-separator initialiser. */
  datatype LineSeparatorError = NonPositiveLength

  /** Thrown by the checked alphabet initialisers. */
  datatype AlphabetError =
    | WrongNumberOfCharacters  // not the scheme's number of characters, or an empty synonym group
    | NoAsciiValue             // a character (or the padding character) outside ASCII

  /** Thrown by the decoders. */
  datatype DecodingError =
    | WrongNumberOfBytes    // Base-16 only: odd number of digits
    | NonAsciiCharacters    // a character outside ASCII
    | ValuesNotInAlphabet   // an ASCII character that the alphabet does not map
}
