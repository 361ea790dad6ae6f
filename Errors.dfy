/** The exceptions the core raises. */
module Errors {

  /** The constants of the service's `ErrorCode` enumeration that the core uses. */
  datatype ErrorCode =
    | InvalidToken
    | TokenNotFound
    | DuplicateUserId
    | UserNotFound
    | WrongPassword
    | TodoNotFound

  /** The exceptions the token provider can throw while reading a token. */
  datatype TokenFault =
    | ExpiredJwt     // the token's expiry has passed
    | BadSignature   // the signature does not verify
    | NullPointer    // there was no token at all
    | Malformed      // any other failure of the provider

  /** An exception that ends the request. */
  datatype Exception =
    | Runtime(code: ErrorCode)    // `new RuntimeException(String.valueOf(code))`, raised by the filter
    | Custom(code: ErrorCode)     // `new CustomException(code)`, raised by the services
    | Provider(fault: TokenFault) // a provider exception that nothing in the core catches
}
