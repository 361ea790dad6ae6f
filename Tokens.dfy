/**
 * The token provider, seen only at its boundary. Signing, encoding and the clock
 * belong to the provider; here each of its operations is an arbitrary total function,
 * fixed once and passed to every consumer, so every property proved below holds for
 * every provider.
 */
module Tokens {
  import opened Wrappers
  import opened Errors

  /** What `getUsernameFromToken` does with a (possibly absent) token: returns the subject or throws. */
  datatype Parse = Subject(username: string) | Threw(fault: TokenFault)

  /** What `createNewAccessToken` does with a (possibly absent) refresh token. */
  datatype Renewal = Issued(token: string) | RenewalThrew(fault: TokenFault)

  /** The provider's five operations. */
  datatype Codec = Codec(
    usernameFromToken: Option<string> -> Parse,
    validateToken: string -> bool,
    generateAccessToken: string -> string,
    generateRefreshToken: string -> string,
    createNewAccessToken: Option<string> -> Renewal)
}
