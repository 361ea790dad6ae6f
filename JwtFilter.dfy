/**
 * The per-request authentication filter (`JwtFilter.doFilterInternal`).
 *
 * `Authenticate` is the filter's decision as a value: forward the request
 * (possibly with a `username` attribute on the request or a renewed access
 * token on the response) or reject it with an exception. `DoFilterInternal` is
 * the filter itself, working on request, response and chain objects, and is
 * proved to carry out exactly that decision.
 */
module JwtFilter {
  import opened Wrappers
  import opened Errors
  import opened Tokens
  import opened Servlet

  const BEARER := "Bearer "

  /** The allow-list: requests to these paths skip authentication. */
  const LIST: seq<string> := ["/users/signup", "/users/login"]

  /**
   * `isWhitelistedPath`: Spring's `simpleMatch` of the URI against `LIST`.
   * Neither pattern holds a `*`, so each one matches exactly itself.
   */
  predicate IsWhitelistedPath(uri: string)
    ensures IsWhitelistedPath(uri) <==> uri == "/users/signup" || uri == "/users/login"
  {
    uri in LIST
  }

  /** The token the filter processes: a header that starts with "Bearer " loses those 7 characters. */
  function StripBearer(header: Option<string>): (token: Option<string>)
    ensures header.None? <==> token.None?
    ensures header.Some? && BEARER <= header.value ==> header.value == BEARER + token.value
    ensures header.Some? && !(BEARER <= header.value) ==> token == header
  {
    if header.Some? && BEARER <= header.value then Some(header.value[7..]) else header
  }

  /** The token taken from a request's `Authorization` header. */
  function TokenOf(headers: map<string, string>): Option<string>
  {
    StripBearer(Lookup(headers, AUTHORIZATION))
  }

  /** The filter's decision for one request. */
  datatype Verdict =
    | Forward(attribute: Option<string>, responseAuthorization: Option<string>)
    | Reject(exception: Exception)

  /**
   * The decision `doFilterInternal` takes for a request with this URI and these headers.
   * A `username` attribute is only ever a subject the provider read from a token that
   * also validated; a response token is only ever issued for an expired access token;
   * the two never come together; and nothing on the allow-list is touched.
   */
  function Authenticate(uri: string, headers: map<string, string>, codec: Codec): (v: Verdict)
    ensures IsWhitelistedPath(uri) ==> v == Forward(None, None)
    ensures v.Forward? && v.attribute.Some? ==>
      && !IsWhitelistedPath(uri)
      && TokenOf(headers).Some?
      && codec.validateToken(TokenOf(headers).value)
      && codec.usernameFromToken(TokenOf(headers)) == Subject(v.attribute.value)
    ensures v.Forward? && v.responseAuthorization.Some? ==>
      && !IsWhitelistedPath(uri)
      && codec.usernameFromToken(TokenOf(headers)) == Threw(ExpiredJwt)
      && codec.createNewAccessToken(Lookup(headers, REFRESH_TOKEN)).Issued?
      && v.responseAuthorization.value == BEARER + codec.createNewAccessToken(Lookup(headers, REFRESH_TOKEN)).token
    ensures v.Forward? ==> v.attribute.None? || v.responseAuthorization.None?
    ensures v.Reject? ==> !IsWhitelistedPath(uri) && codec.usernameFromToken(TokenOf(headers)).Threw?
  {
    if IsWhitelistedPath(uri) then Forward(None, None)
    else
      var token := TokenOf(headers);
      match codec.usernameFromToken(token)
      case Subject(username) =>
        if token.Some? && codec.validateToken(token.value) then Forward(Some(username), None)
        else Forward(None, None)
      case Threw(ExpiredJwt) =>
        (match codec.createNewAccessToken(Lookup(headers, REFRESH_TOKEN))
         case Issued(newAccessToken) => Forward(None, Some(BEARER + newAccessToken))
         case RenewalThrew(fault) => Reject(Provider(fault)))
      case Threw(BadSignature) => Reject(Runtime(InvalidToken))
      case Threw(NullPointer) => Reject(Runtime(TokenNotFound))
      case Threw(Malformed) => Reject(Provider(Malformed))
  }

  /** The request attributes once a verdict has been carried out. */
  function AttributesAfter(v: Verdict, attributes: map<string, string>): map<string, string>
  {
    if v.Forward? && v.attribute.Some? then attributes[USERNAME := v.attribute.value] else attributes
  }

  /** The response headers once a verdict has been carried out. */
  function ResponseHeadersAfter(v: Verdict, headers: map<string, string>): map<string, string>
  {
    if v.Forward? && v.responseAuthorization.Some? then headers[AUTHORIZATION := v.responseAuthorization.value]
    else headers
  }

  /**
   * `doFilterInternal`: carries out `Authenticate` on the request, the response and the
   * chain. A forwarded request reaches the chain exactly once; a rejected one never does,
   * and leaves request and response as they were.
   */
  method DoFilterInternal(codec: Codec, request: Request, response: Response, chain: FilterChain)
    returns (raised: Option<Exception>)
    modifies request, response, chain
    ensures var v := Authenticate(request.uri, request.headers, codec);
      && request.attributes == AttributesAfter(v, old(request.attributes))
      && response.headers == ResponseHeadersAfter(v, old(response.headers))
      && chain.invocations == old(chain.invocations) + (if v.Forward? then 1 else 0)
      && raised == (if v.Reject? then Some(v.exception) else None)
  {
    if IsWhitelistedPath(request.uri) {
      chain.DoFilter();
      return None;
    }

    var token := Lookup(request.headers, AUTHORIZATION);
    if token.Some? && BEARER <= token.value {
      token := Some(token.value[7..]);
    }

    match codec.usernameFromToken(token) {
      case Subject(username) =>
        if token.Some? && codec.validateToken(token.value) {
          request.SetAttribute(USERNAME, username);
        }
      case Threw(ExpiredJwt) =>
        var refreshToken := Lookup(request.headers, REFRESH_TOKEN);
        var renewal := codec.createNewAccessToken(refreshToken);
        if renewal.RenewalThrew? {
          return Some(Provider(renewal.fault));
        }
        response.SetHeader(AUTHORIZATION, BEARER + renewal.token);
      case Threw(BadSignature) =>
        return Some(Runtime(InvalidToken));
      case Threw(NullPointer) =>
        return Some(Runtime(TokenNotFound));
      case Threw(Malformed) =>
        return Some(Provider(Malformed));
    }

    chain.DoFilter();
    return None;
  }

  /** Stripping undoes the prefix the filter itself writes: "Bearer " + t is read back as t. */
  lemma StripBearerInverse(t: string)
    ensures StripBearer(Some(BEARER + t)) == Some(t)
  {
  }

  /**
   * An allow-listed request is forwarded untouched whatever its headers and whatever the
   * provider does: the decision reads neither.
   */
  lemma WhitelistedPathBypasses(uri: string, headers: map<string, string>, headers': map<string, string>,
                                codec: Codec, codec': Codec)
    requires IsWhitelistedPath(uri)
    ensures Authenticate(uri, headers, codec) == Authenticate(uri, headers', codec') == Forward(None, None)
  {
  }

  /** The `username` attribute is set to u exactly when the processed token reads as u and validates. */
  lemma AttributeIffValidated(uri: string, headers: map<string, string>, codec: Codec, u: string)
    ensures Authenticate(uri, headers, codec) == Forward(Some(u), None) <==>
      && !IsWhitelistedPath(uri)
      && TokenOf(headers).Some?
      && codec.usernameFromToken(TokenOf(headers)) == Subject(u)
      && codec.validateToken(TokenOf(headers).value)
  {
  }

  /** A token that reads but does not validate: forwarded with no attribute and no response header. */
  lemma ReadableButInvalidForwardedBare(uri: string, headers: map<string, string>, codec: Codec)
    requires !IsWhitelistedPath(uri)
    requires codec.usernameFromToken(TokenOf(headers)).Subject?
    requires !(TokenOf(headers).Some? && codec.validateToken(TokenOf(headers).value))
    ensures Authenticate(uri, headers, codec) == Forward(None, None)
  {
  }

  /** An expired access token: forwarded, no attribute, and a renewed "Bearer " token on the response. */
  lemma ExpiredAccessRenewed(uri: string, headers: map<string, string>, codec: Codec, t: string)
    requires !IsWhitelistedPath(uri)
    requires codec.usernameFromToken(TokenOf(headers)) == Threw(ExpiredJwt)
    requires codec.createNewAccessToken(Lookup(headers, REFRESH_TOKEN)) == Issued(t)
    ensures Authenticate(uri, headers, codec) == Forward(None, Some(BEARER + t))
  {
  }

  /** An expired access token whose renewal throws: the provider's exception ends the request. */
  lemma ExpiredAccessRenewalFails(uri: string, headers: map<string, string>, codec: Codec, f: TokenFault)
    requires !IsWhitelistedPath(uri)
    requires codec.usernameFromToken(TokenOf(headers)) == Threw(ExpiredJwt)
    requires codec.createNewAccessToken(Lookup(headers, REFRESH_TOKEN)) == RenewalThrew(f)
    ensures Authenticate(uri, headers, codec) == Reject(Provider(f))
  {
  }

  /** The filter raises INVALID_TOKEN exactly on a signature failure. */
  lemma InvalidTokenIffBadSignature(uri: string, headers: map<string, string>, codec: Codec)
    ensures Authenticate(uri, headers, codec) == Reject(Runtime(InvalidToken)) <==>
      !IsWhitelistedPath(uri) && codec.usernameFromToken(TokenOf(headers)) == Threw(BadSignature)
  {
  }

  /** The filter raises TOKEN_NOT_FOUND exactly when the provider meets a null pointer. */
  lemma TokenNotFoundIffNullPointer(uri: string, headers: map<string, string>, codec: Codec)
    ensures Authenticate(uri, headers, codec) == Reject(Runtime(TokenNotFound)) <==>
      !IsWhitelistedPath(uri) && codec.usernameFromToken(TokenOf(headers)) == Threw(NullPointer)
  {
  }

  /**
   * A protected request with no `Authorization` header hands the provider a null token,
   * and the provider's answer decides everything. If the provider returns, the request is
   * forwarded bare, since a null token never validates. If it throws, each exception has
   * the same effect as for a present token. Only a null pointer gives TOKEN_NOT_FOUND.
   */
  lemma MissingHeaderOutcomes(uri: string, headers: map<string, string>, codec: Codec)
    requires !IsWhitelistedPath(uri) && AUTHORIZATION !in headers
    ensures codec.usernameFromToken(None).Subject? ==>
      Authenticate(uri, headers, codec) == Forward(None, None)
    ensures codec.usernameFromToken(None) == Threw(NullPointer) ==>
      Authenticate(uri, headers, codec) == Reject(Runtime(TokenNotFound))
    ensures codec.usernameFromToken(None) == Threw(BadSignature) ==>
      Authenticate(uri, headers, codec) == Reject(Runtime(InvalidToken))
    ensures codec.usernameFromToken(None) == Threw(Malformed) ==>
      Authenticate(uri, headers, codec) == Reject(Provider(Malformed))
    ensures codec.usernameFromToken(None) == Threw(ExpiredJwt) ==>
      Authenticate(uri, headers, codec) ==
        match codec.createNewAccessToken(Lookup(headers, REFRESH_TOKEN))
        case Issued(t) => Forward(None, Some(BEARER + t))
        case RenewalThrew(f) => Reject(Provider(f))
  {
  }
}
