/**
 * Browser authentication in the web gateway (`codex_monitor_web_gateway.rs`).
 * A request may carry its token in three places: an `Authorization: Bearer`
 * header, an `x-codex-monitor-token` header, or (for the event socket only) a
 * `token` query parameter. Tokens are compared after trimming Unicode
 * whitespace; a blank token counts as absent.
 */
module GatewayAuth {
  import opened Base
  import opened Text

  const AUTH_HEADER_PREFIX: string := "Bearer "
  const AUTHORIZATION: string := "authorization"
  const TOKEN_HEADER: string := "x-codex-monitor-token"
  const MISSING_TOKEN: string := "missing API token (expected Authorization: Bearer <token>)"
  const INVALID_TOKEN: string := "invalid API token"

  /**
   * The value of one header. `to_str` succeeds only for visible ASCII text;
   * any other value is `Opaque` and is treated as if the header were absent.
   */
  datatype HeaderValue = Visible(text: string) | Opaque

  /** Header names are stored lower-case, as the HTTP stack normalises them. */
  type HeaderMap = map<string, HeaderValue>

  /** An error that a handler turns into `{"error": message}` with the given status. */
  datatype GatewayError = GatewayError(status: nat, message: string)

  function BadRequest(message: string): GatewayError { GatewayError(400, message) }
  function Unauthorized(message: string): GatewayError { GatewayError(401, message) }
  /** Failures talking to the daemon are reported as 502 Bad Gateway. */
  function DaemonFailure(message: string): GatewayError { GatewayError(502, message) }

  /**
   * `normalize_token`: absent and whitespace-only tokens are dropped, every
   * other token is trimmed.
   */
  function NormalizeToken(token: Option<string>): (r: Option<string>)
    ensures r.None? <==> token.None? || forall i :: 0 <= i < |token.value| ==> IsWhitespace(token.value[i])
    ensures r.Some? ==> r.value != [] && !IsWhitespace(r.value[0]) && !IsWhitespace(r.value[|r.value| - 1])
    ensures r.Some? ==> r.value == Trim(token.value, IsWhitespace)
  {
    match token
    case None => None
    case Some(v) =>
      BlankIffAllWhitespace(v, IsWhitespace);
      var t := Trim(v, IsWhitespace);
      if t == [] then None else Some(t)
  }

  /** Normalising twice is normalising once. */
  lemma NormalizeTokenIdempotent(token: Option<string>)
    ensures NormalizeToken(NormalizeToken(token)) == NormalizeToken(token)
  {
    if token.Some? {
      TrimIdempotent(token.value, IsWhitespace);
    }
  }

  /** `str::strip_prefix` */
  function StripPrefix(s: string, prefix: string): (r: Option<string>)
    ensures r.Some? <==> |prefix| <= |s| && s[..|prefix|] == prefix
    ensures r.Some? ==> s == prefix + r.value
  {
    if |prefix| <= |s| && s[..|prefix|] == prefix then Some(s[|prefix|..]) else None
  }

  /** `headers.get(name).and_then(|v| v.to_str().ok())` */
  function HeaderText(headers: HeaderMap, name: string): (r: Option<string>)
    ensures r.Some? <==> name in headers && headers[name].Visible?
    ensures r.Some? ==> headers[name] == Visible(r.value)
  {
    if name in headers && headers[name].Visible? then Some(headers[name].text) else None
  }

  /** The token of a usable `Authorization: Bearer <token>` header (the prefix is case-sensitive). */
  function BearerToken(headers: HeaderMap): Option<string> {
    match HeaderText(headers, AUTHORIZATION)
    case None => None
    case Some(auth) =>
      match StripPrefix(auth, AUTH_HEADER_PREFIX)
      case None => None
      case Some(value) => NormalizeToken(Some(value))
  }

  /** The token of a usable `x-codex-monitor-token` header. */
  function CustomToken(headers: HeaderMap): Option<string> {
    NormalizeToken(HeaderText(headers, TOKEN_HEADER))
  }

  /**
   * `extract_request_token`: the first usable token among the bearer header,
   * the custom header and the query parameter.
   */
  function ExtractRequestToken(headers: HeaderMap, queryToken: Option<string>): (r: Option<string>)
    ensures r.Some? ==> r.value != [] && !IsWhitespace(r.value[0]) && !IsWhitespace(r.value[|r.value| - 1])
    ensures r.Some? ==> r == BearerToken(headers) || r == CustomToken(headers) || r == NormalizeToken(queryToken)
    ensures r.None? <==> BearerToken(headers).None? && CustomToken(headers).None? && NormalizeToken(queryToken).None?
  {
    BearerToken(headers).Or(CustomToken(headers)).Or(NormalizeToken(queryToken))
  }

  /** A usable bearer header wins over both other sources. */
  lemma BearerWins(headers: HeaderMap, queryToken: Option<string>, token: string)
    requires HeaderText(headers, AUTHORIZATION) == Some(AUTH_HEADER_PREFIX + token)
    requires !IsBlank(token, IsWhitespace)
    ensures ExtractRequestToken(headers, queryToken) == Some(Trim(token, IsWhitespace))
  {
    var auth := AUTH_HEADER_PREFIX + token;
    assert auth[..|AUTH_HEADER_PREFIX|] == AUTH_HEADER_PREFIX;
    assert auth[|AUTH_HEADER_PREFIX|..] == token;
  }

  /**
   * A bearer header that does not yield a token (wrong scheme, blank value,
   * value that is not visible text) is passed over as if it were absent.
   */
  lemma UnusableBearerFallsThrough(headers: HeaderMap, queryToken: Option<string>)
    requires BearerToken(headers).None?
    ensures ExtractRequestToken(headers, queryToken) == ExtractRequestToken(headers - {AUTHORIZATION}, queryToken)
  {
    assert HeaderText(headers - {AUTHORIZATION}, TOKEN_HEADER) == HeaderText(headers, TOKEN_HEADER);
  }

  /** A blank bearer value falls through to the next source. */
  lemma BlankBearerFallsThrough(headers: HeaderMap, queryToken: Option<string>, token: string)
    requires HeaderText(headers, AUTHORIZATION) == Some(AUTH_HEADER_PREFIX + token)
    requires IsBlank(token, IsWhitespace)
    ensures ExtractRequestToken(headers, queryToken) == ExtractRequestToken(headers - {AUTHORIZATION}, queryToken)
  {
    var auth := AUTH_HEADER_PREFIX + token;
    assert auth[..|AUTH_HEADER_PREFIX|] == AUTH_HEADER_PREFIX;
    assert auth[|AUTH_HEADER_PREFIX|..] == token;
    assert BearerToken(headers).None?;
    UnusableBearerFallsThrough(headers, queryToken);
  }

  /** Once either header yields a token, the query parameter is never consulted. */
  lemma QueryIgnoredWithHeaderToken(headers: HeaderMap, q1: Option<string>, q2: Option<string>)
    requires BearerToken(headers).Some? || CustomToken(headers).Some?
    ensures ExtractRequestToken(headers, q1) == ExtractRequestToken(headers, q2)
  {
  }

  /** An `Authorization` header in another scheme contributes nothing. */
  lemma OtherSchemeIgnored(headers: HeaderMap, value: string)
    requires HeaderText(headers, AUTHORIZATION) == Some(value)
    requires |value| >= 7 && value[..7] != AUTH_HEADER_PREFIX
    ensures BearerToken(headers).None?
  {
    assert StripPrefix(value, AUTH_HEADER_PREFIX).None?;
  }

  /**
   * Without a usable bearer header, a non-blank `x-codex-monitor-token` header
   * supplies the token, whatever the query parameter says.
   */
  lemma CustomHeaderWins(headers: HeaderMap, queryToken: Option<string>, token: string)
    requires BearerToken(headers).None?
    requires HeaderText(headers, TOKEN_HEADER) == Some(token)
    requires !IsBlank(token, IsWhitespace)
    ensures ExtractRequestToken(headers, queryToken) == Some(Trim(token, IsWhitespace))
  {
    BlankIffAllWhitespace(token, IsWhitespace);
  }

  /** With neither header usable, the query parameter decides. */
  lemma QueryTokenFallback(headers: HeaderMap, queryToken: Option<string>)
    requires BearerToken(headers).None? && CustomToken(headers).None?
    ensures ExtractRequestToken(headers, queryToken) == NormalizeToken(queryToken)
  {
  }

  /**
   * `authorize_request`: open when no API token is configured; otherwise the
   * extracted token must equal it exactly.
   */
  function AuthorizeRequest(apiToken: Option<string>, headers: HeaderMap, queryToken: Option<string>): (r: Result<(), GatewayError>)
    ensures apiToken.None? ==> r.Ok?
    ensures apiToken.Some? ==> (r.Ok? <==> ExtractRequestToken(headers, queryToken) == Some(apiToken.value))
    ensures r.Err? ==> r.error.status == 401
    ensures r.Err? ==> (r.error.message == MISSING_TOKEN <==> ExtractRequestToken(headers, queryToken).None?)
    ensures r.Err? ==> (r.error.message == INVALID_TOKEN <==> ExtractRequestToken(headers, queryToken).Some?)
  {
    match apiToken
    case None => Ok(())
    case Some(expected) =>
      match ExtractRequestToken(headers, queryToken)
      case None => Err(Unauthorized(MISSING_TOKEN))
      case Some(provided) =>
        if provided == expected then Ok(()) else Err(Unauthorized(INVALID_TOKEN))
  }

  /**
   * A configured API token that is blank or has whitespace at either end
   * (possible through `--api-token`, which is stored untrimmed) shuts every
   * client out, because extracted tokens are always trimmed.
   */
  lemma UntrimmedApiTokenNeverMatches(expected: string, headers: HeaderMap, queryToken: Option<string>)
    requires expected == [] || IsWhitespace(expected[0]) || IsWhitespace(expected[|expected| - 1])
    ensures AuthorizeRequest(Some(expected), headers, queryToken).Err?
  {
  }

  /** With a trimmed, non-blank API token, presenting exactly that token as a bearer token is admitted. */
  lemma BearerTokenAdmitted(expected: string, headers: HeaderMap, queryToken: Option<string>)
    requires expected != [] && !IsWhitespace(expected[0]) && !IsWhitespace(expected[|expected| - 1])
    requires HeaderText(headers, AUTHORIZATION) == Some(AUTH_HEADER_PREFIX + expected)
    ensures AuthorizeRequest(Some(expected), headers, queryToken).Ok?
  {
    TrimTrimmed(expected, IsWhitespace);
    BearerWins(headers, queryToken, expected);
  }
}
