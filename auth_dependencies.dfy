/**
 * The request guard (src/auth/dependencies.py).
 *
 * `TokenBearer.__call__` runs a fixed chain of checks over the scheme and credentials
 * the HTTP bearer extractor hands it; the two subclasses differ only in the token kind
 * they accept, so the guard is one function over the kind of bearer.
 */
module AuthDependencies {
  import opened Wrappers
  import opened Errors
  import opened AuthUtils
  import opened Store
  import UserService

  /** The two guard classes. */
  datatype Bearer = AccessTokenBearer | RefreshTokenBearer

  /** What the bearer extractor yields: the scheme word and the token that follows it. */
  datatype HttpAuthorizationCredentials = HttpAuthorizationCredentials(scheme: string, credentials: Token)

  const INVALID_SCHEME := HttpException(HTTP_403_FORBIDDEN, "Invalid authentication scheme.")
  const INVALID_TOKEN := HttpException(HTTP_401_UNAUTHORIZED, "Token is invalid or expired")
  const ACCESS_TOKEN_REQUIRED := HttpException(HTTP_400_BAD_REQUEST, "Please provide a valid access token")
  const REFRESH_TOKEN_REQUIRED := HttpException(HTTP_400_BAD_REQUEST, "Please provide a valid refresh token")

  /** `valid_token`: the token decodes, i.e. it is an issued token that has not expired. */
  function ValidToken(cfg: Config, token: Token, now: int): (ok: bool)
    ensures ok <==> exists p :: Encode(cfg, p) == token && now < p.exp
  {
    var tokenData := DecodeToken(cfg, token, now);
    assert tokenData.Some? ==> Encode(cfg, tokenData.value) == token && now < tokenData.value.exp;
    tokenData.Some?
  }

  /**
   * `verify_token_data`: the access guard refuses claims whose `refresh` flag is set, the
   * refresh guard refuses claims whose flag is clear, each with its own 400.
   */
  function VerifyTokenData(bearer: Bearer, tokenData: Claims): (err: Option<Error>)
    ensures err.None? <==> tokenData.refresh == (bearer == RefreshTokenBearer)
    ensures err.Some? ==> err.value == (if bearer == AccessTokenBearer then ACCESS_TOKEN_REQUIRED else REFRESH_TOKEN_REQUIRED)
  {
    match bearer
    case AccessTokenBearer => if tokenData.refresh then Some(ACCESS_TOKEN_REQUIRED) else None
    case RefreshTokenBearer => if !tokenData.refresh then Some(REFRESH_TOKEN_REQUIRED) else None
  }

  /**
   * `TokenBearer.__call__`: the scheme must be exactly `Bearer` (403), then the token must
   * decode (401), then the kind must match the guard (400); on success the decoded claims
   * are returned as they are.
   */
  function TokenBearerCall(cfg: Config, bearer: Bearer, credentials: HttpAuthorizationCredentials, now: int)
    : (r: Result<Claims, Error>)
    ensures credentials.scheme != "Bearer" ==> r == Failure(INVALID_SCHEME)
    ensures credentials.scheme == "Bearer" && DecodeToken(cfg, credentials.credentials, now).None? ==>
              r == Failure(INVALID_TOKEN)
    ensures r.Success? <==> && credentials.scheme == "Bearer"
                            && DecodeToken(cfg, credentials.credentials, now).Some?
                            && DecodeToken(cfg, credentials.credentials, now).value.refresh == (bearer == RefreshTokenBearer)
    ensures r.Success? ==> DecodeToken(cfg, credentials.credentials, now) == Some(r.value)
    ensures credentials.scheme == "Bearer" && DecodeToken(cfg, credentials.credentials, now).Some? && r.Failure? ==>
              r.error == (if bearer == AccessTokenBearer then ACCESS_TOKEN_REQUIRED else REFRESH_TOKEN_REQUIRED)
  {
    var token := credentials.credentials;
    var tokenData := DecodeToken(cfg, token, now);
    if credentials.scheme != "Bearer" then Failure(INVALID_SCHEME)
    else if !ValidToken(cfg, token, now) then Failure(INVALID_TOKEN)
    else
      match VerifyTokenData(bearer, tokenData.value)
      case Some(err) => Failure(err)
      case None => Success(tokenData.value)
  }

  /** No presented token passes both guards at the same instant. */
  lemma GuardsAreExclusive(cfg: Config, credentials: HttpAuthorizationCredentials, now: int)
    ensures !(TokenBearerCall(cfg, AccessTokenBearer, credentials, now).Success? &&
              TokenBearerCall(cfg, RefreshTokenBearer, credentials, now).Success?)
    ensures credentials.scheme == "Bearer" && ValidToken(cfg, credentials.credentials, now) ==>
              TokenBearerCall(cfg, AccessTokenBearer, credentials, now).Success? ||
              TokenBearerCall(cfg, RefreshTokenBearer, credentials, now).Success?
  {
  }

  /** The scheme comparison is case-sensitive: `bearer` is refused whatever the token. */
  lemma LowerCaseSchemeRefused(cfg: Config, bearer: Bearer, token: Token, now: int)
    ensures TokenBearerCall(cfg, bearer, HttpAuthorizationCredentials("bearer", token), now) == Failure(INVALID_SCHEME)
  {
    assert "bearer"[0] != "Bearer"[0];
  }

  /**
   * `get_current_user`: the user named by the claims' `sub`, or `None` when no such user
   * exists any more; no error is raised for a missing user.
   */
  function GetCurrentUser(token: Claims, users: seq<User>): (user: Option<User>)
    ensures user.Some? ==> user.value in users && user.value.username == token.sub
    ensures user.None? <==> forall u :: u in users ==> u.username != token.sub
  {
    UserService.GetUserByUsername(users, token.sub)
  }
}
