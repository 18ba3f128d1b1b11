/**
 Token handling (`src/services/auth_handler.py`): issuing access and refresh
 tokens, decoding them behind a token-type gate, refreshing, and reading the
 `Authorization` header. A token (RFC 7519) is modelled by the payload it
 carries, the key it was signed with and the algorithm named in its header;
 the signature itself is not modelled. Times are whole seconds since the
 epoch, which is what the `exp` claim holds.
 */
module AuthHandler {
  import opened Wrappers
  import opened Text
  import opened UserSchema

  /** A claim value: a string, an integer or JSON `null`. */
  datatype Claim = Str(s: string) | Num(n: int) | Null

  type Payload = map<string, Claim>

  /** An encoded token, or text that does not decode as one. */
  datatype Jwt = Signed(payload: Payload, key: string, alg: string) | Garbage(text: string)

  /** `Config.ALGORITHM`, `Config.ACCESS_TOKEN_EXPIRE_MINUTES`, `Config.REFRESH_TOKEN_EXPIRE_DAYS`. */
  const Algorithm: string := "HS256"
  const AccessTokenExpireMinutes: int := 30
  const RefreshTokenExpireDays: int := 7

  /** The lifetime used when no delta is given: 15 minutes. */
  const DefaultLifetime: int := 15 * 60

  const CouldNotValidate: HttpError := HttpError(401, "Could not validate credentials")
  const TokenExpired: HttpError := HttpError(401, "Token expired")
  const InvalidTokenType: HttpError := HttpError(401, "Invalid token type")
  const InvalidTypeToken: HttpError := HttpError(401, "Invalid type token")
  const NotAuthenticated: HttpError := HttpError(401, "Not authenticated")

  // ---------------------------------------------------------------------
  // Issuing

  /**
   The lifetime `create_access_token` applies, in seconds. `if expires_delta:`
   treats a zero `timedelta` as false, so zero falls back to the default too.
   */
  function Lifetime(delta: Option<int>): (s: int)
    ensures delta.None? ==> s == 900
    ensures delta.Some? && delta.value != 0 ==> s == delta.value
    ensures delta == Some(0) ==> s == 900
  {
    if delta.Some? && delta.value != 0 then delta.value else DefaultLifetime
  }

  /**
   `create_access_token(data, expires_delta)` at time `now`: a copy of
   `data` with `exp` set, signed with `key`.
   */
  function CreateAccessToken(data: Payload, delta: Option<int>, now: int, key: string): (t: Jwt)
    ensures t.Signed? && t.key == key && t.alg == Algorithm
    ensures t.payload.Keys == data.Keys + {"exp"}
    ensures t.payload["exp"] == Num(now + Lifetime(delta))
    ensures forall c :: c in data && c != "exp" ==> t.payload[c] == data[c]
  {
    Signed(data["exp" := Num(now + Lifetime(delta))], key, Algorithm)
  }

  /** `create_tokens(user_id)` as written: the refresh lifetime is `REFRESH_TOKEN_EXPIRE_DAYS` minutes. */
  function CreateTokens(userId: string, now: int, key: string): (r: Token<Jwt>)
    ensures r.tokenType == "bearer" && r.refreshToken.Some?
    ensures r.accessToken == Signed(map["sub" := Str(userId), "exp" := Num(now + AccessTokenExpireMinutes * 60)], key, Algorithm)
    ensures r.refreshToken.value ==
              Signed(map["sub" := Str(userId), "type" := Str("refresh"), "exp" := Num(now + RefreshTokenExpireDays * 60)], key, Algorithm)
  {
    var access := CreateAccessToken(map["sub" := Str(userId)], Some(AccessTokenExpireMinutes * 60), now, key);
    var refresh := CreateAccessToken(map["sub" := Str(userId), "type" := Str("refresh")], Some(RefreshTokenExpireDays * 60), now, key);
    Token(access, "bearer", Some(refresh))
  }

  /** `create_tokens` with the refresh lifetime counted in days. */
  function CreateTokensFixed(userId: string, now: int, key: string): (r: Token<Jwt>)
    ensures r.tokenType == "bearer" && r.refreshToken.Some?
    ensures r.accessToken == CreateTokens(userId, now, key).accessToken
    ensures r.refreshToken.value ==
              Signed(map["sub" := Str(userId), "type" := Str("refresh"), "exp" := Num(now + RefreshTokenExpireDays * 24 * 60 * 60)], key, Algorithm)
  {
    var access := CreateAccessToken(map["sub" := Str(userId)], Some(AccessTokenExpireMinutes * 60), now, key);
    var refresh := CreateAccessToken(map["sub" := Str(userId), "type" := Str("refresh")], Some(RefreshTokenExpireDays * 24 * 60 * 60), now, key);
    Token(access, "bearer", Some(refresh))
  }

  /** The `exp` a freshly issued token carries. */
  function Expiry(t: Jwt): int
    requires t.Signed? && "exp" in t.payload && t.payload["exp"].Num?
  {
    t.payload["exp"].n
  }

  /** As written, a refresh token expires after 7 minutes, well before the 30-minute access token it comes with. */
  lemma {:induction false} RefreshExpiresBeforeAccess(userId: string, now: int, key: string)
    ensures var r := CreateTokens(userId, now, key);
            Expiry(r.refreshToken.value) == now + 420 &&
            Expiry(r.accessToken) == now + 1800 &&
            Expiry(r.refreshToken.value) < Expiry(r.accessToken)
  {
  }

  /** Counted in days, the refresh token outlives its access token, by a week less half an hour. */
  lemma {:induction false} RefreshOutlivesAccessFixed(userId: string, now: int, key: string)
    ensures var r := CreateTokensFixed(userId, now, key);
            Expiry(r.refreshToken.value) == now + 604800 &&
            Expiry(r.refreshToken.value) - Expiry(r.accessToken) == 604800 - 1800
  {
  }

  // ---------------------------------------------------------------------
  // Decoding

  /** The token decodes at all: it was signed with `key` under the one accepted algorithm. */
  predicate Verifiable(token: Jwt, key: string) {
    token.Signed? && token.key == key && token.alg == Algorithm
  }

  /** An `exp` claim that is present but not an integer. */
  predicate MalformedExpiry(p: Payload) {
    "exp" in p && !p["exp"].Num?
  }

  /** PyJWT's expiry check: a present `exp` has to lie strictly after `now`. */
  predicate Expired(p: Payload, now: int) {
    "exp" in p && p["exp"].Num? && p["exp"].n <= now
  }

  /** `jwt.decode` with the configured key and algorithm, the exceptions mapped to the handler's errors. */
  function VerifyClaims(token: Jwt, now: int, key: string): (r: Result<Payload, HttpError>)
    ensures r.Success? <==> Verifiable(token, key) && !MalformedExpiry(token.payload) && !Expired(token.payload, now)
    ensures r.Success? ==> r.value == token.payload
    ensures r.Failure? && Verifiable(token, key) && Expired(token.payload, now) ==> r.error == TokenExpired
    ensures r.Failure? && !(Verifiable(token, key) && Expired(token.payload, now)) ==> r.error == CouldNotValidate
  {
    if !Verifiable(token, key) || MalformedExpiry(token.payload) then Failure(CouldNotValidate)
    else if Expired(token.payload, now) then Failure(TokenExpired)
    else Success(token.payload)
  }

  /** `payload.get("type") in ["access", None]`: absent, JSON `null`, or `"access"`. */
  predicate AccessType(p: Payload) {
    "type" !in p || p["type"] == Null || p["type"] == Str("access")
  }

  /** `payload.get("type") == "refresh"`. */
  predicate RefreshType(p: Payload) {
    "type" in p && p["type"] == Str("refresh")
  }

  /** `decode_token(token)`. */
  function DecodeToken(token: Jwt, now: int, key: string): (r: Result<Payload, HttpError>)
    ensures r.Success? <==> VerifyClaims(token, now, key).Success? && AccessType(token.payload)
    ensures r.Success? ==> r.value == token.payload && !RefreshType(r.value)
    ensures r.Failure? ==> r.error.status == 401
    ensures r.Failure? && VerifyClaims(token, now, key).Success? ==> r.error == InvalidTokenType
  {
    var p :- VerifyClaims(token, now, key);
    if !AccessType(p) then Failure(InvalidTokenType) else Success(p)
  }

  /** An issued access token decodes to its payload until it expires, and then reports expiry. */
  lemma {:induction false} AccessTokenRoundTrip(userId: string, issued: int, now: int, key: string)
    ensures DecodeToken(CreateTokens(userId, issued, key).accessToken, now, key) ==
              if now < issued + 1800 then Success(map["sub" := Str(userId), "exp" := Num(issued + 1800)])
              else Failure(TokenExpired)
  {
    var p: Payload := map["sub" := Str(userId), "exp" := Num(issued + 1800)];
    assert "type" !in p;
  }

  // ---------------------------------------------------------------------
  // Refreshing

  /** `str(value)` of a claim fetched with `payload.get`. */
  function ClaimText(c: Option<Claim>): (s: string)
    ensures c.Some? && c.value.Str? ==> s == c.value.s
    ensures c.None? || c == Some(Null) ==> s == "None"
  {
    match c
    case None => "None"
    case Some(Null) => "None"
    case Some(Str(s)) => s
    case Some(Num(n)) => if n < 0 then "-" + NatToString(-n) else NatToString(n)
  }

  function Get(p: Payload, name: string): Option<Claim> {
    if name in p then Some(p[name]) else None
  }

  /** `refresh_tokens(refresh_token)` as written: decode through the access gate, then demand `type == "refresh"`. */
  function RefreshTokens(token: Jwt, now: int, key: string): (r: Result<Token<Jwt>, HttpError>)
    ensures r.Failure?
  {
    var p :- DecodeToken(token, now, key);
    if !RefreshType(p) then Failure(InvalidTypeToken)
    else Success(CreateTokens(ClaimText(Get(p, "sub")), now, key))
  }

  /**
   No token is ever refreshed: whatever passes `decode_token` has a type other
   than `refresh`, and whatever has that type is refused by `decode_token`.
   */
  lemma {:induction false} RefreshNeverSucceeds(token: Jwt, now: int, key: string)
    ensures RefreshTokens(token, now, key).Failure?
    ensures DecodeToken(token, now, key).Success? ==> RefreshTokens(token, now, key).error == InvalidTypeToken
    ensures token.Signed? && RefreshType(token.payload) ==> RefreshTokens(token, now, key).error != InvalidTypeToken
  {
  }

  /** The refresh token `create_tokens` issues is refused by `refresh_tokens`, first as the wrong type, later as expired. */
  lemma {:induction false} IssuedRefreshTokenRejected(userId: string, issued: int, now: int, key: string)
    ensures RefreshTokens(CreateTokens(userId, issued, key).refreshToken.value, now, key) ==
              Failure(if now < issued + 420 then InvalidTokenType else TokenExpired)
  {
  }

  /** `refresh_tokens` with a gate that accepts exactly refresh tokens, issuing through `CreateTokensFixed`. */
  function RefreshTokensFixed(token: Jwt, now: int, key: string): (r: Result<Token<Jwt>, HttpError>)
    ensures r.Success? <==> VerifyClaims(token, now, key).Success? && RefreshType(token.payload)
    ensures r.Failure? ==> r.error.status == 401
  {
    var p :- VerifyClaims(token, now, key);
    if !RefreshType(p) then Failure(InvalidTypeToken)
    else Success(CreateTokensFixed(ClaimText(Get(p, "sub")), now, key))
  }

  /**
   With the fixed gate and lifetime, an issued refresh token can be exchanged
   throughout its week for a fresh pair for the same user, and not after.
   */
  lemma {:induction false} RefreshRoundTripFixed(userId: string, issued: int, now: int, key: string)
    ensures RefreshTokensFixed(CreateTokensFixed(userId, issued, key).refreshToken.value, now, key) ==
              if now < issued + 604800 then Success(CreateTokensFixed(userId, now, key))
              else Failure(TokenExpired)
  {
    var t := CreateTokensFixed(userId, issued, key).refreshToken.value;
    assert Get(t.payload, "sub") == Some(Str(userId));
  }

  /** The fixed gates still keep the two kinds apart: an access token cannot refresh, a refresh token cannot authenticate. */
  lemma {:induction false} TokenKindsStaySeparateFixed(userId: string, issued: int, now: int, key: string)
    ensures RefreshTokensFixed(CreateTokensFixed(userId, issued, key).accessToken, now, key).Failure?
    ensures DecodeToken(CreateTokensFixed(userId, issued, key).refreshToken.value, now, key).Failure?
  {
    var a := CreateTokensFixed(userId, issued, key).accessToken;
    assert "type" !in a.payload;
  }

  // ---------------------------------------------------------------------
  // The Authorization header

  /** `get_token_from_header(authorization)`; `None` is a missing header. */
  function GetTokenFromHeader(authorization: Option<string>): (r: Result<string, HttpError>)
    ensures r.Success? <==> authorization.Some? && StartsWith(authorization.value, "Bearer ")
    ensures r.Success? ==> "Bearer " + r.value == authorization.value
    ensures r.Failure? ==> r.error == NotAuthenticated
  {
    if authorization.None? || authorization.value == "" || !StartsWith(authorization.value, "Bearer ") then
      Failure(NotAuthenticated)
    else Success(authorization.value[7..])
  }

  /** A `Bearer` header gives back exactly the token it carries. */
  lemma {:induction false} BearerRoundTrip(token: string)
    ensures GetTokenFromHeader(Some("Bearer " + token)) == Success(token)
  {
    var h := "Bearer " + token;
    assert h[..7] == "Bearer ";
    assert h[7..] == token;
  }
}
