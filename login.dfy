/**
 * `LoginUseCase.execute`: with the right email and password, issues an
 * access token and a refresh token and persists the refresh token with its
 * expiry. Every failure is the same AuthenticationError, so a caller cannot
 * tell an unknown email from a wrong password.
 */
module LoginUseCase {
  import opened Wrappers
  import opened Errors
  import opened Entities
  import opened Bcrypt
  import opened Jwt
  import opened Env
  import opened AuthTokens
  import opened InMemory
  import opened Messages

  datatype LoginResult = LoginResult(accessToken: string, refreshToken: string, user: UserView)

  method Execute(store: Store, cfg: Config, email: string, password: string, nowMs: nat)
    returns (r: Result<LoginResult>)
    requires store.Valid()
    modifies store`tokens
    ensures store.Valid()
    ensures r.Err? <==>
      old(store.UserByEmail(email)).None? || !Matches(password, old(store.UserByEmail(email)).value.password)
    ensures r.Err? ==> r == Err(App(AuthenticationError(InvalidCredentials))) && unchanged(store)
    ensures r.Ok? ==>
      var u := old(store.UserByEmail(email)).value;
      && r.value == LoginResult(AccessToken(cfg, u, nowMs), RefreshTokenFor(cfg, u, nowMs), ViewOf(u))
      // exactly one record is added, the earlier ones are kept
      && store.tokens == old(store.tokens) + [RefreshToken(r.value.refreshToken, u.id, StoredExpiry(r.value.refreshToken))]
      && StoredExpiry(r.value.refreshToken) == (nowMs / 1000 + cfg.refreshTokenLifetime) * 1000
  {
    var user := store.UserByEmail(email);
    if user.None? {
      return Err(App(AuthenticationError(InvalidCredentials)));
    }
    var matched := Matches(password, user.value.password);
    if !matched {
      return Err(App(AuthenticationError(InvalidCredentials)));
    }
    var accessToken := Sign(AccessPayload(user.value), cfg.jwtAccessSecret, cfg.accessTokenLifetime, nowMs);
    var refreshToken := Sign(RefreshPayload(user.value), cfg.jwtRefreshSecret, cfg.refreshTokenLifetime, nowMs);
    var decoded := Decode(refreshToken);
    var expiresAt := decoded.value.exp * 1000;
    store.CreateToken(refreshToken, user.value.id, expiresAt);
    return Ok(LoginResult(accessToken, refreshToken, ViewOf(user.value)));
  }
}
