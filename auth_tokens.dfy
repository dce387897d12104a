/**
 * The two tokens a login issues. The access token names its user by the
 * decimal string of the id (`String(user.id)`), the refresh token by the
 * number itself; both carry the user's role.
 */
module AuthTokens {
  import opened Wrappers
  import opened Decimal
  import opened Jwt
  import opened Entities
  import opened Env

  function AccessPayload(u: User): (p: Payload)
    ensures p.sub == TextSubject(NatToString(u.id)) && p.role == u.role
    ensures JsNumber(p.sub.text) == Some(u.id)
  {
    NumberOfString(u.id);
    Payload(TextSubject(NatToString(u.id)), u.role)
  }

  function RefreshPayload(u: User): (p: Payload)
    ensures p.sub == NumericSubject(u.id) && p.role == u.role
  {
    Payload(NumericSubject(u.id), u.role)
  }

  /** The access token for `u`, issued at `nowMs`. */
  function AccessToken(cfg: Config, u: User, nowMs: nat): string {
    Sign(AccessPayload(u), cfg.jwtAccessSecret, cfg.accessTokenLifetime, nowMs)
  }

  /** The refresh token for `u`, issued at `nowMs`. */
  function RefreshTokenFor(cfg: Config, u: User, nowMs: nat): string {
    Sign(RefreshPayload(u), cfg.jwtRefreshSecret, cfg.refreshTokenLifetime, nowMs)
  }

  /**
   * `new Date(decoded.exp * 1000)`: the expiry, in milliseconds, that a
   * login stores beside the refresh token.
   */
  function StoredExpiry(token: string): nat {
    match Decode(token)
    case None => 0
    case Some(c) => c.exp * 1000
  }

  /** A second is before `exp` exactly when its first millisecond is before `exp * 1000`. */
  lemma SecondBeforeExpiry(nowMs: nat, exp: nat)
    ensures nowMs / 1000 < exp <==> nowMs < exp * 1000
  {
    var q, m := nowMs / 1000, nowMs % 1000;
    assert nowMs == q * 1000 + m && 0 <= m < 1000;
    if q < exp {
      assert q * 1000 + 1000 <= exp * 1000;
    } else {
      assert exp * 1000 <= q * 1000;
    }
  }

  /**
   * The refresh token issued at `issuedMs` carries the stored expiry
   * `(issuedMs / 1000 + lifetime) * 1000`, and verifies under the refresh
   * secret exactly at the instants before it. So the store's check
   * (`expiresAt < now`) and the signature's expiry disagree at one instant,
   * `now == expiresAt`, where the store still accepts the token and
   * verification rejects it.
   */
  lemma RefreshExpiry(cfg: Config, u: User, issuedMs: nat, nowMs: nat)
    ensures StoredExpiry(RefreshTokenFor(cfg, u, issuedMs)) == (issuedMs / 1000 + cfg.refreshTokenLifetime) * 1000
    ensures Verify(RefreshTokenFor(cfg, u, issuedMs), cfg.jwtRefreshSecret, nowMs).Some?
        <==> nowMs < StoredExpiry(RefreshTokenFor(cfg, u, issuedMs))
    ensures nowMs == StoredExpiry(RefreshTokenFor(cfg, u, issuedMs)) ==>
        !(StoredExpiry(RefreshTokenFor(cfg, u, issuedMs)) < nowMs)
        && Verify(RefreshTokenFor(cfg, u, issuedMs), cfg.jwtRefreshSecret, nowMs).None?
  {
    var exp := issuedMs / 1000 + cfg.refreshTokenLifetime;
    VerifySigned(RefreshPayload(u), cfg.jwtRefreshSecret, cfg.refreshTokenLifetime, issuedMs, cfg.jwtRefreshSecret, nowMs);
    SecondBeforeExpiry(nowMs, exp);
  }

  /** With a lifetime of at least a second, a refresh token has not expired at the instant it is issued. */
  lemma FreshRefreshNotExpired(cfg: Config, u: User, nowMs: nat)
    requires cfg.refreshTokenLifetime >= 1
    ensures nowMs < StoredExpiry(RefreshTokenFor(cfg, u, nowMs))
  {
    RefreshExpiry(cfg, u, nowMs, nowMs);
    SecondBeforeExpiry(nowMs, nowMs / 1000 + cfg.refreshTokenLifetime);
  }
}
