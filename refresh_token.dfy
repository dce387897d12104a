/**
 * `RefreshTokenUseCase.execute`: exchanges a stored, unexpired refresh
 * token for a new access token. Expiry is checked lazily against the
 * stored date, and an expired record is deleted on the way out. The
 * refresh token itself is neither rotated nor consumed.
 */
module RefreshTokenUseCase {
  import opened Wrappers
  import opened Errors
  import opened Entities
  import opened Collections
  import opened Jwt
  import opened Env
  import opened AuthTokens
  import opened InMemory
  import opened Messages

  datatype RefreshResult = RefreshResult(accessToken: string, user: UserView)

  /**
   * `userRepository.findById(decoded.sub)`: a numeric subject names the user
   * with that id; a string subject equals no numeric id.
   */
  function SubjectUser(store: Store, sub: Subject): (u: Option<User>)
    reads store
    ensures u.Some? ==> u.value in store.users && sub == NumericSubject(u.value.id)
    ensures sub.NumericSubject? && u.None? ==> forall k :: 0 <= k < |store.users| ==> store.users[k].id != sub.id
  {
    match sub
    case TextSubject(_) => None
    case NumericSubject(id) => store.UserById(id)
  }

  /** The stored expiry lies in the past (strictly: a record expiring now is still accepted). */
  predicate Expired(t: RefreshToken, nowMs: nat) {
    t.expiresAt < nowMs
  }

  method Execute(store: Store, cfg: Config, token: string, nowMs: nat) returns (r: Result<RefreshResult>)
    requires store.Valid()
    modifies store`tokens
    ensures store.Valid()
    ensures old(store.TokenByValue(token)).None?
      ==> r == Err(App(AuthenticationError(RefreshTokenInvalid))) && unchanged(store)
    ensures old(store.TokenByValue(token)).Some? && Expired(old(store.TokenByValue(token)).value, nowMs)
      ==> r == Err(App(AuthenticationError(RefreshTokenExpired)))
          && store.tokens == Filter(old(store.tokens), (x: RefreshToken) => x.token != token)
          && store.TokenByValue(token).None?
    // a signature failure is not an AppError: it reaches the error handler as an internal error
    ensures old(store.TokenByValue(token)).Some? && !Expired(old(store.TokenByValue(token)).value, nowMs)
      && Verify(token, cfg.jwtRefreshSecret, nowMs).None?
      ==> r == Err(Internal(VerifyFailed)) && unchanged(store)
    ensures old(store.TokenByValue(token)).Some? && !Expired(old(store.TokenByValue(token)).value, nowMs)
      && Verify(token, cfg.jwtRefreshSecret, nowMs).Some?
      && SubjectUser(store, Verify(token, cfg.jwtRefreshSecret, nowMs).value.sub).None?
      ==> r == Err(App(AuthenticationError(UserNotFound))) && unchanged(store)
    ensures r.Ok? <==>
      old(store.TokenByValue(token)).Some? && !Expired(old(store.TokenByValue(token)).value, nowMs)
      && Verify(token, cfg.jwtRefreshSecret, nowMs).Some?
      && SubjectUser(store, Verify(token, cfg.jwtRefreshSecret, nowMs).value.sub).Some?
    // a fresh access token for the user as stored now (current role), and no change to the store
    ensures r.Ok? ==>
      var u := SubjectUser(store, Verify(token, cfg.jwtRefreshSecret, nowMs).value.sub).value;
      r.value == RefreshResult(AccessToken(cfg, u, nowMs), ViewOf(u)) && unchanged(store)
  {
    var stored := store.TokenByValue(token);
    if stored.None? {
      return Err(App(AuthenticationError(RefreshTokenInvalid)));
    }
    if stored.value.expiresAt < nowMs {
      store.DeleteByToken(token);
      return Err(App(AuthenticationError(RefreshTokenExpired)));
    }
    var decoded := Verify(token, cfg.jwtRefreshSecret, nowMs);
    if decoded.None? {
      return Err(Internal(VerifyFailed));
    }
    var user := SubjectUser(store, decoded.value.sub);
    if user.None? {
      return Err(App(AuthenticationError(UserNotFound)));
    }
    var payload := AccessPayload(user.value);
    var newAccessToken := Sign(payload, cfg.jwtAccessSecret, cfg.accessTokenLifetime, nowMs);
    return Ok(RefreshResult(newAccessToken, ViewOf(user.value)));
  }

  /** The subject of a refresh token issued to a stored user finds that user again. */
  lemma RefreshSubjectFindsUser(store: Store, u: User)
    requires store.WellFormed() && u in store.users
    ensures SubjectUser(store, RefreshPayload(u).sub) == Some(u)
  {
    var found := store.UserById(u.id);
    var i :| 0 <= i < |store.users| && store.users[i] == u;
    assert found.Some?;
    var j :| 0 <= j < |store.users| && store.users[j] == found.value;
    assert i == j;
  }

  /** The subject of an access token is a string, so it never finds a user here. */
  lemma AccessSubjectFindsNobody(store: Store, u: User)
    ensures SubjectUser(store, AccessPayload(u).sub).None?
  {
  }
}
