/**
 * Flows of the use-case and route tests, run on any valid store: a review
 * followed by a second review of the same game by the same author, and a
 * login whose tokens then authenticate a request and refresh.
 */
module Scenario {
  import opened Wrappers
  import opened Errors
  import opened Entities
  import opened Ratings
  import opened Bcrypt
  import opened Env
  import Jwt
  import opened AuthTokens
  import opened InMemory
  import opened Messages
  import LoginUseCase
  import CreateReviewUseCase
  import RefreshTokenUseCase
  import AuthMiddleware

  /** `after` is `before` with the average rating of game `gameId` recomputed over `reviews`. */
  ghost predicate Recomputed(before: seq<Game>, after: seq<Game>, reviews: seq<Review>, gameId: nat) {
    && |after| == |before|
    && forall k :: 0 <= k < |after| ==>
         after[k] == if before[k].id == gameId then before[k].(avgRating := Average(reviews, gameId)) else before[k]
  }

  /**
   * An author who has not reviewed a game reviews it, then tries again:
   * the first review is stored and its game's average recomputed once; the
   * second is refused and changes nothing.
   */
  method ReviewTwice(store: Store, gameId: nat, authorId: nat, rating: int, again: int)
    returns (first: Result<Review>, second: Result<Review>)
    requires store.Valid() && authorId != 0 && ValidRating(rating) && ValidRating(again)
    requires store.GameById(gameId).Some? && store.ReviewByAuthorAndGame(authorId, gameId).None?
    modifies store`reviews, store`nextReviewId, store`games, store`recomputed
    ensures first.Ok? && first.value.authorId == authorId && first.value.gameId == gameId
    ensures second == Err(App(ValidationError(AlreadyReviewed)))
    ensures store.reviews == old(store.reviews) + [first.value]
    ensures store.nextReviewId == old(store.nextReviewId) + 1
    ensures Recomputed(old(store.games), store.games, store.reviews, gameId)
    ensures store.recomputed == old(store.recomputed) + [gameId]
  {
    first := ReviewFirst(store, gameId, authorId, rating);
    second := ReviewAgain(store, gameId, authorId, again);
  }

  /** An author's first review of a game is stored, after which the store finds it. */
  method ReviewFirst(store: Store, gameId: nat, authorId: nat, rating: int) returns (r: Result<Review>)
    requires store.Valid() && authorId != 0 && ValidRating(rating)
    requires store.GameById(gameId).Some? && store.ReviewByAuthorAndGame(authorId, gameId).None?
    modifies store`reviews, store`nextReviewId, store`games, store`recomputed
    ensures r.Ok? && r.value.authorId == authorId && r.value.gameId == gameId
    ensures store.reviews == old(store.reviews) + [r.value]
    ensures store.nextReviewId == old(store.nextReviewId) + 1
    ensures Recomputed(old(store.games), store.games, store.reviews, gameId)
    ensures store.recomputed == old(store.recomputed) + [gameId]
    ensures store.Valid() && store.GameById(gameId).Some? && store.ReviewByAuthorAndGame(authorId, gameId).Some?
  {
    r := CreateReviewUseCase.Execute(store, rating, None, gameId, Some(authorId));
    assert store.GameById(gameId).Some? by {
      var k :| 0 <= k < |old(store.games)| && old(store.games)[k].id == gameId;
      assert store.games[k].id == gameId;
    }
    assert store.ReviewByAuthorAndGame(authorId, gameId).Some? by {
      assert store.reviews[|store.reviews| - 1] == r.value;
    }
  }

  /** An author who has already reviewed a game is refused, and nothing changes. */
  method ReviewAgain(store: Store, gameId: nat, authorId: nat, rating: int) returns (r: Result<Review>)
    requires store.Valid() && authorId != 0 && ValidRating(rating)
    requires store.GameById(gameId).Some? && store.ReviewByAuthorAndGame(authorId, gameId).Some?
    modifies store`reviews, store`nextReviewId, store`games, store`recomputed
    ensures r == Err(App(ValidationError(AlreadyReviewed)))
    ensures unchanged(store)
  {
    r := CreateReviewUseCase.Execute(store, rating, None, gameId, Some(authorId));
  }

  /**
   * A user logs in with the right password; the access token, sent under
   * the scheme "Bearer", identifies them on a later request.
   */
  method LoginThenAuthenticate(store: Store, req: AuthMiddleware.AuthRequest, cfg: Config, email: string, password: string, nowMs: nat)
    returns (login: Result<LoginUseCase.LoginResult>, authed: Result<()>)
    requires store.Valid() && store.UserByEmail(email).Some?
    requires Matches(password, store.UserByEmail(email).value.password)
    requires cfg.accessTokenLifetime >= 1
    modifies store`tokens, req
    ensures login.Ok? && authed.Ok?
    ensures req.userId == Some(old(store.UserByEmail(email)).value.id)
    ensures req.role == Some(old(store.UserByEmail(email)).value.role)
  {
    var u := store.UserByEmail(email).value;
    login := LoginUseCase.Execute(store, cfg, email, password, nowMs);
    req.authorization := Some("Bearer" + " " + login.value.accessToken);
    AuthMiddleware.LoginTokenAuthenticates(cfg, u, nowMs, "Bearer", nowMs);
    authed := AuthMiddleware.EnsureAuth(req, cfg.jwtAccessSecret, nowMs);
  }

  /**
   * A refresh token stored the way a login stores it, for a user who still
   * exists, yields a new access token for that user at every instant before
   * its stored expiry.
   */
  method RefreshBeforeExpiry(store: Store, cfg: Config, u: User, issuedMs: nat, nowMs: nat)
    returns (refreshed: Result<RefreshTokenUseCase.RefreshResult>)
    requires store.Valid() && u in store.users
    requires var token := RefreshTokenFor(cfg, u, issuedMs);
      store.TokenByValue(token) == Some(RefreshToken(token, u.id, StoredExpiry(token)))
    requires nowMs < StoredExpiry(RefreshTokenFor(cfg, u, issuedMs))
    modifies store`tokens
    ensures refreshed == Ok(RefreshTokenUseCase.RefreshResult(AccessToken(cfg, u, nowMs), ViewOf(u)))
    ensures unchanged(store)
  {
    var token := RefreshTokenFor(cfg, u, issuedMs);
    assert Jwt.Verify(token, cfg.jwtRefreshSecret, nowMs) == Some(RefreshPayload(u)) by {
      RefreshExpiry(cfg, u, issuedMs, nowMs);
      Jwt.VerifySigned(RefreshPayload(u), cfg.jwtRefreshSecret, cfg.refreshTokenLifetime, issuedMs, cfg.jwtRefreshSecret, nowMs);
    }
    RefreshTokenUseCase.RefreshSubjectFindsUser(store, u);
    refreshed := RefreshTokenUseCase.Execute(store, cfg, token, nowMs);
  }

  /**
   * A user logs in with the right password, and the refresh token issued
   * then yields, in the same instant, a new access token for that user.
   */
  method LoginThenRefresh(store: Store, cfg: Config, email: string, password: string, nowMs: nat)
    returns (login: Result<LoginUseCase.LoginResult>, refreshed: Result<RefreshTokenUseCase.RefreshResult>)
    requires store.Valid() && store.UserByEmail(email).Some?
    requires Matches(password, store.UserByEmail(email).value.password)
    requires store.TokenByValue(RefreshTokenFor(cfg, store.UserByEmail(email).value, nowMs)).None?
    requires cfg.refreshTokenLifetime >= 1
    modifies store`tokens
    ensures login.Ok? && refreshed.Ok? && refreshed.value.user == login.value.user
  {
    var u := store.UserByEmail(email).value;
    var token := RefreshTokenFor(cfg, u, nowMs);
    var record := RefreshToken(token, u.id, StoredExpiry(token));
    ghost var tokens0 := store.tokens;
    login := LoginUseCase.Execute(store, cfg, email, password, nowMs);
    store.AppendedTokenFound(tokens0, record);
    FreshRefreshNotExpired(cfg, u, nowMs);
    refreshed := RefreshBeforeExpiry(store, cfg, u, nowMs, nowMs);
  }
}
