# Game review API: use cases and middlewares in Dafny

This project models the domain core of a small game-review backend written
in TypeScript. It covers:

- the seven review and game use cases: create, update and delete a review;
  create, update, delete and fetch a game;
- the three auth use cases: register, login and refresh;
- the authentication and admin-gate middlewares;
- the typed error classes and the error handler that turns a thrown error
  into an HTTP reply.

Each use case that writes is a `method Execute` over one `InMemory.Store`
object; `GetGameByIdUseCase.Execute`, which only reads, is a function of the
store. That
object plays the four injected repositories: users, games, reviews and
refresh tokens. Its fields are sequences that the methods reassign, as the
in-memory repositories of `tests/routes.e2e.test.ts` do. Its ids come from
counters, as the database's autoincrement does.

Each `Execute` method states in its contract:

- which error every request earns, in the order the checks run;
- that a rejected request leaves the store unchanged, with one exception:
  a refresh whose stored record has expired deletes that record, then
  refuses;
- the exact new state after a success;
- that the store invariant `Valid()` is preserved. The invariant says:
  - ids, emails and game titles are unique;
  - each author reviews a game at most once;
  - ratings lie in 1..5 and comments hold at most 500 characters;
  - every game carries the exact average of its reviews' ratings, or 0
    when it has none.

Errors are values, never exceptions. `Errors.Result` is `Ok(value)` or
`Err(thrown)`. A thrown value is either an `App` error, meaning one of the
`AppError` classes, or an `Internal` failure of any other kind.

Three effects are inputs to the model rather than part of it:

- The clock is the parameter `nowMs`, in milliseconds.
- The environment is an `Env.Config` value holding the two secrets and the
  two token lifetimes in seconds.
- Password hashing and JWT signing are concrete, non-cryptographic stand-ins:
  - A hash is a tagged copy of its password, and in this stand-in only that
    whole password matches it (bcrypt itself reads only the first 72 bytes).
  - A token is text that encodes its claims and the identity of the secret
    that signed it. It decodes back to exactly those claims. It holds no
    space. It verifies only under that same secret, and only before its
    expiry second.

The properties that cut across operations are lemmas or small methods:

- the average stays in 1..5;
- `Number(String(id)) == id`, so an access token issued at login
  authenticates as that user;
- a refresh token found in the store and before its expiry yields a new
  access token;
- a second review of the same game by the same author is refused;
- a stored refresh token and its signature disagree about expiry at exactly
  one instant.

## Model

| member | source | states |
|---|---|---|
| Errors.NewAppError | src/presentation/errors/AppError.ts:1-7 | an `AppError` keeps its message; its status is the one given, or 400 when none is given |
| Errors.ValidationError | src/presentation/errors/AppError.ts:8-10 | a validation error has status 400 and keeps its message |
| Errors.AuthenticationError | src/presentation/errors/AppError.ts:11-13 | an authentication error has status 401 and keeps its message |
| Errors.ForbiddenError | src/presentation/errors/AppError.ts:14-16 | a forbidden error has status 403 and keeps its message |
| Errors.NotFoundError | src/presentation/errors/AppError.ts:17-19 | a not-found error has status 404 and keeps its message |
| Errors.StatusIdentifiesSubclass | src/presentation/errors/AppError.ts:8-19 | the four subclasses have pairwise distinct statuses, all in 4xx, so two errors share a status exactly when they share a class |
| ErrorHandler.HandleError | src/presentation/middlewares/errorHandler.ts:3-9 | an `AppError` becomes its own status with body `{error: message}`; any other failure becomes 500 with the fixed generic message |
| ErrorHandler.TypedErrorReplies | src/presentation/middlewares/errorHandler.ts:4-5 | validation, authentication, forbidden and not-found errors reach the client as 400, 401, 403 and 404, with the message intact |
| ErrorHandler.InternalDetailNotLeaked | src/presentation/middlewares/errorHandler.ts:7-8 | the message of an unclassified failure never appears in the reply body |
| Text.Trim | src/domain/usecases/games/CreateGameUseCase.ts:7-8 | `trim()` returns a contiguous piece of the string; everything before it and everything after it is whitespace; it has no whitespace at either end, and it is empty exactly when the string is all whitespace |
| Text.MissingOrBlankMeaning | src/domain/usecases/auth/RegisterUserUseCase.ts:8-9 | the blank-field guard (no value, or an empty `trim()`) rejects exactly the undefined fields and the fields made only of whitespace, the empty string included |
| Text.VisibleFirstNotBlank | src/domain/usecases/games/CreateGameUseCase.ts:7 | a field whose first character is not whitespace passes the guard |
| Decimal.NatToString | src/domain/usecases/auth/LoginUseCase.ts:20 | `String(id)` is a non-empty string of digits without a leading zero |
| Decimal.JsNumber | src/presentation/middlewares/authMiddleware.ts:20 | `Number(s)` is a number exactly when `s` is made of digits, and the empty string gives 0 |
| Decimal.NumberOfString | src/presentation/middlewares/authMiddleware.ts:20 | `Number(String(n)) == n` |
| Decimal.StringOfNumber | src/presentation/middlewares/authMiddleware.ts:20 | on canonical numerals, `String(Number(s)) == s` |
| Bcrypt.Hash | src/domain/usecases/auth/RegisterUserUseCase.ts:13 | the stored hash is never the password itself |
| Bcrypt.MatchesOnlyItsPassword | src/domain/usecases/auth/LoginUseCase.ts:16-17 | `compare(p, hash(q))` holds exactly when `p == q` |
| Jwt.Sign | src/domain/usecases/auth/LoginUseCase.ts:18-29 | a signed token decodes to its payload, with `iat` the current second, `exp` that second plus the lifetime, and the signing secret; it is not empty and holds no space |
| Jwt.DecodeEncode | src/domain/usecases/auth/LoginUseCase.ts:30 | decoding an encoded token gives back exactly its claims |
| Jwt.VerifySigned | src/domain/usecases/auth/RefreshTokenUseCase.ts:19 | a signed token verifies, giving back its payload, exactly under its own secret and before its expiry second |
| AuthTokens.AccessPayload | src/domain/usecases/auth/LoginUseCase.ts:19-23 | the access token's subject is exactly the text `String(id)`, which `Number` reads back as the id; its role is the user's role |
| AuthTokens.RefreshPayload | src/domain/usecases/auth/LoginUseCase.ts:25-29 | the refresh token's subject is the number `id`; its role is the user's role |
| AuthTokens.SecondBeforeExpiry | src/domain/usecases/auth/RefreshTokenUseCase.ts:15-19 | a current second lies before `exp` exactly when the current millisecond lies before `exp * 1000` |
| AuthTokens.RefreshExpiry | src/domain/usecases/auth/RefreshTokenUseCase.ts:15-19 | the stored expiry is `(issued second + lifetime) * 1000`; the token verifies exactly before that instant, so at `now == expiresAt` the store check passes while verification fails |
| AuthTokens.FreshRefreshNotExpired | src/domain/usecases/auth/LoginUseCase.ts:24-32 | with a lifetime of at least one second, a refresh token has not expired at the instant it is issued |
| Ratings.AverageInRange | src/domain/repositories/implementations/PrismaGameRepository.ts:24-33 | with every rating in 1..5, a game's average is in 1..5, or 0 when it has no reviews |
| Ratings.NoReviewsNoRating | tests/routes.e2e.test.ts:78-83 | a game that no review points at has count 0 and average 0 |
| Ratings.AppendReview | src/domain/usecases/reviews/CreateReviewUseCase.ts:18-24 | appending a review adds its rating to its own game's sum and count, and leaves every other game's average alone |
| Ratings.ReplaceReview | src/domain/usecases/reviews/UpdateReviewUseCase.ts:32-33 | replacing a review by one for the same game changes that game's sum by the difference of the ratings, and changes no other game's totals |
| Ratings.RemoveReview | src/domain/usecases/reviews/DeleteReviewUseCase.ts:16-17 | removing a review takes its rating out of its own game's sum and count, and out of no other game's |
| Ratings.RemoveOtherReview | src/domain/usecases/reviews/DeleteReviewUseCase.ts:16-17 | removing a review of another game leaves a game's average unchanged |
| InMemory.Store.UniqueKeys | src/domain/usecases/reviews/CreateReviewUseCase.ts:16-17 | in a well-formed store, emails, game titles and (author, game) pairs each identify at most one record |
| InMemory.Store.constructor | tests/routes.e2e.test.ts:11-16 | an empty store is valid and its id counters start at 1 |
| InMemory.Store.UserByEmail | tests/routes.e2e.test.ts:41-43 | `findByEmail` finds a stored user with that email, or null exactly when no user has it |
| InMemory.Store.UserById | tests/routes.e2e.test.ts:44-46 | `findById` finds a stored user with that id, or null exactly when no user has it |
| InMemory.Store.GameById | tests/routes.e2e.test.ts:69-71 | `findById` finds a stored game with that id, or null exactly when no game has it |
| InMemory.Store.GameByTitle | tests/routes.e2e.test.ts:72-74 | `findByTitle` finds a stored game with exactly that title, or null exactly when no game has it |
| InMemory.Store.ReviewById | tests/routes.e2e.test.ts:100-102 | `findById` finds a stored review with that id, or null exactly when no review has it |
| InMemory.Store.ReviewByAuthorAndGame | tests/routes.e2e.test.ts:106-108 | `findByAuthorAndGame` finds a stored review by that author of that game, or null exactly when there is none |
| InMemory.Store.TokenByValue | tests/routes.e2e.test.ts:117-119 | `findByToken` finds the first stored record of that token (no earlier record carries it), or null exactly when there is none |
| InMemory.Store.AverageRating | tests/routes.e2e.test.ts:79-80 | the one-pass sum and count over the reviews give the mean rating of the game's reviews, or 0 when it has none |
| InMemory.Store.CreateUser | tests/routes.e2e.test.ts:36-40 | appends exactly one user under a fresh id and keeps the store valid |
| InMemory.Store.CreateGame | tests/routes.e2e.test.ts:50-60 | appends exactly one game under a fresh id with average 0 and keeps the store valid |
| InMemory.Store.UpdateGame | src/domain/repositories/implementations/PrismaGameRepository.ts:8-11 | the game with that id takes the title and genre it is given and keeps the ones it is not given; every other game is unchanged |
| InMemory.Store.DeleteGame | tests/routes.e2e.test.ts:66-68 | exactly the game with that id is filtered out; the others keep their order, and a lookup of the id then finds nothing |
| InMemory.Store.UpdateAvgRating | tests/routes.e2e.test.ts:78-83 | the game's average becomes the mean of its current reviews; nothing else changes, and the recompute is logged once |
| InMemory.Store.CreateReview | tests/routes.e2e.test.ts:87-91 | appends exactly one review under a fresh id; every other game's average stays current |
| InMemory.Store.UpdateReview | src/domain/repositories/implementations/PrismaReviewRepository.ts:8-10 | the review with that id takes the rating and comment it is given and keeps the others, its game and author included; every other review is unchanged |
| InMemory.Store.DeleteReview | tests/routes.e2e.test.ts:97-99 | exactly the review with that id is filtered out; the others keep their order, and every other game's average stays current |
| InMemory.Store.CreateToken | tests/routes.e2e.test.ts:112-116 | appends exactly one refresh-token record |
| InMemory.Store.AppendedTokenFound | tests/routes.e2e.test.ts:112-119 | a record appended under a token that no earlier record carries is the one `findByToken` returns |
| InMemory.Store.DeleteByToken | tests/routes.e2e.test.ts:120-122 | every record of the token is filtered out, and `findByToken` then finds nothing |
| CreateReviewUseCase.Execute | src/domain/usecases/reviews/CreateReviewUseCase.ts:10-26 | the checks run in order: author id, then rating in 1..5, then comment of at most 500 characters, then the game exists, then no earlier review by this author. Each failing check gives its own error and changes nothing. A success appends exactly one review, with an omitted comment stored as "". It recomputes that game's average exactly once, and the store stays valid |
| UpdateReviewUseCase.RequestError | src/domain/usecases/reviews/UpdateReviewUseCase.ts:17-26 | a request passes its own checks exactly when it supplies a field, any rating is in 1..5, and any comment is neither blank nor over 500 characters; each failure is a validation error |
| UpdateReviewUseCase.RequestErrorOrder | src/domain/usecases/reviews/UpdateReviewUseCase.ts:17-26 | a request that fails its own checks gets the message of the first one it fails: nothing supplied, then rating, then blank comment, then long comment |
| UpdateReviewUseCase.Rejection | src/domain/usecases/reviews/UpdateReviewUseCase.ts:17-31 | the request's own errors come before the lookup, so an invalid request on a missing review is a validation error. After them, a missing review is NotFound, and a requester who is neither the author nor ADMIN is Forbidden |
| UpdateReviewUseCase.Execute | src/domain/usecases/reviews/UpdateReviewUseCase.ts:16-35 | fails exactly when `Rejection` gives an error, with that error and no change to the store. On success only the supplied fields of that one review change; its game and author are kept. That game's average is then recomputed once, and the store stays valid |
| DeleteReviewUseCase.Execute | src/domain/usecases/reviews/DeleteReviewUseCase.ts:10-18 | a missing review gives NotFound; a requester who is neither the author nor ADMIN gives Forbidden, and nothing changes. Otherwise exactly that review is removed and the average of the game it belonged to is recomputed. The store stays valid |
| CreateGameUseCase.Execute | src/domain/usecases/games/CreateGameUseCase.ts:6-13 | a blank title, then a blank genre, then a title held exactly by another game are each refused, with no change. Otherwise exactly one game is appended, under a fresh id, with average 0, and titles stay unique |
| UpdateGameUseCase.Rejection | src/domain/usecases/games/UpdateGameUseCase.ts:7-14 | a missing game is NotFound before any field check. Then a supplied title that is blank, or held by another game, is refused, and a game may keep its own title. Then a supplied blank genre is refused |
| UpdateGameUseCase.Execute | src/domain/usecases/games/UpdateGameUseCase.ts:6-17 | fails exactly when `Rejection` gives an error, with no change. Otherwise only the supplied fields of that game change; its id and average are kept, and with no field supplied it is unchanged. Titles stay unique |
| UpdateGameUseCase.Apply | src/domain/usecases/games/UpdateGameUseCase.ts:15-16 | once the checks pass, the update changes only the supplied fields of that one game and keeps the store valid |
| UpdateGameUseCase.TitleFreeForGame | src/domain/usecases/games/UpdateGameUseCase.ts:11-12 | when no other game is the first found with a title, no other game has that title at all |
| DeleteGameUseCase.Execute | src/domain/usecases/games/DeleteGameUseCase.ts:6-10 | fails with NotFound exactly when the game is missing, with no change. Otherwise exactly that game is removed and the others are kept in order, so a second delete fails. Reviews and averages are untouched |
| GetGameByIdUseCase.Execute | src/domain/usecases/games/GetGameByIdUseCase.ts:6-10 | returns the stored game with the requested id, or NotFound exactly when there is none; it reads the store and never writes it |
| RegisterUserUseCase.Execute | src/domain/usecases/auth/RegisterUserUseCase.ts:7-16 | the checks run in order: blank name, blank email, email already used, then a password shorter than 6. Each failure changes nothing. A success appends one user with a fresh id and role USER. The stored password is the hash, never the password, and it matches the password. The caller gets the account without its password, and emails stay unique |
| LoginUseCase.Execute | src/domain/usecases/auth/LoginUseCase.ts:13-38 | an unknown email and a wrong password fail identically and store nothing. A success returns the access token, the refresh token and the user without the password. It appends exactly one record holding the refresh token, the user id and `exp * 1000`, and keeps the earlier records |
| RefreshTokenUseCase.SubjectUser | src/domain/usecases/auth/RefreshTokenUseCase.ts:20 | `findById(decoded.sub)` finds the stored user whose id is the numeric subject; a string subject finds no one |
| RefreshTokenUseCase.Execute | src/domain/usecases/auth/RefreshTokenUseCase.ts:12-26 | a token not in the store is refused, with no change. A record that expired strictly before now is deleted, then refused. A verification failure is not an `AppError`. A subject with no user is refused. A success returns a new access token for the user as stored now, and the store is unchanged: the refresh token is neither rotated nor consumed |
| RefreshTokenUseCase.RefreshSubjectFindsUser | src/domain/usecases/auth/RefreshTokenUseCase.ts:20-21 | the subject of a refresh token issued to a stored user finds that same user |
| RefreshTokenUseCase.AccessSubjectFindsNobody | src/domain/usecases/auth/RefreshTokenUseCase.ts:20 | the string subject of an access token finds no user |
| AuthMiddleware.AuthRequest.constructor | src/presentation/middlewares/authMiddleware.ts:6-9 | a request starts with its Authorization header and neither `userId` nor `role` set |
| AuthMiddleware.SplitOnSpace | src/presentation/middlewares/authMiddleware.ts:15 | `split(" ")` gives at least one piece, and no piece holds a space |
| AuthMiddleware.JoinSplit | src/presentation/middlewares/authMiddleware.ts:15 | joining the pieces of `split(" ")` with spaces gives back the header |
| AuthMiddleware.SplitJoin | src/presentation/middlewares/authMiddleware.ts:15 | splitting the join of space-free pieces gives back the pieces |
| AuthMiddleware.BearerToken | src/presentation/middlewares/authMiddleware.ts:15-16 | the token taken from the header is non-empty and holds no space |
| AuthMiddleware.NoSpaceNoToken | src/presentation/middlewares/authMiddleware.ts:15-16 | a header without a space has no token, so it is malformed |
| AuthMiddleware.BearerOfAnyScheme | src/presentation/middlewares/authMiddleware.ts:15 | the scheme word is never checked: any one-word scheme, a space and a token give that token |
| AuthMiddleware.SubjectNumber | src/presentation/middlewares/authMiddleware.ts:20 | `Number(sub)` is the number itself for a numeric subject, and `Number` of the string for a string subject |
| AuthMiddleware.Authenticate | src/presentation/middlewares/authMiddleware.ts:11-25 | a missing or empty header, then a header with no second piece, then a token that does not verify each give their own authentication error. Success comes exactly when the token verifies, and yields `Number(sub)` and the role |
| AuthMiddleware.EnsureAuth | src/presentation/middlewares/authMiddleware.ts:11-25 | on success the request carries the id and role that `Authenticate` finds; on failure it throws that same error and the request is unchanged |
| AuthMiddleware.LoginTokenAuthenticates | src/presentation/middlewares/authMiddleware.ts:18-21 | an access token issued at login authenticates as that user's id and role until it expires, under any one-word scheme |
| EnsureAdmin.EnsureAdmin | src/presentation/middlewares/ensureAdmin.ts:4-9 | passes exactly when the role is the exact, case-sensitive string "ADMIN"; otherwise Forbidden; it reads the request and never writes it |
| Scenario.ReviewTwice | tests/createReviewUseCase.test.ts:83-93 | in any valid store, an author's first review of a game is stored and recomputes that game's average once; a second review by the same author of the same game is refused, so the final reviews, games, id counter and recompute log are those after the first |
| Scenario.ReviewFirst | tests/createReviewUseCase.test.ts:89 | an author's first review of a game is stored, its game's average is recomputed once, and afterwards the store finds the game and the review |
| Scenario.ReviewAgain | tests/createReviewUseCase.test.ts:90-92 | once an author has reviewed a game, reviewing it again is refused with the duplicate-review error and changes nothing in the store |
| Scenario.LoginThenAuthenticate | tests/routes.e2e.test.ts:153-178 | after a login with the right password, a "Bearer" header carrying the returned access token authenticates as the logged-in user, with that user's role |
| Scenario.RefreshBeforeExpiry | tests/refreshTokenUseCase.test.ts:39-52 | a refresh token stored the way a login stores it gives, at any instant before its stored expiry, a new access token for its user, and the store is unchanged |
| Scenario.LoginThenRefresh | tests/routes.e2e.test.ts:189-202 | the refresh token a login returns yields, in the same instant, a new access token for the same user |

## Left out

- The database repositories and the ORM are not modelled. The store follows the
  in-memory repositories of the route tests, with three differences:
  - ids come from counters rather than `length + 1`, because `length + 1` hands
    out an id twice after a delete;
  - updates keep the fields they are not given, as the ORM does, rather than
    overwriting them with undefined;
  - `findById` compares ids strictly, so a string subject finds no user.
- InMemory.Store.CreateUser: the unique email is a precondition. It stands for
  the database's unique index, and callers check it first. The same holds for
  the unique title in `CreateGame`/`UpdateGame` and the unique (author, game)
  pair in `CreateReview`.
- `ListGamesUseCase` and `ListGameReviewsUseCase` are not modelled. Each only
  forwards to one repository query.
- Bcrypt.Hash: the salt and the cost factor are not modelled. The hash is
  deterministic.
- Bcrypt.MatchesOnlyItsPassword: the stand-in compares whole passwords. Bcrypt
  reads only the first 72 bytes of a password, so two passwords that agree on
  those bytes both match one hash, and registration sets no maximum length.
  This truncation is not modelled.
- Jwt.Sign: the cryptography is not modelled. A token is an encoding of its
  claims, and the secret stands for the signature.
- The duration strings "15m" and "7d" are not parsed. Lifetimes are seconds in
  `Env.Config`, and the defaults are the constants `Env.DefaultAccessLifetime`
  and `Env.DefaultRefreshLifetime`.
- Reading `process.env` is I/O and is not modelled.
- Express is not modelled: routing, controllers, status codes for success,
  `next()` and the response writer.
- ErrorHandler.HandleError: the `console.error` logging is not modelled.
- Concurrency is not modelled. Operations run one at a time, so the gap
  between the duplicate-review check and the insert, and the non-transactional
  recompute, are not captured.
- Ratings are `int`. A rating that is undefined, NaN or not an integer is
  outside the model.
- Decimal.JsNumber: JavaScript numbers are naturals, and `Number(s)` is
  modelled only on digit strings; any other string is NaN, which is `None`.
  JavaScript differs on strings with surrounding whitespace, a sign, a
  fraction, an exponent or a radix prefix: `Number(" 12")` is 12,
  `Number("0x10")` is 16 and `Number("1e3")` is 1000. No token this server
  signs carries such a subject, since its subjects are `String(id)`.
- String lengths count Dafny characters, not UTF-16 code units.
- RefreshTokenUseCase.Execute: the message of a verification failure is one
  constant, not the library's own message.
- Deleting a game leaves its reviews in place, as the use case does. Their
  rating sums no longer count toward any game.
- The clock is the `nowMs` parameter. The model does not capture that login
  and refresh read it at different moments.
- Scenario.LoginThenAuthenticate, Scenario.RefreshBeforeExpiry and
  Scenario.LoginThenRefresh: these are stated over any valid store that holds
  the user. They do not replay the tests' fixed data, such as the seeded admin
  account.
