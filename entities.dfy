/**
 * The stored records (users, games, reviews, refresh tokens), the public
 * user view, and the uniqueness relations the use cases enforce.
 */
module Entities {
  import opened Wrappers

  const RoleUser := "USER"
  const RoleAdmin := "ADMIN"

  /** Longest comment a review may carry. */
  const MaxCommentLength := 500

  datatype User = User(id: nat, name: string, email: string, password: string, role: string)

  /** What is returned about a user: everything but the password hash. */
  datatype UserView = UserView(id: nat, name: string, email: string, role: string)

  function ViewOf(u: User): UserView {
    UserView(u.id, u.name, u.email, u.role)
  }

  datatype Game = Game(id: nat, title: string, genre: string, avgRating: real)

  datatype Review = Review(id: nat, rating: int, comment: string, gameId: nat, authorId: nat)

  /** A persisted refresh token; `expiresAt` is a Date in milliseconds. */
  datatype RefreshToken = RefreshToken(token: string, userId: nat, expiresAt: nat)

  predicate ValidRating(rating: int) {
    1 <= rating <= 5
  }

  /** Two users differ in id and in email. */
  predicate DistinctUsers(a: User, b: User) {
    a.id != b.id && a.email != b.email
  }

  /** Two games differ in id and in title. */
  predicate DistinctGames(a: Game, b: Game) {
    a.id != b.id && a.title != b.title
  }

  /** Two reviews differ in id and do not share both author and game. */
  predicate DistinctReviews(a: Review, b: Review) {
    a.id != b.id && !(a.authorId == b.authorId && a.gameId == b.gameId)
  }

  /**
   * `!!id` for an id taken from the request: it is defined, not NaN
   * (both None here) and not 0.
   */
  predicate IdPresent(id: Option<nat>) {
    id.Some? && id.value != 0
  }

  /**
   * The author-or-admin rule: the requester is the review's author
   * (strict equality, so an undefined or NaN id never matches) or holds the
   * role "ADMIN" exactly.
   */
  predicate MayModify(r: Review, requesterId: Option<nat>, requesterRole: Option<string>) {
    requesterId == Some(r.authorId) || requesterRole == Some(RoleAdmin)
  }
}
