/**
 * `CreateReviewUseCase.execute`: an identified author reviews an existing
 * game once, with a rating from 1 to 5 and an optional comment of at most
 * 500 characters; the game's average is then recomputed.
 */
module CreateReviewUseCase {
  import opened Wrappers
  import opened Errors
  import opened Entities
  import opened Ratings
  import opened InMemory
  import opened Messages

  /** `comment && comment.length > 500` */
  predicate CommentTooLongFor(comment: Option<string>) {
    comment.Some? && |comment.value| > MaxCommentLength
  }

  method Execute(store: Store, rating: int, comment: Option<string>, gameId: nat, authorId: Option<nat>)
    returns (r: Result<Review>)
    requires store.Valid()
    modifies store`reviews, store`nextReviewId, store`games, store`recomputed
    ensures store.Valid()
    // the guards, in the order they run
    ensures !IdPresent(authorId) ==> r == Err(App(ValidationError(UnidentifiedUser)))
    ensures IdPresent(authorId) && !ValidRating(rating) ==> r == Err(App(ValidationError(RatingOutOfRange)))
    ensures IdPresent(authorId) && ValidRating(rating) && CommentTooLongFor(comment)
      ==> r == Err(App(ValidationError(CommentTooLong)))
    ensures IdPresent(authorId) && ValidRating(rating) && !CommentTooLongFor(comment)
      && old(store.GameById(gameId)).None?
      ==> r == Err(App(NotFoundError(GameNotFound)))
    ensures IdPresent(authorId) && ValidRating(rating) && !CommentTooLongFor(comment)
      && old(store.GameById(gameId)).Some? && old(store.ReviewByAuthorAndGame(authorId.value, gameId)).Some?
      ==> r == Err(App(ValidationError(AlreadyReviewed)))
    ensures r.Ok? <==>
      IdPresent(authorId) && ValidRating(rating) && !CommentTooLongFor(comment)
      && old(store.GameById(gameId)).Some? && old(store.ReviewByAuthorAndGame(authorId.value, gameId)).None?
    // a rejected request changes nothing
    ensures r.Err? ==> unchanged(store)
    // an accepted one appends exactly one review and recomputes its game's average once
    ensures r.Ok? ==>
      && r.value == Review(old(store.nextReviewId), rating, comment.GetOr(""), gameId, authorId.value)
      && store.reviews == old(store.reviews) + [r.value]
      && store.nextReviewId == old(store.nextReviewId) + 1
      && |store.games| == |old(store.games)|
      && (forall k :: 0 <= k < |store.games| ==>
            store.games[k] == if old(store.games[k]).id == gameId
                              then old(store.games[k]).(avgRating := Average(store.reviews, gameId))
                              else old(store.games[k]))
      && store.recomputed == old(store.recomputed) + [gameId]
  {
    if !IdPresent(authorId) {
      return Err(App(ValidationError(UnidentifiedUser)));
    }
    if rating < 1 || rating > 5 {
      return Err(App(ValidationError(RatingOutOfRange)));
    }
    if comment.Some? && |comment.value| > MaxCommentLength {
      return Err(App(ValidationError(CommentTooLong)));
    }
    var game := store.GameById(gameId);
    if game.None? {
      return Err(App(NotFoundError(GameNotFound)));
    }
    var existing := store.ReviewByAuthorAndGame(authorId.value, gameId);
    if existing.Some? {
      return Err(App(ValidationError(AlreadyReviewed)));
    }
    var review := store.CreateReview(rating, comment.GetOr(""), gameId, authorId.value);
    store.UpdateAvgRating(gameId);
    return Ok(review);
  }
}
