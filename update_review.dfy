/**
 * `UpdateReviewUseCase.execute`: the author of a review, or an ADMIN,
 * changes its rating and/or comment; the request is validated before the
 * review is looked up, and the game's average is recomputed afterwards.
 */
module UpdateReviewUseCase {
  import opened Wrappers
  import opened Errors
  import opened Entities
  import opened Ratings
  import opened Text
  import opened InMemory
  import opened Messages

  /**
   * The error the request itself earns before any lookup, in the order the
   * checks run: nothing supplied, rating out of range, blank comment,
   * comment too long.
   */
  function RequestError(rating: Option<int>, comment: Option<string>): (e: Option<AppError>)
    ensures e.None? <==>
      (rating.Some? || comment.Some?)
      && (rating.Some? ==> ValidRating(rating.value))
      && (comment.Some? ==> !Blank(comment.value) && |comment.value| <= MaxCommentLength)
    ensures e.Some? ==> e.value.cls == Validation
  {
    if rating.None? && comment.None? then Some(ValidationError(NothingToUpdate))
    else if rating.Some? && (rating.value < 1 || rating.value > 5) then Some(ValidationError(RatingOutOfRange))
    else if comment.Some? && Trim(comment.value) == "" then Some(ValidationError(CommentEmpty))
    else if comment.Some? && |comment.value| > MaxCommentLength then Some(ValidationError(CommentTooLong))
    else None
  }

  /** Each rejected request gets the message of the first check it fails. */
  lemma RequestErrorOrder(rating: Option<int>, comment: Option<string>)
    ensures rating.None? && comment.None? ==> RequestError(rating, comment) == Some(ValidationError(NothingToUpdate))
    ensures rating.Some? && !ValidRating(rating.value)
      ==> RequestError(rating, comment) == Some(ValidationError(RatingOutOfRange))
    ensures (rating.Some? ==> ValidRating(rating.value)) && comment.Some? && Blank(comment.value)
      ==> RequestError(rating, comment) == Some(ValidationError(CommentEmpty))
    ensures (rating.Some? ==> ValidRating(rating.value)) && comment.Some? && !Blank(comment.value)
      && |comment.value| > MaxCommentLength
      ==> RequestError(rating, comment) == Some(ValidationError(CommentTooLong))
  {
    if comment.Some? {
      var _ := Trim(comment.value);
    }
  }

  /**
   * The error the request earns, in the order the checks run: the request
   * itself first (so an invalid request on a missing review is still a
   * validation error), then the review must exist, then the requester must
   * be its author or an ADMIN.
   */
  function Rejection(
    store: Store, id: nat, rating: Option<int>, comment: Option<string>,
    requesterId: Option<nat>, requesterRole: Option<string>)
    : (e: Option<AppError>)
    reads store
    ensures RequestError(rating, comment).Some? ==> e == RequestError(rating, comment)
    ensures RequestError(rating, comment).None? && store.ReviewById(id).None?
      ==> e == Some(NotFoundError(ReviewNotFound))
    ensures RequestError(rating, comment).None? && store.ReviewById(id).Some?
      && !MayModify(store.ReviewById(id).value, requesterId, requesterRole)
      ==> e == Some(ForbiddenError(CannotEditReview))
    ensures e.None? <==>
      RequestError(rating, comment).None? && store.ReviewById(id).Some?
      && MayModify(store.ReviewById(id).value, requesterId, requesterRole)
  {
    if RequestError(rating, comment).Some? then RequestError(rating, comment)
    else if store.ReviewById(id).None? then Some(NotFoundError(ReviewNotFound))
    else if Some(store.ReviewById(id).value.authorId) != requesterId && requesterRole != Some(RoleAdmin)
    then Some(ForbiddenError(CannotEditReview))
    else None
  }

  method Execute(
    store: Store, id: nat, rating: Option<int>, comment: Option<string>,
    requesterId: Option<nat>, requesterRole: Option<string>)
    returns (r: Result<Review>)
    requires store.Valid()
    modifies store`reviews, store`games, store`recomputed
    ensures store.Valid()
    ensures r.Err? <==> old(Rejection(store, id, rating, comment, requesterId, requesterRole)).Some?
    ensures r.Err? ==>
      r == Err(App(old(Rejection(store, id, rating, comment, requesterId, requesterRole)).value)) && unchanged(store)
    // only the supplied fields of that one review change, then its game's average is recomputed
    ensures r.Ok? ==>
      && (var before := old(store.ReviewById(id)).value;
          r.value == before.(rating := rating.GetOr(before.rating), comment := comment.GetOr(before.comment)))
      && |store.reviews| == |old(store.reviews)|
      && (forall k :: 0 <= k < |store.reviews| ==>
            store.reviews[k] == if old(store.reviews[k]).id == id then r.value else old(store.reviews[k]))
      && |store.games| == |old(store.games)|
      && (forall k :: 0 <= k < |store.games| ==>
            store.games[k] == if old(store.games[k]).id == r.value.gameId
                              then old(store.games[k]).(avgRating := Average(store.reviews, r.value.gameId))
                              else old(store.games[k]))
      && store.recomputed == old(store.recomputed) + [r.value.gameId]
  {
    var rejection := Rejection(store, id, rating, comment, requesterId, requesterRole);
    if rejection.Some? {
      return Err(App(rejection.value));
    }
    ghost var reviews0 := store.reviews;
    ghost var games0 := store.games;
    var updated := store.UpdateReview(id, rating, comment);
    assert store.games == games0;
    ghost var reviews1 := store.reviews;
    store.UpdateAvgRating(updated.gameId);
    assert store.reviews == reviews1;
    return Ok(updated);
  }
}
