/**
 * `DeleteReviewUseCase.execute`: the author of a review, or an ADMIN,
 * removes it; the average of the game it belonged to is recomputed.
 */
module DeleteReviewUseCase {
  import opened Wrappers
  import opened Errors
  import opened Entities
  import opened Ratings
  import opened Collections
  import opened InMemory
  import opened Messages

  method Execute(store: Store, id: nat, requesterId: Option<nat>, requesterRole: Option<string>)
    returns (r: Result<()>)
    requires store.Valid()
    modifies store`reviews, store`games, store`recomputed
    ensures store.Valid()
    ensures old(store.ReviewById(id)).None? ==> r == Err(App(NotFoundError(ReviewNotFound)))
    ensures old(store.ReviewById(id)).Some? && !MayModify(old(store.ReviewById(id)).value, requesterId, requesterRole)
      ==> r == Err(App(ForbiddenError(CannotDeleteReview)))
    ensures r.Ok? <==>
      old(store.ReviewById(id)).Some? && MayModify(old(store.ReviewById(id)).value, requesterId, requesterRole)
    ensures r.Err? ==> unchanged(store)
    // the review is gone, every other review is kept in order, and the
    // average of the game read before the delete is recomputed
    ensures r.Ok? ==>
      && store.reviews == Filter(old(store.reviews), (x: Review) => x.id != id)
      && |store.reviews| == |old(store.reviews)| - 1
      && store.ReviewById(id).None?
      && (var gameId := old(store.ReviewById(id)).value.gameId;
          && |store.games| == |old(store.games)|
          && (forall k :: 0 <= k < |store.games| ==>
                store.games[k] == if old(store.games[k]).id == gameId
                                  then old(store.games[k]).(avgRating := Average(store.reviews, gameId))
                                  else old(store.games[k]))
          && store.recomputed == old(store.recomputed) + [gameId])
  {
    var review := store.ReviewById(id);
    if review.None? {
      return Err(App(NotFoundError(ReviewNotFound)));
    }
    if Some(review.value.authorId) != requesterId && requesterRole != Some(RoleAdmin) {
      return Err(App(ForbiddenError(CannotDeleteReview)));
    }
    store.DeleteReview(id);
    store.UpdateAvgRating(review.value.gameId);
    return Ok(());
  }
}
