/**
 * A game's average rating: the mean of the ratings of the reviews that
 * point at it, 0 when there are none. Exact arithmetic on `real`.
 */
module Ratings {
  import opened Entities

  /** Sum of the ratings of the reviews of game `gameId`. */
  function RatingSum(rs: seq<Review>, gameId: nat): int {
    if rs == [] then 0
    else
      var last := rs[|rs| - 1];
      RatingSum(rs[..|rs| - 1], gameId) + (if last.gameId == gameId then last.rating else 0)
  }

  /** Number of reviews of game `gameId`. */
  function RatingCount(rs: seq<Review>, gameId: nat): nat {
    if rs == [] then 0
    else
      var last := rs[|rs| - 1];
      RatingCount(rs[..|rs| - 1], gameId) + (if last.gameId == gameId then 1 else 0)
  }

  function Average(rs: seq<Review>, gameId: nat): real {
    var n := RatingCount(rs, gameId);
    if n == 0 then 0.0 else RatingSum(rs, gameId) as real / n as real
  }

  /** With every rating in 1..5, the sum lies between the count and five times the count. */
  lemma {:induction false} RatingSumBounds(rs: seq<Review>, gameId: nat)
    requires forall r :: r in rs ==> ValidRating(r.rating)
    ensures RatingCount(rs, gameId) <= RatingSum(rs, gameId) <= 5 * RatingCount(rs, gameId)
  {
    if rs != [] {
      assert forall r :: r in rs[..|rs| - 1] ==> r in rs;
      RatingSumBounds(rs[..|rs| - 1], gameId);
      assert rs[|rs| - 1] in rs;
    }
  }

  /** The average of a game with reviews rated 1..5 is itself in 1..5; with none it is 0. */
  lemma AverageInRange(rs: seq<Review>, gameId: nat)
    requires forall r :: r in rs ==> ValidRating(r.rating)
    ensures RatingCount(rs, gameId) == 0 ==> Average(rs, gameId) == 0.0
    ensures RatingCount(rs, gameId) > 0 ==> 1.0 <= Average(rs, gameId) <= 5.0
  {
    RatingSumBounds(rs, gameId);
    var n := RatingCount(rs, gameId);
    if n > 0 {
      var s := RatingSum(rs, gameId);
      assert n as real <= s as real <= 5.0 * n as real;
      assert 1.0 * n as real <= s as real;
      DivideBounds(s as real, n as real);
    }
  }

  lemma DivideBounds(s: real, n: real)
    requires n > 0.0 && n <= s <= 5.0 * n
    ensures 1.0 <= s / n <= 5.0
  {
    assert s / n * n == s;
  }

  /** A game no review points at has count 0, hence average 0. */
  lemma {:induction false} NoReviewsNoRating(rs: seq<Review>, gameId: nat)
    requires forall r :: r in rs ==> r.gameId != gameId
    ensures RatingCount(rs, gameId) == 0 && RatingSum(rs, gameId) == 0
    ensures Average(rs, gameId) == 0.0
  {
    if rs != [] {
      assert forall r :: r in rs[..|rs| - 1] ==> r in rs;
      NoReviewsNoRating(rs[..|rs| - 1], gameId);
      assert rs[|rs| - 1] in rs;
    }
  }

  /** Appending a review adds its rating to its own game's totals and to no other's. */
  lemma AppendReview(rs: seq<Review>, r: Review, gameId: nat)
    ensures RatingCount(rs + [r], gameId) == RatingCount(rs, gameId) + (if r.gameId == gameId then 1 else 0)
    ensures RatingSum(rs + [r], gameId) == RatingSum(rs, gameId) + (if r.gameId == gameId then r.rating else 0)
    ensures r.gameId != gameId ==> Average(rs + [r], gameId) == Average(rs, gameId)
  {
    assert (rs + [r])[..|rs|] == rs;
  }

  /**
   * Replacing review `i` by one for the same game changes that game's sum by
   * the difference of the ratings and leaves every other game's totals alone.
   */
  lemma {:induction false} ReplaceReview(rs: seq<Review>, i: nat, r: Review, gameId: nat)
    requires i < |rs| && rs[i].gameId == r.gameId
    ensures RatingCount(rs[i := r], gameId) == RatingCount(rs, gameId)
    ensures RatingSum(rs[i := r], gameId)
         == RatingSum(rs, gameId) + (if r.gameId == gameId then r.rating - rs[i].rating else 0)
    ensures r.gameId != gameId ==> Average(rs[i := r], gameId) == Average(rs, gameId)
  {
    var n := |rs| - 1;
    var rs' := rs[i := r];
    if i == n {
      assert rs'[..n] == rs[..n];
    } else {
      assert rs'[..n] == rs[..n][i := r];
      ReplaceReview(rs[..n], i, r, gameId);
    }
  }

  /** Removing review `i` takes its rating out of its own game's totals and out of no other's. */
  lemma {:induction false} RemoveReview(rs: seq<Review>, i: nat, gameId: nat)
    requires i < |rs|
    ensures RatingCount(rs[..i] + rs[i + 1..], gameId)
         == RatingCount(rs, gameId) - (if rs[i].gameId == gameId then 1 else 0)
    ensures RatingSum(rs[..i] + rs[i + 1..], gameId)
         == RatingSum(rs, gameId) - (if rs[i].gameId == gameId then rs[i].rating else 0)
  {
    var n := |rs| - 1;
    var rs' := rs[..i] + rs[i + 1..];
    if i == n {
      assert rs' == rs[..n];
    } else {
      var p := rs[..n];
      RemoveReview(p, i, gameId);
      assert rs'[..|rs'| - 1] == p[..i] + p[i + 1..];
      assert rs'[|rs'| - 1] == rs[n];
      assert p[i] == rs[i];
    }
  }

  /** Removing a review of another game leaves a game's average as it was. */
  lemma RemoveOtherReview(rs: seq<Review>, i: nat, gameId: nat)
    requires i < |rs| && rs[i].gameId != gameId
    ensures Average(rs[..i] + rs[i + 1..], gameId) == Average(rs, gameId)
  {
    RemoveReview(rs, i, gameId);
  }
}
