/**
 * The four repositories the use cases are given (users, games, reviews,
 * refresh tokens), as one in-memory store with the semantics of the
 * in-memory repositories of tests/routes.e2e.test.ts, except that ids come
 * from counters (as the database's autoincrement does) and that updates
 * leave the fields they are not given as they were (as the ORM does).
 */
module InMemory {
  import opened Wrappers
  import opened Collections
  import opened Entities
  import opened Ratings

  class Store {
    var users: seq<User>
    var games: seq<Game>
    var reviews: seq<Review>
    var tokens: seq<RefreshToken>
    var nextUserId: nat
    var nextGameId: nat
    var nextReviewId: nat
    /** The games whose average was recomputed, in call order. */
    ghost var recomputed: seq<nat>

    /** Ids, emails and titles are unique, at most one review per (author, game), every review in range. */
    ghost predicate WellFormed()
      reads this
    {
      && 1 <= nextUserId && 1 <= nextGameId && 1 <= nextReviewId
      && Pairwise(users, DistinctUsers)
      && (forall u :: u in users ==> 1 <= u.id < nextUserId)
      && Pairwise(games, DistinctGames)
      && (forall g :: g in games ==> 1 <= g.id < nextGameId)
      && Pairwise(reviews, DistinctReviews)
      && (forall r :: r in reviews ==> 1 <= r.id < nextReviewId && r.gameId < nextGameId)
      && (forall r :: r in reviews ==> ValidRating(r.rating) && |r.comment| <= MaxCommentLength)
    }

    /** Every game except `gameId` carries the average of its current reviews. */
    ghost predicate CurrentExcept(gameId: nat)
      reads this
    {
      forall g :: g in games && g.id != gameId ==> g.avgRating == Average(reviews, g.id)
    }

    /** Every game carries the average of its current reviews. */
    ghost predicate RatingsCurrent()
      reads this
    {
      forall g :: g in games ==> g.avgRating == Average(reviews, g.id)
    }

    ghost predicate Valid()
      reads this
    {
      WellFormed() && RatingsCurrent()
    }

    /** One user per email, one game per title, one review per (author, game). */
    lemma UniqueKeys()
      requires WellFormed()
      ensures forall i, j :: 0 <= i < |users| && 0 <= j < |users| && users[i].email == users[j].email ==> i == j
      ensures forall i, j :: 0 <= i < |games| && 0 <= j < |games| && games[i].title == games[j].title ==> i == j
      ensures forall i, j ::
        (0 <= i < |reviews| && 0 <= j < |reviews| && reviews[i].authorId == reviews[j].authorId
         && reviews[i].gameId == reviews[j].gameId) ==> i == j
    {
    }

    constructor ()
      ensures Valid()
      ensures users == [] && games == [] && reviews == [] && tokens == []
      ensures nextUserId == 1 && nextGameId == 1 && nextReviewId == 1
      ensures recomputed == []
    {
      users, games, reviews, tokens := [], [], [], [];
      nextUserId, nextGameId, nextReviewId := 1, 1, 1;
      recomputed := [];
    }

    // ---- queries

    /** `userRepository.findByEmail` */
    function UserByEmail(email: string): (u: Option<User>)
      reads this
      ensures u.Some? ==> u.value in users && u.value.email == email
      ensures u.None? <==> forall k :: 0 <= k < |users| ==> users[k].email != email
    {
      Find(users, (x: User) => x.email == email)
    }

    /** `userRepository.findById` */
    function UserById(id: nat): (u: Option<User>)
      reads this
      ensures u.Some? ==> u.value in users && u.value.id == id
      ensures u.None? <==> forall k :: 0 <= k < |users| ==> users[k].id != id
    {
      Find(users, (x: User) => x.id == id)
    }

    /** `gameRepository.findById` */
    function GameById(id: nat): (g: Option<Game>)
      reads this
      ensures g.Some? ==> g.value in games && g.value.id == id
      ensures g.None? <==> forall k :: 0 <= k < |games| ==> games[k].id != id
    {
      Find(games, (x: Game) => x.id == id)
    }

    /** `gameRepository.findByTitle` (exact match) */
    function GameByTitle(title: string): (g: Option<Game>)
      reads this
      ensures g.Some? ==> g.value in games && g.value.title == title
      ensures g.None? <==> forall k :: 0 <= k < |games| ==> games[k].title != title
    {
      Find(games, (x: Game) => x.title == title)
    }

    /** `reviewRepository.findById` */
    function ReviewById(id: nat): (r: Option<Review>)
      reads this
      ensures r.Some? ==> r.value in reviews && r.value.id == id
      ensures r.None? <==> forall k :: 0 <= k < |reviews| ==> reviews[k].id != id
    {
      Find(reviews, (x: Review) => x.id == id)
    }

    /** `reviewRepository.findByAuthorAndGame` */
    function ReviewByAuthorAndGame(authorId: nat, gameId: nat): (r: Option<Review>)
      reads this
      ensures r.Some? ==> r.value in reviews && r.value.authorId == authorId && r.value.gameId == gameId
      ensures r.None? <==> forall k :: 0 <= k < |reviews| ==> !(reviews[k].authorId == authorId && reviews[k].gameId == gameId)
    {
      Find(reviews, (x: Review) => x.authorId == authorId && x.gameId == gameId)
    }

    /**
     * `refreshTokenRepository.findByToken`: records are not unique by
     * token, and the first one stored is the one found.
     */
    function TokenByValue(token: string): (t: Option<RefreshToken>)
      reads this
      ensures t.Some? ==> t.value in tokens && t.value.token == token
      ensures t.Some? ==>
        exists k :: 0 <= k < |tokens| && tokens[k] == t.value && forall j :: 0 <= j < k ==> tokens[j].token != token
      ensures t.None? <==> forall k :: 0 <= k < |tokens| ==> tokens[k].token != token
    {
      Find(tokens, (x: RefreshToken) => x.token == token)
    }

    /**
     * The average `updateAvgRating` writes: the ratings of the reviews of
     * `gameId` summed and counted in one pass, their quotient, or 0.
     */
    method AverageRating(gameId: nat) returns (avg: real)
      ensures avg == Average(reviews, gameId)
    {
      var sum, count, i := 0, 0, 0;
      while i < |reviews|
        invariant 0 <= i <= |reviews|
        invariant sum == RatingSum(reviews[..i], gameId)
        invariant count == RatingCount(reviews[..i], gameId)
      {
        assert reviews[..i + 1][..i] == reviews[..i];
        if reviews[i].gameId == gameId {
          sum, count := sum + reviews[i].rating, count + 1;
        }
        i := i + 1;
      }
      assert reviews[..i] == reviews;
      avg := if count == 0 then 0.0 else sum as real / count as real;
    }

    // ---- users

    /** `userRepository.create`; the email column is unique. */
    method CreateUser(name: string, email: string, password: string, role: string) returns (u: User)
      requires Valid() && UserByEmail(email).None?
      modifies this`users, this`nextUserId
      ensures Valid()
      ensures u == User(old(nextUserId), name, email, password, role)
      ensures users == old(users) + [u] && nextUserId == old(nextUserId) + 1
    {
      u := User(nextUserId, name, email, password, role);
      forall k | 0 <= k < |users| ensures DistinctUsers(users[k], u) {
        assert users[k] in users;
      }
      PairwiseAppend(users, u, DistinctUsers);
      forall x | x in users + [u] ensures 1 <= x.id < nextUserId + 1 {
        if x != u { assert x in users; }
      }
      users := users + [u];
      nextUserId := nextUserId + 1;
    }

    // ---- games

    /** `gameRepository.create`: a new game with average 0; the title column is unique. */
    method CreateGame(title: string, genre: string) returns (g: Game)
      requires Valid() && GameByTitle(title).None?
      modifies this`games, this`nextGameId
      ensures Valid()
      ensures g == Game(old(nextGameId), title, genre, 0.0)
      ensures games == old(games) + [g] && nextGameId == old(nextGameId) + 1
    {
      g := Game(nextGameId, title, genre, 0.0);
      forall k | 0 <= k < |games| ensures DistinctGames(games[k], g) {
        assert games[k] in games;
      }
      PairwiseAppend(games, g, DistinctGames);
      NoReviewsNoRating(reviews, g.id);
      forall x | x in games + [g] ensures 1 <= x.id < nextGameId + 1 {
        if x != g { assert x in games; }
      }
      games := games + [g];
      nextGameId := nextGameId + 1;
    }

    /**
     * `gameRepository.update`: the game with id `id` gets the title and
     * genre it is given, keeps those it is not, and nothing else changes.
     */
    method UpdateGame(id: nat, title: Option<string>, genre: Option<string>) returns (g: Game)
      requires Valid() && GameById(id).Some?
      requires title.Some? ==> forall k :: 0 <= k < |games| && games[k].id != id ==> games[k].title != title.value
      modifies this`games
      ensures Valid()
      ensures var old_g := old(GameById(id)).value;
        g == old_g.(title := title.GetOr(old_g.title), genre := genre.GetOr(old_g.genre))
      ensures |games| == |old(games)|
      ensures forall k :: 0 <= k < |games| ==> games[k] == if old(games[k]).id == id then g else old(games[k])
    {
      var i := FindIndex(games, (x: Game) => x.id == id).value;
      var old_g := games[i];
      g := old_g.(title := title.GetOr(old_g.title), genre := genre.GetOr(old_g.genre));
      forall k | 0 <= k < |games| && k != i ensures DistinctGames(games[k], g) && DistinctGames(g, games[k]) {
        assert k < i ==> DistinctGames(games[k], games[i]);
        assert k > i ==> DistinctGames(games[i], games[k]);
      }
      PairwiseReplace(games, i, g, DistinctGames);
      forall k | 0 <= k < |games| && k != i ensures games[k].id != id {
        assert k < i ==> DistinctGames(games[k], games[i]);
        assert k > i ==> DistinctGames(games[i], games[k]);
      }
      games := games[i := g];
      assert games[i] in games;
    }

    /** `gameRepository.delete`: the game with id `id` is filtered out. */
    method DeleteGame(id: nat)
      requires Valid() && GameById(id).Some?
      modifies this`games
      ensures Valid()
      ensures games == Filter(old(games), (x: Game) => x.id != id)
      ensures |games| == |old(games)| - 1
      ensures GameById(id).None?
    {
      var i := FindIndex(games, (x: Game) => x.id == id).value;
      forall k | 0 <= k < |games| && k != i ensures games[k].id != id {
        assert k < i ==> DistinctGames(games[k], games[i]);
        assert k > i ==> DistinctGames(games[i], games[k]);
      }
      var rest := games[..i] + games[i + 1..];
      FilterOneOut(games, (x: Game) => x.id != id, i);
      PairwiseRemove(games, i, DistinctGames);
      RemoveAt(games, i, rest);
      games := rest;
    }

    /**
     * `gameRepository.updateAvgRating`: the game `gameId`, if it still
     * exists, gets the average of its current reviews; every game is then
     * up to date.
     */
    method UpdateAvgRating(gameId: nat)
      requires WellFormed() && CurrentExcept(gameId)
      modifies this`games, this`recomputed
      ensures Valid()
      ensures |games| == |old(games)|
      ensures forall k :: 0 <= k < |games| ==>
        games[k] == if old(games[k]).id == gameId then old(games[k]).(avgRating := Average(reviews, gameId)) else old(games[k])
      ensures recomputed == old(recomputed) + [gameId]
    {
      var avg := AverageRating(gameId);
      var found := FindIndex(games, (x: Game) => x.id == gameId);
      if found.Some? {
        var i := found.value;
        var g := games[i].(avgRating := avg);
        forall k | 0 <= k < |games| && k != i ensures DistinctGames(games[k], g) && DistinctGames(g, games[k]) {
          assert k < i ==> DistinctGames(games[k], games[i]);
          assert k > i ==> DistinctGames(games[i], games[k]);
        }
        PairwiseReplace(games, i, g, DistinctGames);
        forall k | 0 <= k < |games| && k != i ensures games[k].id != gameId {
          assert k < i ==> DistinctGames(games[k], games[i]);
          assert k > i ==> DistinctGames(games[i], games[k]);
        }
        games := games[i := g];
      }
      recomputed := recomputed + [gameId];
    }

    // ---- reviews

    /** `reviewRepository.create`: a new review under the next id. */
    method CreateReview(rating: int, comment: string, gameId: nat, authorId: nat) returns (r: Review)
      requires Valid() && ValidRating(rating) && |comment| <= MaxCommentLength
      requires GameById(gameId).Some? && ReviewByAuthorAndGame(authorId, gameId).None?
      modifies this`reviews, this`nextReviewId
      ensures WellFormed() && CurrentExcept(gameId)
      ensures r == Review(old(nextReviewId), rating, comment, gameId, authorId)
      ensures reviews == old(reviews) + [r] && nextReviewId == old(nextReviewId) + 1
    {
      r := Review(nextReviewId, rating, comment, gameId, authorId);
      forall k | 0 <= k < |reviews| ensures DistinctReviews(reviews[k], r) {
        assert reviews[k] in reviews;
      }
      PairwiseAppend(reviews, r, DistinctReviews);
      forall g | g in games && g.id != gameId ensures g.avgRating == Average(reviews + [r], g.id) {
        AppendReview(reviews, r, g.id);
      }
      forall x | x in reviews + [r] ensures 1 <= x.id < nextReviewId + 1 {
        if x != r { assert x in reviews; }
      }
      reviews := reviews + [r];
      nextReviewId := nextReviewId + 1;
    }

    /**
     * `reviewRepository.update`: the review with id `id` gets the rating and
     * comment it is given, keeps those it is not, and nothing else changes.
     */
    method UpdateReview(id: nat, rating: Option<int>, comment: Option<string>) returns (r: Review)
      requires Valid() && ReviewById(id).Some?
      requires rating.Some? ==> ValidRating(rating.value)
      requires comment.Some? ==> |comment.value| <= MaxCommentLength
      modifies this`reviews
      ensures var old_r := old(ReviewById(id)).value;
        r == old_r.(rating := rating.GetOr(old_r.rating), comment := comment.GetOr(old_r.comment))
      ensures WellFormed() && CurrentExcept(r.gameId)
      ensures |reviews| == |old(reviews)|
      ensures forall k :: 0 <= k < |reviews| ==> reviews[k] == if old(reviews[k]).id == id then r else old(reviews[k])
    {
      var i := FindIndex(reviews, (x: Review) => x.id == id).value;
      var old_r := reviews[i];
      r := old_r.(rating := rating.GetOr(old_r.rating), comment := comment.GetOr(old_r.comment));
      forall k | 0 <= k < |reviews| && k != i ensures DistinctReviews(reviews[k], r) && DistinctReviews(r, reviews[k]) {
        assert k < i ==> DistinctReviews(reviews[k], reviews[i]);
        assert k > i ==> DistinctReviews(reviews[i], reviews[k]);
      }
      PairwiseReplace(reviews, i, r, DistinctReviews);
      forall k | 0 <= k < |reviews| && k != i ensures reviews[k].id != id {
        assert k < i ==> DistinctReviews(reviews[k], reviews[i]);
        assert k > i ==> DistinctReviews(reviews[i], reviews[k]);
      }
      forall g | g in games && g.id != r.gameId ensures g.avgRating == Average(reviews[i := r], g.id) {
        ReplaceReview(reviews, i, r, g.id);
      }
      forall x | x in reviews[i := r]
        ensures 1 <= x.id < nextReviewId && x.gameId < nextGameId
        ensures ValidRating(x.rating) && |x.comment| <= MaxCommentLength
      {
        var k :| 0 <= k < |reviews| && reviews[i := r][k] == x;
        assert reviews[k] in reviews;
      }
      reviews := reviews[i := r];
    }

    /** `reviewRepository.delete`: the review with id `id` is filtered out. */
    method DeleteReview(id: nat)
      requires Valid() && ReviewById(id).Some?
      modifies this`reviews
      ensures WellFormed() && CurrentExcept(old(ReviewById(id)).value.gameId)
      ensures reviews == Filter(old(reviews), (x: Review) => x.id != id)
      ensures |reviews| == |old(reviews)| - 1
      ensures ReviewById(id).None?
    {
      var i := FindIndex(reviews, (x: Review) => x.id == id).value;
      var gameId := reviews[i].gameId;
      var rest := reviews[..i] + reviews[i + 1..];
      forall k | 0 <= k < |reviews| && k != i ensures reviews[k].id != id {
        assert k < i ==> DistinctReviews(reviews[k], reviews[i]);
        assert k > i ==> DistinctReviews(reviews[i], reviews[k]);
      }
      FilterOneOut(reviews, (x: Review) => x.id != id, i);
      PairwiseRemove(reviews, i, DistinctReviews);
      RemoveAt(reviews, i, rest);
      forall g | g in games && g.id != gameId ensures g.avgRating == Average(rest, g.id) {
        RemoveOtherReview(reviews, i, g.id);
      }
      reviews := rest;
    }

    // ---- refresh tokens

    /** `refreshTokenRepository.create` */
    method CreateToken(token: string, userId: nat, expiresAt: nat)
      requires Valid()
      modifies this`tokens
      ensures Valid()
      ensures tokens == old(tokens) + [RefreshToken(token, userId, expiresAt)]
    {
      tokens := tokens + [RefreshToken(token, userId, expiresAt)];
    }

    /** A record appended under a token no earlier record carries is the one `findByToken` returns. */
    lemma AppendedTokenFound(tokens0: seq<RefreshToken>, record: RefreshToken)
      requires tokens == tokens0 + [record]
      requires forall k :: 0 <= k < |tokens0| ==> tokens0[k].token != record.token
      ensures TokenByValue(record.token) == Some(record)
    {
      assert tokens[|tokens0|] == record;
    }

    /** `refreshTokenRepository.deleteByToken`: every record of `token` is filtered out. */
    method DeleteByToken(token: string)
      requires Valid()
      modifies this`tokens
      ensures Valid()
      ensures tokens == Filter(old(tokens), (x: RefreshToken) => x.token != token)
      ensures TokenByValue(token).None?
    {
      FilterMembers(tokens, (x: RefreshToken) => x.token != token);
      tokens := Filter(tokens, (x: RefreshToken) => x.token != token);
      assert forall k :: 0 <= k < |tokens| ==> tokens[k] in tokens;
    }
  }
}
