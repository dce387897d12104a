/**
 * `UpdateGameUseCase.execute`: an existing game gets a new title and/or
 * genre; a supplied field must not be blank, and a new title must not be
 * held by another game.
 */
module UpdateGameUseCase {
  import opened Wrappers
  import opened Errors
  import opened Entities
  import opened Text
  import opened InMemory
  import opened Messages

  /** `existing && existing.id !== id`: the title is held by a game other than `id`. */
  predicate HeldByOther(existing: Option<Game>, id: nat) {
    existing.Some? && existing.value.id != id
  }

  /**
   * The error the request earns, in the order the checks run: the game
   * must exist, then a supplied title must not be blank nor held by another
   * game, then a supplied genre must not be blank.
   */
  function Rejection(store: Store, id: nat, title: Option<string>, genre: Option<string>): (e: Option<AppError>)
    reads store
    ensures store.GameById(id).None? ==> e == Some(NotFoundError(GameNotFound))
    ensures store.GameById(id).Some? && title.Some? && Blank(title.value)
      ==> e == Some(ValidationError(TitleEmpty))
    ensures store.GameById(id).Some? && title.Some? && !Blank(title.value)
      && HeldByOther(store.GameByTitle(title.value), id)
      ==> e == Some(ValidationError(TitleTaken))
    ensures store.GameById(id).Some?
      && (title.Some? ==> !Blank(title.value) && !HeldByOther(store.GameByTitle(title.value), id))
      && genre.Some? && Blank(genre.value)
      ==> e == Some(ValidationError(GenreEmpty))
    ensures e.None? <==>
      store.GameById(id).Some?
      && (title.Some? ==> !Blank(title.value) && !HeldByOther(store.GameByTitle(title.value), id))
      && (genre.Some? ==> !Blank(genre.value))
  {
    if store.GameById(id).None? then Some(NotFoundError(GameNotFound))
    else if title.Some? && Trim(title.value) == "" then Some(ValidationError(TitleEmpty))
    else if title.Some? && HeldByOther(store.GameByTitle(title.value), id) then Some(ValidationError(TitleTaken))
    else if genre.Some? && Trim(genre.value) == "" then Some(ValidationError(GenreEmpty))
    else None
  }

  method Execute(store: Store, id: nat, title: Option<string>, genre: Option<string>) returns (r: Result<Game>)
    requires store.Valid()
    modifies store`games
    ensures store.Valid()
    ensures r.Err? <==> old(Rejection(store, id, title, genre)).Some?
    ensures r.Err? ==> r == Err(App(old(Rejection(store, id, title, genre)).value)) && unchanged(store)
    // only the supplied fields of that one game change; id and average are kept
    ensures r.Ok? ==>
      && (var before := old(store.GameById(id)).value;
          r.value == before.(title := title.GetOr(before.title), genre := genre.GetOr(before.genre)))
      && |store.games| == |old(store.games)|
      && (forall k :: 0 <= k < |store.games| ==>
            store.games[k] == if old(store.games[k]).id == id then r.value else old(store.games[k]))
  {
    var rejection := Rejection(store, id, title, genre);
    if rejection.Some? {
      return Err(App(rejection.value));
    }
    var updated := Apply(store, id, title, genre);
    r := Ok(updated);
  }

  /** The update itself, once every check has passed. */
  method Apply(store: Store, id: nat, title: Option<string>, genre: Option<string>) returns (g: Game)
    requires store.Valid() && store.GameById(id).Some?
    requires title.Some? ==> !HeldByOther(store.GameByTitle(title.value), id)
    modifies store`games
    ensures store.Valid()
    ensures var before := old(store.GameById(id)).value;
      g == before.(title := title.GetOr(before.title), genre := genre.GetOr(before.genre))
    ensures |store.games| == |old(store.games)|
    ensures forall k :: 0 <= k < |store.games| ==>
      store.games[k] == if old(store.games[k]).id == id then g else old(store.games[k])
  {
    if title.Some? {
      TitleFreeForGame(store, id, title.value);
    }
    g := store.UpdateGame(id, title, genre);
  }

  /**
   * When the first game with `title` is `id` itself, or there is none, no
   * other game holds `title`: keeping one's own title is no clash.
   */
  lemma TitleFreeForGame(store: Store, id: nat, title: string)
    requires store.WellFormed() && !HeldByOther(store.GameByTitle(title), id)
    ensures forall k :: 0 <= k < |store.games| && store.games[k].id != id ==> store.games[k].title != title
  {
    var found := store.GameByTitle(title);
    if found.Some? {
      forall k | 0 <= k < |store.games| && store.games[k].id != id ensures store.games[k].title != title {
        var j :| 0 <= j < |store.games| && store.games[j] == found.value;
        assert j != k;
        store.UniqueKeys();
      }
    }
  }
}
