/**
 * `CreateGameUseCase.execute`: a game with a non-blank title and genre is
 * added, unless a game with exactly that title already exists.
 */
module CreateGameUseCase {
  import opened Wrappers
  import opened Errors
  import opened Entities
  import opened Text
  import opened InMemory
  import opened Messages

  method Execute(store: Store, title: Option<string>, genre: Option<string>) returns (r: Result<Game>)
    requires store.Valid()
    modifies store`games, store`nextGameId
    ensures store.Valid()
    ensures MissingOrBlank(title) ==> r == Err(App(ValidationError(TitleRequired)))
    ensures !MissingOrBlank(title) && MissingOrBlank(genre) ==> r == Err(App(ValidationError(GenreRequired)))
    ensures !MissingOrBlank(title) && !MissingOrBlank(genre) && old(store.GameByTitle(title.value)).Some?
      ==> r == Err(App(ValidationError(TitleTaken)))
    ensures r.Ok? <==>
      !MissingOrBlank(title) && !MissingOrBlank(genre) && old(store.GameByTitle(title.value)).None?
    ensures r.Err? ==> unchanged(store)
    // exactly one game is appended, under a fresh id, with no rating yet
    ensures r.Ok? ==>
      && r.value == Game(old(store.nextGameId), title.value, genre.value, 0.0)
      && (forall g :: g in old(store.games) ==> g.id != r.value.id)
      && store.games == old(store.games) + [r.value]
  {
    if title.None? || title.value == "" || Trim(title.value) == "" {
      return Err(App(ValidationError(TitleRequired)));
    }
    if genre.None? || genre.value == "" || Trim(genre.value) == "" {
      return Err(App(ValidationError(GenreRequired)));
    }
    var existing := store.GameByTitle(title.value);
    if existing.Some? {
      return Err(App(ValidationError(TitleTaken)));
    }
    var game := store.CreateGame(title.value, genre.value);
    return Ok(game);
  }
}
