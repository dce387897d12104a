/** `GetGameByIdUseCase.execute`: the stored game with that id, or NotFound. */
module GetGameByIdUseCase {
  import opened Errors
  import opened Entities
  import opened InMemory
  import opened Messages

  function Execute(store: Store, id: nat): (r: Result<Game>)
    reads store
    ensures r.Ok? ==> r.value in store.games && r.value.id == id
    ensures r.Err? <==> forall k :: 0 <= k < |store.games| ==> store.games[k].id != id
    ensures r.Err? ==> r == Err(App(NotFoundError(GameNotFound)))
  {
    match store.GameById(id)
    case None => Err(App(NotFoundError(GameNotFound)))
    case Some(game) => Ok(game)
  }
}
