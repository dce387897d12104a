/**
 * `DeleteGameUseCase.execute`: an existing game is removed. Reviews are
 * neither read nor changed, and no average is recomputed.
 */
module DeleteGameUseCase {
  import opened Errors
  import opened Entities
  import opened Collections
  import opened InMemory
  import opened Messages

  method Execute(store: Store, id: nat) returns (r: Result<()>)
    requires store.Valid()
    modifies store`games
    ensures store.Valid()
    ensures old(store.GameById(id)).None? <==> r == Err(App(NotFoundError(GameNotFound)))
    ensures r.Err? ==> unchanged(store)
    // the game is gone, every other game is kept in order, and a second delete finds nothing
    ensures r.Ok? ==>
      && store.games == Filter(old(store.games), (x: Game) => x.id != id)
      && |store.games| == |old(store.games)| - 1
      && store.GameById(id).None?
  {
    var game := store.GameById(id);
    if game.None? {
      return Err(App(NotFoundError(GameNotFound)));
    }
    store.DeleteGame(id);
    return Ok(());
  }
}
