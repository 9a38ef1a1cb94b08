/** FavoriteService.cs: adding a favorite checks, in this order, that the
    user is registered, that the recipe exists and that it is not the user's
    own, and only then whether the pair is already stored, which makes adding
    idempotent. Removing never fails and never checks existence. */
module FavoriteServices {
  import opened Common
  import opened FavoriteEntity
  import opened RecipeEntity
  import opened Persistence

  class FavoriteService {
    const store: Store

    constructor (store: Store)
      ensures this.store == store
    {
      this.store := store;
    }

    /** AddFavoriteAsync. */
    method AddFavorite(userId: Guid, recipeId: Guid) returns (r: Outcome)
      requires store.Valid()
      modifies store
      ensures store.Valid()
      ensures userId !in old(store.users) ==> r == Fail(NotRegistered)
      ensures userId in old(store.users) && recipeId !in old(store.recipes) ==> r == Fail(NotFound)
      ensures userId in old(store.users) && recipeId in old(store.recipes)
              && old(store.recipes[recipeId].AuthorId) == userId ==>
                r == Fail(SelfFavorite)
      ensures r.Pass? <==> userId in old(store.users) && recipeId in old(store.recipes)
                           && old(store.recipes[recipeId].AuthorId) != userId
      ensures store.users == old(store.users) && store.recipes == old(store.recipes)
      ensures r.Fail? || Favorite(userId, recipeId) in old(store.favorites) ==>
                store.favorites == old(store.favorites)
      ensures r.Pass? && Favorite(userId, recipeId) !in old(store.favorites) ==>
                store.favorites == old(store.favorites) + [Favorite(userId, recipeId)]
      ensures r.Pass? ==> Favorite(userId, recipeId) in store.favorites
    {
      var user := store.GetUserById(userId);
      if user.None? {
        return Fail(NotRegistered);
      }
      var recipe := store.GetRecipeById(recipeId);
      if recipe.None? {
        return Fail(NotFound);
      }
      if recipe.value.AuthorId == user.value.Id {
        return Fail(SelfFavorite);
      }
      var existing := store.GetFavorite(userId, recipeId);
      if existing.Some? {
        return Pass;
      }
      var favorite := NewFavorite(userId, recipeId);
      ghost var before := store.favorites;
      store.AddFavorite(favorite.value);
      assert Distinct(store.favorites) by {
        forall i, j | 0 <= i < j < |store.favorites|
          ensures store.favorites[i] != store.favorites[j]
        {
          if j == |before| {
            assert store.favorites[i] == before[i];
          } else {
            assert store.favorites[i] == before[i] && store.favorites[j] == before[j];
          }
        }
      }
      return Pass;
    }

    /** RemoveFavoriteAsync: deletes the pair if it is stored, and otherwise
        does nothing; neither the user nor the recipe has to exist. */
    method RemoveFavorite(userId: Guid, recipeId: Guid)
      requires store.Valid()
      modifies store
      ensures store.Valid()
      ensures store.users == old(store.users) && store.recipes == old(store.recipes)
      ensures store.favorites == RemoveFirst(old(store.favorites), Favorite(userId, recipeId))
      ensures Favorite(userId, recipeId) !in old(store.favorites) ==> store.favorites == old(store.favorites)
      ensures Favorite(userId, recipeId) !in store.favorites
      ensures forall f :: f != Favorite(userId, recipeId) ==>
                (f in store.favorites <==> f in old(store.favorites))
    {
      var favorite := store.GetFavorite(userId, recipeId);
      if favorite.None? {
        return;
      }
      RemoveFirstFromDistinct(store.favorites, Favorite(userId, recipeId));
      store.DeleteFavorite(userId, recipeId);
    }

    /** GetFavoritesByUserAsync: refused for an unregistered user; otherwise the
        recipe of each of the user's favorite rows, in table order. */
    method GetFavoritesByUser(userId: Guid) returns (r: Result<seq<Recipe>>)
      requires store.Valid()
      ensures r.Failure? <==> userId !in store.users
      ensures r.Failure? ==> r.error == NotRegistered
      ensures r.Success? ==> |r.value| == |FavoredRecipeIds(store.favorites, userId)|
      ensures r.Success? ==> forall id :: Favorite(userId, id) in store.favorites ==>
                id in store.recipes && store.recipes[id] in r.value
      ensures r.Success? ==> forall x :: x in r.value ==>
                x in store.recipes.Values && Favorite(userId, x.Id) in store.favorites
    {
      var user := store.GetUserById(userId);
      if user.None? {
        return Failure(NotRegistered);
      }
      var recipes := store.GetFavoritesByUser(userId);
      return Success(recipes);
    }
  }
}
