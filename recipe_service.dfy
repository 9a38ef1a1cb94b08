/** RecipeService.cs: adding a recipe runs three checks in a fixed order
    (author registered, name unused, recipe complete) before the one write;
    deleting needs the recipe to exist. Every failure leaves the store as it was,
    and the store's invariants hold after every call. */
module RecipeServices {
  import opened Common
  import opened FavoriteEntity
  import opened UserEntity
  import opened RecipeEntity
  import opened Persistence

  class RecipeService {
    const store: Store

    constructor (store: Store)
      ensures this.store == store
    {
      this.store := store;
    }

    /** AddRecipeAsync. `recipe` is any WellFormed recipe; its id, drawn by
        Guid.NewGuid(), can only be in the store under this very object. */
    method AddRecipe(recipe: Recipe) returns (r: Outcome)
      requires store.Valid() && recipe.WellFormed()
      requires recipe.Id in store.recipes ==> store.recipes[recipe.Id] == recipe
      modifies store
      ensures store.Valid()
      ensures recipe.AuthorId !in old(store.users) ==> r == Fail(NotRegistered)
      ensures recipe.AuthorId in old(store.users) && old(store.RecipeNameTaken(recipe.Name)) ==>
                r == Fail(DuplicateName)
      ensures recipe.AuthorId in old(store.users) && !old(store.RecipeNameTaken(recipe.Name))
              && (|recipe.Steps| == 0 || |recipe.RecipeIngredients| == 0 || |recipe.RecipeCategories| == 0) ==>
                r == Fail(IncompleteRecipe)
      ensures r.Pass? <==> recipe.AuthorId in old(store.users) && !old(store.RecipeNameTaken(recipe.Name))
                           && recipe.IsValid()
      ensures store.users == old(store.users) && store.favorites == old(store.favorites)
      ensures r.Fail? ==> store.recipes == old(store.recipes)
      ensures r.Pass? ==> recipe.Id !in old(store.recipes) && store.recipes == old(store.recipes)[recipe.Id := recipe]
    {
      var author := store.GetUserById(recipe.AuthorId);
      if author.None? {
        return Fail(NotRegistered);
      }
      var existing := store.GetRecipeByName(recipe.Name);
      if existing.Some? {
        return Fail(DuplicateName);
      }
      if !recipe.IsValid() {
        return Fail(IncompleteRecipe);
      }
      assert recipe.Id !in store.recipes;
      store.AddRecipe(recipe);
      return Pass;
    }

    /** DeleteRecipeAsync: the recipe goes, and with it (by the cascade) every
        favorite row that points at it. */
    method DeleteRecipe(recipeId: Guid) returns (r: Outcome)
      requires store.Valid()
      modifies store
      ensures store.Valid()
      ensures r.Fail? <==> recipeId !in old(store.recipes)
      ensures r.Fail? ==> r.error == NotFound
      ensures store.users == old(store.users)
      ensures r.Fail? ==> store.recipes == old(store.recipes) && store.favorites == old(store.favorites)
      ensures r.Pass? ==> store.recipes == old(store.recipes) - {recipeId}
      ensures r.Pass? ==> store.favorites == WithoutRecipe(old(store.favorites), recipeId)
      ensures forall f :: f in store.favorites <==> f in old(store.favorites) && f.RecipeId != recipeId
    {
      var recipe := store.GetRecipeById(recipeId);
      if recipe.None? {
        assert forall f :: f in store.favorites ==> f.RecipeId != recipeId;
        return Fail(NotFound);
      }
      WithoutRecipeKeepsDistinctRows(store.favorites, recipeId);
      store.DeleteRecipe(recipeId);
      return Pass;
    }

    /** GetRecipesByUserAsync: the stored recipes whose author is that user. */
    method GetRecipesByUser(userId: Guid) returns (rs: set<Recipe>)
      ensures forall x :: x in rs <==> x in store.recipes.Values && x.AuthorId == userId
    {
      rs := store.GetRecipesByAuthorId(userId);
    }

    /** GetRecipesByIngredientAsync: the stored recipes with an edge to that ingredient. */
    method GetRecipesByIngredient(ingredientId: Guid) returns (rs: set<Recipe>)
      ensures forall x :: x in rs <==>
                x in store.recipes.Values && HasIngredient(x.RecipeIngredients, ingredientId)
    {
      rs := store.GetRecipesByIngredient(ingredientId);
    }

    /** GetRecipesByCategoryAsync: the stored recipes with an edge to that category. */
    method GetRecipesByCategory(categoryId: Guid) returns (rs: set<Recipe>)
      ensures forall x :: x in rs <==>
                x in store.recipes.Values && HasCategory(x.RecipeCategories, categoryId)
    {
      rs := store.GetRecipesByCategory(categoryId);
    }
  }
}
