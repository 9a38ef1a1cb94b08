/** Clients of the entities and services. Each method runs one documented
    usage scenario and states its observable result; they are proved from the
    contracts of the operations alone. */
module Scenarios {
  import opened Common
  import opened FavoriteEntity
  import opened UserEntity
  import opened RecipeEntity
  import opened Persistence
  import opened RecipeServices
  import opened UserServices
  import opened FavoriteServices

  /** A fresh recipe is not valid; after one step, one ingredient and one
      category are added it is. */
  method CompleteAFreshRecipe(recipeId: Guid, authorId: Guid, stepId: Guid, ingredientId: Guid, categoryId: Guid)
    returns (before: bool, after: bool)
    requires recipeId != EmptyGuid && ingredientId != EmptyGuid && categoryId != EmptyGuid
    ensures !before && after
  {
    assert "Pancakes"[0] == 'P' && "Mix"[0] == 'M' && !IsWhiteSpace('P') && !IsWhiteSpace('M');
    var created := Recipe.Create(recipeId, "Pancakes", authorId, None);
    var recipe := created.value;
    before := recipe.IsValid();
    var step := recipe.AddStep(stepId, "Mix", 1);
    var ingredient := recipe.AddIngredient(ingredientId, Some("2 cups"));
    var category := recipe.AddCategory(categoryId);
    after := recipe.IsValid();
  }

  /** A recipe with one step, one ingredient and one category. */
  method CompleteRecipe(recipeId: Guid, name: string, authorId: Guid, stepId: Guid, ingredientId: Guid, categoryId: Guid)
    returns (recipe: Recipe)
    requires recipeId != EmptyGuid && !IsNullOrWhiteSpace(name)
    requires ingredientId != EmptyGuid && categoryId != EmptyGuid
    ensures fresh(recipe) && recipe.WellFormed() && recipe.IsValid()
    ensures recipe.Id == recipeId && recipe.Name == name && recipe.AuthorId == authorId
  {
    assert "Boil"[0] == 'B';
    var created := Recipe.Create(recipeId, name, authorId, None);
    recipe := created.value;
    var done := recipe.AddStep(stepId, "Boil", 1);
    done := recipe.AddIngredient(ingredientId, None);
    done := recipe.AddCategory(categoryId);
  }

  /** A store holding the users "carol" (id 1) and "bob" (id 2) only. */
  method CarolAndBob() returns (store: Store)
    ensures fresh(store) && store.Valid()
    ensures store.users.Keys == {1, 2} && store.recipes == map[] && store.favorites == []
  {
    store := new Store();
    var users := new UserService(store);
    assert "carol"[0] == 'c' && "bob"[0] == 'b' && "hash"[0] == 'h';
    var registered := users.RegisterUser(1, "carol", "hash", None);
    assert registered == Pass;
    registered := users.RegisterUser(2, "bob", "hash", None);
    assert registered == Pass;
  }

  /** Carol's complete recipe "Soup" (id 3) added to CarolAndBob(). */
  method StoreWithSoup() returns (store: Store)
    ensures fresh(store) && store.Valid()
    ensures 1 in store.users && 2 in store.users && 3 in store.recipes
    ensures store.recipes[3].AuthorId == 1 && store.favorites == []
  {
    store := CarolAndBob();
    var recipes := new RecipeService(store);
    assert "Soup"[0] == 'S';
    var soup := CompleteRecipe(3, "Soup", 1, 4, 5, 6);
    var added := recipes.AddRecipe(soup);
    assert added == Pass;
  }

  /** Bob favorites carol's recipe twice and carol tries to favorite it. Both
      of bob's calls succeed and leave one favorite row; carol's call fails as
      a self-favorite. */
  method FavoriteTwiceAndSelfFavorite()
    returns (first: Outcome, second: Outcome, own: Outcome, rows: nat)
    ensures first == Pass && second == Pass && own == Fail(SelfFavorite) && rows == 1
  {
    var store := StoreWithSoup();
    var favorites := new FavoriteService(store);
    first := favorites.AddFavorite(2, 3);
    second := favorites.AddFavorite(2, 3);
    own := favorites.AddFavorite(1, 3);
    rows := |store.favorites|;
  }

  /** The favorites table can hold a row for the author's own recipe, written
      through the repository rather than the service. Adding that favorite
      through the service still fails as a self-favorite: the self check comes
      before the duplicate check. */
  method SelfFavoriteOverStoredRow() returns (own: Outcome, rows: nat)
    ensures own == Fail(SelfFavorite) && rows == 1
  {
    var store := StoreWithSoup();
    store.AddFavorite(Favorite(1, 3));
    assert store.Valid();
    var favorites := new FavoriteService(store);
    own := favorites.AddFavorite(1, 3);
    rows := |store.favorites|;
  }

  /** Registering the same username twice: the second call fails and the
      first user is still found, unchanged. */
  method RegisterTwice(firstId: Guid, secondId: Guid)
    returns (first: Outcome, second: Outcome, found: Result<Option<User>>)
    requires firstId != EmptyGuid && secondId != EmptyGuid && firstId != secondId
    ensures first == Pass && second == Fail(DuplicateUsername)
    ensures found.Success? && found.value.Some? && found.value.value.Id == firstId
  {
    var store := new Store();
    var users := new UserService(store);
    assert "alice"[0] == 'a' && "hash"[0] == 'h' && "other"[0] == 'o';
    first := users.RegisterUser(firstId, "alice", "hash", None);
    second := users.RegisterUser(secondId, "alice", "other", None);
    found := users.GetUserByUsername("alice");
  }

  /** Adding a recipe that lacks a category fails as incomplete and stores nothing. */
  method AddIncompleteRecipe() returns (added: Outcome, stored: nat)
    ensures added == Fail(IncompleteRecipe) && stored == 0
  {
    var store := CarolAndBob();
    var recipes := new RecipeService(store);
    assert "Toast"[0] == 'T' && "Slice"[0] == 'S';
    var created := Recipe.Create(2, "Toast", 1, None);
    var toast := created.value;
    var done := toast.AddStep(3, "Slice", 1);
    done := toast.AddIngredient(4, None);
    added := recipes.AddRecipe(toast);
    stored := |store.recipes|;
  }
}
