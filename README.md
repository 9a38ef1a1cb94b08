# Recipe manager domain core, in Dafny

This project models the domain layer of a small recipe manager. Users register
under a unique username. Registered users write recipes with a globally unique
name. A recipe is made of ordered steps, ingredient edges and category edges.
Users mark other people's recipes as favorites.

The model has two halves.

- **Self-validating entities.** `Step`, `RecipeIngredient`, `Ingredient`,
  `Category`, `User` and `Recipe` are classes whose fields the source updates
  in place. `Favorite` and `RecipeCategory` never change after construction,
  so they are datatypes.
  - A throwing constructor becomes a static `Create` method that returns a
    `Result`. Its anonymous constructor does the field initialisation that
    runs once the guards have passed.
  - A throwing mutator returns an `Outcome`, and on failure leaves its field
    as it was.
  - Each class has a `WellFormed()` invariant that every public operation
    keeps: positive step order, non-blank names and descriptions, non-empty
    ids, and no duplicate edges or favorites.
- **Three services over one store.** The repositories are one in-memory
  `Persistence.Store`:
  - users and recipes are maps keyed by id;
  - the favorites table is a sequence of (user, recipe) rows.

  `Store.Valid()` is the store's integrity: keys match ids, usernames and
  recipe names are unique, and favorite rows are unique and point at stored
  users and recipes. A row for a user's own recipe is allowed in the store:
  only `FavoriteService` refuses to add one.
  - `RecipeService`, `UserService` and `FavoriteService` run their
    lookups and rule checks in the source's fixed order before any write.
  - Each service method is proved to keep `Valid()`, to return the first
    failing rule's error, and to change nothing on failure.

Identifiers (`Guid`) are natural numbers, and `Guid.Empty` is `0`.
`Guid.NewGuid()` becomes a fresh id that the caller passes in.
`string.IsNullOrWhiteSpace` is `Common.IsNullOrWhiteSpace`: every character is
in the .NET `Char.IsWhiteSpace` set. Exceptions become the `Error` kinds of
`Common`.

The `Scenarios` module strings the operations together into usage stories:
- a fresh recipe becomes valid once it has one step, one ingredient and one
  category;
- favoriting twice is idempotent, and favoriting one's own recipe fails;
- a username cannot be registered twice;
- an incomplete recipe is refused.

These stories are proved from the operations' contracts alone.

## Model

| member | source | states |
|---|---|---|
| StepEntity.Step.constructor | RecipeManagement/Domain/Entities/Step.cs:24-26 | once the guards have passed, the step holds the given recipe id, order and description, and is WellFormed |
| StepEntity.Step.Create | RecipeManagement/Domain/Entities/Step.cs:16-27 | a blank description is refused first, then an order <= 0; it succeeds exactly when both are acceptable, with a fresh WellFormed step holding the given fields |
| StepEntity.Step.UpdateDescription | RecipeManagement/Domain/Entities/Step.cs:31-37 | succeeds iff the new description is not blank; on failure Description is unchanged, on success it is the new value; WellFormed is kept |
| StepEntity.Step.ChangeOrder | RecipeManagement/Domain/Entities/Step.cs:39-45 | succeeds iff newOrder > 0; on failure Order is unchanged, on success it is newOrder; WellFormed (order > 0, description not blank) is kept |
| RecipeIngredientEntity.RecipeIngredient.constructor | RecipeManagement/Domain/Entities/RecipeIngredient.cs:24-26 | once the guards have passed, the entry holds both ids and the amount, which may be none |
| RecipeIngredientEntity.RecipeIngredient.Create | RecipeManagement/Domain/Entities/RecipeIngredient.cs:16-27 | an empty recipe id is refused before an empty ingredient id; it succeeds iff both are non-empty, holding both ids and the amount |
| RecipeIngredientEntity.RecipeIngredient.UpdateAmount | RecipeManagement/Domain/Entities/RecipeIngredient.cs:31-34 | Amount becomes any value, none included; the ids cannot change (they are constants) |
| RecipeCategoryEntity.NewRecipeCategory | RecipeManagement/Domain/Entities/RecipeCategory.cs:14-24 | an empty recipe id is refused before an empty category id; it succeeds iff both are non-empty, and the edge holds both ids unchanged |
| FavoriteEntity.NewFavorite | RecipeManagement/Domain/Entities/Favorite.cs:17-27 | an empty user id is refused before an empty recipe id; it succeeds iff both are non-empty, and the favorite holds both ids unchanged |
| IngredientEntity.Ingredient.constructor | RecipeManagement/Domain/Entities/Ingredient.cs:9-20 | once the guard has passed, the ingredient holds the name and has no recipe edges |
| IngredientEntity.Ingredient.Create | RecipeManagement/Domain/Entities/Ingredient.cs:14-20 | succeeds iff the name is not blank, with a fresh ingredient holding that name and no recipe edges; otherwise the name error |
| IngredientEntity.Ingredient.Rename | RecipeManagement/Domain/Entities/Ingredient.cs:24-30 | succeeds iff the new name is not blank; on failure Name is unchanged, on success it is the new name |
| CategoryEntity.Category.constructor | RecipeManagement/Domain/Entities/Category.cs:9-20 | once the guard has passed, the category holds the name and has no recipe edges |
| CategoryEntity.Category.Create | RecipeManagement/Domain/Entities/Category.cs:14-20 | succeeds iff the name is not blank, with a fresh category holding that name and no recipe edges; otherwise the name error |
| CategoryEntity.Category.Rename | RecipeManagement/Domain/Entities/Category.cs:24-30 | succeeds iff the new name is not blank; on failure Name is unchanged, on success it is the new name |
| UserEntity.WithoutRecipe | RecipeManagement/Domain/Entities/User.cs:43-46 | the RemoveAll filter: no entry for the recipe is left, every other entry is kept, and nothing is added |
| UserEntity.WithoutRecipeAppend | RecipeManagement/Domain/Entities/User.cs:43-46 | removal distributes over concatenation, so the remaining favorites keep their relative order |
| UserEntity.WithoutAbsentRecipe | RecipeManagement/Domain/Entities/User.cs:43-46 | removing a recipe that no favorite names leaves the list unchanged |
| UserEntity.WithoutRecipeIdempotent | RecipeManagement/Domain/Entities/User.cs:43-46 | removing twice is the same as removing once |
| UserEntity.WithoutRecipeKeepsDistinct | RecipeManagement/Domain/Entities/User.cs:43-46 | removal keeps the favorites' recipe ids distinct |
| UserEntity.User.constructor | RecipeManagement/Domain/Entities/User.cs:26-28 | once the guards have passed, the user holds id, username, hash and e-mail, and has no favorites |
| UserEntity.User.Create | RecipeManagement/Domain/Entities/User.cs:13-29 | a blank username is refused before a blank password hash; it succeeds iff both are not blank, with a fresh WellFormed user holding the three fields and no favorites |
| UserEntity.User.ChangeEmail | RecipeManagement/Domain/Entities/User.cs:32-35 | Email becomes the new string, whatever it is, with no validation; the invariant is neither gained nor lost |
| UserEntity.User.AddFavorite | RecipeManagement/Domain/Entities/User.cs:37-41 | a no-op when a favorite for the same recipe is listed; otherwise exactly that favorite is appended; distinct recipe ids are kept |
| UserEntity.User.RemoveFavorite | RecipeManagement/Domain/Entities/User.cs:43-46 | Favorites becomes WithoutRecipe of the old list, so no favorite for the recipe is left; WellFormed is kept |
| RecipeEntity.Recipe.constructor | RecipeManagement/Domain/Entities/Recipe.cs:13-28 | once the guard has passed, the recipe holds name, author and description, and has empty step, ingredient and category lists |
| RecipeEntity.Recipe.Create | RecipeManagement/Domain/Entities/Recipe.cs:13-28 | succeeds iff the name is not blank (otherwise the name error); the fresh recipe holds the given fields, has three empty lists, is WellFormed, and is not IsValid |
| RecipeEntity.Recipe.IsValid | RecipeManagement/Domain/Entities/Recipe.cs:61-67 | holds iff the name is not blank and Steps, RecipeIngredients and RecipeCategories are each non-empty |
| RecipeEntity.Recipe.UpdateDescription | RecipeManagement/Domain/Entities/Recipe.cs:32-35 | Description becomes any value, none included; only Description can change |
| RecipeEntity.Recipe.AddStep | RecipeManagement/Domain/Entities/Recipe.cs:37-43 | a blank description is refused, then (by the Step constructor) an order <= 0, with Steps unchanged; otherwise exactly one fresh step is appended, carrying this recipe's id, the order and the description |
| RecipeEntity.Recipe.AddIngredient | RecipeManagement/Domain/Entities/Recipe.cs:45-51 | a no-op success when an entry for the ingredient exists; otherwise it fails iff the id is empty, and else appends exactly one entry (this recipe's id, the ingredient, the amount); ingredient ids stay distinct |
| RecipeEntity.Recipe.AddCategory | RecipeManagement/Domain/Entities/Recipe.cs:53-59 | a no-op success on a duplicate category; otherwise it fails iff the id is empty, and else appends exactly RecipeCategory(Id, categoryId); category ids stay distinct |
| Persistence.RemoveFirst | RecipeManagement/Infrastructure/Persistence/Repositories/FavoriteRepository.cs:47-54 | deleting a row: an absent row leaves the table unchanged; otherwise the table is one row shorter and gains nothing |
| Persistence.RemoveFirstFromDistinct | RecipeManagement/Infrastructure/Persistence/Repositories/FavoriteRepository.cs:47-54 | in a table without duplicates, deleting a pair removes it entirely, keeps every other pair, and keeps the table free of duplicates |
| Persistence.WithoutRecipeKeepsDistinctRows | RecipeManagement/Infrastructure/Persistence/EntityConfigurations/RecipeConfiguration.cs:52-57 | the cascade on a recipe's favorites keeps the table free of duplicate rows |
| Persistence.FavoredRecipeIds | RecipeManagement/Infrastructure/Persistence/Repositories/FavoriteRepository.cs:26-38 | the recipe ids of a user's rows: an id is listed iff that (user, recipe) row is stored; never longer than the table |
| Persistence.FavoredRecipeIdsAppend | RecipeManagement/Infrastructure/Persistence/Repositories/FavoriteRepository.cs:42-45 | appending a row adds its recipe at the end of that user's list and changes no other user's list |
| Persistence.Store.constructor | RecipeManagement/Infrastructure/Persistence/RecipeDbContext.cs:6-15 | an empty database satisfies every store invariant |
| Persistence.Store.GetUserById | RecipeManagement/Infrastructure/Persistence/Repositories/UserRepository.cs:16-22 | returns a user iff one is stored under that id, and then that one |
| Persistence.Store.GetUserByUsername | RecipeManagement/Infrastructure/Persistence/Repositories/UserRepository.cs:24-30 | returns none iff no stored user has exactly that username; otherwise a stored user with that username |
| Persistence.Store.AddUser | RecipeManagement/Infrastructure/Persistence/Repositories/UserRepository.cs:32-35 | the user is stored under its id; nothing else changes |
| Persistence.Store.GetRecipeById | RecipeManagement/Infrastructure/Persistence/Repositories/RecipeRepository.cs:16-26 | returns a recipe iff one is stored under that id, and then that one |
| Persistence.Store.GetRecipeByName | RecipeManagement/Infrastructure/Persistence/Repositories/RecipeRepository.cs:28-38 | returns none iff no stored recipe has exactly that name; otherwise a stored recipe with that name |
| Persistence.Store.GetRecipesByAuthorId | RecipeManagement/Infrastructure/Persistence/Repositories/RecipeRepository.cs:40-50 | exactly the stored recipes whose AuthorId is the given id |
| Persistence.Store.GetRecipesByIngredient | RecipeManagement/Infrastructure/Persistence/Repositories/RecipeRepository.cs:52-62 | exactly the stored recipes with an edge to the ingredient |
| Persistence.Store.GetRecipesByCategory | RecipeManagement/Infrastructure/Persistence/Repositories/RecipeRepository.cs:64-74 | exactly the stored recipes with an edge to the category |
| Persistence.Store.AddRecipe | RecipeManagement/Infrastructure/Persistence/Repositories/RecipeRepository.cs:76-79 | the recipe is stored under its id; nothing else changes |
| Persistence.Store.DeleteRecipe | RecipeManagement/Infrastructure/Persistence/Repositories/RecipeRepository.cs:81-86 | the recipe is removed if present; by the cascade of RecipeConfiguration.cs:52-57, every favorite row pointing at it goes too |
| Persistence.Store.GetFavorite | RecipeManagement/Infrastructure/Persistence/Repositories/FavoriteRepository.cs:16-22 | returns the pair iff that row is stored |
| Persistence.Store.GetFavoritesByUser | RecipeManagement/Infrastructure/Persistence/Repositories/FavoriteRepository.cs:24-40 | in table order, element i is the stored recipe of the user's i-th row; every favored recipe is listed, and each listed recipe is stored and favored |
| Persistence.Store.AddFavorite | RecipeManagement/Infrastructure/Persistence/Repositories/FavoriteRepository.cs:42-45 | the row is appended |
| Persistence.Store.DeleteFavorite | RecipeManagement/Infrastructure/Persistence/Repositories/FavoriteRepository.cs:47-54 | the first row for that pair, if any, is removed |
| RecipeServices.RecipeService.constructor | RecipeManagement/Domain/Services/RecipeService.cs:11-15 | the service works on the store it is given (both repositories are that one store) |
| RecipeServices.RecipeService.AddRecipe | RecipeManagement/Domain/Services/RecipeService.cs:20-38 | it fails with NotRegistered for an unknown author, else DuplicateName for a taken name, else IncompleteRecipe for an invalid recipe, and succeeds iff none applies; on failure the store is unchanged; on success exactly this recipe is added under its new id; store invariants (unique names included) are kept |
| RecipeServices.RecipeService.DeleteRecipe | RecipeManagement/Domain/Services/RecipeService.cs:43-51 | it fails with NotFound iff the id is absent, leaving the store unchanged; otherwise that recipe and exactly its favorite rows are removed; users never change; invariants are kept |
| RecipeServices.RecipeService.GetRecipesByUser | RecipeManagement/Domain/Services/RecipeService.cs:56-59 | exactly the stored recipes authored by the user; the store is not modified |
| RecipeServices.RecipeService.GetRecipesByIngredient | RecipeManagement/Domain/Services/RecipeService.cs:64-67 | exactly the stored recipes with that ingredient; the store is not modified |
| RecipeServices.RecipeService.GetRecipesByCategory | RecipeManagement/Domain/Services/RecipeService.cs:72-75 | exactly the stored recipes in that category; the store is not modified |
| UserServices.UserService.constructor | RecipeManagement/Domain/Services/UserService.cs:10-13 | the service works on the store it is given |
| UserServices.UserService.RegisterUser | RecipeManagement/Domain/Services/UserService.cs:18-34 | a blank username is refused, then a blank hash (both before any lookup), then a taken username; it succeeds iff none applies; on failure the store is unchanged; on success exactly one fresh user with the given fields is added; usernames stay unique |
| UserServices.UserService.GetUserById | RecipeManagement/Domain/Services/UserService.cs:39-42 | the stored user with that id, or none iff there is none |
| UserServices.UserService.GetUserByUsername | RecipeManagement/Domain/Services/UserService.cs:47-53 | it fails iff the username is blank; otherwise it returns the stored user with exactly that username, or none iff the name is not taken |
| UserServices.UserService.UpdateEmail | RecipeManagement/Domain/Services/UserService.cs:58-65 | it fails with NotFound iff the user is absent; otherwise that user's Email becomes the new string; no other user's e-mail or favorites change, and the store invariants are kept |
| FavoriteServices.FavoriteService.constructor | RecipeManagement/Domain/Services/FavoriteService.cs:12-20 | the service works on the store it is given (all three repositories are that one store) |
| FavoriteServices.FavoriteService.AddFavorite | RecipeManagement/Domain/Services/FavoriteService.cs:25-44 | it fails with NotRegistered, else NotFound, else SelfFavorite (even if the pair is stored), and succeeds iff none applies; an existing pair is a no-op success; otherwise exactly that pair is appended; pairs stay unique; users and recipes never change |
| FavoriteServices.FavoriteService.RemoveFavorite | RecipeManagement/Domain/Services/FavoriteService.cs:49-57 | never fails and checks neither user nor recipe; an absent pair leaves the table unchanged; otherwise exactly that pair goes and every other pair stays |
| FavoriteServices.FavoriteService.GetFavoritesByUser | RecipeManagement/Domain/Services/FavoriteService.cs:62-68 | it fails with NotRegistered iff the user is absent; otherwise one recipe per favorite row: every favored recipe is listed, and every listed recipe is stored and favored; the store is not modified |
| Scenarios.CompleteAFreshRecipe | RecipeManagement/Domain/Entities/Recipe.cs:37-67 | a recipe is not valid when created, and is valid after one step, one ingredient and one category are added |
| Scenarios.CompleteRecipe | RecipeManagement/Domain/Entities/Recipe.cs:20-67 | construction plus one successful AddStep, AddIngredient and AddCategory gives a WellFormed, valid recipe |
| Scenarios.CarolAndBob | RecipeManagement/Domain/Services/UserService.cs:18-34 | two registrations with distinct usernames both succeed, giving a valid store holding exactly those two users |
| Scenarios.StoreWithSoup | RecipeManagement/Domain/Services/RecipeService.cs:20-38 | a complete recipe by a registered author with an unused name is stored |
| Scenarios.FavoriteTwiceAndSelfFavorite | RecipeManagement/Domain/Services/FavoriteService.cs:33-39 | favoriting twice succeeds both times and leaves one row; favoriting one's own recipe fails with SelfFavorite |
| Scenarios.SelfFavoriteOverStoredRow | RecipeManagement/Domain/Services/FavoriteService.cs:33-39 | with the author's own favorite row already stored (a state the store admits), adding that favorite still fails with SelfFavorite and the table keeps its one row |
| Scenarios.RegisterTwice | RecipeManagement/Domain/Services/UserService.cs:26-29 | the second registration of a username fails with DuplicateUsername, and the first user is still found by that name |
| Scenarios.AddIncompleteRecipe | RecipeManagement/Domain/Services/RecipeService.cs:32-34 | a recipe without a category is refused as incomplete, and nothing is stored |

## Left out

- Asynchrony (`Task`, `await`) and `SaveChangesAsync`: each store write takes effect at once, and operations run one after another.
- Exception classes and message strings: each throw becomes an `Error` kind. A missing user is `NotRegistered` (the `InvalidOperationException` of `AddRecipeAsync`, `AddFavoriteAsync` and `GetFavoritesByUserAsync`), except in `UpdateEmail`, where the `KeyNotFoundException` becomes `NotFound`. A missing recipe is `NotFound`, whether the exception is `InvalidOperationException` (`AddFavoriteAsync`) or `KeyNotFoundException` (`DeleteRecipeAsync`). `ArgumentException` becomes `Invalid(argument)`.
- `Favorite.CreatedAt`: it reads the clock (`DateTime.UtcNow`), so it is not modelled.
- Navigation properties (`Recipe.Author`, `User.Recipes`, `Favorite.User`, `Favorite.Recipe`, `Step.Recipe`, the edges' `Recipe`, `Ingredient` and `Category`) and the `Include` eager loading of the repositories: relations are ids, and a query returns the stored objects.
- The Entity Framework configurations (column lengths, the unique step order per recipe, the composite keys) and the repository interfaces. The store invariants state unique usernames, unique recipe names, unique favorite pairs and the favorites' foreign keys as properties that the services keep. Nothing in the database enforces them in this model.
- The cascades from a recipe to its steps and edges: those belong to the recipe object, which leaves the store as a whole. Only the favorites cascade is modelled, as an explicit store assumption.
- `User.Favorites` (the in-memory list) and the favorites table are independent. The source's services never touch the list, and Entity Framework's relationship fix-up is not modelled.
- The test harness (SQLite setup, console output).
- `null` for parameters declared as non-nullable `string`: such strings are always present in the model; nullable ones are `Option<string>`.
- `Guid.NewGuid()`: the fresh id is a parameter. `RecipeService.AddRecipe` and `UserService.RegisterUser` require that the id is not already in use by another object, as a fresh Guid would be.
- Concurrency: two services racing past a uniqueness pre-check is not modelled.
- Persistence.Store.GetRecipesByAuthorId, GetRecipesByIngredient, GetRecipesByCategory and the three RecipeService queries return a set; the order of the `ToListAsync` result is not modelled.
- Persistence.Store.GetUserByUsername and GetRecipeByName pick some matching record. `FirstOrDefault` picks the first in table order, which is the same record under the store invariants.
- Aliasing after an add: a stored recipe or user object can still be changed through another reference. The store invariants only read the fields that never change after construction (id, name, username, password hash, author), so such changes cannot break them.
