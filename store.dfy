/** The persistence the services talk to, as one in-memory store: the users
    and recipes by id, and the favorites table as rows in insertion order. Each
    method is one repository operation (IUserRepository, IRecipeRepository,
    IFavoriteRepository); its lookup uses the same exact-equality filter as the
    Entity Framework implementation. A write is visible at once, so
    SaveChangesAsync has no counterpart. */
module Persistence {
  import opened Common
  import opened FavoriteEntity
  import opened UserEntity
  import opened RecipeEntity

  /** Deleting a favorite row: the first row equal to `row` goes, the others
      keep their order. */
  function RemoveFirst(rows: seq<Favorite>, row: Favorite): (r: seq<Favorite>)
    ensures row !in rows ==> r == rows
    ensures forall f :: f in r ==> f in rows
    ensures row in rows ==> |r| == |rows| - 1
  {
    if rows == [] then []
    else if rows[0] == row then rows[1..]
    else [rows[0]] + RemoveFirst(rows[1..], row)
  }

  /** In a table without duplicate rows, deleting a row removes that pair
      entirely and keeps every other pair and the absence of duplicates. */
  lemma {:induction false} RemoveFirstFromDistinct(rows: seq<Favorite>, row: Favorite)
    requires Distinct(rows)
    ensures row !in RemoveFirst(rows, row)
    ensures Distinct(RemoveFirst(rows, row))
    ensures forall f :: f != row ==> (f in RemoveFirst(rows, row) <==> f in rows)
  {
    if rows != [] {
      var tail := rows[1..];
      assert rows == [rows[0]] + tail;
      assert Distinct(tail) by {
        forall i, j | 0 <= i < j < |tail| ensures tail[i] != tail[j] {
          assert tail[i] == rows[i + 1] && tail[j] == rows[j + 1];
        }
      }
      assert rows[0] !in tail by {
        forall j | 0 <= j < |tail| ensures tail[j] != rows[0] {
          assert tail[j] == rows[j + 1];
        }
      }
      if rows[0] != row {
        RemoveFirstFromDistinct(tail, row);
        var rest := RemoveFirst(tail, row);
        var r := [rows[0]] + rest;
        forall i, j | 0 <= i < j < |r| ensures r[i] != r[j] {
          if i == 0 {
            assert r[j] == rest[j - 1] && rest[j - 1] in tail;
          } else {
            assert r[i] == rest[i - 1] && r[j] == rest[j - 1];
          }
        }
      }
    }
  }

  /** Filtering rows on the recipe keeps a table without duplicate rows so. */
  lemma {:induction false} WithoutRecipeKeepsDistinctRows(rows: seq<Favorite>, recipeId: Guid)
    requires Distinct(rows)
    ensures Distinct(WithoutRecipe(rows, recipeId))
  {
    if rows != [] {
      var tail := rows[1..];
      assert Distinct(tail) by {
        forall i, j | 0 <= i < j < |tail| ensures tail[i] != tail[j] {
          assert tail[i] == rows[i + 1] && tail[j] == rows[j + 1];
        }
      }
      WithoutRecipeKeepsDistinctRows(tail, recipeId);
      if rows[0].RecipeId != recipeId {
        var rest := WithoutRecipe(tail, recipeId);
        assert rows[0] !in rest by {
          forall j | 0 <= j < |tail| ensures tail[j] != rows[0] {
            assert tail[j] == rows[j + 1];
          }
        }
        var r := [rows[0]] + rest;
        forall i, j | 0 <= i < j < |r| ensures r[i] != r[j] {
          if i == 0 {
            assert r[j] == rest[j - 1];
          } else {
            assert r[i] == rest[i - 1] && r[j] == rest[j - 1];
          }
        }
      }
    }
  }

  /** `Favorites.Where(f => f.UserId == userId).Select(f => f.RecipeId)`:
      the recipes the user favorited, in table order. */
  function FavoredRecipeIds(rows: seq<Favorite>, userId: Guid): (ids: seq<Guid>)
    ensures |ids| <= |rows|
    ensures forall id :: id in ids <==> Favorite(userId, id) in rows
  {
    if rows == [] then []
    else
      assert rows == [rows[0]] + rows[1..];
      (if rows[0].UserId == userId then [rows[0].RecipeId] else []) + FavoredRecipeIds(rows[1..], userId)
  }

  /** Favoring is appending at the end of that user's list, and no other user's list changes. */
  lemma {:induction false} FavoredRecipeIdsAppend(rows: seq<Favorite>, row: Favorite, userId: Guid)
    ensures FavoredRecipeIds(rows + [row], userId)
            == FavoredRecipeIds(rows, userId) + (if row.UserId == userId then [row.RecipeId] else [])
  {
    if rows == [] {
      assert rows + [row] == [row];
      assert [row][1..] == [];
    } else {
      assert (rows + [row])[0] == rows[0];
      assert (rows + [row])[1..] == rows[1..] + [row];
      FavoredRecipeIdsAppend(rows[1..], row, userId);
    }
  }

  class Store {
    var users: map<Guid, User>
    var recipes: map<Guid, Recipe>
    var favorites: seq<Favorite>

    /** Every user is stored under its own non-empty id and has a username and
        a password hash that are not blank. */
    ghost predicate UsersKeyed()
      reads this
    {
      forall k :: k in users ==>
        k != EmptyGuid && users[k].Id == k
        && !IsNullOrWhiteSpace(users[k].Username) && !IsNullOrWhiteSpace(users[k].PasswordHash)
    }

    /** Every recipe is stored under its own non-empty id, has a name that is not
        blank, and its author is a stored user. */
    ghost predicate RecipesKeyed()
      reads this
    {
      forall k :: k in recipes ==>
        k != EmptyGuid && recipes[k].Id == k && !IsNullOrWhiteSpace(recipes[k].Name)
        && recipes[k].AuthorId in users
    }

    /** The unique index on Username. */
    ghost predicate UniqueUsernames()
      reads this
    {
      forall a, b :: a in users && b in users && users[a].Username == users[b].Username ==> a == b
    }

    /** The unique index on recipe Name. */
    ghost predicate UniqueRecipeNames()
      reads this
    {
      forall a, b :: a in recipes && b in recipes && recipes[a].Name == recipes[b].Name ==> a == b
    }

    /** The composite key of the favorites table and its two foreign keys. A
        row for the user's own recipe is not excluded: only the service refuses
        to add one. */
    ghost predicate FavoritesConsistent()
      reads this
    {
      && Distinct(favorites)
      && forall f :: f in favorites ==> f.UserId in users && f.RecipeId in recipes
    }

    ghost predicate Valid()
      reads this
    {
      UsersKeyed() && RecipesKeyed() && UniqueUsernames() && UniqueRecipeNames() && FavoritesConsistent()
    }

    /** Some stored user has exactly this username. */
    ghost predicate UsernameTaken(username: string)
      reads this
    {
      exists k :: k in users && users[k].Username == username
    }

    /** Some stored recipe has exactly this name. */
    ghost predicate RecipeNameTaken(name: string)
      reads this
    {
      exists k :: k in recipes && recipes[k].Name == name
    }

    /** An empty database. */
    constructor ()
      ensures Valid()
      ensures users == map[] && recipes == map[] && favorites == []
    {
      users := map[];
      recipes := map[];
      favorites := [];
    }

    /** IUserRepository.GetByIdAsync: the user with that id, if any. */
    method GetUserById(id: Guid) returns (u: Option<User>)
      ensures u.Some? <==> id in users
      ensures u.Some? ==> u.value == users[id]
    {
      if id in users {
        return Some(users[id]);
      }
      return None;
    }

    /** IUserRepository.GetByUsernameAsync: a user with exactly that username, if any. */
    method GetUserByUsername(username: string) returns (u: Option<User>)
      ensures u.None? <==> !UsernameTaken(username)
      ensures u.Some? ==> u.value in users.Values && u.value.Username == username
    {
      if k :| k in users && users[k].Username == username {
        return Some(users[k]);
      }
      return None;
    }

    /** IUserRepository.AddAsync. */
    method AddUser(user: User)
      modifies this`users
      ensures users == old(users)[user.Id := user]
    {
      users := users[user.Id := user];
    }

    /** IRecipeRepository.GetByIdAsync: the recipe with that id, if any. */
    method GetRecipeById(id: Guid) returns (r: Option<Recipe>)
      ensures r.Some? <==> id in recipes
      ensures r.Some? ==> r.value == recipes[id]
    {
      if id in recipes {
        return Some(recipes[id]);
      }
      return None;
    }

    /** IRecipeRepository.GetByNameAsync: a recipe with exactly that name, if any. */
    method GetRecipeByName(name: string) returns (r: Option<Recipe>)
      ensures r.None? <==> !RecipeNameTaken(name)
      ensures r.Some? ==> r.value in recipes.Values && r.value.Name == name
    {
      if k :| k in recipes && recipes[k].Name == name {
        return Some(recipes[k]);
      }
      return None;
    }

    /** IRecipeRepository.GetByAuthorIdAsync: the recipes written by that user. */
    method GetRecipesByAuthorId(authorId: Guid) returns (rs: set<Recipe>)
      ensures forall r :: r in rs <==> r in recipes.Values && r.AuthorId == authorId
    {
      rs := set r | r in recipes.Values && r.AuthorId == authorId;
    }

    /** IRecipeRepository.GetByIngredientAsync: the recipes with an edge to that ingredient. */
    method GetRecipesByIngredient(ingredientId: Guid) returns (rs: set<Recipe>)
      ensures forall r :: r in rs <==> r in recipes.Values && HasIngredient(r.RecipeIngredients, ingredientId)
    {
      rs := set r | r in recipes.Values && HasIngredient(r.RecipeIngredients, ingredientId);
    }

    /** IRecipeRepository.GetByCategoryAsync: the recipes with an edge to that category. */
    method GetRecipesByCategory(categoryId: Guid) returns (rs: set<Recipe>)
      ensures forall r :: r in rs <==> r in recipes.Values && HasCategory(r.RecipeCategories, categoryId)
    {
      rs := set r | r in recipes.Values && HasCategory(r.RecipeCategories, categoryId);
    }

    /** IRecipeRepository.AddAsync. */
    method AddRecipe(recipe: Recipe)
      modifies this`recipes
      ensures recipes == old(recipes)[recipe.Id := recipe]
    {
      recipes := recipes[recipe.Id := recipe];
    }

    /** IRecipeRepository.DeleteAsync: removes the recipe if present. The
        database's cascade on the Favorites foreign key removes the rows that
        point at it; this model states that cascade as part of the store. */
    method DeleteRecipe(id: Guid)
      modifies this`recipes, this`favorites
      ensures recipes == old(recipes) - {id}
      ensures favorites == WithoutRecipe(old(favorites), id)
    {
      recipes := recipes - {id};
      favorites := WithoutRecipe(favorites, id);
    }

    /** IFavoriteRepository.GetAsync: the row for that pair, if any. */
    method GetFavorite(userId: Guid, recipeId: Guid) returns (f: Option<Favorite>)
      ensures f.Some? <==> Favorite(userId, recipeId) in favorites
      ensures f.Some? ==> f.value == Favorite(userId, recipeId)
    {
      if Favorite(userId, recipeId) in favorites {
        return Some(Favorite(userId, recipeId));
      }
      return None;
    }

    /** IFavoriteRepository.GetFavoritesByUserAsync: the recipe of each of the
        user's rows, in table order. */
    method GetFavoritesByUser(userId: Guid) returns (rs: seq<Recipe>)
      requires Valid()
      ensures |rs| == |FavoredRecipeIds(favorites, userId)|
      ensures forall i :: 0 <= i < |rs| ==>
                FavoredRecipeIds(favorites, userId)[i] in recipes
                && rs[i] == recipes[FavoredRecipeIds(favorites, userId)[i]]
      ensures forall id :: Favorite(userId, id) in favorites ==> id in recipes && recipes[id] in rs
      ensures forall r :: r in rs ==> r in recipes.Values && Favorite(userId, r.Id) in favorites
    {
      var ids := FavoredRecipeIds(favorites, userId);
      var stored := recipes;
      forall i | 0 <= i < |ids| ensures ids[i] in stored {
        assert ids[i] in ids;
        assert Favorite(userId, ids[i]) in favorites;
      }
      rs := seq(|ids|, i requires 0 <= i < |ids| => stored[ids[i]]);
      forall id | Favorite(userId, id) in favorites
        ensures id in recipes && recipes[id] in rs
      {
        var i :| 0 <= i < |ids| && ids[i] == id;
        assert rs[i] == recipes[id];
      }
      forall r | r in rs
        ensures r in recipes.Values && Favorite(userId, r.Id) in favorites
      {
        var i :| 0 <= i < |rs| && rs[i] == r;
        assert ids[i] in ids;
      }
    }

    /** IFavoriteRepository.AddAsync. */
    method AddFavorite(favorite: Favorite)
      modifies this`favorites
      ensures favorites == old(favorites) + [favorite]
    {
      favorites := favorites + [favorite];
    }

    /** IFavoriteRepository.DeleteAsync: removes the first row for that pair, if any. */
    method DeleteFavorite(userId: Guid, recipeId: Guid)
      modifies this`favorites
      ensures favorites == RemoveFirst(old(favorites), Favorite(userId, recipeId))
    {
      favorites := RemoveFirst(favorites, Favorite(userId, recipeId));
    }
  }
}
