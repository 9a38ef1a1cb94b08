/** User.cs: a registered user with an in-memory list of favorites. Username
    and password hash are validated at construction and never change; the
    favorites list never holds two entries for the same recipe. */
module UserEntity {
  import opened Common
  import opened FavoriteEntity

  /** No two favorites name the same recipe. */
  predicate DistinctRecipeIds(favorites: seq<Favorite>) {
    forall i, j :: 0 <= i < j < |favorites| ==> favorites[i].RecipeId != favorites[j].RecipeId
  }

  /** `Favorites.Any(f => f.RecipeId == recipeId)`. */
  predicate HasFavoriteFor(favorites: seq<Favorite>, recipeId: Guid) {
    exists i :: 0 <= i < |favorites| && favorites[i].RecipeId == recipeId
  }

  /** `RemoveAll(f => f.RecipeId == recipeId)`: every entry for that recipe goes,
      the others stay. */
  function WithoutRecipe(favorites: seq<Favorite>, recipeId: Guid): (r: seq<Favorite>)
    ensures |r| <= |favorites|
    ensures forall i :: 0 <= i < |r| ==> r[i].RecipeId != recipeId
    ensures forall f :: f in r <==> f in favorites && f.RecipeId != recipeId
  {
    if favorites == [] then []
    else if favorites[0].RecipeId == recipeId then WithoutRecipe(favorites[1..], recipeId)
    else [favorites[0]] + WithoutRecipe(favorites[1..], recipeId)
  }

  /** Removal keeps the relative order of what remains: it distributes over
      concatenation. */
  lemma {:induction false} WithoutRecipeAppend(a: seq<Favorite>, b: seq<Favorite>, recipeId: Guid)
    ensures WithoutRecipe(a + b, recipeId) == WithoutRecipe(a, recipeId) + WithoutRecipe(b, recipeId)
  {
    if a == [] {
      assert a + b == b;
    } else {
      assert (a + b)[0] == a[0];
      assert (a + b)[1..] == a[1..] + b;
      WithoutRecipeAppend(a[1..], b, recipeId);
    }
  }

  /** Removing a recipe no entry names leaves the list as it was. */
  lemma {:induction false} WithoutAbsentRecipe(favorites: seq<Favorite>, recipeId: Guid)
    requires !HasFavoriteFor(favorites, recipeId)
    ensures WithoutRecipe(favorites, recipeId) == favorites
  {
    if favorites != [] {
      assert favorites[0].RecipeId != recipeId;
      assert !HasFavoriteFor(favorites[1..], recipeId) by {
        forall i | 0 <= i < |favorites[1..]|
          ensures favorites[1..][i].RecipeId != recipeId
        {
          assert favorites[1..][i] == favorites[i + 1];
        }
      }
      WithoutAbsentRecipe(favorites[1..], recipeId);
      assert favorites == [favorites[0]] + favorites[1..];
    }
  }

  /** Removing the same recipe twice is removing it once. */
  lemma WithoutRecipeIdempotent(favorites: seq<Favorite>, recipeId: Guid)
    ensures WithoutRecipe(WithoutRecipe(favorites, recipeId), recipeId) == WithoutRecipe(favorites, recipeId)
  {
    WithoutAbsentRecipe(WithoutRecipe(favorites, recipeId), recipeId);
  }

  /** Removal keeps the recipe ids of the list distinct. */
  lemma {:induction false} WithoutRecipeKeepsDistinct(favorites: seq<Favorite>, recipeId: Guid)
    requires DistinctRecipeIds(favorites)
    ensures DistinctRecipeIds(WithoutRecipe(favorites, recipeId))
  {
    if favorites != [] {
      var tail := favorites[1..];
      assert DistinctRecipeIds(tail) by {
        forall i, j | 0 <= i < j < |tail|
          ensures tail[i].RecipeId != tail[j].RecipeId
        {
          assert tail[i] == favorites[i + 1] && tail[j] == favorites[j + 1];
        }
      }
      WithoutRecipeKeepsDistinct(tail, recipeId);
      if favorites[0].RecipeId != recipeId {
        var rest := WithoutRecipe(tail, recipeId);
        forall k | 0 <= k < |rest|
          ensures rest[k].RecipeId != favorites[0].RecipeId
        {
          assert rest[k] in tail;
          var j :| 0 <= j < |tail| && tail[j] == rest[k];
          assert tail[j] == favorites[j + 1];
        }
        var r := [favorites[0]] + rest;
        forall i, j | 0 <= i < j < |r|
          ensures r[i].RecipeId != r[j].RecipeId
        {
          if i == 0 {
            assert r[j] == rest[j - 1];
          } else {
            assert r[i] == rest[i - 1] && r[j] == rest[j - 1];
          }
        }
      }
    }
  }

  class User {
    const Id: Guid
    const Username: string
    var Email: Option<string>
    const PasswordHash: string
    var Favorites: seq<Favorite>

    /** The invariant every User keeps: a non-empty id, a username and a
        password hash that are not blank, and one favorite per recipe at most. */
    predicate WellFormed()
      reads this
    {
      Id != EmptyGuid && !IsNullOrWhiteSpace(Username) && !IsNullOrWhiteSpace(PasswordHash)
      && DistinctRecipeIds(Favorites)
    }

    /** The field initialisation that runs once the constructor's guards passed. */
    constructor (id: Guid, username: string, passwordHash: string, email: Option<string>)
      requires id != EmptyGuid && !IsNullOrWhiteSpace(username) && !IsNullOrWhiteSpace(passwordHash)
      ensures WellFormed()
      ensures Id == id && Username == username && PasswordHash == passwordHash && Email == email
      ensures Favorites == []
    {
      Id := id;
      Username := username;
      PasswordHash := passwordHash;
      Email := email;
      Favorites := [];
    }

    /** `new User(username, passwordHash, email)`: the username is checked
        before the password hash; `id` is the fresh Guid of the property initialiser. */
    static method Create(id: Guid, username: string, passwordHash: string, email: Option<string>)
      returns (r: Result<User>)
      requires id != EmptyGuid
      ensures IsNullOrWhiteSpace(username) ==> r == Failure(Invalid(UsernameArg))
      ensures !IsNullOrWhiteSpace(username) && IsNullOrWhiteSpace(passwordHash) ==>
                r == Failure(Invalid(PasswordHashArg))
      ensures r.Success? <==> !IsNullOrWhiteSpace(username) && !IsNullOrWhiteSpace(passwordHash)
      ensures r.Success? ==> fresh(r.value) && r.value.WellFormed()
      ensures r.Success? ==> r.value.Id == id && r.value.Username == username
      ensures r.Success? ==> r.value.PasswordHash == passwordHash && r.value.Email == email
      ensures r.Success? ==> r.value.Favorites == []
    {
      if IsNullOrWhiteSpace(username) {
        return Failure(Invalid(UsernameArg));
      }
      if IsNullOrWhiteSpace(passwordHash) {
        return Failure(Invalid(PasswordHashArg));
      }
      var u := new User(id, username, passwordHash, email);
      return Success(u);
    }

    /** Sets the e-mail to any string, the empty one included: no validation. */
    method ChangeEmail(newEmail: string)
      modifies this`Email
      ensures Email == Some(newEmail)
      ensures WellFormed() <==> old(WellFormed())
    {
      Email := Some(newEmail);
    }

    /** Appends the favorite unless one for the same recipe is already listed. */
    method AddFavorite(favorite: Favorite)
      requires WellFormed()
      modifies this`Favorites
      ensures WellFormed()
      ensures HasFavoriteFor(old(Favorites), favorite.RecipeId) ==> Favorites == old(Favorites)
      ensures !HasFavoriteFor(old(Favorites), favorite.RecipeId) ==> Favorites == old(Favorites) + [favorite]
    {
      if !HasFavoriteFor(Favorites, favorite.RecipeId) {
        Favorites := Favorites + [favorite];
      }
    }

    /** Drops every favorite for the recipe, keeping the others in order. */
    method RemoveFavorite(recipeId: Guid)
      requires WellFormed()
      modifies this`Favorites
      ensures WellFormed()
      ensures Favorites == WithoutRecipe(old(Favorites), recipeId)
      ensures !HasFavoriteFor(Favorites, recipeId)
    {
      WithoutRecipeKeepsDistinct(Favorites, recipeId);
      Favorites := WithoutRecipe(Favorites, recipeId);
    }
  }
}
