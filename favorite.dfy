/** Favorite.cs: a user's mark on a recipe. It has no mutator, so it is a value;
    its creation time is a clock read and is not part of the model. */
module FavoriteEntity {
  import opened Common

  datatype Favorite = Favorite(UserId: Guid, RecipeId: Guid) {
    /** Both ids are non-empty. */
    predicate WellFormed() {
      UserId != EmptyGuid && RecipeId != EmptyGuid
    }
  }

  /** `new Favorite(userId, recipeId)`: the user id is checked first, then the
      recipe id; a success carries both ids unchanged. */
  function NewFavorite(userId: Guid, recipeId: Guid): (r: Result<Favorite>)
    ensures userId == EmptyGuid ==> r == Failure(Invalid(UserIdArg))
    ensures userId != EmptyGuid && recipeId == EmptyGuid ==> r == Failure(Invalid(RecipeIdArg))
    ensures r.Success? <==> userId != EmptyGuid && recipeId != EmptyGuid
    ensures r.Success? ==> r.value.WellFormed()
    ensures r.Success? ==> r.value.UserId == userId && r.value.RecipeId == recipeId
  {
    if userId == EmptyGuid then Failure(Invalid(UserIdArg))
    else if recipeId == EmptyGuid then Failure(Invalid(RecipeIdArg))
    else Success(Favorite(userId, recipeId))
  }
}
