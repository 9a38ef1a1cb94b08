/** RecipeCategory.cs: the edge from a recipe to a category. It has no mutator,
    so it is a value. */
module RecipeCategoryEntity {
  import opened Common

  datatype RecipeCategory = RecipeCategory(RecipeId: Guid, CategoryId: Guid) {
    /** Both ends of the edge are non-empty ids. */
    predicate WellFormed() {
      RecipeId != EmptyGuid && CategoryId != EmptyGuid
    }
  }

  /** `new RecipeCategory(recipeId, categoryId)`: the recipe id is checked
      first, then the category id; a success carries both ids unchanged. */
  function NewRecipeCategory(recipeId: Guid, categoryId: Guid): (r: Result<RecipeCategory>)
    ensures recipeId == EmptyGuid ==> r == Failure(Invalid(RecipeIdArg))
    ensures recipeId != EmptyGuid && categoryId == EmptyGuid ==> r == Failure(Invalid(CategoryIdArg))
    ensures r.Success? <==> recipeId != EmptyGuid && categoryId != EmptyGuid
    ensures r.Success? ==> r.value.WellFormed()
    ensures r.Success? ==> r.value.RecipeId == recipeId && r.value.CategoryId == categoryId
  {
    if recipeId == EmptyGuid then Failure(Invalid(RecipeIdArg))
    else if categoryId == EmptyGuid then Failure(Invalid(CategoryIdArg))
    else Success(RecipeCategory(recipeId, categoryId))
  }
}
