/** RecipeIngredient.cs: the edge from a recipe to an ingredient, carrying an
    optional free-text amount. The two ids are fixed at construction. */
module RecipeIngredientEntity {
  import opened Common

  class RecipeIngredient {
    const RecipeId: Guid
    const IngredientId: Guid
    var Amount: Option<string>

    /** Both ends of the edge are non-empty ids. */
    predicate WellFormed() {
      RecipeId != EmptyGuid && IngredientId != EmptyGuid
    }

    /** The field initialisation that runs once the constructor's guards passed. */
    constructor (recipeId: Guid, ingredientId: Guid, amount: Option<string>)
      requires recipeId != EmptyGuid && ingredientId != EmptyGuid
      ensures WellFormed()
      ensures RecipeId == recipeId && IngredientId == ingredientId && Amount == amount
    {
      RecipeId := recipeId;
      IngredientId := ingredientId;
      Amount := amount;
    }

    /** `new RecipeIngredient(recipeId, ingredientId, amount)`: the recipe id is
        checked before the ingredient id; any amount, even none, is accepted. */
    static method Create(recipeId: Guid, ingredientId: Guid, amount: Option<string>)
      returns (r: Result<RecipeIngredient>)
      ensures recipeId == EmptyGuid ==> r == Failure(Invalid(RecipeIdArg))
      ensures recipeId != EmptyGuid && ingredientId == EmptyGuid ==> r == Failure(Invalid(IngredientIdArg))
      ensures r.Success? <==> recipeId != EmptyGuid && ingredientId != EmptyGuid
      ensures r.Success? ==> fresh(r.value) && r.value.WellFormed()
      ensures r.Success? ==> r.value.RecipeId == recipeId && r.value.IngredientId == ingredientId
      ensures r.Success? ==> r.value.Amount == amount
    {
      if recipeId == EmptyGuid {
        return Failure(Invalid(RecipeIdArg));
      }
      if ingredientId == EmptyGuid {
        return Failure(Invalid(IngredientIdArg));
      }
      var e := new RecipeIngredient(recipeId, ingredientId, amount);
      return Success(e);
    }

    /** Sets the amount to any value, none included; the ids are constants. */
    method UpdateAmount(newAmount: Option<string>)
      modifies this`Amount
      ensures Amount == newAmount
    {
      Amount := newAmount;
    }
  }
}
