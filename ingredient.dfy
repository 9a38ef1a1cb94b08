/** Ingredient.cs: a named ingredient. The name is validated at construction
    and on every rename. */
module IngredientEntity {
  import opened Common
  import opened RecipeIngredientEntity

  class Ingredient {
    const Id: Guid
    var Name: string
    /** The edges to the recipes that use this ingredient; only the persistence
        layer fills this collection. */
    var RecipeIngredients: seq<RecipeIngredient>

    /** The invariant every Ingredient keeps: a non-empty id and a name that is not blank. */
    predicate WellFormed()
      reads this
    {
      Id != EmptyGuid && !IsNullOrWhiteSpace(Name)
    }

    /** The field initialisation that runs once the constructor's guard passed. */
    constructor (id: Guid, name: string)
      requires id != EmptyGuid && !IsNullOrWhiteSpace(name)
      ensures WellFormed()
      ensures Id == id && Name == name && RecipeIngredients == []
    {
      Id := id;
      Name := name;
      RecipeIngredients := [];
    }

    /** `new Ingredient(name)`; `id` is the fresh Guid of the property initialiser. */
    static method Create(id: Guid, name: string) returns (r: Result<Ingredient>)
      requires id != EmptyGuid
      ensures r.Success? <==> !IsNullOrWhiteSpace(name)
      ensures r.Failure? ==> r.error == Invalid(IngredientNameArg)
      ensures r.Success? ==> fresh(r.value) && r.value.WellFormed()
      ensures r.Success? ==> r.value.Id == id && r.value.Name == name && r.value.RecipeIngredients == []
    {
      if IsNullOrWhiteSpace(name) {
        return Failure(Invalid(IngredientNameArg));
      }
      var i := new Ingredient(id, name);
      return Success(i);
    }

    /** Replaces the name unless the new one is blank. */
    method Rename(newName: string) returns (r: Outcome)
      requires WellFormed()
      modifies this`Name
      ensures WellFormed()
      ensures r.Pass? <==> !IsNullOrWhiteSpace(newName)
      ensures r.Fail? ==> r.error == Invalid(IngredientNameArg) && Name == old(Name)
      ensures r.Pass? ==> Name == newName
    {
      if IsNullOrWhiteSpace(newName) {
        return Fail(Invalid(IngredientNameArg));
      }
      Name := newName;
      return Pass;
    }
  }
}
