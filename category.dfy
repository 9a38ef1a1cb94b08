/** Category.cs: a named category. The name is validated at construction and
    on every rename. */
module CategoryEntity {
  import opened Common
  import opened RecipeCategoryEntity

  class Category {
    const Id: Guid
    var Name: string
    /** The edges to the recipes in this category; only the persistence layer
        fills this collection. */
    var RecipeCategories: seq<RecipeCategory>

    /** The invariant every Category keeps: a non-empty id and a name that is not blank. */
    predicate WellFormed()
      reads this
    {
      Id != EmptyGuid && !IsNullOrWhiteSpace(Name)
    }

    /** The field initialisation that runs once the constructor's guard passed. */
    constructor (id: Guid, name: string)
      requires id != EmptyGuid && !IsNullOrWhiteSpace(name)
      ensures WellFormed()
      ensures Id == id && Name == name && RecipeCategories == []
    {
      Id := id;
      Name := name;
      RecipeCategories := [];
    }

    /** `new Category(name)`; `id` is the fresh Guid of the property initialiser. */
    static method Create(id: Guid, name: string) returns (r: Result<Category>)
      requires id != EmptyGuid
      ensures r.Success? <==> !IsNullOrWhiteSpace(name)
      ensures r.Failure? ==> r.error == Invalid(CategoryNameArg)
      ensures r.Success? ==> fresh(r.value) && r.value.WellFormed()
      ensures r.Success? ==> r.value.Id == id && r.value.Name == name && r.value.RecipeCategories == []
    {
      if IsNullOrWhiteSpace(name) {
        return Failure(Invalid(CategoryNameArg));
      }
      var c := new Category(id, name);
      return Success(c);
    }

    /** Replaces the name unless the new one is blank. */
    method Rename(newName: string) returns (r: Outcome)
      requires WellFormed()
      modifies this`Name
      ensures WellFormed()
      ensures r.Pass? <==> !IsNullOrWhiteSpace(newName)
      ensures r.Fail? ==> r.error == Invalid(CategoryNameArg) && Name == old(Name)
      ensures r.Pass? ==> Name == newName
    {
      if IsNullOrWhiteSpace(newName) {
        return Fail(Invalid(CategoryNameArg));
      }
      Name := newName;
      return Pass;
    }
  }
}
