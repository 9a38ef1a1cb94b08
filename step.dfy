/** Step.cs: one instruction of a recipe. The order and the description are
    validated at construction and again on every change, so every Step the
    public operations produce is WellFormed and stays so. */
module StepEntity {
  import opened Common

  class Step {
    const Id: Guid
    const RecipeId: Guid
    var Order: int
    var Description: string

    /** The invariant every reachable Step keeps: a positive order and a
        description that is not blank. */
    predicate WellFormed()
      reads this
    {
      Order > 0 && !IsNullOrWhiteSpace(Description)
    }

    /** The field initialisation that runs once the constructor's guards passed. */
    constructor (id: Guid, recipeId: Guid, order: int, description: string)
      requires order > 0 && !IsNullOrWhiteSpace(description)
      ensures WellFormed()
      ensures Id == id && RecipeId == recipeId && Order == order && Description == description
    {
      Id := id;
      RecipeId := recipeId;
      Order := order;
      Description := description;
    }

    /** `new Step(recipeId, order, description)`: the description is checked
        before the order; `id` is the fresh Guid of the property initialiser. */
    static method Create(id: Guid, recipeId: Guid, order: int, description: string)
      returns (r: Result<Step>)
      ensures IsNullOrWhiteSpace(description) ==> r == Failure(Invalid(StepDescriptionArg))
      ensures !IsNullOrWhiteSpace(description) && order <= 0 ==> r == Failure(Invalid(StepOrderArg))
      ensures r.Success? <==> !IsNullOrWhiteSpace(description) && order > 0
      ensures r.Success? ==> fresh(r.value) && r.value.WellFormed()
      ensures r.Success? ==> r.value.Id == id && r.value.RecipeId == recipeId
      ensures r.Success? ==> r.value.Order == order && r.value.Description == description
    {
      if IsNullOrWhiteSpace(description) {
        return Failure(Invalid(StepDescriptionArg));
      }
      if order <= 0 {
        return Failure(Invalid(StepOrderArg));
      }
      var s := new Step(id, recipeId, order, description);
      return Success(s);
    }

    /** Replaces the description unless the new one is blank. */
    method UpdateDescription(newDescription: string) returns (r: Outcome)
      requires WellFormed()
      modifies this`Description
      ensures WellFormed()
      ensures r.Pass? <==> !IsNullOrWhiteSpace(newDescription)
      ensures r.Fail? ==> r.error == Invalid(StepDescriptionArg) && Description == old(Description)
      ensures r.Pass? ==> Description == newDescription
    {
      if IsNullOrWhiteSpace(newDescription) {
        return Fail(Invalid(StepDescriptionArg));
      }
      Description := newDescription;
      return Pass;
    }

    /** Replaces the order unless the new one is not positive. */
    method ChangeOrder(newOrder: int) returns (r: Outcome)
      requires WellFormed()
      modifies this`Order
      ensures WellFormed()
      ensures r.Pass? <==> newOrder > 0
      ensures r.Fail? ==> r.error == Invalid(StepOrderArg) && Order == old(Order)
      ensures r.Pass? ==> Order == newOrder
    {
      if newOrder <= 0 {
        return Fail(Invalid(StepOrderArg));
      }
      Order := newOrder;
      return Pass;
    }
  }
}
