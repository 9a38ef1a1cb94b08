/** Recipe.cs: the recipe aggregate. It owns its steps and its edges to
    ingredients and categories; adding an edge that already exists is silently
    ignored, so the edges of one recipe never repeat an ingredient or a category. */
module RecipeEntity {
  import opened Common
  import opened StepEntity
  import opened RecipeIngredientEntity
  import opened RecipeCategoryEntity

  /** `RecipeIngredients.Any(ri => ri.IngredientId == ingredientId)`. */
  predicate HasIngredient(entries: seq<RecipeIngredient>, ingredientId: Guid) {
    exists i :: 0 <= i < |entries| && entries[i].IngredientId == ingredientId
  }

  /** `RecipeCategories.Any(rc => rc.CategoryId == categoryId)`. */
  predicate HasCategory(entries: seq<RecipeCategory>, categoryId: Guid) {
    exists i :: 0 <= i < |entries| && entries[i].CategoryId == categoryId
  }

  /** No ingredient has two edges. */
  predicate DistinctIngredientIds(entries: seq<RecipeIngredient>) {
    forall i, j :: 0 <= i < j < |entries| ==> entries[i].IngredientId != entries[j].IngredientId
  }

  /** No category has two edges. */
  predicate DistinctCategoryIds(entries: seq<RecipeCategory>) {
    forall i, j :: 0 <= i < j < |entries| ==> entries[i].CategoryId != entries[j].CategoryId
  }

  class Recipe {
    const Id: Guid
    const Name: string
    var Description: Option<string>
    const AuthorId: Guid
    var Steps: seq<Step>
    var RecipeIngredients: seq<RecipeIngredient>
    var RecipeCategories: seq<RecipeCategory>

    /** The invariant every Recipe keeps: a non-empty id, a name that is not
        blank, children that all belong to this recipe, and edges that repeat
        no ingredient and no category. */
    predicate WellFormed()
      reads this
    {
      && Id != EmptyGuid
      && !IsNullOrWhiteSpace(Name)
      && (forall i :: 0 <= i < |Steps| ==> Steps[i].RecipeId == Id)
      && (forall i :: 0 <= i < |RecipeIngredients| ==>
            RecipeIngredients[i].RecipeId == Id && RecipeIngredients[i].WellFormed())
      && (forall i :: 0 <= i < |RecipeCategories| ==>
            RecipeCategories[i].RecipeId == Id && RecipeCategories[i].WellFormed())
      && DistinctIngredientIds(RecipeIngredients)
      && DistinctCategoryIds(RecipeCategories)
    }

    /** `IsValid()`: the recipe is complete enough to be stored. */
    predicate IsValid()
      reads this
    {
      !IsNullOrWhiteSpace(Name) && |Steps| >= 1 && |RecipeIngredients| >= 1 && |RecipeCategories| >= 1
    }

    /** The field initialisation that runs once the constructor's guard passed. */
    constructor (id: Guid, name: string, authorId: Guid, description: Option<string>)
      requires id != EmptyGuid && !IsNullOrWhiteSpace(name)
      ensures WellFormed()
      ensures Id == id && Name == name && AuthorId == authorId && Description == description
      ensures Steps == [] && RecipeIngredients == [] && RecipeCategories == []
    {
      Id := id;
      Name := name;
      AuthorId := authorId;
      Description := description;
      Steps := [];
      RecipeIngredients := [];
      RecipeCategories := [];
    }

    /** `new Recipe(name, authorId, description)`; the author is not checked
        here. `id` is the fresh Guid of the property initialiser. */
    static method Create(id: Guid, name: string, authorId: Guid, description: Option<string>)
      returns (r: Result<Recipe>)
      requires id != EmptyGuid
      ensures r.Success? <==> !IsNullOrWhiteSpace(name)
      ensures r.Failure? ==> r.error == Invalid(RecipeNameArg)
      ensures r.Success? ==> fresh(r.value) && r.value.WellFormed() && !r.value.IsValid()
      ensures r.Success? ==> r.value.Id == id && r.value.Name == name
      ensures r.Success? ==> r.value.AuthorId == authorId && r.value.Description == description
      ensures r.Success? ==> r.value.Steps == [] && r.value.RecipeIngredients == [] && r.value.RecipeCategories == []
    {
      if IsNullOrWhiteSpace(name) {
        return Failure(Invalid(RecipeNameArg));
      }
      var recipe := new Recipe(id, name, authorId, description);
      return Success(recipe);
    }

    /** Sets the description to any value, none included. */
    method UpdateDescription(description: Option<string>)
      requires WellFormed()
      modifies this`Description
      ensures WellFormed()
      ensures Description == description
    {
      Description := description;
    }

    /** Appends a step with this recipe's id; a blank description and then a
        non-positive order are refused. `stepId` is the new step's fresh Guid. */
    method AddStep(stepId: Guid, description: string, order: int) returns (r: Outcome)
      requires WellFormed()
      modifies this`Steps
      ensures WellFormed()
      ensures IsNullOrWhiteSpace(description) ==> r == Fail(Invalid(StepDescriptionArg))
      ensures !IsNullOrWhiteSpace(description) && order <= 0 ==> r == Fail(Invalid(StepOrderArg))
      ensures r.Pass? <==> !IsNullOrWhiteSpace(description) && order > 0
      ensures r.Fail? ==> Steps == old(Steps)
      ensures r.Pass? ==> |Steps| == |old(Steps)| + 1 && Steps == old(Steps) + [Steps[|old(Steps)|]]
      ensures r.Pass? ==> var s := Steps[|old(Steps)|];
                fresh(s) && s.WellFormed() && s.Id == stepId && s.RecipeId == Id
                && s.Order == order && s.Description == description
    {
      if IsNullOrWhiteSpace(description) {
        return Fail(Invalid(StepDescriptionArg));
      }
      var step := Step.Create(stepId, Id, order, description);
      if step.Failure? {
        return Fail(step.error);
      }
      Steps := Steps + [step.value];
      return Pass;
    }

    /** Appends an edge to the ingredient unless one exists already, in which
        case nothing happens. A new edge to the empty id is refused by the
        RecipeIngredient constructor. */
    method AddIngredient(ingredientId: Guid, amount: Option<string>) returns (r: Outcome)
      requires WellFormed()
      modifies this`RecipeIngredients
      ensures WellFormed()
      ensures HasIngredient(old(RecipeIngredients), ingredientId) ==> r.Pass? && RecipeIngredients == old(RecipeIngredients)
      ensures r.Fail? <==> !HasIngredient(old(RecipeIngredients), ingredientId) && ingredientId == EmptyGuid
      ensures r.Fail? ==> r.error == Invalid(IngredientIdArg) && RecipeIngredients == old(RecipeIngredients)
      ensures r.Pass? && !HasIngredient(old(RecipeIngredients), ingredientId) ==>
                |RecipeIngredients| == |old(RecipeIngredients)| + 1
                && RecipeIngredients == old(RecipeIngredients) + [RecipeIngredients[|old(RecipeIngredients)|]]
      ensures r.Pass? && !HasIngredient(old(RecipeIngredients), ingredientId) ==>
                var e := RecipeIngredients[|old(RecipeIngredients)|];
                fresh(e) && e.RecipeId == Id && e.IngredientId == ingredientId && e.Amount == amount
      ensures HasIngredient(RecipeIngredients, ingredientId) <==> r.Pass?
    {
      if HasIngredient(RecipeIngredients, ingredientId) {
        return Pass;
      }
      var entry := RecipeIngredient.Create(Id, ingredientId, amount);
      if entry.Failure? {
        return Fail(entry.error);
      }
      RecipeIngredients := RecipeIngredients + [entry.value];
      assert RecipeIngredients[|RecipeIngredients| - 1].IngredientId == ingredientId;
      return Pass;
    }

    /** Appends an edge to the category unless one exists already, in which
        case nothing happens. A new edge to the empty id is refused by the
        RecipeCategory constructor. */
    method AddCategory(categoryId: Guid) returns (r: Outcome)
      requires WellFormed()
      modifies this`RecipeCategories
      ensures WellFormed()
      ensures HasCategory(old(RecipeCategories), categoryId) ==> r.Pass? && RecipeCategories == old(RecipeCategories)
      ensures r.Fail? <==> !HasCategory(old(RecipeCategories), categoryId) && categoryId == EmptyGuid
      ensures r.Fail? ==> r.error == Invalid(CategoryIdArg) && RecipeCategories == old(RecipeCategories)
      ensures r.Pass? && !HasCategory(old(RecipeCategories), categoryId) ==>
                RecipeCategories == old(RecipeCategories) + [RecipeCategory(Id, categoryId)]
      ensures HasCategory(RecipeCategories, categoryId) <==> r.Pass?
    {
      if HasCategory(RecipeCategories, categoryId) {
        return Pass;
      }
      var entry := NewRecipeCategory(Id, categoryId);
      if entry.Failure? {
        return Fail(entry.error);
      }
      RecipeCategories := RecipeCategories + [entry.value];
      assert RecipeCategories[|RecipeCategories| - 1].CategoryId == categoryId;
      return Pass;
    }
  }
}
