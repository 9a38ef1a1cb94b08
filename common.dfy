/** Vocabulary shared by the entities, the store and the services: identifiers,
    optional values, the kinds of error the domain layer raises, and the
    whitespace test that every validating constructor and mutator applies. */
module Common {

  /** A System.Guid. The domain layer only compares Guids for equality and
      against Guid.Empty, so a natural number stands for one and 0 for Guid.Empty. */
  type Guid = nat

  const EmptyGuid: Guid := 0

  datatype Option<+T> = None | Some(value: T)

  /** The argument an ArgumentException names. */
  datatype Argument =
    | RecipeNameArg | StepDescriptionArg | StepOrderArg
    | RecipeIdArg | IngredientIdArg | CategoryIdArg | UserIdArg
    | UsernameArg | PasswordHashArg | IngredientNameArg | CategoryNameArg

  /** The kinds of failure of the domain layer; the message texts are not modelled. */
  datatype Error =
    | Invalid(arg: Argument)   // ArgumentException: empty, whitespace or non-positive input
    | NotRegistered            // the acting user or the recipe's author is not registered
    | NotFound                 // the recipe (or, for an e-mail update, the user) does not exist
    | DuplicateName            // a stored recipe already has this name
    | DuplicateUsername        // a stored user already has this username
    | IncompleteRecipe         // the recipe lacks a step, an ingredient or a category
    | SelfFavorite             // a user tried to favorite a recipe of their own

  /** The value of a call that either returns or throws. */
  datatype Result<+T> = Success(value: T) | Failure(error: Error)

  /** The value of a call that returns nothing or throws. */
  datatype Outcome = Pass | Fail(error: Error)

  /** char.IsWhiteSpace: the Unicode space, line and paragraph separators
      together with U+0009..U+000D and U+0085. */
  predicate IsWhiteSpace(c: char) {
    c == ' ' || ('\t' <= c <= '\r') || c == '\U{85}' || c == '\U{A0}' || c == '\U{1680}'
    || ('\U{2000}' <= c <= '\U{200A}') || c == '\U{2028}' || c == '\U{2029}'
    || c == '\U{202F}' || c == '\U{205F}' || c == '\U{3000}'
  }

  /** string.IsNullOrWhiteSpace on a non-null string: empty or whitespace only. */
  predicate IsNullOrWhiteSpace(s: string) {
    forall i :: 0 <= i < |s| ==> IsWhiteSpace(s[i])
  }

  /** No element of `s` occurs twice. */
  predicate Distinct<T(==)>(s: seq<T>) {
    forall i, j :: 0 <= i < j < |s| ==> s[i] != s[j]
  }
}
