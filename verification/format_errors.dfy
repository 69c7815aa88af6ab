/** The `FileFormatException` the validators throw, as a value. */
module FormatErrors {

  /** Which check failed. The exception class carries only a message; the
      kind names the `throw` site that produced it. */
  datatype ErrorKind =
    | NotAMapping                // the root element is not a dictionary
    | KeyNotString               // text assets: a key is not a string
    | ValueNotString             // text assets: a value is not a string
    | MealNameNotString          // meals: a meal name is not a string
    | MealValueNotMapping        // meals: a meal's value is not a dictionary
    | IngredientNameNotString    // meals: an ingredient name is not a string
    | IngredientValueNotMapping  // meals: an ingredient's value is not a dictionary
    | MissingQuantity            // meals: no key 'quantity'
    | QuantityNotNumber          // meals: 'quantity' is neither an Integer nor a Double
    | MissingUnit                // meals: no key 'unit'
    | UnitNotString              // meals: 'unit' is not a string
    | UnexpectedKey              // meals: an amount does not have exactly two keys
    | InconsistentUnit           // meals: one ingredient name with several units

  datatype FormatError = FormatError(kind: ErrorKind, message: string)

  /** A check that either returns normally or throws. */
  datatype Outcome = Pass | Fail(error: FormatError) {
    predicate FailsWith(kind: ErrorKind) {
      Fail? && error.kind == kind
    }
  }

  /** A computation that either yields a value or throws. */
  datatype Result<T> = Ok(value: T) | Err(error: FormatError) {
    predicate FailsWith(kind: ErrorKind) {
      Err? && error.kind == kind
    }
  }
}
