/** Shared wrapper types and the exceptions the cleaning and matching code can raise. */
module Errors {

  datatype Option<T> = None | Some(value: T)

  /** The Python exceptions that escape `_clean_pd_table` and `normalise_values`. */
  datatype Failure =
    | UndefinedAttribute(name: string)        // AttributeError: `self.custom_column_names` is never set
    | LengthMismatch(expected: nat, given: nat) // ValueError: assigning a column list of the wrong length
    | NoTable                                 // TypeError: `self.pd_table` is None
    | UnknownColumn(name: string)             // KeyError: no column of that name
    | NothingToUnpack(index: nat)             // TypeError: `extractOne` returned None for this item

  datatype Outcome = Pass | Fail(failure: Failure)

  datatype Result<T> = Ok(value: T) | Err(failure: Failure)
}
